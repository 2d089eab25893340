/** The death-mask rule: runs of adjacent comments are unwrapped and
    reported once when some tail of their lines parses as configuration
    code. */
module DeathMask {
  import opened Wrappers
  import opened Syntax
  import opened Issues
  import opened Text
  import opened Seqs
  import Walk

  const CodeMessage := "Avoid commented-out code."

  // ------------------------------------------------------------- grouping

  /** A token that ends a run: anything but a comment, a newline or the end
      of input. */
  predicate Breaks(t: Token) {
    t.kind != Comment && t.kind != Newline && t.kind != Eof
  }

  /** The comments at stream positions `a < b` follow each other within a
      run: `b` starts no later than the line `a` ends on, and nothing
      between them breaks the run. */
  predicate Joined(tokens: seq<Token>, a: nat, b: nat) {
    a < b < |tokens|
    && tokens[b].rng.start.line <= tokens[a].rng.end.line
    && forall m :: a < m < b ==> !Breaks(tokens[m])
  }

  /** The comments at `a < b` are in different runs: `b` starts on a line
      after `a` ends, or a breaking token lies between them. */
  predicate Cut(tokens: seq<Token>, a: nat, b: nat) {
    a < b < |tokens|
    && (tokens[b].rng.start.line > tokens[a].rng.end.line
        || exists m :: a < m < b && Breaks(tokens[m]))
  }

  /** A run: non-empty, in the stream, each member joined to the next. */
  predicate Chained(tokens: seq<Token>, run: seq<nat>) {
    |run| > 0
    && (forall p :: 0 <= p < |run| ==> run[p] < |tokens|)
    && (forall p :: 0 <= p < |run| - 1 ==> Joined(tokens, run[p], run[p + 1]))
  }

  predicate Separated(tokens: seq<Token>, r1: seq<nat>, r2: seq<nat>) {
    |r1| > 0 && |r2| > 0 && Cut(tokens, r1[|r1| - 1], r2[0])
  }

  /** Every run is chained and consecutive runs are cut apart. */
  predicate Grouped(tokens: seq<Token>, runs: seq<seq<nat>>) {
    (forall k :: 0 <= k < |runs| ==> Chained(tokens, runs[k]))
    && (forall k :: 0 <= k < |runs| - 1 ==> Separated(tokens, runs[k], runs[k + 1]))
  }

  /** The positions of the comment tokens among the first `n`, ascending. */
  function CommentsBefore(tokens: seq<Token>, n: nat): (r: seq<nat>)
    requires n <= |tokens|
    ensures forall p :: 0 <= p < |r| ==> r[p] < n && tokens[r[p]].kind == Comment
    ensures forall p, q :: 0 <= p < q < |r| ==> r[p] < r[q]
    ensures forall m :: 0 <= m < n && tokens[m].kind == Comment ==> m in r
  {
    if n == 0 then []
    else CommentsBefore(tokens, n - 1) + (if tokens[n - 1].kind == Comment then [n - 1] else [])
  }

  /** One more token adds its position exactly when it is a comment. */
  lemma CommentsBeforeNext(tokens: seq<Token>, n: nat)
    requires n < |tokens|
    ensures tokens[n].kind == Comment ==> CommentsBefore(tokens, n + 1) == CommentsBefore(tokens, n) + [n]
    ensures tokens[n].kind != Comment ==> CommentsBefore(tokens, n + 1) == CommentsBefore(tokens, n)
  {
  }

  function Flush(done: seq<seq<nat>>, cur: seq<nat>): seq<seq<nat>> {
    if |cur| > 0 then done + [cur] else done
  }

  /** The run state machine of `checkDeathMask` on the token at `i`: a
      comment joins the run being built, or closes it and opens a new one
      when it starts on a later line than the run ends; a newline or the end
      of input changes nothing; any other token closes the run. */
  function Step(tokens: seq<Token>, i: nat, done: seq<seq<nat>>, cur: seq<nat>): (s: (seq<seq<nat>>, seq<nat>))
    requires i < |tokens|
    requires forall p :: 0 <= p < |cur| ==> cur[p] < |tokens|
    ensures forall p :: 0 <= p < |s.1| ==> s.1[p] < |tokens|
  {
    if tokens[i].kind == Comment then
      if |cur| > 0 && tokens[i].rng.start.line > tokens[cur[|cur| - 1]].rng.end.line then
        (done + [cur], [i])
      else
        (done, cur + [i])
    else if tokens[i].kind == Newline || tokens[i].kind == Eof then
      (done, cur)
    else
      (Flush(done, cur), [])
  }

  /** The state machine from position `i`, with the runs flushed so far and
      the run being built (stream positions). */
  function RunsFrom(tokens: seq<Token>, i: nat, done: seq<seq<nat>>, cur: seq<nat>): seq<seq<nat>>
    requires i <= |tokens|
    requires forall p :: 0 <= p < |cur| ==> cur[p] < |tokens|
    decreases |tokens| - i
  {
    if i == |tokens| then Flush(done, cur)
    else
      var s := Step(tokens, i, done, cur);
      RunsFrom(tokens, i + 1, s.0, s.1)
  }

  /** The runs of a file's token stream. They partition its comments in
      order, each is chained, and consecutive runs are cut apart. */
  function Runs(tokens: seq<Token>): (r: seq<seq<nat>>)
    ensures GroupsComments(tokens, r)
  {
    RunsFromGrouped(tokens, 0, [], []);
    RunsFrom(tokens, 0, [], [])
  }

  /** What holds of the state machine before position `i`. */
  predicate FoldInv(tokens: seq<Token>, i: nat, done: seq<seq<nat>>, cur: seq<nat>) {
    i <= |tokens|
    && Concat(done) + cur == CommentsBefore(tokens, i)
    && Grouped(tokens, done)
    && (forall p :: 0 <= p < |cur| ==> cur[p] < i)
    && (|cur| > 0 ==> Chained(tokens, cur) && forall m :: cur[|cur| - 1] < m < i ==> !Breaks(tokens[m]))
    && (|done| > 0 && |cur| > 0 ==> Separated(tokens, done[|done| - 1], cur))
    && (|done| > 0 && |cur| == 0 ==> LastBroken(tokens, done[|done| - 1], i))
  }

  /** A breaking token lies after the run `run` and before position `i`. */
  predicate LastBroken(tokens: seq<Token>, run: seq<nat>, i: nat) {
    |run| > 0 && i <= |tokens| && exists m :: run[|run| - 1] < m < i && Breaks(tokens[m])
  }

  /** `runs` partitions all comments of the stream into a grouping. */
  predicate GroupsComments(tokens: seq<Token>, runs: seq<seq<nat>>) {
    Concat(runs) == CommentsBefore(tokens, |tokens|) && Grouped(tokens, runs)
  }

  lemma {:induction false} RunsFromGrouped(tokens: seq<Token>, i: nat, done: seq<seq<nat>>, cur: seq<nat>)
    requires FoldInv(tokens, i, done, cur)
    ensures GroupsComments(tokens, RunsFrom(tokens, i, done, cur))
    decreases |tokens| - i
  {
    if i == |tokens| {
      FlushKeeps(tokens, i, done, cur);
    } else {
      var d, c := StepKeeps(tokens, i, done, cur);
      RunsFromGrouped(tokens, i + 1, d, c);
    }
  }

  /** Each step keeps the invariant. */
  lemma StepKeeps(tokens: seq<Token>, i: nat, done: seq<seq<nat>>, cur: seq<nat>) returns (d: seq<seq<nat>>, c: seq<nat>)
    requires FoldInv(tokens, i, done, cur) && i < |tokens|
    ensures (d, c) == Step(tokens, i, done, cur)
    ensures FoldInv(tokens, i + 1, d, c)
  {
    d, c := Step(tokens, i, done, cur).0, Step(tokens, i, done, cur).1;
    if tokens[i].kind == Comment {
      if |cur| > 0 && tokens[i].rng.start.line > tokens[cur[|cur| - 1]].rng.end.line {
        StepGap(tokens, i, done, cur);
      } else {
        StepJoin(tokens, i, done, cur);
      }
    } else if tokens[i].kind == Newline || tokens[i].kind == Eof {
      StepSkip(tokens, i, done, cur);
    } else {
      StepBreak(tokens, i, done, cur);
    }
  }

  /** Flushing the current run keeps the partition and the grouping. */
  lemma FlushKeeps(tokens: seq<Token>, i: nat, done: seq<seq<nat>>, cur: seq<nat>)
    requires FoldInv(tokens, i, done, cur)
    ensures Concat(Flush(done, cur)) == CommentsBefore(tokens, i)
    ensures Grouped(tokens, Flush(done, cur))
  {
    if |cur| > 0 {
      ConcatAppend(done, [cur]);
      var d := done + [cur];
      forall k | 0 <= k < |d| - 1
        ensures Separated(tokens, d[k], d[k + 1])
      {
        if k < |done| - 1 {
          assert d[k] == done[k] && d[k + 1] == done[k + 1];
        }
      }
    }
  }

  lemma StepGap(tokens: seq<Token>, i: nat, done: seq<seq<nat>>, cur: seq<nat>)
    requires FoldInv(tokens, i, done, cur) && i < |tokens| && tokens[i].kind == Comment
    requires |cur| > 0 && tokens[i].rng.start.line > tokens[cur[|cur| - 1]].rng.end.line
    ensures FoldInv(tokens, i + 1, done + [cur], [i])
  {
    FlushKeeps(tokens, i, done, cur);
    assert cur[|cur| - 1] < i;
    GapCut(tokens, cur, i);
    StartAfter(tokens, i, done, cur);
  }

  /** A comment on a later line than the run ends is cut from it. */
  lemma GapCut(tokens: seq<Token>, cur: seq<nat>, i: nat)
    requires |cur| > 0 && cur[|cur| - 1] < i < |tokens|
    requires tokens[i].rng.start.line > tokens[cur[|cur| - 1]].rng.end.line
    ensures Separated(tokens, cur, [i])
  {
  }

  lemma StartAfter(tokens: seq<Token>, i: nat, done: seq<seq<nat>>, cur: seq<nat>)
    requires i < |tokens| && tokens[i].kind == Comment
    requires Concat(done + [cur]) == CommentsBefore(tokens, i) && Grouped(tokens, done + [cur])
    requires Separated(tokens, cur, [i])
    ensures FoldInv(tokens, i + 1, done + [cur], [i])
  {
    var d := done + [cur];
    assert d[|d| - 1] == cur;
    StartRun(tokens, i, d);
  }

  /** A comment that starts a new run after the flushed runs `d`. */
  lemma StartRun(tokens: seq<Token>, i: nat, d: seq<seq<nat>>)
    requires i < |tokens| && tokens[i].kind == Comment
    requires Concat(d) == CommentsBefore(tokens, i) && Grouped(tokens, d)
    requires |d| > 0 ==> Separated(tokens, d[|d| - 1], [i])
    ensures FoldInv(tokens, i + 1, d, [i])
  {
    assert Concat(d) + [i] == CommentsBefore(tokens, i + 1);
  }

  lemma StepJoin(tokens: seq<Token>, i: nat, done: seq<seq<nat>>, cur: seq<nat>)
    requires FoldInv(tokens, i, done, cur) && i < |tokens| && tokens[i].kind == Comment
    requires !(|cur| > 0 && tokens[i].rng.start.line > tokens[cur[|cur| - 1]].rng.end.line)
    ensures FoldInv(tokens, i + 1, done, cur + [i])
  {
    if |cur| > 0 {
      JoinRun(tokens, i, done, cur);
    } else {
      OpenRun(tokens, i, done);
    }
  }

  /** A comment on the line the open run ends on joins it. */
  lemma JoinRun(tokens: seq<Token>, i: nat, done: seq<seq<nat>>, cur: seq<nat>)
    requires FoldInv(tokens, i, done, cur) && i < |tokens| && tokens[i].kind == Comment
    requires |cur| > 0 && tokens[i].rng.start.line <= tokens[cur[|cur| - 1]].rng.end.line
    ensures FoldInv(tokens, i + 1, done, cur + [i])
  {
    CommentAppends(tokens, i, done, cur);
    ChainExtends(tokens, cur, i);
    assert (cur + [i])[0] == cur[0];
  }

  /** The comment at `i` goes to the end of the run being built. */
  lemma CommentAppends(tokens: seq<Token>, i: nat, done: seq<seq<nat>>, cur: seq<nat>)
    requires i < |tokens| && tokens[i].kind == Comment
    requires Concat(done) + cur == CommentsBefore(tokens, i) && forall p :: 0 <= p < |cur| ==> cur[p] < i
    ensures Concat(done) + (cur + [i]) == CommentsBefore(tokens, i + 1)
    ensures forall p :: 0 <= p < |cur + [i]| ==> (cur + [i])[p] < i + 1
  {
    CommentsBeforeNext(tokens, i);
    AppendLast(Concat(done), cur, i);
  }

  /** Appending a position above all of `cur` to it. */
  lemma AppendLast(before: seq<nat>, cur: seq<nat>, i: nat)
    requires forall p :: 0 <= p < |cur| ==> cur[p] < i
    ensures before + (cur + [i]) == (before + cur) + [i]
    ensures forall p :: 0 <= p < |cur + [i]| ==> (cur + [i])[p] < i + 1
  {
    forall p | 0 <= p < |cur| + 1
      ensures (cur + [i])[p] < i + 1
    {
      if p < |cur| {
        assert (cur + [i])[p] == cur[p];
      }
    }
  }

  /** A chained run extended by a comment joined to its last member. */
  lemma ChainExtends(tokens: seq<Token>, cur: seq<nat>, i: nat)
    requires Chained(tokens, cur) && Joined(tokens, cur[|cur| - 1], i)
    ensures Chained(tokens, cur + [i])
  {
    var c := cur + [i];
    forall p | 0 <= p < |c| - 1
      ensures Joined(tokens, c[p], c[p + 1])
    {
      if p < |cur| - 1 {
        assert c[p] == cur[p] && c[p + 1] == cur[p + 1];
      }
    }
  }

  /** A comment with no run open starts one. */
  lemma OpenRun(tokens: seq<Token>, i: nat, done: seq<seq<nat>>)
    requires FoldInv(tokens, i, done, []) && i < |tokens| && tokens[i].kind == Comment
    ensures FoldInv(tokens, i + 1, done, [i])
  {
    OpenedConcat(tokens, i, done);
    if |done| > 0 {
      BrokenCut(tokens, done[|done| - 1], i);
    }
  }

  lemma OpenedConcat(tokens: seq<Token>, i: nat, done: seq<seq<nat>>)
    requires i < |tokens| && tokens[i].kind == Comment && Concat(done) + [] == CommentsBefore(tokens, i)
    ensures Concat(done) + [i] == CommentsBefore(tokens, i + 1)
  {
    CommentsBeforeNext(tokens, i);
    assert Concat(done) + [] == Concat(done);
  }

  /** A run with a breaking token after it is cut from a comment at `i`. */
  lemma BrokenCut(tokens: seq<Token>, run: seq<nat>, i: nat)
    requires LastBroken(tokens, run, i) && i < |tokens|
    ensures Separated(tokens, run, [i])
  {
    var m :| run[|run| - 1] < m < i && Breaks(tokens[m]);
    assert Cut(tokens, run[|run| - 1], i);
  }

  lemma StepSkip(tokens: seq<Token>, i: nat, done: seq<seq<nat>>, cur: seq<nat>)
    requires FoldInv(tokens, i, done, cur) && i < |tokens|
    requires tokens[i].kind == Newline || tokens[i].kind == Eof
    ensures FoldInv(tokens, i + 1, done, cur)
  {
    CommentsBeforeNext(tokens, i);
    if |done| > 0 && |cur| == 0 {
      var last := done[|done| - 1];
      var m :| last[|last| - 1] < m < i && Breaks(tokens[m]);
      assert LastBroken(tokens, last, i + 1);
    }
  }

  lemma StepBreak(tokens: seq<Token>, i: nat, done: seq<seq<nat>>, cur: seq<nat>)
    requires FoldInv(tokens, i, done, cur) && i < |tokens| && Breaks(tokens[i])
    ensures FoldInv(tokens, i + 1, Flush(done, cur), [])
  {
    if |cur| > 0 {
      BreakEndsRun(tokens, i, done, cur);
    } else {
      BreakAfterFlush(tokens, i, done);
    }
  }

  /** A breaking token closes the run being built. */
  lemma BreakEndsRun(tokens: seq<Token>, i: nat, done: seq<seq<nat>>, cur: seq<nat>)
    requires FoldInv(tokens, i, done, cur) && i < |tokens| && Breaks(tokens[i]) && |cur| > 0
    ensures FoldInv(tokens, i + 1, done + [cur], [])
  {
    FlushKeeps(tokens, i, done, cur);
    CommentsBeforeNext(tokens, i);
    assert cur[|cur| - 1] < i;
    assert LastBroken(tokens, cur, i + 1);
    assert (done + [cur])[|done|] == cur;
  }

  /** A breaking token with no run open leaves the flushed runs as they are. */
  lemma BreakAfterFlush(tokens: seq<Token>, i: nat, done: seq<seq<nat>>)
    requires FoldInv(tokens, i, done, []) && i < |tokens| && Breaks(tokens[i])
    ensures FoldInv(tokens, i + 1, done, [])
  {
    CommentsBeforeNext(tokens, i);
    assert Concat(done) + [] == Concat(done);
    if |done| > 0 {
      var last := done[|done| - 1];
      var m :| last[|last| - 1] < m < i && Breaks(tokens[m]);
      assert LastBroken(tokens, last, i + 1);
    }
  }

  /** The grouping is determined: any partition of the comments into
      chained runs cut apart from each other is the one `Runs` builds. */
  lemma {:induction false} GroupingUnique(tokens: seq<Token>, a: seq<seq<nat>>, b: seq<seq<nat>>)
    requires Grouped(tokens, a) && Grouped(tokens, b) && Concat(a) == Concat(b)
    ensures a == b
  {
    EmptyGrouping(tokens, a);
    EmptyGrouping(tokens, b);
    if |a| > 0 {
      SameFirstRun(tokens, a, b);
      assert Concat(a) == a[0] + Concat(a[1..]);
      assert Concat(b) == b[0] + Concat(b[1..]);
      assert Concat(a[1..]) == Concat(a)[|a[0]|..] == Concat(b[1..]);
      GroupedTail(tokens, a);
      GroupedTail(tokens, b);
      GroupingUnique(tokens, a[1..], b[1..]);
      assert a == [a[0]] + a[1..];
      assert b == [b[0]] + b[1..];
    }
  }

  /** A grouping has no runs exactly when there are no comments. */
  lemma EmptyGrouping(tokens: seq<Token>, a: seq<seq<nat>>)
    requires Grouped(tokens, a)
    ensures |Concat(a)| == 0 <==> |a| == 0
  {
    if |a| > 0 {
      assert Chained(tokens, a[0]);
      assert Concat(a) == a[0] + Concat(a[1..]);
    }
  }

  lemma GroupedTail(tokens: seq<Token>, a: seq<seq<nat>>)
    requires Grouped(tokens, a) && |a| > 0
    ensures Grouped(tokens, a[1..])
  {
    forall k | 0 <= k < |a[1..]| - 1
      ensures Separated(tokens, a[1..][k], a[1..][k + 1])
    {
      assert a[1..][k] == a[k + 1] && a[1..][k + 1] == a[k + 2];
    }
  }

  /** Two groupings of the same comments start with the same run. */
  lemma SameFirstRun(tokens: seq<Token>, a: seq<seq<nat>>, b: seq<seq<nat>>)
    requires Grouped(tokens, a) && Grouped(tokens, b) && Concat(a) == Concat(b)
    requires |a| > 0 && |b| > 0
    ensures a[0] == b[0]
  {
    var s := Concat(a);
    assert s == a[0] + Concat(a[1..]);
    assert s == b[0] + Concat(b[1..]);
    FirstRunEndsAtCut(tokens, a);
    FirstRunEndsAtCut(tokens, b);
    assert a[0] == s[..|a[0]|] == b[0];
  }

  /** Joined comments are not cut apart. */
  lemma JoinedNotCut(tokens: seq<Token>, x: nat, y: nat)
    requires Joined(tokens, x, y)
    ensures !Cut(tokens, x, y)
  {
  }

  /** The first position `n >= from` of a comment sequence at which a run
      must end: the end of the sequence or a cut. */
  function CutAt(tokens: seq<Token>, s: seq<nat>, from: nat): (n: nat)
    requires 1 <= from <= |s|
    ensures from <= n <= |s|
    decreases |s| - from
  {
    if from == |s| || Cut(tokens, s[from - 1], s[from]) then from
    else CutAt(tokens, s, from + 1)
  }

  /** The first run of any grouping ends at the first cut. */
  lemma FirstRunEndsAtCut(tokens: seq<Token>, a: seq<seq<nat>>)
    requires Grouped(tokens, a) && |a| > 0
    ensures |a[0]| == CutAt(tokens, Concat(a), 1)
  {
    var s := Concat(a);
    var n := |a[0]|;
    assert Chained(tokens, a[0]);
    assert s == a[0] + Concat(a[1..]);
    if |a| > 1 {
      assert Concat(a[1..]) == a[1] + Concat(a[2..]) by {
        assert a[1..][0] == a[1] && a[1..][1..] == a[2..];
      }
      assert Separated(tokens, a[0], a[1]);
      assert s[n] == a[1][0];
    } else {
      assert a[1..] == [];
    }
    CutAtFrom(tokens, s, 1, n);
  }

  lemma {:induction false} CutAtFrom(tokens: seq<Token>, s: seq<nat>, from: nat, n: nat)
    requires 1 <= from <= n <= |s|
    requires forall p :: from - 1 <= p < n - 1 ==> Joined(tokens, s[p], s[p + 1])
    requires n == |s| || Cut(tokens, s[n - 1], s[n])
    ensures CutAt(tokens, s, from) == n
    decreases n - from
  {
    if from < n {
      JoinedNotCut(tokens, s[from - 1], s[from]);
      CutAtFrom(tokens, s, from + 1, n);
    }
  }

  // ------------------------------------------------------------ unwrapping

  /** The body of a block comment is what is left between the opening
      marker (once or twice over) and an optional closing marker. */
  predicate BlockBody(text: string, body: string) {
    text == "/*" + body || text == "/*/*" + body
    || text == "/*" + body + "*/" || text == "/*/*" + body + "*/"
  }

  /** `text` is `marker`, then at most one space, then `line`, and the
      space is dropped whenever there is one. */
  predicate LineBody(text: string, marker: string, line: string) {
    (text == marker + line && !HasPrefix(line, " ")) || text == marker + " " + line
  }

  /** `processCommentBlock`'s unwrapping of one comment into lines: a line
      comment loses its marker and at most one space; a block comment loses
      its markers and is split at newlines. */
  function StripComment(text: string): (r: seq<string>)
    ensures HasPrefix(text, "//") ==> (|r| == 1 && LineBody(text, "//", r[0]))
    ensures !HasPrefix(text, "//") && HasPrefix(text, "#") ==> (|r| == 1 && LineBody(text, "#", r[0]))
    ensures HasPrefix(text, "/*") ==> (|r| >= 1 && BlockBody(text, Join(r, "\n"))
      && forall k :: 0 <= k < |r| ==> !Contains(r[k], "\n"))
    ensures !HasPrefix(text, "//") && !HasPrefix(text, "#") && !HasPrefix(text, "/*") ==> r == []
  {
    if HasPrefix(text, "//") then
      assert !HasPrefix(text, "/*") by {
        assert text[1] == '/';
      }
      [StripLine(text, "//")]
    else if HasPrefix(text, "#") then
      assert !HasPrefix(text, "/*") by {
        assert text[0] == '#';
      }
      [StripLine(text, "#")]
    else if HasPrefix(text, "/*") then
      Split(StripBlock(text), "\n")
    else []
  }

  /** A line comment without its marker and at most one following space. */
  function StripLine(text: string, marker: string): (r: string)
    requires HasPrefix(text, marker)
    ensures LineBody(text, marker, r)
  {
    assert text == marker + text[|marker|..];
    var line := TrimPrefix(text[|marker|..], " ");
    assert HasPrefix(text[|marker|..], " ") ==> text == marker + " " + line;
    line
  }

  /** A block comment without its markers. */
  function StripBlock(text: string): (r: string)
    requires HasPrefix(text, "/*")
    ensures BlockBody(text, r)
  {
    assert text == "/*" + text[2..];
    var inner := TrimPrefix(text[2..], "/*");
    assert HasPrefix(text[2..], "/*") ==> text == "/*/*" + inner;
    var body := TrimSuffix(inner, "*/");
    assert HasSuffix(inner, "*/") ==> inner == body + "*/";
    body
  }

  /** The lines of a run, comment by comment. */
  function Lines(run: seq<Token>): (r: seq<string>)
    ensures |run| == 0 ==> r == []
  {
    if |run| == 0 then [] else StripComment(run[0].text) + Lines(run[1..])
  }

  lemma {:induction false} LinesAppend(a: seq<Token>, b: seq<Token>)
    ensures Lines(a + b) == Lines(a) + Lines(b)
  {
    if |a| == 0 {
      assert a + b == b;
    } else {
      assert (a + b)[0] == a[0] && (a + b)[1..] == a[1..] + b;
      LinesAppend(a[1..], b);
      LinesCons(a + b);
      LinesCons(a);
      AppendStep(Lines(a), Lines(a + b), StripComment(a[0].text), Lines(a[1..]), Lines(a[1..] + b), Lines(b));
    }
  }

  lemma AppendStep(la: seq<string>, lab: seq<string>, x: seq<string>, l1: seq<string>, l1b: seq<string>, lb: seq<string>)
    requires la == x + l1 && lab == x + l1b && l1b == l1 + lb
    ensures lab == la + lb
  {
  }

  lemma LinesCons(run: seq<Token>)
    requires |run| > 0
    ensures Lines(run) == StripComment(run[0].text) + Lines(run[1..])
  {
  }

  /** The lines from `j` on, joined back, parse as code. */
  predicate SuffixIsCode(lines: seq<string>, j: nat, isCode: string -> bool) {
    j <= |lines| && isCode(Join(lines[j..], "\n"))
  }

  /** Some suffix of the run's lines parses as code. */
  predicate HoldsCode(run: seq<Token>, isCode: string -> bool) {
    exists j :: 0 <= j < |Lines(run)| && SuffixIsCode(Lines(run), j, isCode)
  }

  /** The suffix search: the first `j >= i` whose suffix parses as code. */
  function FirstCode(lines: seq<string>, isCode: string -> bool, i: nat): (r: Option<nat>)
    requires i <= |lines|
    decreases |lines| - i
    ensures r.Some? ==> i <= r.value < |lines| && SuffixIsCode(lines, r.value, isCode)
    ensures r.Some? ==> forall j :: i <= j < r.value ==> !SuffixIsCode(lines, j, isCode)
    ensures r.None? ==> forall j :: i <= j < |lines| ==> !SuffixIsCode(lines, j, isCode)
  {
    if i == |lines| then None
    else if isCode(Join(lines[i..], "\n")) then Some(i)
    else FirstCode(lines, isCode, i + 1)
  }

  /** The range of a whole run: from its first token's start to its last
      token's end, in the first token's file. */
  function RunRange(run: seq<Token>): (r: Range)
    requires |run| > 0
    ensures r.start == run[0].rng.start && r.end == run[|run| - 1].rng.end
    ensures r.filename == run[0].rng.filename
  {
    Range(run[0].rng.filename, run[0].rng.start, run[|run| - 1].rng.end)
  }

  /** `processCommentBlock`: one issue over the whole run when some suffix
      of its lines parses as code, none otherwise. */
  function RunIssues(run: seq<Token>, isCode: string -> bool): (r: seq<Issue>)
    requires |run| > 0
    ensures |r| <= 1
    ensures |r| == 1 <==> HoldsCode(run, isCode)
    ensures |r| == 1 ==> r[0] == TextIssue(CodeMessage, RunRange(run))
  {
    var found := FirstCode(Lines(run), isCode, 0);
    if found.Some? then
      [TextIssue(CodeMessage, RunRange(run))]
    else
      assert !HoldsCode(run, isCode);
      []
  }

  /** Every run is chained. */
  predicate AllChained(tokens: seq<Token>, runs: seq<seq<nat>>) {
    forall k :: 0 <= k < |runs| ==> Chained(tokens, runs[k])
  }

  /** The tokens of the `k`-th run. */
  function RunAt(tokens: seq<Token>, runs: seq<seq<nat>>, k: nat): (r: seq<Token>)
    requires AllChained(tokens, runs) && k < |runs|
    ensures |r| == |runs[k]| > 0
    ensures forall p :: 0 <= p < |r| ==> r[p] == tokens[runs[k][p]]
  {
    assert Chained(tokens, runs[k]);
    seq(|runs[k]|, p requires 0 <= p < |runs[k]| => tokens[runs[k][p]])
  }

  function RunsIssues(tokens: seq<Token>, runs: seq<seq<nat>>, isCode: string -> bool): (r: seq<Issue>)
    requires AllChained(tokens, runs)
    ensures |r| <= |runs|
    ensures forall x :: x in r ==> x.msg == Text(CodeMessage)
  {
    if |runs| == 0 then []
    else
      assert AllChained(tokens, runs[1..]) by {
        forall k | 0 <= k < |runs[1..]|
          ensures Chained(tokens, runs[1..][k])
        {
          assert runs[1..][k] == runs[k + 1];
        }
      }
      RunIssues(RunAt(tokens, runs, 0), isCode) + RunsIssues(tokens, runs[1..], isCode)
  }

  /** `checkDeathMask` on a file that lexes: at most one issue per run. */
  function FileIssues(tokens: seq<Token>, isCode: string -> bool): (r: seq<Issue>)
    ensures |r| <= |Runs(tokens)|
    ensures forall x :: x in r ==> x.msg == Text(CodeMessage)
  {
    RunsIssues(tokens, Runs(tokens), isCode)
  }

  /** A file's issues are exactly one per run that holds code, each
      spanning its run. */
  lemma {:induction false} RunsIssuesIff(tokens: seq<Token>, runs: seq<seq<nat>>, isCode: string -> bool, x: Issue)
    requires AllChained(tokens, runs)
    ensures x in RunsIssues(tokens, runs, isCode) <==> exists k :: (0 <= k < |runs|
      && HoldsCode(RunAt(tokens, runs, k), isCode)
      && x == TextIssue(CodeMessage, RunRange(RunAt(tokens, runs, k))))
  {
    if |runs| > 0 {
      TailRuns(tokens, runs);
      RunsIssuesIff(tokens, runs[1..], isCode, x);
      if x in RunsIssues(tokens, runs[1..], isCode) {
        var k :| 0 <= k < |runs[1..]|
          && HoldsCode(RunAt(tokens, runs[1..], k), isCode)
          && x == TextIssue(CodeMessage, RunRange(RunAt(tokens, runs[1..], k)));
        assert RunAt(tokens, runs[1..], k) == RunAt(tokens, runs, k + 1);
      }
      if exists k :: (0 <= k < |runs|
        && HoldsCode(RunAt(tokens, runs, k), isCode)
        && x == TextIssue(CodeMessage, RunRange(RunAt(tokens, runs, k))))
      {
        var k :| 0 <= k < |runs|
          && HoldsCode(RunAt(tokens, runs, k), isCode)
          && x == TextIssue(CodeMessage, RunRange(RunAt(tokens, runs, k)));
        if k > 0 {
          assert RunAt(tokens, runs[1..], k - 1) == RunAt(tokens, runs, k);
        }
      }
    }
  }

  /** Dropping the first run shifts the others down by one. */
  lemma TailRuns(tokens: seq<Token>, runs: seq<seq<nat>>)
    requires AllChained(tokens, runs) && |runs| > 0
    ensures AllChained(tokens, runs[1..])
    ensures forall k :: 0 <= k < |runs| - 1 ==> RunAt(tokens, runs[1..], k) == RunAt(tokens, runs, k + 1)
  {
    forall k | 0 <= k < |runs[1..]|
      ensures Chained(tokens, runs[1..][k])
    {
      assert runs[1..][k] == runs[k + 1];
    }
    forall k | 0 <= k < |runs| - 1
      ensures RunAt(tokens, runs[1..], k) == RunAt(tokens, runs, k + 1)
    {
      assert runs[1..][k] == runs[k + 1];
    }
  }

  // ---------------------------------------------------------------- rule

  datatype Config = Config(enabled: Option<bool>)

  const DefaultConfig := Config(Some(true))

  /** The per-file check the rule runs over every file that lexes. */
  function FileCheck(isCode: string -> bool): Walk.FileCheck {
    (_, toks) => FileIssues(toks, isCode)
  }

  /** `Check`: the current generation honours `enabled`; the older one
      always runs. Files are checked in order and the first that does not
      lex ends the pass with an error. */
  function Check(gen: Gen, cfg: Config, files: seq<SourceFile>, isCode: string -> bool): (r: Outcome)
    ensures gen == Current && !Enabled(cfg.enabled) ==> r == Outcome([], false)
    ensures r.failed <==> (gen == Legacy || Enabled(cfg.enabled)) && !Walk.AllLex(files)
    ensures forall x :: x in r.issues ==> x.msg == Text(CodeMessage)
  {
    if gen == Current && !Enabled(cfg.enabled) then Outcome([], false)
    else
      FilePassMessages(files, isCode);
      var r := Walk.FilePass(files, FileCheck(isCode));
      assert r.failed <==> !Walk.AllLex(files);
      assert gen == Legacy || Enabled(cfg.enabled);
      r
  }

  lemma {:induction false} FilePassMessages(files: seq<SourceFile>, isCode: string -> bool)
    ensures forall x :: x in Walk.FilePass(files, FileCheck(isCode)).issues ==> x.msg == Text(CodeMessage)
  {
    if |files| > 0 && files[0].tokens.Some? {
      FilePassMessages(files[1..], isCode);
    }
  }
}
