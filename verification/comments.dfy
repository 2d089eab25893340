/** The comment-style rule: a per-file comment-to-content line ratio, then
    four checks on every comment token (block form, end-of-line placement,
    jammed markers, column length), each seeing the nearest earlier token
    that is not a comment. */
module Comments {
  import opened Wrappers
  import opened Syntax
  import opened Issues
  import opened Text
  import opened Seqs
  import opened Jammed
  import Walk

  const BlockMessage := "Avoid block comments."
  const EolMessage := "Avoid EOL comments."

  /** The knobs both generations reduce to. `jammed` is the pattern the
      jammed check uses, `None` when that check is off; `column <= 0` turns
      the length check off. */
  datatype Settings = Settings(
    block: bool,
    eol: bool,
    jammed: Option<Pattern>,
    column: int,
    urlBypass: bool,
    threshold: Option<real>)

  // ------------------------------------------------------------- context

  /** The nearest token before index `i` that is not a comment. */
  function PrevNonComment(tokens: seq<Token>, i: nat): (r: Option<nat>)
    requires i <= |tokens|
    ensures r.Some? ==> r.value < i && tokens[r.value].kind != Comment
    ensures r.Some? ==> forall k :: r.value < k < i ==> tokens[k].kind == Comment
    ensures r.None? ==> forall k :: 0 <= k < i ==> tokens[k].kind == Comment
  {
    if i == 0 then None
    else if tokens[i - 1].kind != Comment then Some(i - 1)
    else PrevNonComment(tokens, i - 1)
  }

  function PrevToken(tokens: seq<Token>, i: nat): Option<Token>
    requires i <= |tokens|
  {
    match PrevNonComment(tokens, i)
    case None => None
    case Some(k) => Some(tokens[k])
  }

  // --------------------------------------------------------- the checks

  /** `checkBlock`: a comment in slash-star form. */
  function BlockIssues(s: Settings, tok: Token): (r: seq<Issue>)
    ensures |r| <= 1
    ensures |r| == 1 <==> s.block && HasPrefix(tok.text, "/*")
    ensures |r| == 1 ==> r[0] == TextIssue(BlockMessage, tok.rng)
  {
    if s.block && HasPrefix(tok.text, "/*") then [TextIssue(BlockMessage, tok.rng)] else []
  }

  /** `checkEOL`: a comment on the line where the previous non-comment
      token ends, unless that token is a newline. A comment with nothing
      before it is never an end-of-line comment. */
  function EolIssues(s: Settings, tok: Token, prev: Option<Token>): (r: seq<Issue>)
    ensures |r| <= 1
    ensures |r| == 1 <==> (s.eol && prev.Some? && prev.value.kind != Newline
                           && prev.value.rng.end.line == tok.rng.start.line)
    ensures |r| == 1 ==> r[0] == TextIssue(EolMessage, tok.rng)
  {
    if !s.eol then []
    else match prev
      case None => []
      case Some(p) =>
        if p.kind == Newline then []
        else if p.rng.end.line == tok.rng.start.line then [TextIssue(EolMessage, tok.rng)]
        else []
  }

  /** The comment text the jammed message quotes: trimmed of white space,
      cut to five characters. */
  function Snippet(text: string): (r: string)
    ensures |r| <= 5 && r <= TrimSpace(text)
    ensures |TrimSpace(text)| <= 5 ==> r == TrimSpace(text)
  {
    var trimmed := TrimSpace(text);
    if |trimmed| > 5 then trimmed[..5] else trimmed
  }

  function JammedMessage(text: string): string {
    "Avoid jammed comment ('" + Snippet(text) + " ...')."
  }

  /** `checkJammed`: the pattern in force matches the comment. */
  function JammedIssues(s: Settings, tok: Token): (r: seq<Issue>)
    ensures |r| <= 1
    ensures |r| == 1 <==> s.jammed.Some? && Matches(s.jammed.value, tok.text)
    ensures |r| == 1 ==> r[0] == TextIssue(JammedMessage(tok.text), tok.rng)
  {
    match s.jammed
    case None => []
    case Some(p) =>
      ScanIsMatch(p, tok.text);
      if IsJammed(p, tok.text) then [TextIssue(JammedMessage(tok.text), tok.rng)] else []
  }

  /** The comment without its line ending, as the length check measures it. */
  function LineText(text: string): (r: string)
    ensures r <= text
    ensures forall k :: |r| <= k < |text| ==> text[k] == '\r' || text[k] == '\n'
    ensures r == [] || (r[|r| - 1] != '\r' && r[|r| - 1] != '\n')
  {
    TrimRightSet(text, {'\r', '\n'})
  }

  /** The column the comment's last character sits in, counting bytes. */
  function EndColumn(tok: Token): int {
    tok.rng.start.column + Utf8Len(LineText(tok.text)) - 1
  }

  predicate HasUrl(text: string) {
    Contains(text, "http://") || Contains(text, "https://")
  }

  function LengthMessage(column: int, end: int): string {
    "Wrap comment at column " + IntToString(column) + " (currently " + IntToString(end) + ")."
  }

  /** `checkLength`: the comment reaches past the column, unless the check
      is off or the comment carries a URL and URLs may run long. */
  function LengthIssues(s: Settings, tok: Token): (r: seq<Issue>)
    ensures |r| <= 1
    ensures |r| == 1 <==> (s.column > 0 && !(s.urlBypass && HasUrl(LineText(tok.text)))
                           && EndColumn(tok) > s.column)
    ensures |r| == 1 ==> r[0] == TextIssue(LengthMessage(s.column, EndColumn(tok)), tok.rng)
  {
    if s.column <= 0 then []
    else if s.urlBypass && HasUrl(LineText(tok.text)) then []
    else if EndColumn(tok) > s.column then [TextIssue(LengthMessage(s.column, EndColumn(tok)), tok.rng)]
    else []
  }

  /** The four checks on the comment at index `i`, in their fixed order. */
  function CommentAt(s: Settings, tokens: seq<Token>, i: nat): seq<Issue>
    requires i < |tokens|
  {
    var tok := tokens[i];
    BlockIssues(s, tok) + EolIssues(s, tok, PrevToken(tokens, i))
      + JammedIssues(s, tok) + LengthIssues(s, tok)
  }

  /** The comment pass over one file's tokens from index `i`. */
  function CommentsFrom(s: Settings, tokens: seq<Token>, i: nat): (r: seq<Issue>)
    requires i <= |tokens|
    decreases |tokens| - i
  {
    if i == |tokens| then []
    else if tokens[i].kind != Comment then CommentsFrom(s, tokens, i + 1)
    else CommentAt(s, tokens, i) + CommentsFrom(s, tokens, i + 1)
  }

  function FileComments(s: Settings, tokens: seq<Token>): seq<Issue> {
    CommentsFrom(s, tokens, 0)
  }

  /** The issue sits on a comment token at or after index `i`. */
  predicate OnComment(tokens: seq<Token>, i: nat, x: Issue) {
    exists k :: i <= k < |tokens| && tokens[k].kind == Comment && x.rng == tokens[k].rng
  }

  /** Every issue the comment pass reports sits on a comment token: tokens
      of any other kind are never checked. */
  lemma {:induction false} OnlyComments(s: Settings, tokens: seq<Token>, i: nat)
    requires i <= |tokens|
    ensures forall x :: x in CommentsFrom(s, tokens, i) ==> OnComment(tokens, i, x)
    decreases |tokens| - i
  {
    if i < |tokens| {
      OnlyComments(s, tokens, i + 1);
      if tokens[i].kind == Comment {
        CommentAtRange(s, tokens, i);
        var here, later := CommentAt(s, tokens, i), CommentsFrom(s, tokens, i + 1);
        assert CommentsFrom(s, tokens, i) == here + later;
        forall x | x in here + later
          ensures OnComment(tokens, i, x)
        {
          if x in here {
            assert x.rng == tokens[i].rng;
          } else {
            assert OnComment(tokens, i + 1, x);
          }
        }
      } else {
        assert CommentsFrom(s, tokens, i) == CommentsFrom(s, tokens, i + 1);
      }
    }
  }

  /** All four checks report at the comment's own range. */
  lemma CommentAtRange(s: Settings, tokens: seq<Token>, i: nat)
    requires i < |tokens|
    ensures forall x :: x in CommentAt(s, tokens, i) ==> x.rng == tokens[i].rng
  {
    var tok := tokens[i];
    var b, e, j, l := BlockIssues(s, tok), EolIssues(s, tok, PrevToken(tokens, i)),
      JammedIssues(s, tok), LengthIssues(s, tok);
    OneAt(b, tok.rng);
    OneAt(e, tok.rng);
    OneAt(j, tok.rng);
    OneAt(l, tok.rng);
    AllAt(b, e, j, l, tok.rng);
  }

  /** At most one issue, at `rng`. */
  lemma OneAt(r: seq<Issue>, rng: Range)
    requires |r| <= 1 && (|r| == 1 ==> r[0].rng == rng)
    ensures forall x :: x in r ==> x.rng == rng
  {
  }

  lemma AllAt(b: seq<Issue>, e: seq<Issue>, j: seq<Issue>, l: seq<Issue>, rng: Range)
    requires forall x :: x in b ==> x.rng == rng
    requires forall x :: x in e ==> x.rng == rng
    requires forall x :: x in j ==> x.rng == rng
    requires forall x :: x in l ==> x.rng == rng
    ensures forall x :: x in b + e + j + l ==> x.rng == rng
  {
  }

  /** A file without comment tokens yields nothing, whatever the settings. */
  lemma {:induction false} NoCommentsNoIssues(s: Settings, tokens: seq<Token>, i: nat)
    requires i <= |tokens|
    requires forall k :: i <= k < |tokens| ==> tokens[k].kind != Comment
    ensures CommentsFrom(s, tokens, i) == []
    decreases |tokens| - i
  {
    if i < |tokens| {
      NoCommentsNoIssues(s, tokens, i + 1);
    }
  }

  /** Raising the column limit never adds a length issue. */
  lemma ColumnMonotone(s: Settings, tok: Token, wider: int)
    requires s.column > 0 && wider >= s.column
    ensures |LengthIssues(s.(column := wider), tok)| <= |LengthIssues(s, tok)|
  {
  }

  // ----------------------------------------------------------- threshold

  /** Tokens the ratio counts: everything but newlines and the end marker. */
  predicate Counted(t: Token) {
    t.kind != Newline && t.kind != Eof
  }

  /** The last line a token occupies: a token that ends at column 1 of a
      later line (a line comment with its newline) stops a line earlier. */
  function LastLine(t: Token): (l: int)
    ensures l <= t.rng.end.line
    ensures t.rng.end.line > t.rng.start.line ==> l >= t.rng.start.line
  {
    if t.rng.end.column == 1 && t.rng.end.line > t.rng.start.line then t.rng.end.line - 1
    else t.rng.end.line
  }

  /** The lines from `a` to `b`. */
  function Span(a: int, b: int): (r: set<int>)
    ensures forall l :: l in r <==> a <= l <= b
    decreases b - a
  {
    if b < a then {} else Span(a, b - 1) + {b}
  }

  function TokenLines(t: Token): set<int> {
    Span(t.rng.start.line, LastLine(t))
  }

  /** The lines holding any counted token, and those holding a comment. */
  function ContentLines(tokens: seq<Token>): (r: set<int>)
    ensures forall l :: l in r <==>
      (exists k :: 0 <= k < |tokens| && Counted(tokens[k]) && l in TokenLines(tokens[k]))
  {
    if |tokens| == 0 then {}
    else (if Counted(tokens[0]) then TokenLines(tokens[0]) else {}) + ContentLines(tokens[1..])
  }

  function CommentLines(tokens: seq<Token>): (r: set<int>)
    ensures forall l :: l in r <==>
      (exists k :: 0 <= k < |tokens| && tokens[k].kind == Comment && l in TokenLines(tokens[k]))
  {
    if |tokens| == 0 then {}
    else (if tokens[0].kind == Comment then TokenLines(tokens[0]) else {}) + CommentLines(tokens[1..])
  }

  /** Every comment line is a content line. */
  lemma {:induction false} CommentLinesWithin(tokens: seq<Token>)
    ensures CommentLines(tokens) <= ContentLines(tokens)
  {
    if |tokens| > 0 {
      CommentLinesWithin(tokens[1..]);
    }
  }

  lemma {:induction false} SubsetSize<T>(a: set<T>, b: set<T>)
    requires a <= b
    ensures |a| <= |b|
    decreases |a|
  {
    if a != {} {
      var x :| x in a;
      SubsetSize(a - {x}, b - {x});
    }
  }

  /** The share of content lines that hold a comment: between 0 and 1. */
  function Ratio(tokens: seq<Token>): (r: real)
    requires |ContentLines(tokens)| > 0
    ensures 0.0 <= r <= 1.0
    ensures CommentLines(tokens) == ContentLines(tokens) ==> r == 1.0
  {
    var c, t := CommentLines(tokens), ContentLines(tokens);
    CommentLinesWithin(tokens);
    SubsetSize(c, t);
    Share(|c|, |t|)
  }

  /** `float64(a) / float64(b)` for counts with `a <= b`. */
  function Share(a: nat, b: nat): (r: real)
    requires 0 < b && a <= b
    ensures 0.0 <= r <= 1.0
    ensures a == b ==> r == 1.0
  {
    var q := (a as real) / (b as real);
    assert q * (b as real) == a as real;
    q
  }

  function FileStart(name: string): Range {
    Range(name, Pos(1, 1, 0), Pos(1, 1, 0))
  }

  /** `checkThreshold` on one file: too few comment lines is one issue at
      the file's first position; a file with no counted tokens is skipped. */
  function RatioIssues(threshold: real, name: string, tokens: seq<Token>): (r: seq<Issue>)
    ensures |r| <= 1
    ensures |r| == 1 <==> |ContentLines(tokens)| > 0 && Ratio(tokens) < threshold
    ensures |r| == 1 ==> r[0] == Issue(CommentRatio(Ratio(tokens), threshold), FileStart(name))
  {
    if |ContentLines(tokens)| == 0 then []
    else if Ratio(tokens) < threshold then [Issue(CommentRatio(Ratio(tokens), threshold), FileStart(name))]
    else []
  }

  /** A threshold of zero or less is never reported, and neither is a file
      whose every content line holds a comment. */
  lemma ThresholdBounds(threshold: real, name: string, tokens: seq<Token>)
    ensures threshold <= 0.0 ==> RatioIssues(threshold, name, tokens) == []
    ensures threshold <= 1.0 && CommentLines(tokens) == ContentLines(tokens) ==>
      RatioIssues(threshold, name, tokens) == []
  {
  }

  function RatioCheck(threshold: real): Walk.FileCheck {
    (name, toks) => RatioIssues(threshold, name, toks)
  }

  function CommentCheck(s: Settings): Walk.FileCheck {
    (_, toks) => FileComments(s, toks)
  }

  /** The threshold pass over all files, nothing when no threshold is set. */
  function ThresholdPass(threshold: Option<real>, files: seq<SourceFile>): (r: Outcome)
    ensures threshold.None? ==> r == Outcome([], false)
    ensures threshold.Some? ==> (r.failed <==> !Walk.AllLex(files))
  {
    match threshold
    case None => Outcome([], false)
    case Some(t) => Walk.FilePass(files, RatioCheck(t))
  }

  /** Both passes: the threshold pass first, and when it fails nothing else
      runs; then the comment pass. */
  function Run(s: Settings, files: seq<SourceFile>): (r: Outcome)
    ensures r.failed <==> !Walk.AllLex(files)
  {
    var t := ThresholdPass(s.threshold, files);
    if t.failed then Outcome(t.issues, true)
    else
      var c := Walk.FilePass(files, CommentCheck(s));
      Outcome(t.issues + c.issues, c.failed)
  }

  // -------------------------------------------------------- configuration

  datatype LengthConfig = LengthConfig(allowUrl: Option<bool>, column: int)

  /** The current package's configuration. */
  datatype Config = Config(
    enabled: Option<bool>,
    block: bool,
    eol: bool,
    jammed: bool,
    length: Option<LengthConfig>,
    threshold: Option<real>)

  const DefaultConfig := Config(None, true, true, true, Some(LengthConfig(Some(true), 80)), None)

  function CurrentSettings(c: Config): (s: Settings)
    ensures s.jammed.Some? <==> c.jammed
    ensures s.jammed.Some? ==> s.jammed.value == Repeated
    ensures c.length.None? ==> s.column == 0
  {
    Settings(
      c.block, c.eol,
      if c.jammed then Some(Repeated) else None,
      if c.length.Some? then c.length.value.column else 0,
      c.length.Some? && Enabled(c.length.value.allowUrl),
      c.threshold)
  }

  datatype JammedConfig = JammedConfig(enabled: Option<bool>, tails: Option<bool>)

  /** The older flat package's configuration. */
  datatype LegacyConfig = LegacyConfig(
    block: bool,
    column: int,
    eol: bool,
    jammed: Option<JammedConfig>,
    threshold: Option<real>,
    urlBypass: bool)

  const LegacyDefaultConfig :=
    LegacyConfig(true, 80, true, Some(JammedConfig(Some(true), Some(true))), None, true)

  /** The pattern a call uses: the repeated-marker one with tails on, the
      single-marker one otherwise; decided afresh on every call. */
  function PatternFor(tails: bool): (p: Pattern)
    ensures p == Repeated <==> tails
  {
    if tails then Repeated else Single
  }

  /** Unset `enabled` counts as on; unset `tails` as off. */
  function LegacyJammed(j: Option<JammedConfig>): (r: Option<Pattern>)
    ensures j.None? ==> r == Some(Single)
    ensures r.None? <==> j.Some? && j.value.enabled == Some(false)
  {
    var enabled := j.None? || j.value.enabled.None? || j.value.enabled.value;
    var tails := j.Some? && j.value.tails.Some? && j.value.tails.value;
    if enabled then Some(PatternFor(tails)) else None
  }

  function LegacySettings(c: LegacyConfig): Settings {
    Settings(c.block, c.eol, LegacyJammed(c.jammed), c.column, c.urlBypass, c.threshold)
  }

  /** `Check` for each generation: the current one stops at once when
      disabled, the older one always runs. */
  function Check(gen: Gen, cur: Config, legacy: LegacyConfig, files: seq<SourceFile>): (r: Outcome)
    ensures gen == Current && !Enabled(cur.enabled) ==> r == Outcome([], false)
    ensures (gen == Legacy || Enabled(cur.enabled)) ==> (r.failed <==> !Walk.AllLex(files))
  {
    match gen
    case Current => if !Enabled(cur.enabled) then Outcome([], false) else Run(CurrentSettings(cur), files)
    case Legacy => Run(LegacySettings(legacy), files)
  }

  /** The defaults of both generations turn every per-comment check on with
      the same column and URL allowance; they differ only in the jammed
      pattern, which is the repeated-marker one in both. */
  lemma DefaultsAgree()
    ensures CurrentSettings(DefaultConfig) == LegacySettings(LegacyDefaultConfig)
  {
  }

  // ------------------------------------- as written: the shared pattern

  /** The older jammed check as written keeps its pattern in a package
      variable: a call with tails off replaces it with the single-marker
      pattern for good, and a call with tails on uses whatever is there.
      Returns the pattern this call uses, which is also the one left behind. */
  function SharedPatternStep(shared: Pattern, tails: bool): (used: Pattern)
    ensures !tails ==> used == Single
    ensures tails ==> used == shared
  {
    if !tails then Single else shared
  }

  /** The patterns a sequence of calls uses, starting from the package's
      initial pattern. */
  function SharedPatterns(shared: Pattern, calls: seq<bool>): (r: seq<Pattern>)
    ensures |r| == |calls|
    decreases |calls|
  {
    if |calls| == 0 then []
    else
      var used := SharedPatternStep(shared, calls[0]);
      [used] + SharedPatterns(used, calls[1..])
  }

  /** As written, once any call runs with tails off, every later call uses
      the single-marker pattern, tails or not. */
  lemma {:induction false} SharedPatternSticks(shared: Pattern, calls: seq<bool>, k: nat)
    requires k < |calls| && !calls[k]
    ensures forall m :: k <= m < |calls| ==> SharedPatterns(shared, calls)[m] == Single
    decreases |calls|
  {
    if k > 0 {
      SharedPatternSticks(SharedPatternStep(shared, calls[0]), calls[1..], k - 1);
    } else {
      SingleStays(calls[1..]);
    }
  }

  lemma {:induction false} SingleStays(calls: seq<bool>)
    ensures forall m :: 0 <= m < |calls| ==> SharedPatterns(Single, calls)[m] == Single
  {
    if |calls| > 0 {
      SingleStays(calls[1..]);
    }
  }

  /** The concrete case: a tails-off call, then a tails-on call on `## x`.
      The second call flags the comment, though the same call in a fresh
      process does not. */
  lemma SharedPatternLeaks()
    ensures SharedPatterns(Repeated, [false, true])[1] == Single
    ensures IsJammed(SharedPatterns(Repeated, [false, true])[1], "## x\n")
    ensures !IsJammed(PatternFor(true), "## x\n")
  {
    DoubleHashExample();
    assert SharedPatterns(Repeated, [false, true])
      == [Single] + SharedPatterns(Single, [true]);
  }

  /** Corrected: the patterns a sequence of calls uses, each from its own
      configuration. */
  function CallPatterns(calls: seq<bool>): (r: seq<Pattern>)
    ensures |r| == |calls|
  {
    seq(|calls|, m requires 0 <= m < |calls| => PatternFor(calls[m]))
  }

  /** Corrected: each call's pattern depends on its own tails setting only,
      so earlier calls cannot change what a later call flags. */
  lemma CallsIndependent(before: seq<bool>, calls: seq<bool>)
    ensures CallPatterns(before + calls)[|before|..] == CallPatterns(calls)
    ensures forall m :: 0 <= m < |calls| ==> (CallPatterns(calls)[m] == Repeated <==> calls[m])
  {
  }
}
