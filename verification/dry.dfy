/** The dry rule: repeated template, tuple, object and `for` expressions
    across all files, and (in the current generation) repeated resource and
    data blocks. */
module Dry {
  import opened Wrappers
  import opened Syntax
  import opened Issues
  import opened Grouping
  import opened Text
  import DryBlocks

  // ------------------------------------------------- count / each guard

  /** `hasCountOrEach`: a scope traversal rooted at `count` or `each` occurs
      somewhere below, looking through every node kind the check's type
      switch lists. Object keys are wrapped in `ObjectKey`, which the switch
      does not list, so keys are never looked into. */
  predicate MentionsCountOrEach(e: Expr)
    decreases e
  {
    match e
    case Traversal(root, _) => root == "count" || root == "each"
    case Template(parts, _) => exists i :: 0 <= i < |parts| && MentionsCountOrEach(parts[i])
    case TemplateWrap(w, _) => MentionsCountOrEach(w)
    case Call(_, args, _) => exists i :: 0 <= i < |args| && MentionsCountOrEach(args[i])
    case Tuple(elems, _) => exists i :: 0 <= i < |elems| && MentionsCountOrEach(elems[i])
    case Object(items, _) =>
      exists i :: 0 <= i < |items| && (MentionsCountOrEach(items[i].key) || MentionsCountOrEach(items[i].value))
    case Conditional(c, y, n, _) => MentionsCountOrEach(c) || MentionsCountOrEach(y) || MentionsCountOrEach(n)
    case For(s, k, v, f, _) =>
      MentionsCountOrEach(s) || (k.Some? && MentionsCountOrEach(k.value))
      || MentionsCountOrEach(v) || (f.Some? && MentionsCountOrEach(f.value))
    case Splat(s, _, _) => MentionsCountOrEach(s)
    case Parens(i, _) => MentionsCountOrEach(i)
    case Unary(o, _) => MentionsCountOrEach(o)
    case Binary(l, r, _) => MentionsCountOrEach(l) || MentionsCountOrEach(r)
    case Indexed(c, i, _) => MentionsCountOrEach(c) || MentionsCountOrEach(i)
    case _ => false
  }

  // ------------------------------------------------------- fingerprints

  /** The node kinds that are fingerprinted. */
  predicate Fingerprintable(e: Expr) {
    e.Template? || e.Tuple? || e.Object? || e.For?
  }

  /** The in-file test before slicing. The source tests `start < len` and
      `end <= len`; `start <= end` is added because Go's slice would
      otherwise fail (the parser never produces such a range). */
  predicate InFile(rng: Range, bytes: string) {
    rng.start.byte < |bytes| && rng.start.byte <= rng.end.byte <= |bytes|
  }

  /** The fingerprint a node contributes by itself. */
  function Capture(e: Expr, bytes: string): (r: seq<Candidate>)
    ensures |r| <= 1
    ensures |r| == 1 <==> Fingerprintable(e) && !MentionsCountOrEach(e) && InFile(e.rng, bytes)
    ensures |r| == 1 ==> r[0] == Candidate(bytes[e.rng.start.byte..e.rng.end.byte], e.rng)
  {
    if Fingerprintable(e) && !MentionsCountOrEach(e) && InFile(e.rng, bytes) then
      [Candidate(bytes[e.rng.start.byte..e.rng.end.byte], e.rng)]
    else []
  }

  /** The key is exactly the bytes the range covers, inside the file. */
  predicate ExactKey(c: Candidate, bytes: string) {
    InFile(c.rng, bytes) && c.key == bytes[c.rng.start.byte..c.rng.end.byte]
  }

  /** `walkExpression`: the fingerprints found at and below `e`, in walk
      order. */
  function Collect(e: Expr, bytes: string): (r: seq<Candidate>)
    decreases e, 1
    ensures forall c :: c in r ==> ExactKey(c, bytes)
  {
    match e
    case TemplateWrap(w, _) => Collect(w, bytes)
    case Template(parts, _) => Capture(e, bytes) + CollectAll(parts, bytes)
    case Traversal(_, _) => []
    case Call(_, args, _) => CollectAll(args, bytes)
    case Tuple(_, _) => Capture(e, bytes)
    case Object(_, _) => Capture(e, bytes)
    case Conditional(c, y, n, _) => Collect(c, bytes) + Collect(y, bytes) + Collect(n, bytes)
    case For(s, k, v, f, _) =>
      Capture(e, bytes) + Collect(s, bytes)
      + (if k.Some? then Collect(k.value, bytes) else [])
      + Collect(v, bytes)
      + (if f.Some? then Collect(f.value, bytes) else [])
    case Splat(s, _, _) => Collect(s, bytes)
    case Parens(i, _) => Collect(i, bytes)
    case Unary(o, _) => Collect(o, bytes)
    case Binary(l, r, _) => Collect(l, bytes) + Collect(r, bytes)
    case Indexed(c, i, _) => Collect(c, bytes) + Collect(i, bytes)
    case _ => []
  }

  function CollectAll(es: seq<Expr>, bytes: string): (r: seq<Candidate>)
    decreases es, 0
    ensures forall c :: c in r ==> ExactKey(c, bytes)
  {
    if |es| == 0 then [] else Collect(es[0], bytes) + CollectAll(es[1..], bytes)
  }

  /** The sub-expressions the walk descends into: template parts, call
      arguments, the three parts of a conditional, the parts of a `for`,
      a splat's source, parenthesised, unary and binary operands, and both
      sides of an index. Tuple and object elements and traversals are not
      descended into. */
  function Children(e: Expr): (r: seq<Expr>)
    ensures forall i :: 0 <= i < |r| ==> r[i] < e
    ensures e.Tuple? || e.Object? || e.Traversal? || e.Literal? ==> r == []
  {
    match e
    case TemplateWrap(w, _) => [w]
    case Template(parts, _) => parts
    case Call(_, args, _) => args
    case Conditional(c, y, n, _) => [c, y, n]
    case For(s, k, v, f, _) =>
      [s] + OptionSeq(k) + [v] + OptionSeq(f)
    case Splat(s, _, _) => [s]
    case Parens(i, _) => [i]
    case Unary(o, _) => [o]
    case Binary(l, r, _) => [l, r]
    case Indexed(c, i, _) => [c, i]
    case _ => []
  }

  /** `n` is `e` or is reached from it through `Children`. */
  predicate Reaches(e: Expr, n: Expr)
    decreases e
  {
    n == e || exists i :: 0 <= i < |Children(e)| && Reaches(Children(e)[i], n)
  }

  /** The walk is: the node's own fingerprint, then the walks of its
      children in order. */
  lemma {:induction false} CollectUnfolds(e: Expr, bytes: string)
    ensures Collect(e, bytes) == Capture(e, bytes) + CollectAll(Children(e), bytes)
  {
    match e
    case TemplateWrap(w, _) =>
      CollectAllOne(w, bytes);
    case Conditional(c, y, n, _) =>
      CollectAllCons3(c, y, n, bytes);
    case For(_, _, _, _, _) =>
      ForUnfolds(e, bytes);
    case Splat(s, _, _) =>
      CollectAllOne(s, bytes);
    case Parens(i, _) =>
      CollectAllOne(i, bytes);
    case Unary(o, _) =>
      CollectAllOne(o, bytes);
    case Binary(l, r, _) =>
      CollectAllTwo(l, r, bytes);
    case Indexed(c, i, _) =>
      CollectAllTwo(c, i, bytes);
    case _ =>
  }

  lemma ForUnfolds(e: Expr, bytes: string)
    requires e.For?
    ensures Collect(e, bytes) == Capture(e, bytes) + CollectAll(Children(e), bytes)
  {
    var src, ks, v, fs := e.source, OptionSeq(e.keyResult), e.valResult, OptionSeq(e.filter);
    ForCollect(src, e.keyResult, v, e.filter, e.rng, bytes);
    ForChildren(src, ks, v, fs, bytes);
    ConcatAssoc(Capture(e, bytes), Collect(src, bytes), CollectAll(ks, bytes), Collect(v, bytes), CollectAll(fs, bytes));
  }

  lemma ConcatAssoc(a: seq<Candidate>, b: seq<Candidate>, c: seq<Candidate>, d: seq<Candidate>, f: seq<Candidate>)
    ensures a + b + c + d + f == a + (b + c + d + f)
  {
  }

  lemma ForCollect(s: Expr, k: Option<Expr>, v: Expr, f: Option<Expr>, rng: Range, bytes: string)
    ensures Collect(For(s, k, v, f, rng), bytes)
      == Capture(For(s, k, v, f, rng), bytes) + Collect(s, bytes) + CollectAll(OptionSeq(k), bytes)
         + Collect(v, bytes) + CollectAll(OptionSeq(f), bytes)
  {
    CollectAllOption(k, bytes);
    CollectAllOption(f, bytes);
  }

  lemma ForChildren(s: Expr, ks: seq<Expr>, v: Expr, fs: seq<Expr>, bytes: string)
    ensures CollectAll([s] + ks + [v] + fs, bytes)
      == Collect(s, bytes) + CollectAll(ks, bytes) + Collect(v, bytes) + CollectAll(fs, bytes)
  {
    CollectAllAppend([s] + ks + [v], fs, bytes);
    CollectAllAppend([s] + ks, [v], bytes);
    CollectAllAppend([s], ks, bytes);
    CollectAllOne(s, bytes);
    CollectAllOne(v, bytes);
  }

  function OptionSeq(o: Option<Expr>): (r: seq<Expr>)
    ensures o.None? ==> r == []
    ensures o.Some? ==> r == [o.value]
  {
    match o case Some(x) => [x] case None => []
  }

  lemma CollectAllOne(x: Expr, bytes: string)
    ensures CollectAll([x], bytes) == Collect(x, bytes)
  {
    assert CollectAll([x], bytes) == Collect(x, bytes) + CollectAll([], bytes);
  }

  lemma CollectAllTwo(x: Expr, y: Expr, bytes: string)
    ensures CollectAll([x, y], bytes) == Collect(x, bytes) + Collect(y, bytes)
  {
    assert [x, y][1..] == [y];
    CollectAllOne(y, bytes);
  }

  lemma CollectAllOption(o: Option<Expr>, bytes: string)
    ensures CollectAll(OptionSeq(o), bytes) == if o.Some? then Collect(o.value, bytes) else []
  {
    if o.Some? {
      CollectAllOne(o.value, bytes);
    }
  }

  lemma CollectAllCons3(a: Expr, b: Expr, c: Expr, bytes: string)
    ensures CollectAll([a, b, c], bytes) == Collect(a, bytes) + Collect(b, bytes) + Collect(c, bytes)
  {
    assert [a, b, c][1..] == [b, c];
    assert [b, c][1..] == [c];
    assert CollectAll([c], bytes) == Collect(c, bytes) + CollectAll([], bytes);
  }

  lemma {:induction false} CollectAllAppend(a: seq<Expr>, b: seq<Expr>, bytes: string)
    ensures CollectAll(a + b, bytes) == CollectAll(a, bytes) + CollectAll(b, bytes)
  {
    if |a| == 0 {
      assert a + b == b;
    } else {
      assert (a + b)[1..] == a[1..] + b;
      CollectAllAppend(a[1..], b, bytes);
    }
  }

  lemma {:induction false} CollectAllMember(es: seq<Expr>, bytes: string, c: Candidate)
    ensures c in CollectAll(es, bytes) <==> exists i :: 0 <= i < |es| && c in Collect(es[i], bytes)
  {
    if |es| > 0 {
      CollectAllMember(es[1..], bytes, c);
      if exists i :: 0 <= i < |es| && c in Collect(es[i], bytes) {
        var i :| 0 <= i < |es| && c in Collect(es[i], bytes);
        if i > 0 {
          assert es[1..][i - 1] == es[i];
        }
      }
    }
  }

  /** Every fingerprint comes from a reached template, tuple, object or `for`
      node that does not mention `count`/`each`, keyed by its exact bytes. */
  lemma {:induction false} CollectSound(e: Expr, bytes: string, c: Candidate)
    requires c in Collect(e, bytes)
    ensures exists n :: (Reaches(e, n) && Fingerprintable(n) && !MentionsCountOrEach(n)
      && InFile(n.rng, bytes) && c == Candidate(bytes[n.rng.start.byte..n.rng.end.byte], n.rng))
    decreases e
  {
    CollectUnfolds(e, bytes);
    if c in Capture(e, bytes) {
      assert Reaches(e, e);
    } else {
      CollectAllMember(Children(e), bytes, c);
      var i :| 0 <= i < |Children(e)| && c in Collect(Children(e)[i], bytes);
      CollectSound(Children(e)[i], bytes, c);
      var n :| Reaches(Children(e)[i], n) && Fingerprintable(n) && !MentionsCountOrEach(n)
        && InFile(n.rng, bytes) && c == Candidate(bytes[n.rng.start.byte..n.rng.end.byte], n.rng);
      assert Reaches(e, n);
    }
  }

  /** Every reached template, tuple, object or `for` node inside the file
      that does not mention `count`/`each` is fingerprinted. */
  lemma {:induction false} CollectComplete(e: Expr, bytes: string, n: Expr)
    requires Reaches(e, n) && Fingerprintable(n) && !MentionsCountOrEach(n) && InFile(n.rng, bytes)
    ensures Candidate(bytes[n.rng.start.byte..n.rng.end.byte], n.rng) in Collect(e, bytes)
    decreases e
  {
    CollectUnfolds(e, bytes);
    if n != e {
      var i :| 0 <= i < |Children(e)| && Reaches(Children(e)[i], n);
      CollectComplete(Children(e)[i], bytes, n);
      CollectAllMember(Children(e), bytes, Candidate(bytes[n.rng.start.byte..n.rng.end.byte], n.rng));
    }
  }

  /** A child that mentions `count`/`each` makes its parent mention it too,
      so a guarded node's fingerprinted ancestors are excluded as well. */
  lemma ChildMentions(e: Expr, i: nat)
    requires i < |Children(e)| && MentionsCountOrEach(Children(e)[i])
    ensures MentionsCountOrEach(e)
  {
    match e
    case For(s, k, v, f, _) =>
      assert Children(e) == [s] + OptionSeq(k) + [v] + OptionSeq(f);
    case _ =>
  }

  /** Anything reached from a node that does not mention `count`/`each`
      does not mention it either. */
  lemma {:induction false} ReachedClean(e: Expr, n: Expr)
    requires Reaches(e, n) && !MentionsCountOrEach(e)
    ensures !MentionsCountOrEach(n)
    decreases e
  {
    if n != e {
      var i :| 0 <= i < |Children(e)| && Reaches(Children(e)[i], n);
      if MentionsCountOrEach(Children(e)[i]) {
        ChildMentions(e, i);
      }
      ReachedClean(Children(e)[i], n);
    }
  }

  // ------------------------------------------------------------- bodies

  /** `checkDry`: every attribute at every depth, except `source` directly
      in a `module` block's body. */
  function BodyCandidates(body: Body, bytes: string, isModule: bool): (r: seq<Candidate>)
    decreases body, 2
    ensures forall c :: c in r ==> ExactKey(c, bytes)
  {
    AttrCandidates(body.attributes, bytes, isModule) + BlockCandidates(body.blocks, bytes)
  }

  function AttrCandidates(attrs: seq<Attribute>, bytes: string, isModule: bool): (r: seq<Candidate>)
    decreases attrs, 0
    ensures forall c :: c in r ==> ExactKey(c, bytes)
  {
    if |attrs| == 0 then []
    else
      (if isModule && attrs[0].name == "source" then [] else Collect(attrs[0].expr, bytes))
      + AttrCandidates(attrs[1..], bytes, isModule)
  }

  function BlockCandidates(blocks: seq<Block>, bytes: string): (r: seq<Candidate>)
    decreases blocks, 1
    ensures forall c :: c in r ==> ExactKey(c, bytes)
  {
    if |blocks| == 0 then []
    else BodyCandidates(blocks[0].body, bytes, blocks[0].kind == "module") + BlockCandidates(blocks[1..], bytes)
  }

  /** A module's `source` is skipped only in that module's own body. */
  lemma ModuleSourceSkipped(attrs: seq<Attribute>, bytes: string)
    requires forall i :: 0 <= i < |attrs| ==> attrs[i].name == "source"
    ensures AttrCandidates(attrs, bytes, true) == []
    ensures AttrCandidates(attrs, bytes, false) == CollectAll(Exprs(attrs), bytes)
  {
    if |attrs| > 0 {
      ModuleSourceSkipped(attrs[1..], bytes);
      assert Exprs(attrs)[1..] == Exprs(attrs[1..]);
    }
  }

  function Exprs(attrs: seq<Attribute>): (r: seq<Expr>)
    ensures |r| == |attrs| && forall i :: 0 <= i < |r| ==> r[i] == attrs[i].expr
  {
    if |attrs| == 0 then [] else [attrs[0].expr] + Exprs(attrs[1..])
  }

  /** Fingerprints of every file with a native-syntax body (files in the
      host's map order). */
  function FileCandidates(files: seq<SourceFile>): seq<Candidate> {
    if |files| == 0 then []
    else
      (if files[0].body.Some? then BodyCandidates(files[0].body.value, files[0].bytes, false) else [])
      + FileCandidates(files[1..])
  }

  // ------------------------------------------------------------- check

  datatype Config = Config(enabled: Option<bool>, threshold: int)

  const DefaultConfig := Config(Some(true), 2)

  /** The threshold in force: the configured one, but never below 2. */
  function EffectiveThreshold(cfg: Config): (t: int)
    ensures t >= 2 && t >= cfg.threshold
    ensures cfg.threshold >= 2 ==> t == cfg.threshold
  {
    if cfg.threshold < 2 then 2 else cfg.threshold
  }

  /** The message for a repeated expression. */
  function RepeatMessage(key: string, count: nat): (m: string)
    ensures HasPrefix(m, "Avoid repeating ")
    ensures HasPrefix(key, "[") ==> m == "Avoid repeating list " + NatToString(count) + " times."
    ensures !HasPrefix(key, "[") && HasPrefix(key, "{") ==> m == "Avoid repeating map " + NatToString(count) + " times."
    ensures !HasPrefix(key, "[") && !HasPrefix(key, "{") ==>
      m == "Avoid repeating value '" + key + "' " + NatToString(count) + " times."
  {
    var tail :=
      if HasPrefix(key, "[") then "list " + NatToString(count) + " times."
      else if HasPrefix(key, "{") then "map " + NatToString(count) + " times."
      else "value '" + key + "' " + NatToString(count) + " times.";
    PrefixOfAppend("Avoid repeating ", tail);
    "Avoid repeating " + tail
  }

  /** The message for a duplicated block. */
  function DuplicateMessage(count: nat): (m: string)
    ensures HasPrefix(m, "Duplicate block found ")
    ensures m == "Duplicate block found " + NatToString(count) + " times."
  {
    var tail := NatToString(count) + " times.";
    PrefixOfAppend("Duplicate block found ", tail);
    assert "Duplicate block found " + NatToString(count) + " times." == "Duplicate block found " + tail;
    "Duplicate block found " + tail
  }

  function ExprIssues(reports: seq<Report>): (r: seq<Issue>)
    ensures |r| == |reports|
    ensures forall i :: 0 <= i < |r| ==> r[i] == TextIssue(RepeatMessage(reports[i].key, reports[i].count), reports[i].rng)
  {
    if |reports| == 0 then []
    else [TextIssue(RepeatMessage(reports[0].key, reports[0].count), reports[0].rng)] + ExprIssues(reports[1..])
  }

  function BlockIssues(reports: seq<Report>): (r: seq<Issue>)
    ensures |r| == |reports|
    ensures forall i :: 0 <= i < |r| ==> r[i] == TextIssue(DuplicateMessage(reports[i].count), reports[i].rng)
  {
    if |reports| == 0 then []
    else [TextIssue(DuplicateMessage(reports[0].count), reports[0].rng)] + BlockIssues(reports[1..])
  }

  /** Repeated expressions across all files at threshold `t`. */
  function ExpressionIssues(files: seq<SourceFile>, t: int): seq<Issue> {
    ExprIssues(Reports(FileCandidates(files), t))
  }

  /** Duplicated resource and data blocks across all files at threshold `t`. */
  function DuplicateBlockIssues(files: seq<SourceFile>, t: int): seq<Issue> {
    BlockIssues(Reports(DryBlocks.FileBlocks(files), t))
  }

  /** `Check` of either generation. The current one honours `enabled`,
      floors the threshold at 2 and adds block duplicates; the legacy one
      always runs, with the fixed threshold 2 and no block duplicates. */
  function Check(gen: Gen, cfg: Config, files: seq<SourceFile>): (r: seq<Issue>)
    ensures gen == Current && !Enabled(cfg.enabled) ==> r == []
    ensures gen == Legacy ==> r == ExpressionIssues(files, 2)
  {
    match gen
    case Current =>
      if !Enabled(cfg.enabled) then []
      else
        var t := EffectiveThreshold(cfg);
        ExpressionIssues(files, t) + DuplicateBlockIssues(files, t)
    case Legacy => ExpressionIssues(files, 2)
  }

  /** A configured threshold below 2 behaves exactly like 2, and the same
      threshold governs expressions and blocks. */
  lemma LowThresholdIsTwo(files: seq<SourceFile>, t: int)
    requires t <= 2
    ensures Check(Current, Config(None, t), files) == ExpressionIssues(files, 2) + DuplicateBlockIssues(files, 2)
  {
    assert EffectiveThreshold(Config(None, t)) == 2;
  }

  /** Each repeated expression is reported exactly once, iff it occurs at
      least as often as the threshold, at its earliest occurrence. */
  lemma ExpressionReportedIff(cfg: Config, files: seq<SourceFile>, key: string)
    ensures var cs := FileCandidates(files);
      (exists p :: p in Reports(cs, EffectiveThreshold(cfg)) && p.key == key)
      <==> |RangesOf(cs, key)| >= EffectiveThreshold(cfg)
    ensures DistinctKeys(Reports(FileCandidates(files), EffectiveThreshold(cfg)))
  {
    ReportedIff(FileCandidates(files), EffectiveThreshold(cfg), key);
    ReportsOnce(FileCandidates(files), EffectiveThreshold(cfg));
  }

  lemma ExprIssuesSubset(hi: seq<Report>, lo: seq<Report>)
    requires forall p :: p in hi ==> p in lo
    ensures forall i :: i in ExprIssues(hi) ==> i in ExprIssues(lo)
  {
    forall i | i in ExprIssues(hi) ensures i in ExprIssues(lo) {
      var k :| 0 <= k < |hi| && ExprIssues(hi)[k] == i;
      assert hi[k] in lo;
      var j :| 0 <= j < |lo| && lo[j] == hi[k];
      assert ExprIssues(lo)[j] == i;
    }
  }

  lemma BlockIssuesSubset(hi: seq<Report>, lo: seq<Report>)
    requires forall p :: p in hi ==> p in lo
    ensures forall i :: i in BlockIssues(hi) ==> i in BlockIssues(lo)
  {
    forall i | i in BlockIssues(hi) ensures i in BlockIssues(lo) {
      var k :| 0 <= k < |hi| && BlockIssues(hi)[k] == i;
      assert hi[k] in lo;
      var j :| 0 <= j < |lo| && lo[j] == hi[k];
      assert BlockIssues(lo)[j] == i;
    }
  }

  /** Raising the configured threshold never adds an issue. */
  lemma RaisingThresholdNeverAdds(files: seq<SourceFile>, low: int, high: int)
    requires low <= high
    ensures forall i :: i in Check(Current, Config(None, high), files) ==> i in Check(Current, Config(None, low), files)
  {
    var lo, hi := EffectiveThreshold(Config(None, low)), EffectiveThreshold(Config(None, high));
    var ce, cb := FileCandidates(files), DryBlocks.FileBlocks(files);
    MoreThresholdFewerReports(ce, lo, hi);
    MoreThresholdFewerReports(cb, lo, hi);
    ExprIssuesSubset(Reports(ce, hi), Reports(ce, lo));
    BlockIssuesSubset(Reports(cb, hi), Reports(cb, lo));
    assert Check(Current, Config(None, high), files) == ExpressionIssues(files, hi) + DuplicateBlockIssues(files, hi);
    assert Check(Current, Config(None, low), files) == ExpressionIssues(files, lo) + DuplicateBlockIssues(files, lo);
  }

  /** The legacy generation never reports block duplicates. */
  lemma LegacyHasNoBlockIssues(cfg: Config, files: seq<SourceFile>)
    ensures forall i :: i in Check(Legacy, cfg, files) ==>
      i.msg.Text? && HasPrefix(i.msg.text, "Avoid repeating ")
  {
    var reports := Reports(FileCandidates(files), 2);
    forall i | i in Check(Legacy, cfg, files)
      ensures i.msg.Text? && HasPrefix(i.msg.text, "Avoid repeating ")
    {
      var k :| 0 <= k < |reports| && ExprIssues(reports)[k] == i;
    }
  }
}
