/** The shared block walker every name rule runs on: which top-level blocks
    are visited, what (type, name, synonym) each becomes, the header range an
    issue is reported at, and the token walk over the root module. */
module Walk {
  import opened Wrappers
  import opened Syntax
  import opened Issues
  import opened Seqs

  /** One allow-list entry: a block keyword, its label names, and the
      synonym a name check may use for the block's type. */
  datatype BlockDef = BlockDef(typ: string, labels: seq<string>, synonym: string)

  /** The default allow-list (`locals` is handled separately). */
  const AllLintableBlocks: seq<BlockDef> := [
    BlockDef("variable", ["name"], ""),
    BlockDef("check", ["name"], ""),
    BlockDef("data", ["type", "name"], ""),
    BlockDef("ephemeral", ["type", "name"], ""),
    BlockDef("module", ["name"], ""),
    BlockDef("output", ["name"], ""),
    BlockDef("resource", ["type", "name"], "")
  ]

  /** A visited definition: where to report, and the normalised
      (type, name, synonym) triple the checks receive. */
  datatype Def = Def(rng: Range, typ: string, name: string, synonym: string)

  /** A check the walker calls once per visited definition. */
  type DefCheck = Def -> seq<Issue>

  /** The type and name a block stands for, from its label count. */
  function TypeAndName(b: Block): (r: (string, string))
    ensures |b.labels| == 2 ==> r == (b.labels[0], b.labels[1])
    ensures |b.labels| == 1 ==> r == (b.kind, b.labels[0])
    ensures |b.labels| != 1 && |b.labels| != 2 ==> r == (b.kind, "")
  {
    if |b.labels| == 2 then (b.labels[0], b.labels[1])
    else if |b.labels| == 1 then (b.kind, b.labels[0])
    else (b.kind, "")
  }

  /** The entry at index `k` gives `typ` a synonym. */
  predicate GivesSynonym(defs: seq<BlockDef>, typ: string, k: int) {
    0 <= k < |defs| && defs[k].typ == typ && defs[k].synonym != ""
  }

  /** The synonym of the first allow-list entry for `typ` that has one. */
  function SynonymOf(defs: seq<BlockDef>, typ: string): (r: string)
    ensures r == "" <==> forall k :: 0 <= k < |defs| ==> !GivesSynonym(defs, typ, k)
    ensures r != "" ==> exists k :: (GivesSynonym(defs, typ, k) && r == defs[k].synonym
      && forall j :: 0 <= j < k ==> !GivesSynonym(defs, typ, j))
  {
    if |defs| == 0 then ""
    else if defs[0].typ == typ && defs[0].synonym != "" then
      assert GivesSynonym(defs, typ, 0);
      defs[0].synonym
    else
      var r := SynonymOf(defs[1..], typ);
      assert forall k :: 1 <= k < |defs| ==> (GivesSynonym(defs, typ, k) <==> GivesSynonym(defs[1..], typ, k - 1));
      if r != "" then
        var k :| GivesSynonym(defs[1..], typ, k) && r == defs[1..][k].synonym
          && forall j :: 0 <= j < k ==> !GivesSynonym(defs[1..], typ, j);
        assert GivesSynonym(defs, typ, k + 1);
        r
      else r
  }

  /** The default allow-list gives no type a synonym. */
  lemma DefaultsHaveNoSynonym(typ: string)
    ensures SynonymOf(AllLintableBlocks, typ) == ""
  {
    forall k | 0 <= k < |AllLintableBlocks|
      ensures !GivesSynonym(AllLintableBlocks, typ, k)
    {
    }
  }

  /** The keyword is listed in the allow-list. */
  predicate Listed(defs: seq<BlockDef>, keyword: string) {
    exists k :: 0 <= k < |defs| && defs[k].typ == keyword
  }

  /** The header range: from the keyword to the end of the last label. */
  function DefRange(b: Block): (r: Range)
    ensures r.filename == b.typeRange.filename && r.start == b.typeRange.start
    ensures |b.labelRanges| == 0 ==> r == b.typeRange
    ensures |b.labelRanges| > 0 ==> r.end == b.labelRanges[|b.labelRanges| - 1].end
  {
    if |b.labelRanges| == 0 then b.typeRange
    else Range(b.typeRange.filename, b.typeRange.start, b.labelRanges[|b.labelRanges| - 1].end)
  }

  /** The parser's layout of a block header: keyword, then labels in order,
      then the opening brace. */
  predicate HeaderInOrder(b: Block) {
    b.typeRange.start.byte <= b.typeRange.end.byte <= b.openBrace.start.byte
    && forall k :: 0 <= k < |b.labelRanges| ==>
         b.typeRange.end.byte <= b.labelRanges[k].start.byte <= b.labelRanges[k].end.byte <= b.openBrace.start.byte
  }

  /** The header range starts at the keyword and stops before the body. */
  lemma DefRangeIsHeader(b: Block)
    requires HeaderInOrder(b)
    ensures DefRange(b).start == b.typeRange.start
    ensures DefRange(b).start.byte <= DefRange(b).end.byte <= b.openBrace.start.byte
  {
  }

  /** The definition a `locals` attribute stands for. */
  function LocalDef(a: Attribute): (d: Def)
    ensures d.rng == a.rng && d.name == a.name && d.typ == "local" && d.synonym == ""
  {
    Def(a.rng, "local", a.name, "")
  }

  /** The definition a listed block stands for. */
  function BlockDefOf(b: Block, defs: seq<BlockDef>): (d: Def)
    ensures d.rng == DefRange(b)
    ensures (d.typ, d.name) == TypeAndName(b)
    ensures d.synonym == SynonymOf(defs, d.typ)
  {
    var (typ, name) := TypeAndName(b);
    Def(DefRange(b), typ, name, SynonymOf(defs, typ))
  }

  /** The definitions one top-level block contributes, in order. */
  function VisitBlock(b: Block, defs: seq<BlockDef>): (r: seq<Def>)
    ensures b.kind == "locals" ==> (|r| == |b.body.attributes|
      && forall i :: 0 <= i < |r| ==> r[i] == LocalDef(b.body.attributes[i]))
    ensures b.kind != "locals" && Listed(defs, b.kind) ==> r == [BlockDefOf(b, defs)]
    ensures b.kind != "locals" && !Listed(defs, b.kind) ==> r == []
  {
    if b.kind == "locals" then LocalDefs(b.body.attributes)
    else if exists k :: 0 <= k < |defs| && defs[k].typ == b.kind then [BlockDefOf(b, defs)]
    else []
  }

  function LocalDefs(attrs: seq<Attribute>): (r: seq<Def>)
    ensures |r| == |attrs| && forall i :: 0 <= i < |r| ==> r[i] == LocalDef(attrs[i])
  {
    if |attrs| == 0 then [] else [LocalDef(attrs[0])] + LocalDefs(attrs[1..])
  }

  /** The definitions a body's top-level blocks contribute, in order. */
  function VisitBlocks(blocks: seq<Block>, defs: seq<BlockDef>): seq<Def> {
    if |blocks| == 0 then [] else VisitBlock(blocks[0], defs) + VisitBlocks(blocks[1..], defs)
  }

  /** Every definition the walker visits, file by file; files whose body is
      not native syntax are skipped. */
  function Visits(files: seq<SourceFile>, defs: seq<BlockDef>): seq<Def> {
    if |files| == 0 then []
    else
      (if files[0].body.Some? then VisitBlocks(files[0].body.value.blocks, defs) else [])
      + Visits(files[1..], defs)
  }

  /** What one top-level block is visited as. */
  predicate VisitedAs(b: Block, defs: seq<BlockDef>, d: Def) {
    if b.kind == "locals" then exists a :: a in b.body.attributes && d == LocalDef(a)
    else Listed(defs, b.kind) && d == BlockDefOf(b, defs)
  }

  /** A definition is visited iff some top-level block is visited as it:
      `locals` attributes become `local` definitions, other blocks are kept
      iff their keyword is listed. */
  lemma {:induction false} VisitBlocksMember(blocks: seq<Block>, defs: seq<BlockDef>, d: Def)
    ensures d in VisitBlocks(blocks, defs) <==> exists b :: b in blocks && VisitedAs(b, defs, d)
  {
    if |blocks| > 0 {
      VisitBlocksMember(blocks[1..], defs, d);
      var b0 := blocks[0];
      assert forall b :: b in blocks <==> b == b0 || b in blocks[1..];
      if b0.kind == "locals" && d in VisitBlock(b0, defs) {
        var i :| 0 <= i < |VisitBlock(b0, defs)| && VisitBlock(b0, defs)[i] == d;
        assert b0.body.attributes[i] in b0.body.attributes;
      }
      if b0.kind == "locals" && VisitedAs(b0, defs, d) {
        var a :| a in b0.body.attributes && d == LocalDef(a);
        var i :| 0 <= i < |b0.body.attributes| && b0.body.attributes[i] == a;
        assert VisitBlock(b0, defs)[i] == d;
      }
      if b0.kind != "locals" && VisitedAs(b0, defs, d) {
        assert VisitBlock(b0, defs) == [d];
      }
      if exists b :: b in blocks && VisitedAs(b, defs, d) {
        var b :| b in blocks && VisitedAs(b, defs, d);
        if b == b0 {
          assert d in VisitBlock(b0, defs);
        } else {
          assert b in blocks[1..];
        }
      }
    }
  }

  /** A `locals` block contributes one definition per attribute, at the
      attribute's own range, and never itself. */
  lemma LocalsExpanded(b: Block, defs: seq<BlockDef>)
    requires b.kind == "locals"
    ensures |VisitBlock(b, defs)| == |b.body.attributes|
    ensures forall d :: d in VisitBlock(b, defs) ==>
      d.typ == "local" && d.synonym == "" && exists a :: a in b.body.attributes && d.name == a.name && d.rng == a.rng
  {
    forall d | d in VisitBlock(b, defs)
      ensures exists a :: a in b.body.attributes && d.name == a.name && d.rng == a.rng
    {
      var i :| 0 <= i < |VisitBlock(b, defs)| && VisitBlock(b, defs)[i] == d;
      assert b.body.attributes[i] in b.body.attributes;
    }
  }

  /** Only top-level blocks are visited: replacing the body of a block that
      is not `locals` changes nothing. */
  lemma NestedNotVisited(b: Block, body: Body, defs: seq<BlockDef>)
    requires b.kind != "locals"
    ensures VisitBlock(b.(body := body), defs) == VisitBlock(b, defs)
  {
  }

  /** Runs every check, in registration order, on one definition. */
  function RunChecks(d: Def, checks: seq<DefCheck>): (r: seq<Issue>)
    ensures |checks| == 1 ==> r == checks[0](d)
  {
    if |checks| == 0 then [] else checks[0](d) + RunChecks(d, checks[1..])
  }

  function RunAll(visits: seq<Def>, checks: seq<DefCheck>): seq<Issue> {
    if |visits| == 0 then [] else RunChecks(visits[0], checks) + RunAll(visits[1..], checks)
  }

  /** `WalkBlocks`: every registered check on every visited definition. */
  function WalkBlocks(files: seq<SourceFile>, defs: seq<BlockDef>, checks: seq<DefCheck>): seq<Issue> {
    RunAll(Visits(files, defs), checks)
  }

  /** With one check, the walk is that check applied to each visit in turn. */
  lemma {:induction false} WalkOneCheck(visits: seq<Def>, c: DefCheck)
    ensures RunAll(visits, [c]) == Concat(seq(|visits|, i requires 0 <= i < |visits| => c(visits[i])))
  {
    if |visits| > 0 {
      WalkOneCheck(visits[1..], c);
      var all := seq(|visits|, i requires 0 <= i < |visits| => c(visits[i]));
      assert all[1..] == seq(|visits[1..]|, i requires 0 <= i < |visits[1..]| => c(visits[1..][i]));
    }
  }

  /** Registering checks `a` then `b` emits what `a` alone and `b` alone
      emit together: each check runs once per visit, none is lost or added. */
  lemma {:induction false} WalkSplitChecks(visits: seq<Def>, a: seq<DefCheck>, b: seq<DefCheck>)
    ensures multiset(RunAll(visits, a + b)) == multiset(RunAll(visits, a)) + multiset(RunAll(visits, b))
  {
    if |visits| > 0 {
      WalkSplitChecks(visits[1..], a, b);
      RunChecksSplit(visits[0], a, b);
    }
  }

  lemma {:induction false} RunChecksSplit(d: Def, a: seq<DefCheck>, b: seq<DefCheck>)
    ensures RunChecks(d, a + b) == RunChecks(d, a) + RunChecks(d, b)
  {
    if |a| == 0 {
      assert a + b == b;
    } else {
      assert (a + b)[1..] == a[1..] + b;
      RunChecksSplit(d, a[1..], b);
    }
  }

  // ------------------------------------------------------------ tokens

  type TokenCheck = Token -> seq<Issue>

  function CheckTokens(tokens: seq<Token>, check: TokenCheck): seq<Issue> {
    if |tokens| == 0 then [] else check(tokens[0]) + CheckTokens(tokens[1..], check)
  }

  /** Every file lexes. */
  predicate AllLex(files: seq<SourceFile>) {
    forall i :: 0 <= i < |files| ==> files[i].tokens.Some?
  }

  /** `WalkTokens`: nothing outside the root module; otherwise each file's
      tokens in order, stopping with an error at the first file that does
      not lex. */
  function WalkTokens(isRoot: bool, files: seq<SourceFile>, check: TokenCheck): (r: Outcome)
    ensures !isRoot ==> r == Outcome([], false)
    ensures r.failed <==> isRoot && !AllLex(files)
  {
    if !isRoot then Outcome([], false) else FilePass(files, (_, toks) => CheckTokens(toks, check))
  }

  /** What a per-file pass does with one file: its name and its tokens. */
  type FileCheck = (string, seq<Token>) -> seq<Issue>

  /** A per-file token pass over `files` in order: each file's issues are
      emitted as it is checked, and the first file that does not lex ends
      the pass with an error. */
  function FilePass(files: seq<SourceFile>, check: FileCheck): (r: Outcome)
    ensures r.failed <==> !AllLex(files)
  {
    if |files| == 0 then Outcome([], false)
    else match files[0].tokens
      case None => Outcome([], true)
      case Some(toks) =>
        var rest := FilePass(files[1..], check);
        assert AllLex(files) <==> AllLex(files[1..]);
        Outcome(check(files[0].name, toks) + rest.issues, rest.failed)
  }

  /** When every file lexes, the pass is every file's check, in order. */
  lemma {:induction false} FilePassAll(files: seq<SourceFile>, check: FileCheck)
    requires AllLex(files)
    ensures FilePass(files, check).issues
      == Concat(seq(|files|, i requires 0 <= i < |files| && files[i].tokens.Some? => check(files[i].name, files[i].tokens.value)))
  {
    if |files| > 0 {
      FilePassAll(files[1..], check);
      var all := seq(|files|, i requires 0 <= i < |files| && files[i].tokens.Some? => check(files[i].name, files[i].tokens.value));
      assert all[1..] == seq(|files[1..]|, i requires 0 <= i < |files[1..]| && files[1..][i].tokens.Some? => check(files[1..][i].name, files[1..][i].tokens.value));
    }
  }

  /** The files before the first one that does not lex are all checked. */
  lemma {:induction false} FilePassPrefix(files: seq<SourceFile>, check: FileCheck, n: nat)
    requires n <= |files| && AllLex(files[..n])
    ensures FilePass(files[..n], check).issues <= FilePass(files, check).issues
  {
    if n > 0 {
      assert files[..n][1..] == files[1..][..n - 1];
      FilePassPrefix(files[1..], check, n - 1);
    }
  }

  /** A check that only ever looks at comment tokens sees nothing else. */
  lemma {:induction false} CheckTokensMember(tokens: seq<Token>, check: TokenCheck, i: Issue)
    ensures i in CheckTokens(tokens, check) <==> exists k :: 0 <= k < |tokens| && i in check(tokens[k])
  {
    if |tokens| > 0 {
      CheckTokensMember(tokens[1..], check, i);
      if exists k :: 0 <= k < |tokens| && i in check(tokens[k]) {
        var k :| 0 <= k < |tokens| && i in check(tokens[k]);
        if k > 0 {
          assert tokens[1..][k - 1] == tokens[k];
        }
      }
    }
  }
}
