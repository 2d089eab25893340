/** The type-echo check: a definition's name repeats a word of its type,
    either directly or through a configured synonym. */
module TypeEcho {
  import opened Wrappers
  import opened Syntax
  import opened Issues
  import opened Text
  import Walk

  /** Where synonyms come from: `None` when they are not consulted at all,
      otherwise the per-word synonym lists (a missing word has none). */
  type Synonyms = Option<map<string, seq<string>>>

  /** The synonyms tried for one word of the type: the configured list for
      the word, then the walker's synonym when it is non-empty. */
  function SynonymsFor(syns: Synonyms, part: string, walkerSynonym: string): (r: seq<string>)
    ensures syns.None? ==> r == []
    ensures syns.Some? ==> forall s :: s in r <==>
      ((part in syns.value && s in syns.value[part]) || (s == walkerSynonym && s != ""))
  {
    match syns
    case None => []
    case Some(m) =>
      (if part in m then m[part] else []) + (if walkerSynonym != "" then [walkerSynonym] else [])
  }

  function Via(syn: string): string {
    " (via synonym '" + syn + "')"
  }

  /** Some piece of the name contains the synonym. */
  predicate InSomePiece(pieces: seq<string>, syn: string) {
    exists n :: n in pieces && Contains(n, syn)
  }

  /** How a synonym is looked for in the name: inside some piece of the
      name, or as one of its whole words. */
  datatype Matcher = InPieces(pieces: seq<string>) | AsWord(name: string)

  predicate Hits(m: Matcher, syn: string) {
    match m
    case InPieces(pieces) => InSomePiece(pieces, syn)
    case AsWord(name) => WordMatch(name, syn)
  }

  /** What the scan has found so far: whether there is an echo, and the
      synonym suffix of the message. */
  datatype Found = Found(echo: bool, suffix: string)

  /** Index `i` holds the first synonym of the list that the name hits. */
  predicate FirstHit(syns: seq<string>, m: Matcher, i: int) {
    0 <= i < |syns| && Hits(m, syns[i]) && forall k :: 0 <= k < i ==> !Hits(m, syns[k])
  }

  /** The synonym loop for one word: the first synonym the name hits sets
      the echo and the suffix; once an echo is known, including one found
      for an earlier word, the loop stops after the first synonym. */
  function SynonymLoop(syns: seq<string>, m: Matcher, f: Found): (r: Found)
    ensures r.echo <==> f.echo || exists s :: s in syns && Hits(m, s)
    ensures !f.echo && !r.echo ==> r == f
    ensures !f.echo && r.echo ==> exists i :: FirstHit(syns, m, i) && r.suffix == Via(syns[i])
    ensures f.echo ==> r.suffix == f.suffix || (|syns| > 0 && Hits(m, syns[0]) && r.suffix == Via(syns[0]))
  {
    if |syns| == 0 then f
    else
      var g := if Hits(m, syns[0]) then Found(true, Via(syns[0])) else f;
      if g.echo then
        assert !f.echo && g != f ==> FirstHit(syns, m, 0);
        g
      else
        var r := SynonymLoop(syns[1..], m, g);
        assert forall s :: s in syns <==> s == syns[0] || s in syns[1..];
        FirstHitShift(syns, m, r);
        r
  }

  /** A first hit after a first synonym the name misses is a first hit of
      the whole list, one place later. */
  lemma FirstHitShift(syns: seq<string>, m: Matcher, r: Found)
    requires |syns| > 0 && !Hits(m, syns[0])
    requires r.echo ==> exists i :: FirstHit(syns[1..], m, i) && r.suffix == Via(syns[1..][i])
    ensures r.echo ==> exists i :: FirstHit(syns, m, i) && r.suffix == Via(syns[i])
  {
    if r.echo {
      var i :| FirstHit(syns[1..], m, i) && r.suffix == Via(syns[1..][i]);
      assert FirstHit(syns, m, i + 1);
    }
  }

  /** The word at index `k` of the type is echoed directly. */
  predicate Direct(parts: seq<string>, name: string, k: int) {
    0 <= k < |parts| && Contains(name, parts[k])
  }

  /** The word at index `k` has a synonym the name hits. */
  predicate SynonymHit(syns: Synonyms, walkerSynonym: string, parts: seq<string>, m: Matcher, k: int) {
    0 <= k < |parts| && exists s :: s in SynonymsFor(syns, parts[k], walkerSynonym) && Hits(m, s)
  }

  /** The word at index `k` is echoed, directly or through a synonym. */
  predicate Echoed(syns: Synonyms, walkerSynonym: string, parts: seq<string>, name: string, m: Matcher, k: int) {
    Direct(parts, name, k) || SynonymHit(syns, walkerSynonym, parts, m, k)
  }

  /** The scan reaches the word at index `j` from index `k`, no word on the
      way being echoed directly, and that word has a synonym the name hits. */
  predicate Reached(syns: Synonyms, walkerSynonym: string, parts: seq<string>, name: string, m: Matcher, k: int, j: int) {
    k <= j && SynonymHit(syns, walkerSynonym, parts, m, j)
    && forall i :: k <= i <= j ==> !Direct(parts, name, i)
  }

  /** A suffix is either empty or names a synonym of some word of the type
      that the name hits. */
  ghost predicate SuffixNamed(syns: Synonyms, walkerSynonym: string, parts: seq<string>, m: Matcher, suffix: string) {
    suffix == "" ||
    exists j, s :: 0 <= j < |parts| && s in SynonymsFor(syns, parts[j], walkerSynonym) && Hits(m, s) && suffix == Via(s)
  }

  /** The scan over the type's words from index `k`: a direct echo stops it,
      otherwise the word's synonyms are tried and the scan goes on. */
  function Scan(syns: Synonyms, walkerSynonym: string, parts: seq<string>, name: string,
                m: Matcher, k: nat, f: Found): (r: Found)
    requires k <= |parts| && SuffixNamed(syns, walkerSynonym, parts, m, f.suffix)
    decreases |parts| - k
    ensures r.echo <==> f.echo || exists j :: k <= j && Echoed(syns, walkerSynonym, parts, name, m, j)
    ensures SuffixNamed(syns, walkerSynonym, parts, m, r.suffix)
    ensures (f.echo ==> f.suffix != "") ==>
      (r.suffix == "" <==> f.suffix == "" && !exists j :: Reached(syns, walkerSynonym, parts, name, m, k, j))
  {
    if k == |parts| then f
    else if Contains(name, parts[k]) then
      assert Echoed(syns, walkerSynonym, parts, name, m, k);
      DirectBlocks(syns, walkerSynonym, parts, name, m, k);
      Found(true, f.suffix)
    else
      var g := SynonymLoop(SynonymsFor(syns, parts[k], walkerSynonym), m, f);
      assert g.echo <==> f.echo || Echoed(syns, walkerSynonym, parts, name, m, k);
      LoopSuffixNamed(syns, walkerSynonym, parts, m, k, f, g);
      var r := Scan(syns, walkerSynonym, parts, name, m, k + 1, g);
      assert (exists j :: k <= j && Echoed(syns, walkerSynonym, parts, name, m, j))
        <==> Echoed(syns, walkerSynonym, parts, name, m, k)
             || exists j :: k + 1 <= j && Echoed(syns, walkerSynonym, parts, name, m, j);
      if SynonymHit(syns, walkerSynonym, parts, m, k) then
        assert Reached(syns, walkerSynonym, parts, name, m, k, k);
        r
      else
        ReachedStep(syns, walkerSynonym, parts, name, m, k, k + 1);
        r
  }

  /** A word echoed directly at `k` stops the scan before any synonym. */
  lemma DirectBlocks(syns: Synonyms, walkerSynonym: string, parts: seq<string>, name: string, m: Matcher, k: int)
    requires Direct(parts, name, k)
    ensures !exists j :: Reached(syns, walkerSynonym, parts, name, m, k, j)
  {
    forall j
      ensures !Reached(syns, walkerSynonym, parts, name, m, k, j)
    {
      assert Direct(parts, name, k);
    }
  }

  /** A word echoed neither way is passed over on the way to a hit. */
  lemma ReachedStep(syns: Synonyms, walkerSynonym: string, parts: seq<string>, name: string, m: Matcher, k: int, next: int)
    requires next == k + 1
    requires !Direct(parts, name, k) && !SynonymHit(syns, walkerSynonym, parts, m, k)
    ensures (exists j :: Reached(syns, walkerSynonym, parts, name, m, k, j))
        <==> exists j :: Reached(syns, walkerSynonym, parts, name, m, next, j)
  {
    if exists j :: Reached(syns, walkerSynonym, parts, name, m, k, j) {
      var j :| Reached(syns, walkerSynonym, parts, name, m, k, j);
      ReachedDrop(syns, walkerSynonym, parts, name, m, k, next, j);
    }
    if exists j :: Reached(syns, walkerSynonym, parts, name, m, next, j) {
      var j :| Reached(syns, walkerSynonym, parts, name, m, next, j);
      ReachedExtend(syns, walkerSynonym, parts, name, m, k, next, j);
    }
  }

  lemma ReachedDrop(syns: Synonyms, walkerSynonym: string, parts: seq<string>, name: string, m: Matcher, k: int, next: int, j: int)
    requires next == k + 1 && !SynonymHit(syns, walkerSynonym, parts, m, k)
    requires Reached(syns, walkerSynonym, parts, name, m, k, j)
    ensures Reached(syns, walkerSynonym, parts, name, m, next, j)
  {
  }

  lemma ReachedExtend(syns: Synonyms, walkerSynonym: string, parts: seq<string>, name: string, m: Matcher, k: int, next: int, j: int)
    requires next == k + 1 && !Direct(parts, name, k)
    requires Reached(syns, walkerSynonym, parts, name, m, next, j)
    ensures Reached(syns, walkerSynonym, parts, name, m, k, j)
  {
  }

  /** The suffix after one word's synonym loop still names a hit synonym,
      and is non-empty once an echo is known. */
  lemma LoopSuffixNamed(syns: Synonyms, walkerSynonym: string, parts: seq<string>, m: Matcher, k: int, f: Found, g: Found)
    requires 0 <= k < |parts| && SuffixNamed(syns, walkerSynonym, parts, m, f.suffix)
    requires g == SynonymLoop(SynonymsFor(syns, parts[k], walkerSynonym), m, f)
    ensures SuffixNamed(syns, walkerSynonym, parts, m, g.suffix)
    ensures f.suffix != "" ==> g.suffix != ""
    ensures (f.echo ==> f.suffix != "") ==> (g.echo ==> g.suffix != "")
  {
    var l := SynonymsFor(syns, parts[k], walkerSynonym);
    if g.suffix != f.suffix {
      var i: int;
      if f.echo {
        i := 0;
      } else {
        i :| FirstHit(l, m, i) && g.suffix == Via(l[i]);
      }
      assert g.suffix == Via(l[i]) && l[i] in l && Hits(m, l[i]);
    }
  }

  /** The words of the type and the pieces of the name, both lower-cased;
      the name is cut at the two-character text `_-`. */
  function Parts(typ: string): seq<string> {
    Split(ToLower(typ), "_")
  }

  function Pieces(name: string): seq<string> {
    Split(ToLower(name), "_-")
  }

  /** How the check looks for synonyms: inside the pieces of the name. */
  function AsWritten(name: string): Matcher {
    InPieces(Pieces(name))
  }

  /** Some word of the definition's type is echoed by its name, with
      synonyms looked for by `m`. */
  ghost predicate EchoesVia(syns: Synonyms, d: Walk.Def, m: Matcher) {
    exists j :: Echoed(syns, d.synonym, Parts(d.typ), ToLower(d.name), m, j)
  }

  /** Some word of the definition's type is echoed by its name. */
  ghost predicate Echoes(syns: Synonyms, d: Walk.Def) {
    EchoesVia(syns, d, AsWritten(d.name))
  }

  /** The scan reaches, with no direct echo on the way, a word of the
      type that has a synonym `m` finds in the name. */
  ghost predicate SynonymReached(syns: Synonyms, d: Walk.Def, m: Matcher) {
    exists j :: Reached(syns, d.synonym, Parts(d.typ), ToLower(d.name), m, 0, j)
  }

  /** The scan of a definition's type words from the first, with nothing
      found yet, for a given way of matching synonyms. */
  function ScanDef(syns: Synonyms, d: Walk.Def, m: Matcher): (r: Found)
    ensures r.echo <==> EchoesVia(syns, d, m)
    ensures SuffixNamed(syns, d.synonym, Parts(d.typ), m, r.suffix)
    ensures r.suffix == "" <==> !SynonymReached(syns, d, m)
  {
    var parts, name := Parts(d.typ), ToLower(d.name);
    var r := Scan(syns, d.synonym, parts, name, m, 0, Found(false, ""));
    EchoedFromZero(r.echo, syns, d.synonym, parts, name, m);
    r
  }

  /** The outcome of the check on one definition: whether the name echoes
      the type, and the synonym suffix, which is empty exactly when the
      scan reaches no word with a synonym found in the name. */
  function Echo(syns: Synonyms, d: Walk.Def): (r: Found)
    ensures r.echo <==> Echoes(syns, d)
    ensures SuffixNamed(syns, d.synonym, Parts(d.typ), AsWritten(d.name), r.suffix)
    ensures r.suffix == "" <==> !SynonymReached(syns, d, AsWritten(d.name))
  {
    ScanDef(syns, d, AsWritten(d.name))
  }

  /** Echoed words have indices, so none lies before the first. */
  lemma EchoedFromZero(b: bool, syns: Synonyms, walkerSynonym: string, parts: seq<string>, name: string, m: Matcher)
    requires b <==> false || exists j :: 0 <= j && Echoed(syns, walkerSynonym, parts, name, m, j)
    ensures b <==> exists j :: Echoed(syns, walkerSynonym, parts, name, m, j)
  {
    if exists j :: Echoed(syns, walkerSynonym, parts, name, m, j) {
      var j :| Echoed(syns, walkerSynonym, parts, name, m, j);
      assert 0 <= j && Echoed(syns, walkerSynonym, parts, name, m, j);
    }
    if exists j :: 0 <= j && Echoed(syns, walkerSynonym, parts, name, m, j) {
      var j :| 0 <= j && Echoed(syns, walkerSynonym, parts, name, m, j);
      assert Echoed(syns, walkerSynonym, parts, name, m, j);
    }
  }

  function Message(typ: string, suffix: string, name: string): string {
    "Avoid echoing type \"" + typ + "\"" + suffix + " in label \"" + name + "\"."
  }

  /** At most one issue, at the definition's range, exactly when the name
      echoes a word of the type. */
  function EchoIssues(syns: Synonyms, d: Walk.Def): (r: seq<Issue>)
    ensures |r| <= 1
    ensures |r| == 1 <==> Echo(syns, d).echo
    ensures |r| == 1 ==> r[0] == TextIssue(Message(d.typ, Echo(syns, d).suffix, d.name), d.rng)
  {
    var f := Echo(syns, d);
    if f.echo then [TextIssue(Message(d.typ, f.suffix, d.name), d.rng)] else []
  }

  function EchoCheck(syns: Synonyms): Walk.DefCheck {
    d => EchoIssues(syns, d)
  }

  /** Whether the echo is found does not depend on letter case. */
  lemma EchoIgnoresCase(syns: Synonyms, d: Walk.Def)
    ensures Echo(syns, d.(typ := ToLower(d.typ), name := ToLower(d.name))).echo == Echo(syns, d).echo
  {
    LowerIdempotent(d.typ);
    LowerIdempotent(d.name);
  }

  /** Without synonyms a word is echoed only directly. */
  lemma NoSynonymsNoHit(walkerSynonym: string, parts: seq<string>, name: string, m: Matcher, j: int)
    ensures Echoed(None, walkerSynonym, parts, name, m, j) <==> Direct(parts, name, j)
  {
    if 0 <= j < |parts| {
      assert SynonymsFor(None, parts[j], walkerSynonym) == [];
    }
  }

  /** Without synonyms only direct echoes count. */
  lemma NoSynonymsDirectOnly(d: Walk.Def)
    ensures Echo(None, d).echo ==> exists j :: Direct(Parts(d.typ), ToLower(d.name), j)
    ensures (exists j :: Direct(Parts(d.typ), ToLower(d.name), j)) ==> Echo(None, d).echo
  {
    var parts, name, pieces := Parts(d.typ), ToLower(d.name), AsWritten(d.name);
    if Echo(None, d).echo {
      var j :| Echoed(None, d.synonym, parts, name, pieces, j);
      NoSynonymsNoHit(d.synonym, parts, name, pieces, j);
      assert Direct(parts, name, j);
    }
    if exists j :: Direct(parts, name, j) {
      var j :| Direct(parts, name, j);
      assert Echoed(None, d.synonym, parts, name, pieces, j);
      assert Echo(None, d).echo;
    }
    assert Echo(None, d).echo ==> exists j :: Direct(parts, name, j);
    assert (exists j :: Direct(parts, name, j)) ==> Echo(None, d).echo;
  }

  /** Synonyms only ever add echoes. */
  lemma SynonymsOnlyAdd(m: map<string, seq<string>>, d: Walk.Def)
    ensures Echo(None, d).echo ==> Echo(Some(m), d).echo
  {
    var parts, name, pieces := Parts(d.typ), ToLower(d.name), AsWritten(d.name);
    if Echo(None, d).echo {
      var j :| Echoed(None, d.synonym, parts, name, pieces, j);
      NoSynonymsNoHit(d.synonym, parts, name, pieces, j);
      assert Echoed(Some(m), d.synonym, parts, name, pieces, j);
    }
  }

  // ------------------------------------------------------------- the rule

  datatype Config = Config(enabled: Option<bool>, synonyms: Option<map<string, seq<string>>>)

  /** The older rule consults the synonym map always (an unset map has no
      entries); the naming rule's type-echo part consults it only when the
      `type_echo` block sets one. */
  function LegacySynonyms(synonyms: Option<map<string, seq<string>>>): (r: Synonyms)
    ensures r.Some?
  {
    Some(synonyms.GetOr(map[]))
  }

  /** The older rule: one check, no `enabled` gate. */
  function LegacyCheck(cfg: Config, files: seq<SourceFile>): seq<Issue> {
    Walk.WalkBlocks(files, Walk.AllLintableBlocks, [EchoCheck(LegacySynonyms(cfg.synonyms))])
  }

  /** The older rule always tries the walker's synonym: a name piece that
      contains it is an echo even with no synonym map configured. */
  lemma LegacyUsesWalkerSynonym(synonyms: Option<map<string, seq<string>>>, d: Walk.Def)
    requires d.synonym != "" && InSomePiece(Pieces(d.name), d.synonym)
    ensures Echo(LegacySynonyms(synonyms), d).echo
  {
    var parts := Parts(d.typ);
    assert |parts| >= 1;
    assert d.synonym in SynonymsFor(LegacySynonyms(synonyms), parts[0], d.synonym);
    assert Echoed(LegacySynonyms(synonyms), d.synonym, parts, ToLower(d.name), AsWritten(d.name), 0);
  }

  // --------------------------------------- intended: synonyms on word boundaries

  // The synonym loop is meant to match on word boundaries, so that a
  // synonym `bkt` matches `my_bkt` but not `mybkt`. The name is cut at the
  // two-character text `_-`, which plain names never contain, so each
  // synonym is looked for anywhere in the whole name.

  predicate WordSep(c: char) {
    c == '_' || c == '-'
  }

  /** `w` is a whole word of `s` at index `i`: it occurs there, has no
      separator in it, and has a separator or an end of `s` on each side. */
  predicate WordAt(s: string, w: string, i: int) {
    |w| > 0 && OccursAt(s, w, i)
    && (forall k :: 0 <= k < |w| ==> !WordSep(w[k]))
    && (i == 0 || WordSep(s[i - 1]))
    && (i + |w| == |s| || WordSep(s[i + |w|]))
  }

  /** Corrected: the synonym is one of the words of the lower-cased name. */
  predicate WordMatch(name: string, syn: string) {
    exists i :: 0 <= i < |name| && WordAt(ToLower(name), syn, i)
  }

  /** A lower-case name is its own lower case. */
  lemma LowerKeeps(s: string)
    requires forall k :: 0 <= k < |s| ==> IsAsciiLower(s[k]) || IsAsciiDigit(s[k]) || WordSep(s[k])
    ensures ToLower(s) == s
  {
  }

  /** A name without `-` is never cut. */
  lemma NoDashOnePiece(name: string)
    requires forall k :: 0 <= k < |name| ==> name[k] != '-'
    ensures Pieces(name) == [ToLower(name)]
  {
    NoDashNoCut(name);
    NoOccurrence(ToLower(name), "_-");
    SplitWhole(ToLower(name), "_-");
  }

  lemma NoDashNoCut(name: string)
    requires forall k :: 0 <= k < |name| ==> name[k] != '-'
    ensures forall i :: !OccursAt(ToLower(name), "_-", i)
  {
    var l := ToLower(name);
    forall i
      ensures !OccursAt(l, "_-", i)
    {
      if 0 <= i && i + 2 <= |l| {
        assert l[i..i + 2][1] == l[i + 1] == LowerChar(name[i + 1]) != '-';
      }
    }
  }

  /** Corrected: the check with synonyms matched as whole words of the
      name, everything else as written. */
  function EchoIntended(syns: Synonyms, d: Walk.Def): (r: Found)
    ensures r.echo <==> EchoesVia(syns, d, AsWord(d.name))
    ensures SuffixNamed(syns, d.synonym, Parts(d.typ), AsWord(d.name), r.suffix)
    ensures r.suffix == "" <==> !SynonymReached(syns, d, AsWord(d.name))
  {
    ScanDef(syns, d, AsWord(d.name))
  }

  /** Corrected: the issues of the check with whole-word synonyms. */
  function IntendedIssues(syns: Synonyms, d: Walk.Def): (r: seq<Issue>)
    ensures |r| <= 1
    ensures |r| == 1 <==> EchoIntended(syns, d).echo
    ensures |r| == 1 ==> r[0] == TextIssue(Message(d.typ, EchoIntended(syns, d).suffix, d.name), d.rng)
  {
    var f := EchoIntended(syns, d);
    if f.echo then [TextIssue(Message(d.typ, f.suffix, d.name), d.rng)] else []
  }

  /** Without a synonyms table the way synonyms are matched is irrelevant:
      the corrected check agrees with the check as written. */
  lemma IntendedAgreesWithoutSynonyms(d: Walk.Def)
    ensures EchoIntended(None, d) == Echo(None, d)
    ensures IntendedIssues(None, d) == EchoIssues(None, d)
  {
    var parts, name := Parts(d.typ), ToLower(d.name);
    SameWithoutSynonyms(d.synonym, parts, name, AsWord(d.name), AsWritten(d.name));
    NeverReachedWithoutSynonyms(d, AsWord(d.name));
    NeverReachedWithoutSynonyms(d, AsWritten(d.name));
  }

  lemma SameWithoutSynonyms(walkerSynonym: string, parts: seq<string>, name: string, m1: Matcher, m2: Matcher)
    ensures (exists j :: Echoed(None, walkerSynonym, parts, name, m1, j))
        <==> exists j :: Echoed(None, walkerSynonym, parts, name, m2, j)
  {
    if exists j :: Echoed(None, walkerSynonym, parts, name, m1, j) {
      var j :| Echoed(None, walkerSynonym, parts, name, m1, j);
      NoSynonymsNoHit(walkerSynonym, parts, name, m1, j);
      NoSynonymsNoHit(walkerSynonym, parts, name, m2, j);
    }
    if exists j :: Echoed(None, walkerSynonym, parts, name, m2, j) {
      var j :| Echoed(None, walkerSynonym, parts, name, m2, j);
      NoSynonymsNoHit(walkerSynonym, parts, name, m1, j);
      NoSynonymsNoHit(walkerSynonym, parts, name, m2, j);
    }
  }

  lemma NeverReachedWithoutSynonyms(d: Walk.Def, m: Matcher)
    ensures !SynonymReached(None, d, m)
  {
    forall j | 0 <= j < |Parts(d.typ)|
      ensures !SynonymHit(None, d.synonym, Parts(d.typ), m, j)
    {
      assert SynonymsFor(None, Parts(d.typ)[j], d.synonym) == [];
    }
  }

  /** A whole word of the name lies inside one of its pieces, since no
      `_-` can overlap a word without separators. */
  lemma WordInPiece(name: string, syn: string)
    requires WordMatch(name, syn)
    ensures InSomePiece(Pieces(name), syn)
  {
    var l := ToLower(name);
    var i :| 0 <= i < |name| && WordAt(l, syn, i);
    WordApart(l, syn, i);
    InsidePiece(l, "_-", syn, i);
    var k :| 0 <= k < |Pieces(name)| && Contains(Pieces(name)[k], syn);
    assert Pieces(name)[k] in Pieces(name);
  }

  /** No `_-` overlaps a whole word. */
  lemma WordApart(l: string, syn: string, i: int)
    requires WordAt(l, syn, i)
    ensures forall p :: OccursAt(l, "_-", p) ==> p + 2 <= i || i + |syn| <= p
  {
    WordHasNoSeparator(l, syn, i);
    forall p | OccursAt(l, "_-", p)
      ensures p + 2 <= i || i + |syn| <= p
    {
      assert l[p..p + 2][0] == l[p] && l[p..p + 2][1] == l[p + 1];
    }
  }

  lemma WordHasNoSeparator(l: string, syn: string, i: int)
    requires WordAt(l, syn, i)
    ensures forall k :: i <= k < i + |syn| ==> !WordSep(l[k])
  {
    forall k | i <= k < i + |syn|
      ensures !WordSep(l[k])
    {
      assert l[k] == l[i..i + |syn|][k - i] == syn[k - i];
    }
  }

  /** The correction only removes reports: whatever the corrected check
      reports, the check as written reports too. */
  lemma IntendedOnlyRemoves(syns: Synonyms, d: Walk.Def)
    ensures EchoIntended(syns, d).echo ==> Echo(syns, d).echo
  {
    var parts, name := Parts(d.typ), ToLower(d.name);
    if EchoIntended(syns, d).echo {
      var j :| Echoed(syns, d.synonym, parts, name, AsWord(d.name), j);
      if !Direct(parts, name, j) {
        var s :| s in SynonymsFor(syns, parts[j], d.synonym) && Hits(AsWord(d.name), s);
        WordInPiece(d.name, s);
        assert Hits(AsWritten(d.name), s);
      }
      assert Echoed(syns, d.synonym, parts, name, AsWritten(d.name), j);
    }
  }

  // ----------------------------------------- the glued-synonym example

  /** The synonyms table of the example: `bkt` stands for `bucket`. */
  function BucketSynonyms(): Synonyms {
    Some(map["bucket" := ["bkt"]])
  }

  /** `bkt` is the only synonym of any word, given no walker synonym. */
  lemma OnlyBkt(part: string, s: string)
    requires s in SynonymsFor(BucketSynonyms(), part, "")
    ensures s == "bkt"
  {
  }

  /** The type `aws_s3_bucket` has the words `aws`, `s3` and `bucket`. */
  lemma BucketParts(t: string)
    requires t == "aws_s3_bucket"
    ensures Parts(t) == ["aws", "s3", "bucket"]
  {
    BucketLower(t);
    BucketSplit(t);
  }

  lemma BucketLower(t: string)
    requires t == "aws_s3_bucket"
    ensures ToLower(t) == t
  {
    var a, b := "aws_s3", "_bucket";
    assert t == a + b;
    LowerKeeps(a);
    LowerKeeps(b);
    LowerAppend(a, b);
  }

  lemma LowerAppend(a: string, b: string)
    ensures ToLower(a + b) == ToLower(a) + ToLower(b)
  {
  }

  lemma BucketSplit(t: string)
    requires t == "aws_s3_bucket"
    ensures Split(t, "_") == ["aws", "s3", "bucket"]
  {
    var p: seq<string> := ["aws", "s3", "bucket"];
    NoUnderscore(p[0]);
    NoUnderscore(p[1]);
    NoUnderscore(p[2]);
    assert Join(p, "_") == t by {
      assert Join(p[2..], "_") == p[2];
      assert Join(p[1..], "_") == p[1] + "_" + p[2];
    }
    SplitJoin(p, "_");
  }

  lemma NoUnderscore(w: string)
    requires w in ["aws", "s3", "bucket"]
    ensures !Contains(w, "_")
  {
    NotContained(w, "_");
  }

  /** The example definitions: type `aws_s3_bucket`, name `n`, and no
      walker synonym. */
  predicate IsBucketDef(d: Walk.Def, n: string) {
    d.typ == "aws_s3_bucket" && d.name == n && d.synonym == ""
  }

  /** No word of `aws_s3_bucket` occurs in the name `n`, which has no `a`,
      no `s`, and no `b` six letters from its end. */
  lemma NoDirect(t: string, n: string)
    requires t == "aws_s3_bucket" && (n == "mybkt" || n == "my_bkt")
    ensures forall j :: !Direct(Parts(t), n, j)
  {
    BucketParts(t);
    NotContained(n, "aws");
    NotContained(n, "s3");
    NotContained(n, "bucket");
  }

  /** For the example, any hit synonym is `bkt`, for the word `bucket`,
      and a hit makes the suffix name it. */
  lemma BucketSuffix(d: Walk.Def, m: Matcher)
    requires IsBucketDef(d, "mybkt") || IsBucketDef(d, "my_bkt")
    requires ToLower(d.name) == d.name && Hits(m, "bkt")
    ensures ScanDef(BucketSynonyms(), d, m) == Found(true, Via("bkt"))
  {
    BucketReached(d, m);
    var r := ScanDef(BucketSynonyms(), d, m);
    OnlyBktSuffix(Parts(d.typ), m, r.suffix);
  }

  /** The scan reaches `bucket`, the third word, with no direct echo on the
      way, and finds `bkt` there. */
  lemma BucketReached(d: Walk.Def, m: Matcher)
    requires IsBucketDef(d, "mybkt") || IsBucketDef(d, "my_bkt")
    requires ToLower(d.name) == d.name && Hits(m, "bkt")
    ensures SynonymReached(BucketSynonyms(), d, m) && EchoesVia(BucketSynonyms(), d, m)
  {
    BucketParts(d.typ);
    NoDirect(d.typ, d.name);
    ReachedThird(Parts(d.typ), d.name, m);
  }

  lemma ReachedThird(parts: seq<string>, name: string, m: Matcher)
    requires parts == ["aws", "s3", "bucket"] && Hits(m, "bkt")
    requires forall j :: !Direct(parts, name, j)
    ensures Reached(BucketSynonyms(), "", parts, name, m, 0, 2)
    ensures Echoed(BucketSynonyms(), "", parts, name, m, 2)
  {
    assert SynonymsFor(BucketSynonyms(), parts[2], "") == ["bkt"];
  }

  /** A suffix naming a synonym from the example's table names `bkt`. */
  lemma OnlyBktSuffix(parts: seq<string>, m: Matcher, suffix: string)
    requires SuffixNamed(BucketSynonyms(), "", parts, m, suffix) && suffix != ""
    ensures suffix == Via("bkt")
  {
    var j, s :| 0 <= j < |parts| && s in SynonymsFor(BucketSynonyms(), parts[j], "") && Hits(m, s) && suffix == Via(s);
    OnlyBkt(parts[j], s);
  }

  /** As written: the name `mybkt` has the synonym `bkt` of `bucket` only
      glued to other letters, yet the check reports the echo through it. */
  lemma SynonymSplitAsWritten(d: Walk.Def)
    requires IsBucketDef(d, "mybkt")
    ensures EchoIssues(BucketSynonyms(), d)
      == [TextIssue("Avoid echoing type \"aws_s3_bucket\" (via synonym 'bkt') in label \"mybkt\".", d.rng)]
  {
    GluedHit(d.name);
    BucketSuffix(d, AsWritten(d.name));
    assert EchoIssues(BucketSynonyms(), d) == [TextIssue(Message(d.typ, Via("bkt"), d.name), d.rng)];
    BucketMessage(d.typ, d.name);
  }

  /** The message for the examples, spelled out. */
  lemma BucketMessage(t: string, n: string)
    requires t == "aws_s3_bucket" && (n == "mybkt" || n == "my_bkt")
    ensures n == "mybkt" ==>
      Message(t, Via("bkt"), n) == "Avoid echoing type \"aws_s3_bucket\" (via synonym 'bkt') in label \"mybkt\"."
    ensures n == "my_bkt" ==>
      Message(t, Via("bkt"), n) == "Avoid echoing type \"aws_s3_bucket\" (via synonym 'bkt') in label \"my_bkt\"."
  {
    BucketPrefix(t);
  }

  lemma BucketPrefix(t: string)
    requires t == "aws_s3_bucket"
    ensures "Avoid echoing type \"" + t + "\"" + Via("bkt") + " in label \""
      == "Avoid echoing type \"aws_s3_bucket\" (via synonym 'bkt') in label \""
  {
    BucketQuoted(t);
    BktVia();
  }

  lemma BucketQuoted(t: string)
    requires t == "aws_s3_bucket"
    ensures "Avoid echoing type \"" + t + "\"" == "Avoid echoing type \"aws_s3_bucket\""
  {
  }

  lemma BktVia()
    ensures Via("bkt") == " (via synonym 'bkt')"
  {
  }

  lemma GluedHit(n: string)
    requires n == "mybkt"
    ensures ToLower(n) == n && Hits(AsWritten(n), "bkt")
  {
    LowerKeeps(n);
    NoDashOnePiece(n);
    assert OccursAt(n, "bkt", 2);
    ContainsAt(n, "bkt", 2);
  }

  /** Corrected: `mybkt` has no word `bkt`, so nothing is reported. */
  lemma GluedSynonymIgnored(d: Walk.Def)
    requires IsBucketDef(d, "mybkt")
    ensures IntendedIssues(BucketSynonyms(), d) == []
  {
    LowerKeeps(d.name);
    NoDirect(d.typ, d.name);
    BktNotAWord(d.name);
    NoBucketEcho(Parts(d.typ), d.name, AsWord(d.name));
  }

  /** With no direct echo and `bkt` not found, nothing is echoed. */
  lemma NoBucketEcho(parts: seq<string>, name: string, m: Matcher)
    requires (forall j :: !Direct(parts, name, j)) && !Hits(m, "bkt")
    ensures !exists j :: Echoed(BucketSynonyms(), "", parts, name, m, j)
  {
    forall j | Echoed(BucketSynonyms(), "", parts, name, m, j)
      ensures false
    {
      var s :| s in SynonymsFor(BucketSynonyms(), parts[j], "") && Hits(m, s);
      OnlyBkt(parts[j], s);
    }
  }

  /** `bkt` is not a word of `mybkt`: its only `b` follows a letter. */
  lemma BktNotAWord(n: string)
    requires n == "mybkt"
    ensures !WordMatch(n, "bkt")
  {
    LowerKeeps(n);
    forall i | 0 <= i < |n|
      ensures !WordAt(n, "bkt", i)
    {
      if i != 2 {
        assert n[i] != 'b';
        assert i + 3 <= |n| ==> n[i..i + 3][0] == n[i];
      }
    }
  }

  /** Corrected: where `bkt` is a word of the name, the echo is reported
      through it. */
  lemma SpacedSynonymFound(d: Walk.Def)
    requires IsBucketDef(d, "my_bkt")
    ensures IntendedIssues(BucketSynonyms(), d)
      == [TextIssue("Avoid echoing type \"aws_s3_bucket\" (via synonym 'bkt') in label \"my_bkt\".", d.rng)]
  {
    SpacedHit(d.name);
    BucketSuffix(d, AsWord(d.name));
    assert IntendedIssues(BucketSynonyms(), d) == [TextIssue(Message(d.typ, Via("bkt"), d.name), d.rng)];
    BucketMessage(d.typ, d.name);
  }

  lemma SpacedHit(n: string)
    requires n == "my_bkt"
    ensures ToLower(n) == n && Hits(AsWord(n), "bkt")
  {
    LowerKeeps(n);
    assert OccursAt(n, "bkt", 3);
    assert WordAt(n, "bkt", 3);
  }

  /** The word-boundary reading: `s3` is a word of `my_s3` and not of
      `mys3`. */
  lemma SynonymOnWordBoundaries()
    ensures WordMatch("my_s3", "s3")
    ensures !WordMatch("mys3", "s3")
  {
    SpacedWord("my_s3");
    NotAWord("mys3");
  }

  lemma NotAWord(n: string)
    requires n == "mys3"
    ensures !WordMatch(n, "s3")
  {
    LowerKeeps(n);
    forall i | 0 <= i < |n|
      ensures !WordAt(n, "s3", i)
    {
      if i == 2 {
        assert !WordSep(n[1]);
      } else {
        assert n[i] != 's';
        assert i + 2 <= |n| ==> n[i..i + 2][0] == n[i];
      }
    }
  }

  lemma SpacedWord(n: string)
    requires n == "my_s3"
    ensures WordMatch(n, "s3")
  {
    LowerKeeps(n);
    assert OccursAt(n, "s3", 3);
    assert WordAt(n, "s3", 3);
  }
}
