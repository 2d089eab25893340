/** The naming rule: name length, shouted names, snake_case and type echo,
    each a check on the walker's definitions, chosen from the configuration. */
module Naming {
  import opened Wrappers
  import opened Syntax
  import opened Issues
  import opened Text
  import TypeEcho
  import Walk

  const DefaultLimit := 16

  // -------------------------------------------------------------- length

  function LengthMessage(limit: int, name: string): string {
    "Avoid names longer than " + IntToString(limit) + " ('" + name + "' is " + IntToString(Utf8Len(name)) + ")."
  }

  /** `checkNameLength`: the name's byte length is over the limit. */
  function LengthIssues(limit: int, d: Walk.Def): (r: seq<Issue>)
    ensures |r| <= 1
    ensures |r| == 1 <==> Utf8Len(d.name) > limit
    ensures |r| == 1 ==> r[0] == TextIssue(LengthMessage(limit, d.name), d.rng)
  {
    if Utf8Len(d.name) > limit then [TextIssue(LengthMessage(limit, d.name), d.rng)] else []
  }

  /** Raising the limit never adds an issue; a name of exactly the limit
      passes. */
  lemma LimitMonotone(limit: int, wider: int, d: Walk.Def)
    requires limit <= wider
    ensures |LengthIssues(wider, d)| <= |LengthIssues(limit, d)|
    ensures Utf8Len(d.name) == limit ==> LengthIssues(limit, d) == []
  {
  }

  // --------------------------------------------------------------- shout

  /** The name has a letter and every letter is upper case (letters and
      case are ASCII here). */
  predicate Shouted(name: string) {
    (exists k :: 0 <= k < |name| && IsAsciiLetter(name[k]))
    && forall k :: 0 <= k < |name| && IsAsciiLetter(name[k]) ==> IsAsciiUpper(name[k])
  }

  /** The loop of `checkShout`: whether a letter was seen, and whether every
      letter seen was upper case. */
  function ShoutFlags(name: string): (r: (bool, bool))
    ensures r.0 <==> exists k :: 0 <= k < |name| && IsAsciiLetter(name[k])
    ensures r.1 <==> forall k :: 0 <= k < |name| && IsAsciiLetter(name[k]) ==> IsAsciiUpper(name[k])
  {
    if |name| == 0 then (false, true)
    else
      var (hasAlpha, allUpper) := ShoutFlags(name[1..]);
      assert forall k :: 1 <= k < |name| ==> name[k] == name[1..][k - 1];
      if IsAsciiLetter(name[0]) then (true, allUpper && IsAsciiUpper(name[0]))
      else (hasAlpha, allUpper)
  }

  function ShoutMessage(name: string): string {
    "Avoid SHOUTED names (" + name + ")"
  }

  /** `checkShout`: one issue exactly for a shouted name. */
  function ShoutIssues(d: Walk.Def): (r: seq<Issue>)
    ensures |r| <= 1
    ensures |r| == 1 <==> Shouted(d.name)
    ensures |r| == 1 ==> r[0] == TextIssue(ShoutMessage(d.name), d.rng)
  {
    var (hasAlpha, allUpper) := ShoutFlags(d.name);
    if hasAlpha && allUpper then [TextIssue(ShoutMessage(d.name), d.rng)] else []
  }

  /** Non-letters neither trigger nor block the check: appending them to a
      name does not change the verdict. */
  lemma ShoutIgnoresNonLetters(name: string, tail: string)
    requires forall k :: 0 <= k < |tail| ==> !IsAsciiLetter(tail[k])
    ensures Shouted(name + tail) <==> Shouted(name)
  {
    var s := name + tail;
    assert forall k :: 0 <= k < |name| ==> s[k] == name[k];
    assert forall k :: |name| <= k < |s| ==> s[k] == tail[k - |name|];
  }

  lemma ShoutExamples()
    ensures Shouted("SHOUT\U{1F921}") && !Shouted("Shout") && !Shouted("") && !Shouted("123")
  {
    assert IsAsciiLetter("SHOUT\U{1F921}"[0]);
    assert IsAsciiLetter("Shout"[1]) && !IsAsciiUpper("Shout"[1]);
  }

  // --------------------------------------------------------------- snake

  predicate SnakeChar(c: char) {
    IsAsciiLower(c) || IsAsciiDigit(c) || c == '_'
  }

  /** The index of the first character that does not belong in snake_case. */
  function FirstNonSnake(name: string, from: nat): (r: Option<nat>)
    requires from <= |name|
    decreases |name| - from
    ensures r.Some? ==> from <= r.value < |name| && !SnakeChar(name[r.value])
    ensures r.None? <==> forall k :: from <= k < |name| ==> SnakeChar(name[k])
  {
    if from == |name| then None
    else if !SnakeChar(name[from]) then Some(from)
    else FirstNonSnake(name, from + 1)
  }

  function SnakeMessage(name: string): string {
    "Names should be snake_case (" + name + ")."
  }

  /** `checkSnake`: one issue exactly when some character is not a lower
      case letter, a digit or `_`. */
  function SnakeIssues(d: Walk.Def): (r: seq<Issue>)
    ensures |r| <= 1
    ensures |r| == 1 <==> exists k :: 0 <= k < |d.name| && !SnakeChar(d.name[k])
    ensures |r| == 1 ==> r[0] == TextIssue(SnakeMessage(d.name), d.rng)
  {
    if FirstNonSnake(d.name, 0).Some? then [TextIssue(SnakeMessage(d.name), d.rng)] else []
  }

  lemma SnakeExamples(rng: Range)
    ensures |SnakeIssues(Walk.Def(rng, "t", "CamelCase", ""))| == 1
    ensures |SnakeIssues(Walk.Def(rng, "t", "kebab-case", ""))| == 1
    ensures |SnakeIssues(Walk.Def(rng, "t", "with.dots", ""))| == 1
    ensures SnakeIssues(Walk.Def(rng, "t", "", "")) == []
    ensures SnakeIssues(Walk.Def(rng, "t", "snake_case_2", "")) == []
  {
    assert !SnakeChar("CamelCase"[0]);
    assert !SnakeChar("kebab-case"[5]);
    assert !SnakeChar("with.dots"[4]);
  }

  // ---------------------------------------------------------- the rule

  /** The checks the rule can register, in registration order. */
  datatype NameCheck = Length(limit: int) | Shout | Snake | Echo(syns: TypeEcho.Synonyms)

  function Apply(c: NameCheck, d: Walk.Def): seq<Issue> {
    match c
    case Length(limit) => LengthIssues(limit, d)
    case Shout => ShoutIssues(d)
    case Snake => SnakeIssues(d)
    case Echo(syns) => TypeEcho.EchoIssues(syns, d)
  }

  function AsDefCheck(c: NameCheck): Walk.DefCheck {
    d => Apply(c, d)
  }

  function Rank(c: NameCheck): nat {
    match c
    case Length(_) => 0
    case Shout => 1
    case Snake => 2
    case Echo(_) => 3
  }

  datatype EchoConfig = EchoConfig(enabled: Option<bool>, synonyms: Option<map<string, seq<string>>>)

  datatype Config = Config(
    length: Option<int>,
    shout: Option<bool>,
    snake: Option<bool>,
    typeEcho: Option<EchoConfig>)

  const DefaultConfig := Config(Some(DefaultLimit), None, None, None)

  /** The length limit: the configured one, else 16. */
  function Limit(cfg: Config): int {
    cfg.length.GetOr(DefaultLimit)
  }

  /** Synonyms are consulted only when the `type_echo` block sets a map. */
  function EchoSynonyms(cfg: Config): TypeEcho.Synonyms {
    if cfg.typeEcho.Some? then cfg.typeEcho.value.synonyms else None
  }

  /** What the configuration asks for, check by check. */
  predicate Wanted(cfg: Config, c: NameCheck) {
    match c
    case Length(limit) => limit == Limit(cfg) && limit > 0
    case Shout => Enabled(cfg.shout)
    case Snake => Enabled(cfg.snake)
    case Echo(syns) =>
      syns == EchoSynonyms(cfg) && (cfg.typeEcho.None? || Enabled(cfg.typeEcho.value.enabled))
  }

  /** The registered checks: exactly the wanted ones, each once, in the
      order length, shout, snake, type echo. */
  function Selected(cfg: Config): (r: seq<NameCheck>)
    ensures forall c :: c in r <==> Wanted(cfg, c)
    ensures Ranked(r)
  {
    var echoOn := cfg.typeEcho.None? || Enabled(cfg.typeEcho.value.enabled);
    (if Limit(cfg) > 0 then [Length(Limit(cfg))] else [])
    + (if Enabled(cfg.shout) then [Shout] else [])
    + (if Enabled(cfg.snake) then [Snake] else [])
    + (if echoOn then [Echo(EchoSynonyms(cfg))] else [])
  }

  /** Strictly ordered by registration rank, so no check is there twice. */
  predicate Ranked(cs: seq<NameCheck>) {
    forall i, j :: 0 <= i < j < |cs| ==> Rank(cs[i]) < Rank(cs[j])
  }

  /** The wanted checks in rank order are one list only: `Selected`'s
      contract leaves no other choice. */
  lemma SelectionDetermined(cfg: Config, r: seq<NameCheck>)
    requires forall c :: c in r <==> Wanted(cfg, c)
    requires Ranked(r)
    ensures r == Selected(cfg)
  {
    RankedUnique(r, Selected(cfg));
  }

  lemma {:induction false} RankedUnique(a: seq<NameCheck>, b: seq<NameCheck>)
    requires Ranked(a) && Ranked(b) && forall c :: c in a <==> c in b
    ensures a == b
    decreases |a|
  {
    EmptyTogether(a, b);
    if |a| > 0 {
      assert a[0] in b;
      HeadLeast(a, b[0]);
      HeadLeast(b, a[0]);
      forall c | c in a[1..]
        ensures c in b[1..]
      {
        LaterRanked(a, c);
        assert c in b && c != b[0];
        assert b == [b[0]] + b[1..];
      }
      forall c | c in b[1..]
        ensures c in a[1..]
      {
        LaterRanked(b, c);
        assert c in a && c != a[0];
        assert a == [a[0]] + a[1..];
      }
      RankedTail(a);
      RankedTail(b);
      RankedUnique(a[1..], b[1..]);
      assert a == [a[0]] + a[1..] && b == [b[0]] + b[1..];
    }
  }

  lemma EmptyTogether(a: seq<NameCheck>, b: seq<NameCheck>)
    requires forall c :: c in a <==> c in b
    ensures |a| == 0 <==> |b| == 0
  {
    if |a| > 0 {
      assert a[0] in b;
    }
    if |b| > 0 {
      assert b[0] in a;
    }
  }

  /** The first check of a ranked list has the lowest rank, and is the only
      one with that rank. */
  lemma HeadLeast(a: seq<NameCheck>, c: NameCheck)
    requires Ranked(a) && c in a
    ensures Rank(a[0]) <= Rank(c)
    ensures Rank(c) == Rank(a[0]) ==> c == a[0]
  {
    var j :| 0 <= j < |a| && a[j] == c;
    if j > 0 {
      assert Rank(a[0]) < Rank(a[j]);
    }
  }

  lemma LaterRanked(a: seq<NameCheck>, c: NameCheck)
    requires Ranked(a) && |a| > 0 && c in a[1..]
    ensures c in a && Rank(a[0]) < Rank(c)
  {
    var j :| 0 <= j < |a[1..]| && a[1..][j] == c;
    assert a[j + 1] == c;
  }

  lemma RankedTail(a: seq<NameCheck>)
    requires Ranked(a) && |a| > 0
    ensures Ranked(a[1..])
  {
    assert forall i :: 0 <= i < |a| - 1 ==> a[1..][i] == a[i + 1];
  }

  function AsDefChecks(cs: seq<NameCheck>): (r: seq<Walk.DefCheck>)
    ensures |r| == |cs| && forall i :: 0 <= i < |cs| ==> r[i] == AsDefCheck(cs[i])
  {
    if |cs| == 0 then [] else [AsDefCheck(cs[0])] + AsDefChecks(cs[1..])
  }

  /** `Check`: the selected checks over the default allow-list. */
  function Check(cfg: Config, files: seq<SourceFile>): seq<Issue> {
    Walk.WalkBlocks(files, Walk.AllLintableBlocks, AsDefChecks(Selected(cfg)))
  }

  /** A length of zero or less switches the length check off instead of
      falling back to the default. */
  lemma NegativeLengthDisables(cfg: Config)
    requires cfg.length.Some? && cfg.length.value <= 0
    ensures forall c :: c in Selected(cfg) ==> !c.Length?
  {
  }

  /** The defaults register all four checks, with limit 16 and no synonyms. */
  lemma DefaultSelection()
    ensures Selected(DefaultConfig) == [Length(16), Shout, Snake, Echo(None)]
  {
  }

  // --------------------------------------------------- the older rule

  datatype LegacyLength = LegacyLength(enabled: Option<bool>, limit: int)

  /** The older rule's limit: the configured one only when positive, else 16;
      the check itself is always registered. */
  function LegacyLimit(length: Option<LegacyLength>): (limit: int)
    ensures limit > 0
    ensures length.Some? && length.value.limit > 0 ==> limit == length.value.limit
    ensures length.None? || length.value.limit <= 0 ==> limit == DefaultLimit
  {
    if length.Some? && length.value.limit > 0 then length.value.limit else DefaultLimit
  }

  /** The older rule: length then shout, always both. */
  function LegacyChecks(length: Option<LegacyLength>): seq<NameCheck> {
    [Length(LegacyLimit(length)), Shout]
  }

  function LegacyCheck(length: Option<LegacyLength>, files: seq<SourceFile>): seq<Issue> {
    Walk.WalkBlocks(files, Walk.AllLintableBlocks, AsDefChecks(LegacyChecks(length)))
  }

  /** Where the generations part: the same non-positive limit disables the
      current length check and falls back to 16 in the older one. */
  lemma NonPositiveLimitDiffers(cfg: Config, limit: int)
    requires limit <= 0 && cfg.length == Some(limit)
    ensures forall c :: c in Selected(cfg) ==> !c.Length?
    ensures Length(DefaultLimit) in LegacyChecks(Some(LegacyLength(None, limit)))
  {
  }
}
