/** The module-source check of the meta rule: a `module` block's `source`
    should pin what it fetches, by the means its kind of source offers. */
module MetaSource {
  import opened Wrappers
  import opened Syntax
  import opened Issues
  import opened Text

  const GitMessage := "Git module source should specify ref parameter."
  const HttpsMessage := "https module source should specify a valid archive extension."
  const MercurialMessage := "Mercurial module source should specify #revision."
  const RegistryVersionMessage := "Module from registry should specify version."
  const PessimisticMessage := "Pessimistic version constraint should specify at least major and minor version."
  const GreaterMessage := "Version constraint > or >= should not be used. Use ~> or exact version."

  /** The archive extensions an https source may end with. */
  const ArchiveExtensions: seq<string> := [
    ".zip",
    ".bz2", ".tar.bz2", ".tar.tbz2", ".tbz2",
    ".gz", ".tar.gz", ".tgz",
    ".xz", ".tar.xz", ".txz"]

  // ------------------------------------------------------ classification

  predicate IsLocal(s: string) {
    HasPrefix(s, "./") || HasPrefix(s, "../") || HasPrefix(s, "/")
  }

  predicate IsGit(s: string) {
    HasPrefix(s, "git::") || HasPrefix(s, "git@") || HasPrefix(s, "github.com") || HasPrefix(s, "bitbucket.org")
  }

  predicate IsHttps(s: string) {
    HasPrefix(s, "https://")
  }

  predicate IsMercurial(s: string) {
    HasPrefix(s, "hg::")
  }

  // ------------------------------------------------------ registry form

  /** The characters the optional host part of a registry address may use. */
  predicate HostChar(c: char) {
    IsAsciiAlnum(c) || c == '.' || c == '-'
  }

  predicate AllHost(s: string) {
    forall k :: 0 <= k < |s| ==> HostChar(s[k])
  }

  /** Every segment is non-empty and free of `/`. */
  predicate Segments(p: seq<string>) {
    forall k :: 0 <= k < |p| ==> p[k] != "" && !Contains(p[k], "/")
  }

  /** The pattern `^(?:([a-zA-Z0-9.-]+)/)?([^/]+)/([^/]+)/([^/]+)$`, read as
      a statement about segments: the source is three segments joined by
      `/`, or four whose first is made of host characters. */
  ghost predicate RegistryShape(s: string) {
    exists p: seq<string> :: Segments(p) && Join(p, "/") == s && (|p| == 3 || (|p| == 4 && AllHost(p[0])))
  }

  /** `isRegistrySource`, computed by cutting the source at every `/`. */
  predicate IsRegistry(s: string) {
    var p := Split(s, "/");
    (|p| == 3 || (|p| == 4 && AllHost(p[0]))) && forall k :: 0 <= k < |p| ==> p[k] != ""
  }

  /** The segment test decides the pattern. */
  lemma RegistryIsShape(s: string)
    ensures IsRegistry(s) <==> RegistryShape(s)
  {
    var p := Split(s, "/");
    if IsRegistry(s) {
      assert Segments(p);
    }
    if RegistryShape(s) {
      var q: seq<string> :| Segments(q) && Join(q, "/") == s && (|q| == 3 || (|q| == 4 && AllHost(q[0])));
      SplitJoin(q, "/");
      assert p == q;
    }
  }

  // ------------------------------------------------- https archive query

  /** No line break: the pattern's `.` does not match one. */
  predicate OneLine(s: string) {
    forall k :: 0 <= k < |s| ==> s[k] != '\n'
  }

  /** A `?` at `q` and `archive=.` at `a`, with no line break from the end
      of `https://` to `a`. */
  predicate QueryAt(s: string, q: nat, a: nat) {
    8 <= q < a && a + 9 <= |s| && s[q] == '?' && s[a..a + 9] == "archive=." && OneLine(s[8..a])
  }

  /** The pattern `^https://.*\?.*archive=\..*&?`, as the positions its
      groups take. */
  ghost predicate ArchiveQuery(s: string) {
    IsHttps(s) && exists q: nat, a: nat :: QueryAt(s, q, a)
  }

  /** The index of the first line break at or after `from`, or the end. */
  function LineEnd(s: string, from: nat): (r: nat)
    requires from <= |s|
    decreases |s| - from
    ensures from <= r <= |s| && OneLine(s[from..r])
    ensures r < |s| ==> s[r] == '\n'
  {
    if from == |s| || s[from] == '\n' then from else LineEnd(s, from + 1)
  }

  /** The pattern, decided on the first line after `https://`: its first
      `?`, then `archive=.` somewhere later on that line. */
  predicate ArchiveScan(s: string) {
    IsHttps(s) &&
    var line := s[8..LineEnd(s, 8)];
    match Index(line, "?")
    case None => false
    case Some(q) => Contains(line[q + 1..], "archive=.")
  }

  lemma ArchiveScanIsQuery(s: string)
    ensures ArchiveScan(s) <==> ArchiveQuery(s)
  {
    if ArchiveScan(s) {
      ScanFindsQuery(s);
    }
    if ArchiveQuery(s) {
      var q: nat, a: nat :| QueryAt(s, q, a);
      QueryFound(s, q, a);
    }
  }

  lemma ScanFindsQuery(s: string)
    requires ArchiveScan(s)
    ensures ArchiveQuery(s)
  {
    var e := LineEnd(s, 8);
    var line := s[8..e];
    var q := Index(line, "?").value;
    var tail := line[q + 1..];
    ContainsIff(tail, "archive=.");
    var i :| OccursAt(tail, "archive=.", i);
    QueryInLine(s, e, q, i);
  }

  /** A `?` on the first line and `archive=.` after it on that line. */
  lemma QueryInLine(s: string, e: nat, q: nat, i: nat)
    requires 8 <= e <= |s| && OneLine(s[8..e])
    requires OccursAt(s[8..e], "?", q) && q + 1 <= e - 8
    requires OccursAt(s[8..e][q + 1..], "archive=.", i)
    ensures QueryAt(s, 8 + q, 8 + q + 1 + i)
  {
    var line := s[8..e];
    var a := 8 + q + 1 + i;
    OccursShift(s, 8, e, "?", q);
    assert s[8 + q] == '?' by {
      assert s[8 + q..8 + q + 1][0] == s[8 + q];
    }
    assert line[q + 1..] == line[q + 1..|line|];
    OccursShift(line, q + 1, |line|, "archive=.", i);
    OccursShift(s, 8, e, "archive=.", q + 1 + i);
    OneLinePrefix(s, 8, a, e);
  }

  /** An occurrence inside a slice is an occurrence in the whole. */
  lemma OccursShift(s: string, lo: nat, hi: nat, sub: string, k: int)
    requires lo <= hi <= |s| && OccursAt(s[lo..hi], sub, k)
    ensures OccursAt(s, sub, lo + k)
  {
    forall j | 0 <= j < |sub|
      ensures s[lo + k + j] == sub[j]
    {
      assert s[lo..hi][k..k + |sub|][j] == sub[j];
    }
  }

  /** An occurrence inside a stretch of the whole is one in the slice. */
  lemma OccursUnshift(s: string, lo: nat, hi: nat, sub: string, k: int)
    requires lo <= k && k + |sub| <= hi <= |s| && OccursAt(s, sub, k)
    ensures OccursAt(s[lo..hi], sub, k - lo)
  {
    forall j | 0 <= j < |sub|
      ensures s[lo..hi][k - lo + j] == sub[j]
    {
      assert s[k..k + |sub|][j] == sub[j];
    }
  }

  /** A stretch of one line stays one line when cut shorter. */
  lemma OneLinePrefix(s: string, lo: nat, mid: nat, hi: nat)
    requires lo <= mid <= hi <= |s| && OneLine(s[lo..hi])
    ensures OneLine(s[lo..mid])
  {
    forall k | 0 <= k < mid - lo
      ensures s[lo..mid][k] != '\n'
    {
      assert s[lo..mid][k] == s[lo..hi][k];
    }
  }

  lemma QueryFound(s: string, q: nat, a: nat)
    requires IsHttps(s) && QueryAt(s, q, a)
    ensures ArchiveScan(s)
  {
    var e := LineEnd(s, 8);
    LineReaches(s, q, a);
    assert s[q..q + 1] == "?";
    OccursUnshift(s, 8, e, "?", q);
    OccursUnshift(s, 8, e, "archive=.", a);
    ScanOnLine(s[8..e], q - 8, a - 8);
  }

  /** A `?` before `archive=.` on the line: the first `?` is before it too. */
  lemma ScanOnLine(line: string, q: nat, a: nat)
    requires OccursAt(line, "?", q) && OccursAt(line, "archive=.", a) && q < a
    ensures Index(line, "?").Some? && Contains(line[Index(line, "?").value + 1..], "archive=.")
  {
    var f := Index(line, "?").value;
    OccursUnshift(line, f + 1, |line|, "archive=.", a);
    assert line[f + 1..] == line[f + 1..|line|];
    ContainsAt(line[f + 1..], "archive=.", a - (f + 1));
  }

  /** The first line after `https://` reaches past the query. */
  lemma LineReaches(s: string, q: nat, a: nat)
    requires IsHttps(s) && QueryAt(s, q, a)
    ensures LineEnd(s, 8) >= a + 9
  {
    forall k | 8 <= k < a + 9
      ensures s[k] != '\n'
    {
      if k < a {
        assert s[8..a][k - 8] == s[k];
      } else {
        assert s[a..a + 9][k - a] == s[k];
      }
    }
  }

  /** An https source passes when it ends with an archive extension or
      carries an `archive=.` query. */
  predicate HttpsAccepted(s: string) {
    (exists x :: x in ArchiveExtensions && HasSuffix(s, x)) || ArchiveScan(s)
  }

  // ------------------------------------------------- version constraints

  /** What one constraint of the `version` list gets. */
  datatype Verdict = Pass | Pessimistic | Greater

  /** One trimmed constraint: `~>` with no `.` in its version names only a
      major version; any `>` form, `>=` included, is a lower bound. */
  function ConstraintVerdict(c: string): Verdict {
    var t := TrimSpace(c);
    if HasPrefix(t, "~>") then
      (if Contains(TrimSpace(TrimPrefix(t, "~>")), ".") then Pass else Pessimistic)
    else if HasPrefix(t, ">") then Greater
    else Pass
  }

  /** The verdict of every constraint, in order. */
  function Verdicts(cs: seq<string>): (r: seq<Verdict>)
    ensures |r| == |cs| && forall k :: 0 <= k < |cs| ==> r[k] == ConstraintVerdict(cs[k])
  {
    seq(|cs|, k requires 0 <= k < |cs| => ConstraintVerdict(cs[k]))
  }

  /** The index of the first verdict that is not a pass. */
  function FirstFlagged(vs: seq<Verdict>, from: nat): (r: Option<nat>)
    requires from <= |vs|
    decreases |vs| - from
    ensures r.Some? ==> from <= r.value < |vs| && vs[r.value] != Pass
    ensures r.Some? ==> forall k :: from <= k < r.value ==> vs[k] == Pass
    ensures r.None? <==> forall k :: from <= k < |vs| ==> vs[k] == Pass
  {
    if from == |vs| then None
    else if vs[from] != Pass then Some(from)
    else FirstFlagged(vs, from + 1)
  }

  function VerdictMessage(v: Verdict): string {
    match v
    case Pessimistic => PessimisticMessage
    case _ => GreaterMessage
  }

  /** The scan of the comma-separated constraints: one issue, for the first
      constraint that does not pass, and the scan stops there. */
  function VersionIssues(version: string, rng: Range): (r: seq<Issue>)
    ensures |r| <= 1 && forall x :: x in r ==> x.rng == rng
    ensures var vs := Verdicts(Split(version, ","));
      r == [] <==> forall k :: 0 <= k < |vs| ==> vs[k] == Pass
    ensures var vs := Verdicts(Split(version, ","));
      r != [] ==> exists k :: FirstFail(vs, k) && r[0] == TextIssue(VerdictMessage(vs[k]), rng)
  {
    var vs := Verdicts(Split(version, ","));
    match FirstFlagged(vs, 0)
    case None => []
    case Some(k) =>
      assert FirstFail(vs, k);
      [TextIssue(VerdictMessage(vs[k]), rng)]
  }

  /** Index `k` holds the first verdict that is not a pass. */
  predicate FirstFail(vs: seq<Verdict>, k: int) {
    0 <= k < |vs| && vs[k] != Pass && forall j :: 0 <= j < k ==> vs[j] == Pass
  }

  // ------------------------------------------------------------ the check

  /** The kind of a source, tried in this order; the first that fits wins. */
  datatype SourceClass = Local | Git | Https | Mercurial | Registry | Unrecognised

  function Classify(s: string): (r: SourceClass)
    ensures r == Local <==> IsLocal(s)
    ensures r == Git <==> !IsLocal(s) && IsGit(s)
    ensures r == Https <==> !IsLocal(s) && !IsGit(s) && IsHttps(s)
    ensures r == Mercurial <==> !IsLocal(s) && !IsGit(s) && !IsHttps(s) && IsMercurial(s)
    ensures r == Registry ==> IsRegistry(s)
    ensures r == Registry <==> !IsLocal(s) && !IsGit(s) && !IsHttps(s) && !IsMercurial(s) && IsRegistry(s)
    ensures r == Unrecognised <==> !IsLocal(s) && !IsGit(s) && !IsHttps(s) && !IsMercurial(s) && !IsRegistry(s)
  {
    if IsLocal(s) then Local
    else if IsGit(s) then Git
    else if IsHttps(s) then Https
    else if IsMercurial(s) then Mercurial
    else if IsRegistry(s) then Registry
    else Unrecognised
  }

  /** A string attribute's value, when evaluating it gives a string. */
  function StringValue(a: Option<Attribute>): (r: Option<string>)
    ensures r.Some? <==> a.Some? && a.value.value.Some? && a.value.value.value.Str?
  {
    match a
    case Some(Attribute(_, _, Some(Str(s)), _)) => Some(s)
    case _ => None
  }

  /** A registry source needs a `version`; a string one is scanned. */
  function RegistryIssues(attrs: seq<Attribute>, rng: Range): (r: seq<Issue>)
    ensures |r| <= 1 && forall x :: x in r ==> x.rng == rng
    ensures Lookup(attrs, "version").None? ==> r == [TextIssue(RegistryVersionMessage, rng)]
    ensures Lookup(attrs, "version").Some? && StringValue(Lookup(attrs, "version")).None? ==> r == []
  {
    var v := Lookup(attrs, "version");
    if v.None? then [TextIssue(RegistryVersionMessage, rng)]
    else match StringValue(v)
      case None => []
      case Some(version) => VersionIssues(version, rng)
  }

  /** What one source string gets, by its class. */
  function ClassIssues(s: string, attrs: seq<Attribute>, rng: Range): (r: seq<Issue>)
    ensures |r| <= 1 && forall x :: x in r ==> x.rng == rng
    ensures Classify(s) in {Local, Unrecognised} ==> r == []
    ensures Classify(s) == Git ==> (r == [] <==> Contains(s, "ref="))
    ensures Classify(s) == Https ==> (r == [] <==> HttpsAccepted(s))
    ensures Classify(s) == Mercurial ==> (r == [] <==> Contains(s, "#"))
    ensures Classify(s) == Registry ==> r == RegistryIssues(attrs, rng)
  {
    match Classify(s)
    case Local => []
    case Git => if Contains(s, "ref=") then [] else [TextIssue(GitMessage, rng)]
    case Https => if HttpsAccepted(s) then [] else [TextIssue(HttpsMessage, rng)]
    case Mercurial => if Contains(s, "#") then [] else [TextIssue(MercurialMessage, rng)]
    case Registry => RegistryIssues(attrs, rng)
    case Unrecognised => []
  }

  /** `checkModuleSourceVersion` on a module block's attributes: a missing
      source, or one that does not evaluate to a string, gets nothing. */
  function SourceIssues(attrs: seq<Attribute>, rng: Range): (r: seq<Issue>)
    ensures |r| <= 1 && forall x :: x in r ==> x.rng == rng
    ensures StringValue(Lookup(attrs, "source")).None? ==> r == []
  {
    match StringValue(Lookup(attrs, "source"))
    case None => []
    case Some(s) => ClassIssues(s, attrs, rng)
  }
}
