/** The jammed-comment patterns of the comment rule, stated as what the
    regular expressions match and decided by a single scan. */
module Jammed {
  import opened Text

  /** `Repeated` lets each comment marker repeat its last character (two
      or more slashes, one or more hashes, a slash then one or more stars)
      before the jammed character. `Single` takes exactly one marker (two
      slashes, a hash, or slash-star) followed by any non-space. */
  datatype Pattern = Repeated | Single

  // ------------------------------------------------------ regex semantics

  predicate SlashRun(d: string) {
    |d| >= 2 && forall k :: 0 <= k < |d| ==> d[k] == '/'
  }

  predicate HashRun(d: string) {
    |d| >= 1 && forall k :: 0 <= k < |d| ==> d[k] == '#'
  }

  predicate StarRun(d: string) {
    |d| >= 2 && d[0] == '/' && forall k :: 1 <= k < |d| ==> d[k] == '*'
  }

  /** The comment markers a pattern accepts. */
  predicate Marker(p: Pattern, d: string) {
    match p
    case Repeated => SlashRun(d) || HashRun(d) || StarRun(d)
    case Single => d == "//" || d == "#" || d == "/*"
  }

  /** The class `[^\s/#]`: what the repeated pattern takes as the jammed
      character after any of its markers. */
  predicate Jam(c: char) {
    !IsRegexSpace(c) && c != '/' && c != '#'
  }

  /** The characters that count as jammed right after marker `d`: the class
      `[^\s/#]` for the repeated pattern, `\S` for the single one. */
  predicate Follows(p: Pattern, d: string, c: char) {
    match p
    case Repeated => Jam(c)
    case Single => !IsRegexSpace(c)
  }

  predicate SpacesBefore(text: string, i: nat) {
    i <= |text| && forall k :: 0 <= k < i ==> IsRegexSpace(text[k])
  }

  /** The regular expression matches: leading `\s`, a marker, then a jammed
      character. */
  predicate Matches(p: Pattern, text: string) {
    exists i: nat, j: nat :: i < j < |text| && SpacesBefore(text, i)
      && Marker(p, text[i..j]) && Follows(p, text[i..j], text[j])
  }

  // ------------------------------------------------------------ the scan

  /** The number of consecutive `c` in `s` from index `from`. */
  function RunOf(s: string, from: nat, c: char): (n: nat)
    requires from <= |s|
    decreases |s| - from
    ensures from + n <= |s|
    ensures forall k :: from <= k < from + n ==> s[k] == c
    ensures from + n < |s| ==> s[from + n] != c
  {
    if from == |s| || s[from] != c then 0 else 1 + RunOf(s, from + 1, c)
  }

  /** The decision on the text after its leading `\s` characters. */
  function JammedRest(p: Pattern, rest: string): bool {
    match p
    case Single =>
      ((HasPrefix(rest, "//") || HasPrefix(rest, "/*")) && |rest| > 2 && !IsRegexSpace(rest[2]))
      || (HasPrefix(rest, "#") && |rest| > 1 && !IsRegexSpace(rest[1]))
    case Repeated =>
      if HasPrefix(rest, "//") then
        var e := 1 + RunOf(rest, 1, '/');
        e < |rest| && Jam(rest[e])
      else if HasPrefix(rest, "#") then
        var e := RunOf(rest, 0, '#');
        e < |rest| && Jam(rest[e])
      else if HasPrefix(rest, "/*") then
        // the star run may give up a star to the jammed class
        |rest| > 2 && Jam(rest[2])
      else false
  }

  function Lead(text: string): (n: nat)
    ensures SpacesBefore(text, n)
    ensures n < |text| ==> !IsRegexSpace(text[n])
  {
    LeadingCount(text, IsRegexSpace)
  }

  /** `MatchString` of the pattern, by the scan. */
  function IsJammed(p: Pattern, text: string): bool {
    JammedRest(p, text[Lead(text)..])
  }

  /** The scan decides exactly what the regular expression matches. */
  lemma ScanIsMatch(p: Pattern, text: string)
    ensures IsJammed(p, text) <==> Matches(p, text)
  {
    if IsJammed(p, text) {
      ScanSound(p, text);
    }
    if Matches(p, text) {
      var i: nat, j: nat :| i < j < |text| && SpacesBefore(text, i)
        && Marker(p, text[i..j]) && Follows(p, text[i..j], text[j]);
      MatchFound(p, text, i, j);
    }
  }

  /** Any match starts right after the leading spaces. */
  lemma MatchStartsAtLead(text: string, i: nat, j: nat)
    requires i < j <= |text| && SpacesBefore(text, i)
    requires text[i] == '/' || text[i] == '#'
    ensures i == Lead(text)
  {
    var n := Lead(text);
    assert !IsRegexSpace(text[i]);
    assert i <= n by {
      assert n < |text| ==> !IsRegexSpace(text[n]);
    }
  }

  lemma ScanSound(p: Pattern, text: string)
    requires IsJammed(p, text)
    ensures Matches(p, text)
  {
    var n := Lead(text);
    var rest := text[n..];
    match p
    case Single =>
      if (HasPrefix(rest, "//") || HasPrefix(rest, "/*")) && |rest| > 2 && !IsRegexSpace(rest[2]) {
        assert text[n..n + 2] == rest[..2];
        assert Marker(p, text[n..n + 2]) && Follows(p, text[n..n + 2], text[n + 2]);
      } else {
        assert text[n..n + 1] == rest[..1];
        assert Marker(p, text[n..n + 1]) && Follows(p, text[n..n + 1], text[n + 1]);
      }
    case Repeated =>
      if HasPrefix(rest, "//") {
        var e := 1 + RunOf(rest, 1, '/');
        var d := text[n..n + e];
        assert forall k :: 0 <= k < e ==> d[k] == rest[k];
        assert SlashRun(d);
        assert Marker(p, d) && Follows(p, d, text[n + e]);
      } else if HasPrefix(rest, "#") {
        var e := RunOf(rest, 0, '#');
        var d := text[n..n + e];
        assert forall k :: 0 <= k < e ==> d[k] == rest[k];
        assert HashRun(d) && !StarRun(d);
        assert Marker(p, d) && Follows(p, d, text[n + e]);
      } else {
        var d := text[n..n + 2];
        assert d == rest[..2];
        assert StarRun(d);
        assert Marker(p, d) && Follows(p, d, text[n + 2]);
      }
  }

  lemma MatchFound(p: Pattern, text: string, i: nat, j: nat)
    requires i < j < |text| && SpacesBefore(text, i)
    requires Marker(p, text[i..j]) && Follows(p, text[i..j], text[j])
    ensures IsJammed(p, text)
  {
    var d := text[i..j];
    assert d[0] == text[i];
    MatchStartsAtLead(text, i, j);
    match p
    case Single =>
      assert text[i..][|d|] == text[j];
      assert text[i..][..|d|] == d;
    case Repeated =>
      RepeatedFound(text, i, j);
  }

  lemma RepeatedFound(text: string, i: nat, j: nat)
    requires i < j < |text| && i == Lead(text)
    requires Marker(Repeated, text[i..j]) && Follows(Repeated, text[i..j], text[j])
    ensures JammedRest(Repeated, text[i..])
  {
    var rest := text[i..];
    assert rest[..j - i] == text[i..j];
    assert rest[j - i] == text[j];
    RepeatedAtFront(rest, j - i);
  }

  /** A repeated marker of length `m` at the front of `rest`, followed by a
      jammed character. */
  lemma RepeatedAtFront(rest: string, m: nat)
    requires 0 < m < |rest| && Marker(Repeated, rest[..m]) && Jam(rest[m])
    ensures JammedRest(Repeated, rest)
  {
    var d := rest[..m];
    if SlashRun(d) {
      assert rest[0] == d[0] && rest[1] == d[1];
      assert HasPrefix(rest, "//");
      assert forall k :: 1 <= k < m ==> rest[k] == d[k];
      RepeatedMarkerEnds(rest, 1, '/', m);
    } else if HashRun(d) {
      assert rest[0] == d[0] == '#';
      assert HasPrefix(rest, "#") && !HasPrefix(rest, "//");
      assert forall k :: 0 <= k < m ==> rest[k] == d[k];
      RepeatedMarkerEnds(rest, 0, '#', m);
    } else {
      assert rest[0] == d[0] && rest[1] == d[1];
      assert HasPrefix(rest, "/*") && !HasPrefix(rest, "//") && !HasPrefix(rest, "#");
      assert |rest| > 2 && Jam(rest[2]) by {
        if m > 2 {
          assert rest[2] == d[2] == '*';
        }
      }
    }
  }

  /** A marker that runs `c` from `from` to `m` and is not followed by `c`
      ends where the run of `c` ends. */
  lemma RepeatedMarkerEnds(s: string, from: nat, c: char, m: nat)
    requires from <= m < |s|
    requires forall k :: from <= k < m ==> s[k] == c
    requires s[m] != c
    ensures from + RunOf(s, from, c) == m
    decreases m - from
  {
    if from < m {
      RepeatedMarkerEnds(s, from + 1, c, m);
    }
  }

  // ------------------------------------------------------------ examples

  /** A marker at the start of the text followed by a jammed character
      is flagged. */
  lemma JammedAtStart(p: Pattern, text: string, j: nat)
    requires 0 < j < |text| && Marker(p, text[..j]) && Follows(p, text[..j], text[j])
    ensures IsJammed(p, text)
  {
    assert text[0..j] == text[..j];
    MatchFound(p, text, 0, j);
  }

  /** The four marker forms the rule's tests list, followed by any jammed
      character, are flagged. */
  lemma JammedExamples(m: string, w: string)
    requires m == "#" || m == "##" || m == "//" || m == "///"
    requires |w| > 0 && Jam(w[0])
    ensures IsJammed(Repeated, m + w)
  {
    var t := m + w;
    assert t[..|m|] == m;
    assert t[|m|] == w[0];
    if m == "#" || m == "##" {
      assert HashRun(m);
    } else {
      assert SlashRun(m) && m[1] == '/';
    }
    assert !StarRun(m);
    JammedAtStart(Repeated, t, |m|);
  }

  /** Spaced comments are not flagged by the repeated pattern. */
  lemma SpacedExamples()
    ensures !IsJammed(Repeated, "# text\n") && !IsJammed(Repeated, "// text\n")
  {
    var a, b := "# text\n", "// text\n";
    assert Lead(a) == 0 && Lead(b) == 0;
    assert RunOf(a, 0, '#') == 1;
    assert RunOf(b, 1, '/') == 1;
  }

  /** `## x` is flagged by the single-marker pattern only. */
  lemma DoubleHashExample()
    ensures !IsJammed(Repeated, "## x\n") && IsJammed(Single, "## x\n")
  {
    var t := "## x\n";
    assert Lead(t) == 0;
    assert RunOf(t, 0, '#') == 2;
  }

  // ------------------------------------------ intended: block markers

  // The class `[^\s/#]` is shared by all three markers, so a block marker
  // may give up one of its own stars to it: `/** doc */` matches with the
  // marker `/*` and the jammed character `*`. What the rule evidently
  // means is that the marker's own repeated character is never the jammed
  // one.
  predicate FollowsIntended(d: string, c: char) {
    Jam(c) && !(StarRun(d) && c == '*')
  }

  predicate MatchesIntended(text: string) {
    exists i: nat, j: nat :: i < j < |text| && SpacesBefore(text, i)
      && Marker(Repeated, text[i..j]) && FollowsIntended(text[i..j], text[j])
  }

  /** Every intended match is a match of the pattern as written. */
  lemma IntendedIsMatch(text: string)
    requires MatchesIntended(text)
    ensures Matches(Repeated, text)
  {
  }

  /** A documentation-style comment with a space after its markers is
      flagged as the pattern is written, though nothing is jammed. */
  lemma DocCommentFlaggedAsWritten()
    ensures Matches(Repeated, "/** doc */")
    ensures !MatchesIntended("/** doc */")
  {
    var t := "/** doc */";
    assert StarRun(t[0..2]) && Jam(t[2]);
    assert t == "/*" + Stars(1) + " " + "doc */";
    SpacedBlockNeverJammed(1, "doc */");
  }

  function Stars(m: nat): (r: string)
    ensures |r| == m && forall k :: 0 <= k < m ==> r[k] == '*'
  {
    seq(m, _ => '*')
  }

  /** Corrected: a block comment whose stars are followed by a space is not
      jammed, however many stars it opens with. */
  lemma SpacedBlockNeverJammed(m: nat, tail: string)
    ensures !MatchesIntended("/*" + Stars(m) + " " + tail)
  {
    var t := "/*" + Stars(m) + " " + tail;
    assert t[0] == '/' && t[1] == '*' && t[m + 2] == ' ';
    assert forall k :: 2 <= k < m + 2 ==> t[k] == Stars(m)[k - 2];
    forall i: nat, j: nat | i < j < |t| && SpacesBefore(t, i) && Marker(Repeated, t[i..j])
      ensures !FollowsIntended(t[i..j], t[j])
    {
      assert !IsRegexSpace(t[0]);
      assert i == 0;
      var d := t[i..j];
      assert d[0] == '/' && d[1] == '*';
      assert StarRun(d);
      assert forall k :: 1 <= k < j ==> t[k] == d[k] == '*';
      assert j <= m + 2;
    }
  }
}
