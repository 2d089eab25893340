/** The handful of Go `strings`/`unicode` operations the rules use, stated on
    Dafny strings (sequences of Unicode scalar values). Go measures string
    length in UTF-8 bytes; `Utf8Len` gives that measure where it matters. */
module Text {
  import opened Wrappers

  // ---------------------------------------------------------------- prefixes

  predicate HasPrefix(s: string, p: string) {
    |p| <= |s| && s[..|p|] == p
  }

  predicate HasSuffix(s: string, p: string) {
    |p| <= |s| && s[|s| - |p|..] == p
  }

  /** `sub` occurs in `s` starting at index `i`. */
  predicate OccursAt(s: string, sub: string, i: int) {
    0 <= i && i + |sub| <= |s| && s[i..i + |sub|] == sub
  }

  /** Index of the first occurrence of `sub` in `s` at or after `from`. */
  function IndexFrom(s: string, sub: string, from: nat): (r: Option<nat>)
    decreases |s| - from
    ensures r.Some? ==> from <= r.value && OccursAt(s, sub, r.value)
    ensures r.Some? ==> forall j :: from <= j < r.value ==> !OccursAt(s, sub, j)
    ensures r.None? ==> forall j :: from <= j ==> !OccursAt(s, sub, j)
  {
    if from + |sub| > |s| then None
    else if s[from..from + |sub|] == sub then Some(from)
    else IndexFrom(s, sub, from + 1)
  }

  /** Go `strings.Index`, with "not found" as `None`. */
  function Index(s: string, sub: string): Option<nat> {
    IndexFrom(s, sub, 0)
  }

  /** Go `strings.Contains`. */
  predicate Contains(s: string, sub: string) {
    Index(s, sub).Some?
  }

  lemma ContainsIff(s: string, sub: string)
    ensures Contains(s, sub) <==> exists i :: OccursAt(s, sub, i)
  {
    if Contains(s, sub) {
      assert OccursAt(s, sub, Index(s, sub).value);
    }
  }

  lemma ContainsAt(s: string, sub: string, i: int)
    requires OccursAt(s, sub, i)
    ensures Contains(s, sub)
  {
    ContainsIff(s, sub);
  }

  lemma PrefixContains(s: string, p: string)
    requires HasPrefix(s, p)
    ensures Contains(s, p)
  {
    ContainsAt(s, p, 0);
  }

  lemma SuffixContains(s: string, p: string)
    requires HasSuffix(s, p)
    ensures Contains(s, p)
  {
    ContainsAt(s, p, |s| - |p|);
  }

  lemma EmptyContained(s: string)
    ensures Contains(s, "")
  {
    ContainsAt(s, "", 0);
  }

  lemma PrefixOfAppend(p: string, t: string)
    ensures HasPrefix(p + t, p)
  {
    assert (p + t)[..|p|] == p;
  }

  /** Go `strings.TrimPrefix`. */
  function TrimPrefix(s: string, p: string): (r: string)
    ensures HasPrefix(s, p) ==> p + r == s
    ensures !HasPrefix(s, p) ==> r == s
  {
    if HasPrefix(s, p) then s[|p|..] else s
  }

  /** Go `strings.TrimSuffix`. */
  function TrimSuffix(s: string, p: string): (r: string)
    ensures HasSuffix(s, p) ==> r + p == s
    ensures !HasSuffix(s, p) ==> r == s
  {
    if HasSuffix(s, p) then s[..|s| - |p|] else s
  }

  // ------------------------------------------------------- split and join

  /** Go `strings.Split` with a non-empty separator: the pieces between the
      leftmost non-overlapping occurrences of `sep`. The first cut is at the
      first occurrence, and there is none when nothing is cut. */
  function Split(s: string, sep: string): (r: seq<string>)
    requires |sep| > 0
    decreases |s|
    ensures |r| >= 1
    ensures Join(r, sep) == s
    ensures forall k :: 0 <= k < |r| ==> !Contains(r[k], sep)
    ensures |r| == 1 <==> Index(s, sep).None?
    ensures |r| > 1 ==> Index(s, sep) == Some(|r[0]|)
  {
    match Index(s, sep)
    case None => [s]
    case Some(i) =>
      var rest := Split(s[i + |sep|..], sep);
      PieceBeforeFirst(s, sep, i);
      SplitCons(s, sep, i, rest);
      [s[..i]] + rest
  }

  /** The piece before an occurrence of `sep`, followed by the pieces of
      what comes after it, rebuild the whole text. */
  lemma SplitCons(s: string, sep: string, i: nat, rest: seq<string>)
    requires OccursAt(s, sep, i) && |rest| >= 1 && Join(rest, sep) == s[i + |sep|..]
    requires !Contains(s[..i], sep)
    requires forall k :: 0 <= k < |rest| ==> !Contains(rest[k], sep)
    ensures Join([s[..i]] + rest, sep) == s
    ensures forall k :: 0 <= k < |rest| + 1 ==> !Contains(([s[..i]] + rest)[k], sep)
  {
    var r := [s[..i]] + rest;
    assert r[1..] == rest;
    assert s == s[..i] + sep + s[i + |sep|..] by {
      assert s[i..i + |sep|] == sep;
      assert s == s[..i] + s[i..i + |sep|] + s[i + |sep|..];
    }
    assert forall k :: 1 <= k < |r| ==> r[k] == rest[k - 1];
  }

  /** The text before the first occurrence of `sep` does not contain `sep`. */
  lemma PieceBeforeFirst(s: string, sep: string, i: nat)
    requires |sep| > 0 && Index(s, sep) == Some(i)
    ensures !Contains(s[..i], sep)
  {
    ContainsIff(s[..i], sep);
    if exists j :: OccursAt(s[..i], sep, j) {
      var j :| OccursAt(s[..i], sep, j);
      assert s[..i][j..j + |sep|] == s[j..j + |sep|];
      assert OccursAt(s, sep, j);
    }
  }

  /** A text without the separator is one piece. */
  lemma SplitWhole(s: string, sep: string)
    requires |sep| > 0 && Index(s, sep).None?
    ensures Split(s, sep) == [s]
  {
  }

  /** A text in which `sub` occurs nowhere has no index for it. */
  lemma NoOccurrence(s: string, sub: string)
    requires forall i :: !OccursAt(s, sub, i)
    ensures Index(s, sub).None?
  {
  }

  /** A text that has no first character of `sub` at any place where
      `sub` would fit does not contain it. */
  lemma NotContained(s: string, sub: string)
    requires |sub| > 0 && forall k :: 0 <= k <= |s| - |sub| ==> s[k] != sub[0]
    ensures !Contains(s, sub)
  {
    forall i | 0 <= i <= |s| - |sub|
      ensures !OccursAt(s, sub, i)
    {
      assert s[i..i + |sub|][0] == s[i];
    }
    ContainsIff(s, sub);
  }

  /** The first one-character separator of a text whose first piece has
      none is right after that piece. */
  lemma FirstSeparator(a: string, sep: string, t: string)
    requires |sep| == 1 && !Contains(a, sep)
    ensures Index(a + sep + t, sep) == Some(|a|)
  {
    var s := a + sep + t;
    assert OccursAt(s, sep, |a|);
    var r := Index(s, sep);
    if r.Some? && r.value < |a| {
      assert s[r.value] == sep[0];
      assert OccursAt(a, sep, r.value);
    }
  }

  /** Cutting at a one-character separator undoes joining with it, for
      pieces that do not contain it. */
  lemma {:induction false} SplitJoin(p: seq<string>, sep: string)
    requires |sep| == 1 && |p| >= 1 && forall k :: 0 <= k < |p| ==> !Contains(p[k], sep)
    ensures Split(Join(p, sep), sep) == p
  {
    if |p| == 1 {
      assert Join(p, sep) == p[0];
      assert Index(p[0], sep).None?;
    } else {
      var t := Join(p[1..], sep);
      var s := Join(p, sep);
      assert s == p[0] + sep + t;
      FirstSeparator(p[0], sep, t);
      assert s[..|p[0]|] == p[0];
      assert s[|p[0]| + 1..] == t;
      SplitJoin(p[1..], sep);
      assert Split(s, sep) == [p[0]] + p[1..];
    }
  }

  /** An occurrence of `w` that no occurrence of `sep` overlaps lies
      inside one of the pieces. */
  lemma {:induction false} InsidePiece(s: string, sep: string, w: string, i: int)
    requires |sep| > 0 && OccursAt(s, w, i)
    requires forall p :: OccursAt(s, sep, p) ==> p + |sep| <= i || i + |w| <= p
    ensures exists k :: 0 <= k < |Split(s, sep)| && Contains(Split(s, sep)[k], w)
    decreases |s|
  {
    var r := Split(s, sep);
    match Index(s, sep)
    case None =>
      ContainsAt(s, w, i);
      assert Contains(r[0], w);
    case Some(c) =>
      var t := s[c + |sep|..];
      assert r == [s[..c]] + Split(t, sep);
      assert OccursAt(s, sep, c);
      if i + |w| <= c {
        BeforeCut(s, w, i, c);
        assert Contains(r[0], w);
      } else {
        var j := i - c - |sep|;
        AfterCut(s, sep, w, i, c, t, j);
        InsidePiece(t, sep, w, j);
        var k :| 0 <= k < |Split(t, sep)| && Contains(Split(t, sep)[k], w);
        assert r[k + 1] == Split(t, sep)[k];
      }
  }

  lemma BeforeCut(s: string, w: string, i: int, c: int)
    requires OccursAt(s, w, i) && i + |w| <= c <= |s|
    ensures Contains(s[..c], w)
  {
    assert s[..c][i..i + |w|] == s[i..i + |w|];
    ContainsAt(s[..c], w, i);
  }

  /** Past a cut, the occurrence and the separators move left together. */
  lemma AfterCut(s: string, sep: string, w: string, i: int, c: int, t: string, j: int)
    requires OccursAt(s, w, i) && OccursAt(s, sep, c) && c + |sep| <= i
    requires forall p :: OccursAt(s, sep, p) ==> p + |sep| <= i || i + |w| <= p
    requires t == s[c + |sep|..] && j == i - c - |sep|
    ensures OccursAt(t, w, j)
    ensures forall p :: OccursAt(t, sep, p) ==> p + |sep| <= j || j + |w| <= p
  {
    assert t[j..j + |w|] == s[i..i + |w|];
    forall p | OccursAt(t, sep, p)
      ensures p + |sep| <= j || j + |w| <= p
    {
      assert s[p + c + |sep|..p + c + |sep| + |sep|] == t[p..p + |sep|];
      assert OccursAt(s, sep, p + c + |sep|);
    }
  }

  /** Go `strings.Join`. */
  function Join(parts: seq<string>, sep: string): string {
    if |parts| == 0 then ""
    else if |parts| == 1 then parts[0]
    else parts[0] + sep + Join(parts[1..], sep)
  }

  // -------------------------------------------------------------- spacing

  /** Go `unicode.IsSpace`: the Latin-1 spaces plus the White_Space property. */
  predicate IsSpace(c: char) {
    c == '\t' || c == '\n' || c == '\U{000B}' || c == '\U{000C}' || c == '\r' || c == ' '
    || c == '\U{0085}' || c == '\U{00A0}' || c == '\U{1680}'
    || ('\U{2000}' <= c <= '\U{200A}') || c == '\U{2028}' || c == '\U{2029}'
    || c == '\U{202F}' || c == '\U{205F}' || c == '\U{3000}'
  }

  /** The RE2 class `\s`: tab, newline, form feed, carriage return, space. */
  predicate IsRegexSpace(c: char) {
    c == '\t' || c == '\n' || c == '\U{000C}' || c == '\r' || c == ' '
  }

  /** Number of leading characters of `s` satisfying `p`. */
  function LeadingCount(s: string, p: char -> bool): (n: nat)
    ensures n <= |s|
    ensures forall j :: 0 <= j < n ==> p(s[j])
    ensures n < |s| ==> !p(s[n])
  {
    if |s| == 0 || !p(s[0]) then 0 else 1 + LeadingCount(s[1..], p)
  }

  /** Number of trailing characters of `s` satisfying `p`. */
  function TrailingCount(s: string, p: char -> bool): (n: nat)
    ensures n <= |s|
    ensures forall j :: |s| - n <= j < |s| ==> p(s[j])
    ensures n < |s| ==> !p(s[|s| - n - 1])
  {
    if |s| == 0 || !p(s[|s| - 1]) then 0 else 1 + TrailingCount(s[..|s| - 1], p)
  }

  /** Go `strings.TrimSpace`. */
  function TrimSpace(s: string): (r: string)
    ensures |r| <= |s|
    ensures r == [] || (!IsSpace(r[0]) && !IsSpace(r[|r| - 1]))
    ensures exists i, j :: 0 <= i <= j <= |s| && r == s[i..j] && AllSpace(s[..i]) && AllSpace(s[j..])
  {
    var lead := LeadingCount(s, IsSpace);
    var rest := s[lead..];
    var trail := TrailingCount(rest, IsSpace);
    assert s[lead..][..|rest| - trail] == s[lead..lead + |rest| - trail];
    assert AllSpace(s[..lead]);
    assert AllSpace(s[lead + |rest| - trail..]) by {
      assert s[lead + |rest| - trail..] == rest[|rest| - trail..];
    }
    rest[..|rest| - trail]
  }

  predicate AllSpace(s: string) {
    forall k :: 0 <= k < |s| ==> IsSpace(s[k])
  }

  /** Go `strings.TrimRight(s, cutset)`: drop trailing characters in `cutset`. */
  function TrimRightSet(s: string, cutset: set<char>): (r: string)
    ensures |r| <= |s| && r == s[..|r|]
    ensures forall k :: |r| <= k < |s| ==> s[k] in cutset
    ensures r == [] || r[|r| - 1] !in cutset
  {
    var n := TrailingCount(s, c => c in cutset);
    s[..|s| - n]
  }

  // --------------------------------------------------------- letter case

  predicate IsAsciiUpper(c: char) { 'A' <= c <= 'Z' }
  predicate IsAsciiLower(c: char) { 'a' <= c <= 'z' }
  predicate IsAsciiLetter(c: char) { IsAsciiUpper(c) || IsAsciiLower(c) }
  predicate IsAsciiDigit(c: char) { '0' <= c <= '9' }
  predicate IsAsciiAlnum(c: char) { IsAsciiLetter(c) || IsAsciiDigit(c) }

  /** Go `unicode.ToLower` on the characters whose lower case is ASCII:
      the ASCII capitals, DOTTED CAPITAL I (U+0130) and KELVIN SIGN (U+212A). */
  function LowerChar(c: char): (r: char)
    ensures IsAsciiUpper(c) ==> r as int == c as int + 32
    ensures !IsAsciiUpper(c) && c != '\U{0130}' && c != '\U{212A}' ==> r == c
    ensures !IsAsciiUpper(r)
  {
    if IsAsciiUpper(c) then (c as int + 32) as char
    else if c == '\U{0130}' then 'i'
    else if c == '\U{212A}' then 'k'
    else c
  }

  /** Go `unicode.ToUpper` on the characters whose upper case is ASCII:
      the ASCII small letters, DOTLESS I (U+0131) and LONG S (U+017F). */
  function UpperChar(c: char): (r: char)
    ensures IsAsciiLower(c) ==> r as int == c as int - 32
    ensures !IsAsciiLower(c) && c != '\U{0131}' && c != '\U{017F}' ==> r == c
    ensures !IsAsciiLower(r)
  {
    if IsAsciiLower(c) then (c as int - 32) as char
    else if c == '\U{0131}' then 'I'
    else if c == '\U{017F}' then 'S'
    else c
  }

  /** Go `strings.ToLower`. */
  function ToLower(s: string): (r: string)
    ensures |r| == |s|
    ensures forall k :: 0 <= k < |s| ==> r[k] == LowerChar(s[k])
  {
    if |s| == 0 then [] else [LowerChar(s[0])] + ToLower(s[1..])
  }

  /** Go `strings.ToUpper`. */
  function ToUpper(s: string): (r: string)
    ensures |r| == |s|
    ensures forall k :: 0 <= k < |s| ==> r[k] == UpperChar(s[k])
  {
    if |s| == 0 then [] else [UpperChar(s[0])] + ToUpper(s[1..])
  }

  /** Upper-casing leaves capital letters alone. */
  lemma UpperOfCapitals(s: string)
    requires forall k :: 0 <= k < |s| ==> IsAsciiUpper(s[k])
    ensures ToUpper(s) == s
  {
    assert forall k :: 0 <= k < |s| ==> ToUpper(s)[k] == s[k];
  }

  lemma LowerIdempotent(s: string)
    ensures ToLower(ToLower(s)) == ToLower(s)
  {
    var l := ToLower(s);
    forall k | 0 <= k < |s|
      ensures ToLower(l)[k] == l[k]
    {
      assert l[k] == LowerChar(s[k]);
    }
  }

  /** An upper-cased text has no ASCII small letter. */
  lemma UpperHasNoAsciiLower(s: string)
    ensures forall k :: 0 <= k < |s| ==> !IsAsciiLower(ToUpper(s)[k])
  {
  }

  // ---------------------------------------------------------- measuring

  /** Bytes Go's UTF-8 encoding uses for `c`. */
  function Utf8Width(c: char): (w: nat)
    ensures 1 <= w <= 4
    ensures w == 1 <==> c as int < 0x80
  {
    if c as int < 0x80 then 1
    else if c as int < 0x800 then 2
    else if c as int < 0x10000 then 3
    else 4
  }

  /** Go `len(s)`: the UTF-8 byte length. */
  function Utf8Len(s: string): (n: nat)
    ensures |s| <= n <= 4 * |s|
  {
    if |s| == 0 then 0 else Utf8Width(s[0]) + Utf8Len(s[1..])
  }

  lemma Utf8LenAppend(a: string, b: string)
    ensures Utf8Len(a + b) == Utf8Len(a) + Utf8Len(b)
  {
    if |a| > 0 {
      assert (a + b)[1..] == a[1..] + b;
      Utf8LenAppend(a[1..], b);
    } else {
      assert a + b == b;
    }
  }

  /** Decimal rendering of a natural number, as `%d` prints it. */
  function NatToString(n: nat): (r: string)
    ensures |r| >= 1
    ensures forall k :: 0 <= k < |r| ==> IsAsciiDigit(r[k])
    ensures n > 0 ==> r[0] != '0'
  {
    if n < 10 then [Digit(n)] else NatToString(n / 10) + [Digit(n % 10)]
  }

  function Digit(d: nat): (c: char)
    requires d < 10
    ensures IsAsciiDigit(c)
    ensures d > 0 ==> c != '0'
  {
    ['0', '1', '2', '3', '4', '5', '6', '7', '8', '9'][d]
  }

  /** `%d` for any integer. */
  function IntToString(i: int): (r: string)
    ensures |r| >= 1
    ensures (i < 0) <==> r[0] == '-'
  {
    if i < 0 then "-" + NatToString(-i) else NatToString(i)
  }
}
