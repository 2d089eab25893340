/** The reminder rule: a comment that carries a reminder tag such as `TODO`
    right before or right after its first space. */
module Reminder {
  import opened Wrappers
  import opened Syntax
  import opened Issues
  import opened Text
  import Walk

  const DefaultTags: seq<string> := ["BUG", "FIXME", "HACK", "TODO"]

  /** The index of the first space at or after `from`. */
  function SpaceFrom(s: string, from: nat): (r: Option<nat>)
    requires from <= |s|
    decreases |s| - from
    ensures r.Some? ==> from <= r.value < |s| && s[r.value] == ' '
    ensures r.Some? ==> forall k :: from <= k < r.value ==> s[k] != ' '
    ensures r.None? <==> forall k :: from <= k < |s| ==> s[k] != ' '
  {
    if from == |s| then None
    else if s[from] == ' ' then Some(from)
    else SpaceFrom(s, from + 1)
  }

  /** Go `strings.SplitAfterN(s, " ", 2)`: the text up to and including the
      first space, and the rest; a text without a space stays whole. */
  function SplitAfterSpace(s: string): (r: seq<string>)
    ensures |r| == 1 <==> forall k :: 0 <= k < |s| ==> s[k] != ' '
    ensures |r| == 1 || |r| == 2
    ensures |r| == 1 ==> r[0] == s
    ensures |r| == 2 ==> r[0] + r[1] == s && |r[0]| > 0 && r[0][|r[0]| - 1] == ' '
    ensures |r| == 2 ==> forall k :: 0 <= k < |r[0]| - 1 ==> r[0][k] != ' '
  {
    match SpaceFrom(s, 0)
    case None => [s]
    case Some(i) =>
      assert s[..i + 1] + s[i + 1..] == s;
      [s[..i + 1], s[i + 1..]]
  }

  /** Tag `t` sits at the end of the first word or at the start of the rest. */
  predicate Hits(head: string, rest: string, t: string) {
    HasSuffix(TrimSpace(head), t) || HasPrefix(rest, t)
  }

  /** The tags that hit, in list order and with repeats kept. */
  function HitTags(tags: seq<string>, head: string, rest: string): (r: seq<string>)
    ensures |r| <= |tags|
    ensures forall t :: t in r <==> t in tags && Hits(head, rest, t)
    ensures r == [] <==> forall i :: 0 <= i < |tags| ==> !Hits(head, rest, tags[i])
  {
    if |tags| == 0 then []
    else
      var r := HitTags(tags[1..], head, rest);
      assert forall t :: t in tags <==> t == tags[0] || t in tags[1..];
      if Hits(head, rest, tags[0]) then [tags[0]] + r else r
  }

  /** The positions in the tag list whose tag hits. */
  function HitIndices(tags: seq<string>, head: string, rest: string): set<nat> {
    set i: nat | i < |tags| && Hits(head, rest, tags[i])
  }

  function Shift(a: set<nat>): set<nat> {
    set i | i in a :: i + 1
  }

  lemma {:induction false} ShiftSize(a: set<nat>)
    ensures |Shift(a)| == |a|
    decreases |a|
  {
    if a != {} {
      var x :| x in a;
      ShiftSize(a - {x});
      forall i | i in Shift(a)
        ensures i in Shift(a - {x}) + {x + 1}
      {
        var y :| y in a && i == y + 1;
        if y != x {
          assert y in a - {x};
        }
      }
      assert Shift(a) == Shift(a - {x}) + {x + 1};
      assert x + 1 !in Shift(a - {x});
    }
  }

  /** One hit per position of the list whose tag hits, so a tag listed
      twice hits twice. */
  lemma {:induction false} HitTagsCount(tags: seq<string>, head: string, rest: string)
    ensures |HitTags(tags, head, rest)| == |HitIndices(tags, head, rest)|
  {
    if |tags| > 0 {
      var later := HitIndices(tags[1..], head, rest);
      HitTagsCount(tags[1..], head, rest);
      ShiftSize(later);
      IndicesCons(tags, head, rest);
      assert 0 !in Shift(later);
    }
  }

  /** The hitting positions of a list: the head's, then the tail's moved
      up by one. */
  lemma IndicesCons(tags: seq<string>, head: string, rest: string)
    requires |tags| > 0
    ensures HitIndices(tags, head, rest)
      == (if Hits(head, rest, tags[0]) then {0} else {}) + Shift(HitIndices(tags[1..], head, rest))
  {
    var later := HitIndices(tags[1..], head, rest);
    var first: set<nat> := if Hits(head, rest, tags[0]) then {0} else {};
    forall i: nat
      ensures i in HitIndices(tags, head, rest) <==> i in first + Shift(later)
    {
      if i > 0 {
        assert i - 1 in later <==> i - 1 < |tags| - 1 && Hits(head, rest, tags[1..][i - 1]);
      }
    }
  }

  function Message(text: string): string {
    "Resolve reminder: '" + TrimSpace(text) + "'."
  }

  /** `checkReminder`: on a comment whose upper-cased text has a space, one
      issue for every tag that hits, all alike. */
  function TokenIssues(tags: seq<string>, tok: Token): (r: seq<Issue>)
    ensures tok.kind != Comment ==> r == []
    ensures (forall k :: 0 <= k < |tok.text| ==> tok.text[k] != ' ') ==> r == []
    ensures forall x :: x in r ==> x == TextIssue(Message(tok.text), tok.rng)
    ensures tok.kind == Comment && |SplitAfterSpace(ToUpper(tok.text))| == 2 ==>
      var parts := SplitAfterSpace(ToUpper(tok.text));
      |r| == |set i: nat | i < |tags| && Hits(parts[0], parts[1], tags[i])|
  {
    if tok.kind != Comment then []
    else
      var parts := SplitAfterSpace(ToUpper(tok.text));
      if |parts| < 2 then
        []
      else
        var hits := HitTags(tags, parts[0], parts[1]);
        HitTagsCount(tags, parts[0], parts[1]);
        NoSpaceStays(tok.text);
        seq(|hits|, _ => TextIssue(Message(tok.text), tok.rng))
  }

  /** Upper-casing neither makes nor removes a space. */
  lemma NoSpaceStays(s: string)
    ensures forall k :: 0 <= k < |s| ==> (s[k] == ' ' <==> ToUpper(s)[k] == ' ')
  {
    var u := ToUpper(s);
    forall k | 0 <= k < |s|
      ensures s[k] == ' ' <==> u[k] == ' '
    {
      assert u[k] == UpperChar(s[k]);
    }
  }

  /** No ASCII small letter anywhere in `s`. */
  predicate NoAsciiLower(s: string) {
    forall k :: 0 <= k < |s| ==> !IsAsciiLower(s[k])
  }

  /** The words the tags are compared with come from the upper-cased text,
      so a tag with an ASCII small letter never hits. */
  lemma LowercaseTagNeverHits(head: string, rest: string, t: string)
    requires NoAsciiLower(head) && NoAsciiLower(rest)
    requires exists k :: 0 <= k < |t| && IsAsciiLower(t[k])
    ensures !Hits(head, rest, t)
  {
    var k :| 0 <= k < |t| && IsAsciiLower(t[k]);
    var w := TrimSpace(head);
    var i, j :| 0 <= i <= j <= |head| && w == head[i..j];
    if HasSuffix(w, t) {
      assert false;
    }
    if HasPrefix(rest, t) {
      assert false;
    }
  }

  /** Splitting keeps a text free of ASCII small letters. */
  lemma HalvesKeepNoLower(u: string)
    requires NoAsciiLower(u)
    ensures forall w :: w in SplitAfterSpace(u) ==> NoAsciiLower(w)
  {
    var parts := SplitAfterSpace(u);
    if |parts| == 2 {
      ConcatNoLower(parts[0], parts[1]);
    }
  }

  lemma ConcatNoLower(a: string, b: string)
    requires NoAsciiLower(a + b)
    ensures NoAsciiLower(a) && NoAsciiLower(b)
  {
    assert forall k :: 0 <= k < |a| ==> a[k] == (a + b)[k];
    assert forall k :: 0 <= k < |b| ==> b[k] == (a + b)[|a| + k];
  }

  /** Tags written in lower case are never reported. */
  lemma LowercaseTagsSilent(tags: seq<string>, tok: Token)
    requires forall i :: 0 <= i < |tags| ==> exists k :: 0 <= k < |tags[i]| && IsAsciiLower(tags[i][k])
    ensures TokenIssues(tags, tok) == []
  {
    var parts := SplitAfterSpace(ToUpper(tok.text));
    if tok.kind == Comment && |parts| == 2 {
      assert NoAsciiLower(ToUpper(tok.text)) by {
        UpperHasNoAsciiLower(tok.text);
      }
      HalvesKeepNoLower(ToUpper(tok.text));
      var head, rest := parts[0], parts[1];
      assert head in parts && rest in parts;
      forall i | 0 <= i < |tags|
        ensures !Hits(head, rest, tags[i])
      {
        LowercaseTagNeverHits(head, rest, tags[i]);
      }
      assert HitTags(tags, head, rest) == [];
    }
  }

  lemma UpperIdempotent(s: string)
    ensures ToUpper(ToUpper(s)) == ToUpper(s)
  {
    var u := ToUpper(s);
    assert forall k :: 0 <= k < |s| ==> UpperChar(u[k]) == u[k];
  }

  /** The letter case of the comment does not change how many issues it
      draws. */
  lemma CaseBlind(tags: seq<string>, tok: Token)
    ensures |TokenIssues(tags, tok)| == |TokenIssues(tags, tok.(text := ToUpper(tok.text)))|
  {
    UpperIdempotent(tok.text);
  }

  lemma {:induction false} UpperAppend(a: string, b: string)
    ensures ToUpper(a + b) == ToUpper(a) + ToUpper(b)
  {
    if |a| == 0 {
      assert a + b == b;
    } else {
      assert (a + b)[1..] == a[1..] + b;
      UpperAppend(a[1..], b);
    }
  }

  /** The split happens at the first space. */
  lemma SplitAtFirstSpace(a: string, b: string)
    requires forall k :: 0 <= k < |a| ==> a[k] != ' '
    ensures SplitAfterSpace(a + " " + b) == [a + " ", b]
  {
    var s := a + " " + b;
    assert s[|a|] == ' ';
    assert forall k :: 0 <= k < |a| ==> s[k] == a[k];
    assert SpaceFrom(s, 0) == Some(|a|);
    assert s[..|a| + 1] == a + " ";
    assert s[|a| + 1..] == b;
  }

  /** A comment whose first space is followed by an upper-case tag draws at
      least one issue, whatever precedes the space and follows the tag. */
  lemma TagAfterFirstSpace(tags: seq<string>, lead: string, t: string, tail: string, rng: Range)
    requires t in tags && ToUpper(t) == t
    requires forall k :: 0 <= k < |lead| ==> lead[k] != ' '
    ensures |TokenIssues(tags, Token(Comment, lead + " " + t + tail, rng))| >= 1
  {
    var text := lead + " " + t + tail;
    var after := ToUpper(t + tail);
    assert text == lead + " " + (t + tail);
    assert ToUpper(text) == ToUpper(lead) + " " + after by {
      UpperAppend(lead + " ", t + tail);
      UpperAppend(lead, " ");
      assert ToUpper(" ") == " ";
    }
    assert after == t + ToUpper(tail) by {
      UpperAppend(t, tail);
    }
    NoSpaceStays(lead);
    SplitAtFirstSpace(ToUpper(lead), after);
    assert HasPrefix(after, t);
    var hits := HitTags(tags, ToUpper(lead) + " ", after);
    assert t in hits;
  }

  /** The default tags are upper case. */
  lemma DefaultTagsUpper()
    ensures forall t :: t in DefaultTags ==> ToUpper(t) == t
  {
    forall t | t in DefaultTags
      ensures ToUpper(t) == t
    {
      Capitals(t);
    }
  }

  lemma Capitals(t: string)
    requires t in DefaultTags
    ensures ToUpper(t) == t
  {
    assert forall k :: 0 <= k < |t| ==> IsAsciiUpper(t[k]);
    UpperOfCapitals(t);
  }

  function TokenCheck(tags: seq<string>): Walk.TokenCheck {
    tok => TokenIssues(tags, tok)
  }

  /** The configured tags replace the defaults. */
  datatype Config = Config(tags: Option<seq<string>>)

  const DefaultConfig := Config(None)

  function Tags(cfg: Config): seq<string> {
    cfg.tags.GetOr(DefaultTags)
  }

  /** `Check`: a token walk over the root module; the rule has no `enabled`
      gate. */
  function Check(cfg: Config, isRoot: bool, files: seq<SourceFile>): (r: Outcome)
    ensures !isRoot ==> r == Outcome([], false)
    ensures r.failed <==> isRoot && !Walk.AllLex(files)
  {
    Walk.WalkTokens(isRoot, files, TokenCheck(Tags(cfg)))
  }
}
