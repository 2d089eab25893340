/** The heredoc rule: an opening heredoc marker should be the indented form
    `<<-`, and its delimiter should not be `EOF`. */
module Heredoc {
  import opened Wrappers
  import opened Syntax
  import opened Issues
  import opened Text
  import Walk

  const EofMessage := "Avoid using 'EOF' as the heredoc delimiter."
  const StandardMessage := "Avoid standard heredoc (<<). Use indented (<<-) instead."

  /** What the marker pattern captures: whether the `-` is there, and the
      delimiter. */
  datatype Opener = Opener(indented: bool, delim: string)

  predicate AllAlnum(s: string) {
    forall k :: 0 <= k < |s| ==> IsAsciiAlnum(s[k])
  }

  predicate AllRegexSpace(s: string) {
    forall k :: 0 <= k < |s| ==> IsRegexSpace(s[k])
  }

  function Marker(o: Opener): string {
    if o.indented then "<<-" else "<<"
  }

  /** At index `i` the text holds the marker and the delimiter, followed by
      nothing but white space. */
  predicate ShapeAt(text: string, o: Opener, i: nat) {
    i + |Marker(o)| + |o.delim| <= |text|
    && text[i..i + |Marker(o)| + |o.delim|] == Marker(o) + o.delim
    && AllRegexSpace(text[i + |Marker(o)| + |o.delim|..])
  }

  /** The pattern `<<(-?)([a-zA-Z0-9]+)\s*$` matches with these captures:
      somewhere in the text the marker and a non-empty alphanumeric
      delimiter are followed by nothing but white space. */
  ghost predicate Shape(text: string, o: Opener) {
    |o.delim| > 0 && AllAlnum(o.delim) && exists i: nat :: ShapeAt(text, o, i)
  }

  /** Where the run of white space that ends at `e` begins. */
  function SpaceStart(s: string, e: nat): (j: nat)
    requires e <= |s|
    ensures j <= e
    ensures forall k :: j <= k < e ==> IsRegexSpace(s[k])
    ensures j > 0 ==> !IsRegexSpace(s[j - 1])
  {
    if e == 0 || !IsRegexSpace(s[e - 1]) then e else SpaceStart(s, e - 1)
  }

  /** Where the run of ASCII letters and digits that ends at `e` begins. */
  function AlnumStart(s: string, e: nat): (j: nat)
    requires e <= |s|
    ensures j <= e
    ensures forall k :: j <= k < e ==> IsAsciiAlnum(s[k])
    ensures j > 0 ==> !IsAsciiAlnum(s[j - 1])
  {
    if e == 0 || !IsAsciiAlnum(s[e - 1]) then e else AlnumStart(s, e - 1)
  }

  /** What precedes a delimiter that runs from `d` to `c`: the indented
      marker, the standard one, or neither. */
  function OpenerAt(text: string, c: nat, d: nat): Option<Opener>
    requires d <= c <= |text|
  {
    if d == c then None
    else if HasSuffix(text[..d], "<<-") then Some(Opener(true, text[d..c]))
    else if HasSuffix(text[..d], "<<") then Some(Opener(false, text[d..c]))
    else None
  }

  /** The match, found from the end: skip trailing white space, take the
      longest alphanumeric run before it as the delimiter, and look at what
      precedes that. */
  function ParseOpener(text: string): Option<Opener> {
    var c := SpaceStart(text, |text|);
    OpenerAt(text, c, AlnumStart(text, c))
  }

  /** The scan finds exactly the captures of the pattern, and there is at
      most one way to match. */
  lemma ParseIsShape(text: string, o: Opener)
    ensures ParseOpener(text) == Some(o) <==> Shape(text, o)
  {
    if ParseOpener(text) == Some(o) {
      ParseSound(text);
    }
    if Shape(text, o) {
      ShapeParsed(text, o);
    }
  }

  lemma ParseSound(text: string)
    requires ParseOpener(text).Some?
    ensures Shape(text, ParseOpener(text).value)
  {
    var c := SpaceStart(text, |text|);
    var d := AlnumStart(text, c);
    OpenerAtSound(text, c, d);
  }

  lemma OpenerAtSound(text: string, c: nat, d: nat)
    requires d <= c <= |text| && OpenerAt(text, c, d).Some?
    requires forall k :: c <= k < |text| ==> IsRegexSpace(text[k])
    requires forall k :: d <= k < c ==> IsAsciiAlnum(text[k])
    ensures Shape(text, OpenerAt(text, c, d).value)
  {
    var o := OpenerAt(text, c, d).value;
    assert o.delim == text[d..c];
    assert HasSuffix(text[..d], Marker(o));
    MatchAt(text, c, d, o);
  }

  /** The marker right before an alphanumeric run that is followed only by
      white space is a match of the pattern. */
  lemma MatchAt(text: string, c: nat, d: nat, o: Opener)
    requires d < c <= |text|
    requires forall k :: c <= k < |text| ==> IsRegexSpace(text[k])
    requires forall k :: d <= k < c ==> IsAsciiAlnum(text[k])
    requires o.delim == text[d..c] && HasSuffix(text[..d], Marker(o))
    ensures Shape(text, o)
  {
    var m := Marker(o);
    var i := d - |m|;
    assert text[i..d] == text[..d][|text[..d]| - |m|..] == m;
    assert text[i..c] == text[i..d] + text[d..c];
    assert forall k :: 0 <= k < |text| - c ==> text[c..][k] == text[c + k];
    assert forall k :: 0 <= k < c - d ==> o.delim[k] == text[d + k];
    assert ShapeAt(text, o, i);
  }

  lemma ShapeParsed(text: string, o: Opener)
    requires Shape(text, o)
    ensures ParseOpener(text) == Some(o)
  {
    var i: nat :| ShapeAt(text, o, i);
    ShapeAtParsed(text, o, i);
  }

  lemma ShapeAtParsed(text: string, o: Opener, i: nat)
    requires |o.delim| > 0 && AllAlnum(o.delim) && ShapeAt(text, o, i)
    ensures ParseOpener(text) == Some(o)
  {
    var m := Marker(o);
    var d := i + |m|;
    var c := d + |o.delim|;
    SpacesFrom(text, o, i);
    DelimFrom(text, o, i);
    ShapeSlices(text, o, i);
    MarkerParsed(text, c, d, o);
  }

  lemma ShapeSlices(text: string, o: Opener, i: nat)
    requires ShapeAt(text, o, i)
    ensures text[i + |Marker(o)|..i + |Marker(o)| + |o.delim|] == o.delim
    ensures text[..i + |Marker(o)|][i..] == Marker(o)
  {
    var m := Marker(o);
    var c := i + |m| + |o.delim|;
    assert text[i..c][|m|..] == o.delim;
    assert text[i..c][..|m|] == m;
  }

  /** The marker that ends at `d` decides which form the opener takes. */
  lemma MarkerParsed(text: string, c: nat, d: nat, o: Opener)
    requires |Marker(o)| <= d < c <= |text| && text[d..c] == o.delim
    requires text[..d][d - |Marker(o)|..] == Marker(o)
    ensures OpenerAt(text, c, d) == Some(o)
  {
    if o.indented {
      assert HasSuffix(text[..d], "<<-");
    } else {
      assert text[d - 1] == '<';
      assert !HasSuffix(text[..d], "<<-");
      assert HasSuffix(text[..d], "<<");
    }
  }

  /** The white space the scan skips is exactly what follows the delimiter. */
  lemma SpacesFrom(text: string, o: Opener, i: nat)
    requires |o.delim| > 0 && AllAlnum(o.delim) && ShapeAt(text, o, i)
    ensures SpaceStart(text, |text|) == i + |Marker(o)| + |o.delim|
  {
    var j := i + |Marker(o)| + |o.delim|;
    DelimLast(text, o, i);
    TailSpaces(text, j);
    SpaceRunAt(text, |text|, j);
  }

  lemma DelimLast(text: string, o: Opener, i: nat)
    requires |o.delim| > 0 && AllAlnum(o.delim) && ShapeAt(text, o, i)
    ensures IsAsciiAlnum(text[i + |Marker(o)| + |o.delim| - 1])
  {
    var j := i + |Marker(o)| + |o.delim|;
    assert text[j - 1] == text[i..j][j - 1 - i] == o.delim[|o.delim| - 1];
  }

  lemma TailSpaces(text: string, j: nat)
    requires j <= |text| && AllRegexSpace(text[j..])
    ensures forall k :: j <= k < |text| ==> IsRegexSpace(text[k])
  {
    assert forall k :: j <= k < |text| ==> text[k] == text[j..][k - j];
  }

  /** The alphanumeric run the scan takes is exactly the delimiter: the
      marker before it ends in a character that is not alphanumeric. */
  lemma DelimFrom(text: string, o: Opener, i: nat)
    requires |o.delim| > 0 && AllAlnum(o.delim) && ShapeAt(text, o, i)
    ensures AlnumStart(text, i + |Marker(o)| + |o.delim|) == i + |Marker(o)|
  {
    var m := Marker(o);
    var d := i + |m|;
    var c := d + |o.delim|;
    assert text[d - 1] == text[i..c][|m| - 1] == m[|m| - 1];
    assert forall k :: d <= k < c ==> text[k] == text[i..c][k - i] == o.delim[k - d];
    AlnumRunAt(text, c, d);
  }

  /** A run of white space that ends at `e` and starts right after a
      character outside it is the run the scan finds. */
  lemma SpaceRunAt(s: string, e: nat, j: nat)
    requires 0 < j <= e <= |s| && !IsRegexSpace(s[j - 1])
    requires forall k :: j <= k < e ==> IsRegexSpace(s[k])
    ensures SpaceStart(s, e) == j
  {
  }

  lemma AlnumRunAt(s: string, e: nat, j: nat)
    requires 0 < j <= e <= |s| && !IsAsciiAlnum(s[j - 1])
    requires forall k :: j <= k < e ==> IsAsciiAlnum(s[k])
    ensures AlnumStart(s, e) == j
  {
  }

  /** `checkHeredocToken`: on an opening heredoc token that matches, one
      issue for the standard form and one for the `EOF` delimiter when that
      check is on, both at the token's range. */
  function TokenIssues(eof: bool, tok: Token): (r: seq<Issue>)
    ensures tok.kind != OpenHeredoc ==> r == []
    ensures |r| <= 2 && forall x :: x in r ==> x.rng == tok.rng
    ensures TextIssue(StandardMessage, tok.rng) in r <==>
      (tok.kind == OpenHeredoc && exists o :: ParseOpener(tok.text) == Some(o) && !o.indented)
    ensures TextIssue(EofMessage, tok.rng) in r <==>
      (eof && tok.kind == OpenHeredoc && exists o :: ParseOpener(tok.text) == Some(o) && o.delim == "EOF")
  {
    if tok.kind != OpenHeredoc then []
    else match ParseOpener(tok.text)
      case None => []
      case Some(o) =>
        (if !o.indented then [TextIssue(StandardMessage, tok.rng)] else [])
        + (if eof && o.delim == "EOF" then [TextIssue(EofMessage, tok.rng)] else [])
  }

  /** The three forms the rule tells apart, whatever white space ends the
      line: standard with `EOF`, indented with `EOF`, and indented with
      another delimiter. */
  lemma StandardEofExample(ws: string)
    requires AllRegexSpace(ws)
    ensures ParseOpener("<<EOF" + ws) == Some(Opener(false, "EOF"))
  {
    assert "<<EOF" == "<<" + "EOF";
    ExampleShape("<<", "EOF", ws);
  }

  lemma IndentedEofExample(ws: string)
    requires AllRegexSpace(ws)
    ensures ParseOpener("<<-EOF" + ws) == Some(Opener(true, "EOF"))
  {
    assert "<<-EOF" == "<<-" + "EOF";
    ExampleShape("<<-", "EOF", ws);
  }

  lemma IndentedEndExample(ws: string)
    requires AllRegexSpace(ws)
    ensures ParseOpener("<<-END" + ws) == Some(Opener(true, "END"))
  {
    assert "<<-END" == "<<-" + "END";
    assert AllAlnum("END") by {
      assert forall k :: 0 <= k < 3 ==> IsAsciiUpper("END"[k]);
    }
    ExampleShape("<<-", "END", ws);
  }

  lemma ExampleShape(m: string, delim: string, ws: string)
    requires m == "<<" || m == "<<-"
    requires |delim| > 0 && AllAlnum(delim) && AllRegexSpace(ws)
    ensures ParseOpener(m + delim + ws) == Some(Opener(m == "<<-", delim))
  {
    var text := m + delim + ws;
    var o := Opener(m == "<<-", delim);
    assert text[0..|m| + |delim|] == Marker(o) + delim;
    assert text[|m| + |delim|..] == ws;
    assert ShapeAt(text, o, 0);
    ShapeParsed(text, o);
  }

  /** A standard opener with `EOF` draws both issues, the standard one
      first. */
  lemma StandardEofIssues(ws: string, rng: Range)
    requires AllRegexSpace(ws)
    ensures TokenIssues(true, Token(OpenHeredoc, "<<EOF" + ws, rng))
      == [TextIssue(StandardMessage, rng), TextIssue(EofMessage, rng)]
  {
    StandardEofExample(ws);
    ExampleIssues(true, "<<EOF" + ws, rng, Opener(false, "EOF"));
  }

  /** The indented opener with `EOF` draws only the delimiter issue, and
      none when that check is off. */
  lemma IndentedEofIssues(eof: bool, ws: string, rng: Range)
    requires AllRegexSpace(ws)
    ensures TokenIssues(eof, Token(OpenHeredoc, "<<-EOF" + ws, rng))
      == if eof then [TextIssue(EofMessage, rng)] else []
  {
    IndentedEofExample(ws);
    ExampleIssues(eof, "<<-EOF" + ws, rng, Opener(true, "EOF"));
  }

  /** The indented opener with another delimiter draws nothing. */
  lemma IndentedEndIssues(eof: bool, ws: string, rng: Range)
    requires AllRegexSpace(ws)
    ensures TokenIssues(eof, Token(OpenHeredoc, "<<-END" + ws, rng)) == []
  {
    IndentedEndExample(ws);
    ExampleIssues(eof, "<<-END" + ws, rng, Opener(true, "END"));
  }

  lemma ExampleIssues(eof: bool, text: string, rng: Range, o: Opener)
    requires ParseOpener(text) == Some(o)
    ensures TokenIssues(eof, Token(OpenHeredoc, text, rng))
      == (if !o.indented then [TextIssue(StandardMessage, rng)] else [])
         + (if eof && o.delim == "EOF" then [TextIssue(EofMessage, rng)] else [])
  {
    OpenerIssues(eof, Token(OpenHeredoc, text, rng), o);
  }

  lemma OpenerIssues(eof: bool, tok: Token, o: Opener)
    requires tok.kind == OpenHeredoc && ParseOpener(tok.text) == Some(o)
    ensures TokenIssues(eof, tok)
      == (if !o.indented then [TextIssue(StandardMessage, tok.rng)] else [])
         + (if eof && o.delim == "EOF" then [TextIssue(EofMessage, tok.rng)] else [])
  {
  }

  function TokenCheck(eof: bool): Walk.TokenCheck {
    tok => TokenIssues(eof, tok)
  }

  datatype Config = Config(enabled: Option<bool>, eof: bool)

  const DefaultConfig := Config(None, true)

  /** `Check`: the token walk over the root module; the current generation
      honours `enabled`, the older one always runs. */
  function Check(gen: Gen, cfg: Config, isRoot: bool, files: seq<SourceFile>): (r: Outcome)
    ensures gen == Current && !Enabled(cfg.enabled) ==> r == Outcome([], false)
    ensures !isRoot ==> r == Outcome([], false)
  {
    if gen == Current && !Enabled(cfg.enabled) then Outcome([], false)
    else Walk.WalkTokens(isRoot, files, TokenCheck(cfg.eof))
  }
}
