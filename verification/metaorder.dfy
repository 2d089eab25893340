/** The argument-order check of the meta rule: arguments listed as first
    come before all others, arguments listed as last come after all others,
    the rest anywhere in between. */
module MetaOrder {
  import opened Wrappers
  import opened Syntax
  import opened Issues

  const MisOrderedMessage := "Meta arguments should be ordered consistently"

  datatype OrderConfig = OrderConfig(first: seq<string>, last: seq<string>)

  /** One attribute with its start line and its classification. */
  datatype AttrInfo = AttrInfo(name: string, line: nat, isFirst: bool, isLast: bool, rng: Range)

  function Info(o: OrderConfig, a: Attribute): (r: AttrInfo)
    ensures r.name == a.name && r.line == a.rng.start.line && r.rng == a.rng
    ensures r.isFirst <==> a.name in o.first
    ensures r.isLast <==> a.name in o.last
  {
    AttrInfo(a.name, a.rng.start.line, a.name in o.first, a.name in o.last, a.rng)
  }

  function Infos(o: OrderConfig, attrs: seq<Attribute>): (r: seq<AttrInfo>)
    ensures |r| == |attrs| && forall k :: 0 <= k < |attrs| ==> r[k] == Info(o, attrs[k])
  {
    seq(|attrs|, k requires 0 <= k < |attrs| => Info(o, attrs[k]))
  }

  predicate SortedByLine(s: seq<AttrInfo>) {
    forall i, j :: 0 <= i < j < |s| ==> s[i].line <= s[j].line
  }

  /** `sorted` holds the same attributes as `infos`, in line order. */
  predicate Sorts(infos: seq<AttrInfo>, sorted: seq<AttrInfo>) {
    multiset(sorted) == multiset(infos) && SortedByLine(sorted)
  }

  /** The exchange sort of `checkOrder`: for each position, every later
      element with a smaller line is swapped into it. The result is a
      permutation sorted by line. */
  method SortByLine(attrs: seq<AttrInfo>) returns (r: seq<AttrInfo>)
    ensures multiset(r) == multiset(attrs)
    ensures SortedByLine(r)
  {
    r := attrs;
    if |r| == 0 {
      return;
    }
    var i := 0;
    while i < |r| - 1
      invariant 0 <= i <= |r| - 1 || (|r| == 0 && i == 0)
      invariant |r| == |attrs|
      invariant multiset(r) == multiset(attrs)
      invariant forall a, b :: 0 <= a < b < |r| && a < i ==> r[a].line <= r[b].line
    {
      var j := i + 1;
      while j < |r|
        invariant i + 1 <= j <= |r|
        invariant |r| == |attrs|
        invariant multiset(r) == multiset(attrs)
        invariant forall a, b :: 0 <= a < b < |r| && a < i ==> r[a].line <= r[b].line
        invariant forall b :: i < b < j ==> r[i].line <= r[b].line
      {
        if r[i].line > r[j].line {
          r := Swap(r, i, j);
        }
        j := j + 1;
      }
      i := i + 1;
    }
  }

  /** Exchanging two elements keeps the same elements. */
  function Swap(s: seq<AttrInfo>, i: nat, j: nat): (r: seq<AttrInfo>)
    requires i < |s| && j < |s|
    ensures |r| == |s| && multiset(r) == multiset(s)
    ensures r[i] == s[j] && r[j] == s[i]
    ensures forall k :: 0 <= k < |s| && k != i && k != j ==> r[k] == s[k]
  {
    s[i := s[j]][j := s[i]]
  }

  /** Position `b` holds a first-listed attribute after one that is not. */
  predicate FirstMisplaced(s: seq<AttrInfo>, b: int) {
    0 <= b < |s| && s[b].isFirst && exists a :: 0 <= a < b && !s[a].isFirst
  }

  /** Position `b` holds an attribute that is not last-listed after one
      that is. */
  predicate LastMisplaced(s: seq<AttrInfo>, b: int) {
    0 <= b < |s| && !s[b].isLast && exists a :: 0 <= a < b && s[a].isLast
  }

  /** The first pass: the first position where a first-listed attribute
      comes after one that is not first-listed. */
  function FirstOutOfPlace(s: seq<AttrInfo>): (r: Option<nat>)
    ensures r.Some? ==> FirstMisplaced(s, r.value)
    ensures r.Some? ==> forall b :: 0 <= b < r.value ==> !FirstMisplaced(s, b)
    ensures r.None? ==> forall b :: 0 <= b < |s| ==> !FirstMisplaced(s, b)
    ensures r.None? <==> forall a, b :: 0 <= a < b < |s| ==> s[a].isFirst || !s[b].isFirst
  {
    FirstScan(s, 0, false)
  }

  function FirstScan(s: seq<AttrInfo>, from: nat, seen: bool): (r: Option<nat>)
    requires from <= |s|
    requires seen <==> exists k :: 0 <= k < from && !s[k].isFirst
    requires forall b :: 0 <= b < from ==> !FirstMisplaced(s, b)
    decreases |s| - from
    ensures r.Some? ==> from <= r.value && FirstMisplaced(s, r.value)
    ensures r.Some? ==> forall b :: 0 <= b < r.value ==> !FirstMisplaced(s, b)
    ensures r.None? ==> forall b :: 0 <= b < |s| ==> !FirstMisplaced(s, b)
    ensures r.None? <==> forall a, b :: 0 <= a < b < |s| && from <= b ==> s[a].isFirst || !s[b].isFirst
  {
    if from == |s| then None
    else if !s[from].isFirst then FirstScan(s, from + 1, true)
    else if seen then Some(from)
    else FirstScan(s, from + 1, seen)
  }

  /** The second pass: the first position where an attribute that is not
      last-listed comes after a last-listed one. */
  function LastOutOfPlace(s: seq<AttrInfo>): (r: Option<nat>)
    ensures r.Some? ==> LastMisplaced(s, r.value)
    ensures r.Some? ==> forall b :: 0 <= b < r.value ==> !LastMisplaced(s, b)
    ensures r.None? ==> forall b :: 0 <= b < |s| ==> !LastMisplaced(s, b)
    ensures r.None? <==> forall a, b :: 0 <= a < b < |s| ==> !s[a].isLast || s[b].isLast
  {
    LastScan(s, 0, false)
  }

  function LastScan(s: seq<AttrInfo>, from: nat, seen: bool): (r: Option<nat>)
    requires from <= |s|
    requires seen <==> exists k :: 0 <= k < from && s[k].isLast
    requires forall b :: 0 <= b < from ==> !LastMisplaced(s, b)
    decreases |s| - from
    ensures r.Some? ==> from <= r.value && LastMisplaced(s, r.value)
    ensures r.Some? ==> forall b :: 0 <= b < r.value ==> !LastMisplaced(s, b)
    ensures r.None? ==> forall b :: 0 <= b < |s| ==> !LastMisplaced(s, b)
    ensures r.None? <==> forall a, b :: 0 <= a < b < |s| && from <= b ==> !s[a].isLast || s[b].isLast
  {
    if from == |s| then None
    else if s[from].isLast then LastScan(s, from + 1, true)
    else if seen then Some(from)
    else LastScan(s, from + 1, seen)
  }

  /** Source order respects the configuration: no first-listed argument
      after another one, no other argument after a last-listed one. */
  predicate WellOrdered(s: seq<AttrInfo>) {
    (forall a, b :: 0 <= a < b < |s| ==> s[a].isFirst || !s[b].isFirst)
    && (forall a, b :: 0 <= a < b < |s| ==> !s[a].isLast || s[b].isLast)
  }

  /** The attribute the check reports: the earliest first-listed one out of
      place, or, when there is none, the earliest one out of place after a
      last-listed one. */
  predicate Reported(s: seq<AttrInfo>, k: int) {
    (FirstMisplaced(s, k) && forall b :: 0 <= b < k ==> !FirstMisplaced(s, b))
    || ((forall b :: 0 <= b < |s| ==> !FirstMisplaced(s, b))
        && LastMisplaced(s, k) && forall b :: 0 <= b < k ==> !LastMisplaced(s, b))
  }

  /** The issues for a sorted attribute list: none exactly when the list is
      well ordered, otherwise one at the reported attribute. */
  function SortedIssues(s: seq<AttrInfo>): (r: seq<Issue>)
    ensures |r| <= 1
    ensures r == [] <==> WellOrdered(s)
    ensures r != [] ==> exists k :: Reported(s, k) && r[0] == TextIssue(MisOrderedMessage, s[k].rng)
  {
    match FirstOutOfPlace(s)
    case Some(k) => [TextIssue(MisOrderedMessage, s[k].rng)]
    case None =>
      match LastOutOfPlace(s)
      case Some(k) => [TextIssue(MisOrderedMessage, s[k].rng)]
      case None => []
  }

  /** At most one attribute is the reported one. */
  lemma ReportedUnique(s: seq<AttrInfo>, k: int, m: int)
    requires Reported(s, k) && Reported(s, m)
    ensures k == m
  {
  }

  /** The configuration's promise, stated on the block's attributes: an
      attribute on an earlier line than a first-listed one is itself
      first-listed, and one on a later line than a last-listed one is itself
      last-listed. */
  predicate Respects(o: OrderConfig, attrs: seq<Attribute>) {
    forall i, j :: 0 <= i < |attrs| && 0 <= j < |attrs| && attrs[i].rng.start.line < attrs[j].rng.start.line ==>
      (attrs[i].name in o.first || attrs[j].name !in o.first) && (attrs[i].name !in o.last || attrs[j].name in o.last)
  }

  /** The parser puts every attribute of a body on its own line. */
  predicate OnePerLine(attrs: seq<Attribute>) {
    forall i, j :: 0 <= i < j < |attrs| ==> attrs[i].rng.start.line != attrs[j].rng.start.line
  }

  /** The same promise on the classified attributes. */
  predicate RespectsInfos(infos: seq<AttrInfo>) {
    forall x, y :: x in infos && y in infos && x.line < y.line ==>
      (x.isFirst || !y.isFirst) && (!x.isLast || y.isLast)
  }

  lemma RespectsBridge(o: OrderConfig, attrs: seq<Attribute>)
    ensures Respects(o, attrs) <==> RespectsInfos(Infos(o, attrs))
  {
    var infos := Infos(o, attrs);
    if Respects(o, attrs) {
      forall x, y | x in infos && y in infos && x.line < y.line
        ensures (x.isFirst || !y.isFirst) && (!x.isLast || y.isLast)
      {
        var i :| 0 <= i < |infos| && infos[i] == x;
        var j :| 0 <= j < |infos| && infos[j] == y;
        assert attrs[i].rng.start.line < attrs[j].rng.start.line;
      }
    }
    if RespectsInfos(infos) {
      forall i, j | 0 <= i < |attrs| && 0 <= j < |attrs| && attrs[i].rng.start.line < attrs[j].rng.start.line
        ensures (attrs[i].name in o.first || attrs[j].name !in o.first)
          && (attrs[i].name !in o.last || attrs[j].name in o.last)
      {
        assert infos[i] in infos && infos[j] in infos;
      }
    }
  }

  /** A clean sorted list keeps the promise. */
  lemma CleanKeeps(infos: seq<AttrInfo>, sorted: seq<AttrInfo>)
    requires multiset(sorted) == multiset(infos) && SortedByLine(sorted)
    requires WellOrdered(sorted)
    ensures RespectsInfos(infos)
  {
    forall x, y | x in infos && y in infos && x.line < y.line
      ensures (x.isFirst || !y.isFirst) && (!x.isLast || y.isLast)
    {
      assert x in multiset(sorted) && y in multiset(sorted);
      var a :| 0 <= a < |sorted| && sorted[a] == x;
      var b :| 0 <= b < |sorted| && sorted[b] == y;
      assert a < b;
    }
  }

  /** When lines are distinct, a list that keeps the promise is clean once
      sorted. */
  lemma KeepsClean(infos: seq<AttrInfo>, sorted: seq<AttrInfo>)
    requires multiset(sorted) == multiset(infos) && SortedByLine(sorted)
    requires RespectsInfos(infos)
    requires forall i, j :: 0 <= i < j < |infos| ==> infos[i].line != infos[j].line
    ensures WellOrdered(sorted)
  {
    forall a, b | 0 <= a < b < |sorted|
      ensures (sorted[a].isFirst || !sorted[b].isFirst) && (!sorted[a].isLast || sorted[b].isLast)
    {
      var x, y := sorted[a], sorted[b];
      assert x in multiset(infos) && y in multiset(infos);
      if x != y {
        var i :| 0 <= i < |infos| && infos[i] == x;
        var j :| 0 <= j < |infos| && infos[j] == y;
        assert i != j;
        assert x.line < y.line;
      }
    }
  }

  /** Whether the check runs at all: an order is configured, its first entry
      lists something, and the block has attributes. */
  predicate Active(order: seq<OrderConfig>, attrs: seq<Attribute>) {
    order != [] && (order[0].first != [] || order[0].last != []) && attrs != []
  }

  /** `checkOrder` on one block: only the first configured order is used.
      The block passes only if it keeps the promise, and, its attributes
      being on distinct lines, it passes whenever it keeps it. */
  method CheckOrder(order: seq<OrderConfig>, attrs: seq<Attribute>) returns (r: seq<Issue>)
    ensures |r| <= 1
    ensures !Active(order, attrs) ==> r == []
    ensures r != [] ==> exists a :: a in attrs && r[0] == TextIssue(MisOrderedMessage, a.rng)
    ensures Active(order, attrs) ==> exists sorted :: Sorts(Infos(order[0], attrs), sorted) && r == SortedIssues(sorted)
    ensures Active(order, attrs) && r == [] ==> Respects(order[0], attrs)
    ensures Active(order, attrs) && OnePerLine(attrs) && Respects(order[0], attrs) ==> r == []
  {
    if |order| == 0 {
      return [];
    }
    var o := order[0];
    if |o.first| == 0 && |o.last| == 0 {
      return [];
    }
    var infos := Infos(o, attrs);
    if |infos| == 0 {
      return [];
    }
    var sorted := SortByLine(infos);
    r := SortedIssues(sorted);
    assert Sorts(infos, sorted);
    SortedVerdict(o, attrs, sorted);
  }

  /** What the verdict on the sorted list says about the block. */
  lemma SortedVerdict(o: OrderConfig, attrs: seq<Attribute>, sorted: seq<AttrInfo>)
    requires Sorts(Infos(o, attrs), sorted)
    ensures SortedIssues(sorted) == [] ==> Respects(o, attrs)
    ensures OnePerLine(attrs) && Respects(o, attrs) ==> SortedIssues(sorted) == []
    ensures SortedIssues(sorted) != [] ==>
      exists a :: a in attrs && SortedIssues(sorted)[0] == TextIssue(MisOrderedMessage, a.rng)
  {
    var infos := Infos(o, attrs);
    var r := SortedIssues(sorted);
    RespectsBridge(o, attrs);
    if r == [] {
      CleanKeeps(infos, sorted);
    }
    if OnePerLine(attrs) && Respects(o, attrs) {
      KeepsClean(infos, sorted);
    }
    if r != [] {
      var k :| Reported(sorted, k) && r[0] == TextIssue(MisOrderedMessage, sorted[k].rng);
      assert sorted[k] in multiset(infos);
      var i :| 0 <= i < |infos| && infos[i] == sorted[k];
      assert attrs[i] in attrs;
    }
  }
}
