/** The dry rule's block duplicates: every `resource` and `data` block, at
    any depth, is fingerprinted by its keyword and its attributes sorted by
    name with layout whitespace removed, so attribute order, spacing, labels
    and nested blocks do not change the fingerprint. The source hashes the
    fingerprint with SHA-256; the model keys on the fingerprint itself. */
module DryBlocks {
  import opened Wrappers
  import opened Syntax
  import opened Seqs
  import opened Grouping
  import StringOrder
  import Text

  /** The characters `minimizeSource` drops. */
  predicate IsLayout(c: char) {
    c == ' ' || c == '\t' || c == '\n' || c == '\r'
  }

  /** `minimizeSource`: the text without spaces, tabs, CRs and LFs. */
  function Minimize(s: string): (r: string)
    ensures |r| <= |s|
    ensures forall k :: 0 <= k < |r| ==> !IsLayout(r[k])
    ensures forall c :: c in s && !IsLayout(c) ==> c in r
  {
    if |s| == 0 then ""
    else (if IsLayout(s[0]) then "" else [s[0]]) + Minimize(s[1..])
  }

  lemma {:induction false} MinimizeAppend(a: string, b: string)
    ensures Minimize(a + b) == Minimize(a) + Minimize(b)
  {
    if |a| == 0 {
      assert a + b == b;
    } else {
      assert (a + b)[1..] == a[1..] + b;
      MinimizeAppend(a[1..], b);
    }
  }

  /** Inserting layout anywhere leaves the minimised text unchanged. */
  lemma MinimizeIgnoresLayout(x: string, c: char, y: string)
    requires IsLayout(c)
    ensures Minimize(x + [c] + y) == Minimize(x + y)
  {
    MinimizeAppend(x + [c], y);
    MinimizeAppend(x, [c]);
    MinimizeAppend(x, y);
    LayoutDropped(c);
    assert Minimize(x) + "" == Minimize(x);
  }

  lemma LayoutDropped(c: char)
    requires IsLayout(c)
    ensures Minimize([c]) == ""
  {
    assert [c][1..] == "";
  }

  /** Minimising twice is minimising once. */
  lemma {:induction false} MinimizeIdempotent(s: string)
    ensures Minimize(Minimize(s)) == Minimize(s)
  {
    if |s| > 0 {
      MinimizeIdempotent(s[1..]);
      var head := if IsLayout(s[0]) then "" else [s[0]];
      MinimizeAppend(head, Minimize(s[1..]));
    }
  }

  function Names(attrs: seq<Attribute>): (r: seq<string>)
    ensures |r| == |attrs| && forall i :: 0 <= i < |r| ==> r[i] == attrs[i].name
  {
    if |attrs| == 0 then [] else [attrs[0].name] + Names(attrs[1..])
  }

  /** `name=<minimised attribute source>;` for the attribute called `name`.
      The attribute's source is its whole range, name included; a range
      outside the file contributes no text. */
  function AttributePart(attrs: seq<Attribute>, bytes: string, name: string): string {
    match Lookup(attrs, name)
    case None => ""
    case Some(a) => name + "=" + Minimize(Slice(bytes, a.rng).GetOr("")) + ";"
  }

  function AttributeParts(attrs: seq<Attribute>, bytes: string, names: seq<string>): string {
    if |names| == 0 then "" else AttributePart(attrs, bytes, names[0]) + AttributeParts(attrs, bytes, names[1..])
  }

  /** The normalised text `hashBlock` hashes. */
  function BlockKey(b: Block, bytes: string): (r: string)
    ensures Text.HasPrefix(r, b.kind + " {") && Text.HasSuffix(r, "}")
  {
    var parts := AttributeParts(b.body.attributes, bytes, StringOrder.Sort(Names(b.body.attributes)));
    assert (b.kind + " {" + parts + "}")[..|b.kind + " {"|] == b.kind + " {";
    b.kind + " {" + parts + "}"
  }

  /** With unique names, the attribute a name is looked up to is the one
      that has it, wherever it sits. */
  lemma LookupUnique(attrs: seq<Attribute>, a: Attribute)
    requires UniqueNames(attrs) && a in attrs
    ensures Lookup(attrs, a.name) == Some(a)
  {
    var i :| 0 <= i < |attrs| && attrs[i] == a;
    if i > 0 {
      assert UniqueNames(attrs[1..]) by {
        forall p, q | 0 <= p < q < |attrs[1..]| ensures attrs[1..][p].name != attrs[1..][q].name {
          assert attrs[1..][p] == attrs[p + 1] && attrs[1..][q] == attrs[q + 1];
        }
      }
      assert attrs[1..][i - 1] == a;
      LookupUnique(attrs[1..], a);
    }
  }

  lemma {:induction false} PartsAgree(a1: seq<Attribute>, a2: seq<Attribute>, bytes: string, names: seq<string>)
    requires UniqueNames(a1) && UniqueNames(a2) && multiset(a1) == multiset(a2)
    ensures AttributeParts(a1, bytes, names) == AttributeParts(a2, bytes, names)
  {
    if |names| > 0 {
      PartsAgree(a1, a2, bytes, names[1..]);
      var n := names[0];
      match Lookup(a1, n)
      case None =>
        forall a | a in a2 ensures a.name != n {
          assert a in multiset(a2);
          assert a in multiset(a1);
          assert a in a1;
        }
      case Some(a) =>
        assert a in multiset(a2);
        LookupUnique(a2, a);
    }
  }

  lemma {:induction false} NamesMultiset(a1: seq<Attribute>, a2: seq<Attribute>)
    requires multiset(a1) == multiset(a2)
    ensures multiset(Names(a1)) == multiset(Names(a2))
    decreases |a1|
  {
    if |a1| == 0 {
      assert |a2| == |multiset(a2)| == 0;
    } else {
      var x := a1[0];
      assert x in multiset(a2);
      var k :| 0 <= k < |a2| && a2[k] == x;
      var rest2 := a2[..k] + a2[k + 1..];
      RemoveOne(a1, a2, k);
      NamesMultiset(a1[1..], rest2);
      NamesRemoveOne(a2, k);
      assert Names(a1) == [x.name] + Names(a1[1..]);
    }
  }

  lemma RemoveOne(a1: seq<Attribute>, a2: seq<Attribute>, k: nat)
    requires multiset(a1) == multiset(a2) && |a1| > 0 && k < |a2| && a2[k] == a1[0]
    ensures multiset(a1[1..]) == multiset(a2[..k] + a2[k + 1..])
  {
    assert a2 == a2[..k] + [a2[k]] + a2[k + 1..];
    assert a1 == [a1[0]] + a1[1..];
    assert multiset(a1[1..]) == multiset(a1) - multiset{a1[0]};
    assert multiset(a2[..k] + a2[k + 1..]) == multiset(a2) - multiset{a2[k]};
  }

  lemma NamesRemoveOne(a: seq<Attribute>, k: nat)
    requires k < |a|
    ensures multiset(Names(a)) == multiset{a[k].name} + multiset(Names(a[..k] + a[k + 1..]))
  {
    var n, rest := Names(a), a[..k] + a[k + 1..];
    forall j | 0 <= j < |rest|
      ensures Names(rest)[j] == (n[..k] + n[k + 1..])[j]
    {
      if j < k {
        assert rest[j] == a[j];
      } else {
        assert rest[j] == a[j + 1];
      }
    }
    Pointwise(Names(rest), n[..k] + n[k + 1..]);
    RemoveAt(n, k);
  }

  /** Sequences equal at every index are equal. */
  lemma Pointwise<T>(a: seq<T>, b: seq<T>)
    requires |a| == |b| && forall j :: 0 <= j < |a| ==> a[j] == b[j]
    ensures a == b
  {
  }

  /** A sequence is its element at `k` plus the rest. */
  lemma RemoveAt<T>(s: seq<T>, k: nat)
    requires k < |s|
    ensures multiset(s) == multiset{s[k]} + multiset(s[..k] + s[k + 1..])
  {
    assert s == s[..k] + [s[k]] + s[k + 1..];
  }

  lemma {:induction false} NamesAppend(p: seq<Attribute>, q: seq<Attribute>)
    ensures Names(p + q) == Names(p) + Names(q)
  {
    if |p| == 0 {
      assert p + q == q;
    } else {
      assert (p + q)[1..] == p[1..] + q;
      NamesAppend(p[1..], q);
    }
  }

  /** The fingerprint ignores the order the parser's map lists attributes in. */
  lemma KeyIgnoresAttributeOrder(b1: Block, b2: Block, bytes: string)
    requires b1.kind == b2.kind
    requires UniqueNames(b1.body.attributes) && UniqueNames(b2.body.attributes)
    requires multiset(b1.body.attributes) == multiset(b2.body.attributes)
    ensures BlockKey(b1, bytes) == BlockKey(b2, bytes)
  {
    var a1, a2 := b1.body.attributes, b2.body.attributes;
    NamesMultiset(a1, a2);
    StringOrder.SortIgnoresOrder(Names(a1), Names(a2));
    PartsAgree(a1, a2, bytes, StringOrder.Sort(Names(a1)));
  }

  /** Labels, nested blocks and the block's own range do not enter the
      fingerprint. */
  lemma KeyIgnoresLabelsAndNesting(b: Block, labels: seq<string>, nested: seq<Block>, rng: Range, bytes: string)
    ensures BlockKey(b.(labels := labels, body := b.body.(blocks := nested), rng := rng), bytes) == BlockKey(b, bytes)
  {
  }

  /** Whitespace inside an attribute's source does not enter the
      fingerprint. */
  lemma KeyIgnoresLayout(b1: Block, b2: Block, bytes1: string, bytes2: string)
    requires b1.kind == b2.kind
    requires Names(b1.body.attributes) == Names(b2.body.attributes)
    requires forall i :: 0 <= i < |b1.body.attributes| ==>
      Minimize(Slice(bytes1, b1.body.attributes[i].rng).GetOr(""))
      == Minimize(Slice(bytes2, b2.body.attributes[i].rng).GetOr(""))
    ensures BlockKey(b1, bytes1) == BlockKey(b2, bytes2)
  {
    var a1, a2 := b1.body.attributes, b2.body.attributes;
    var names := StringOrder.Sort(Names(a1));
    LayoutParts(a1, a2, bytes1, bytes2, names);
  }

  lemma {:induction false} LayoutParts(a1: seq<Attribute>, a2: seq<Attribute>, bytes1: string, bytes2: string, names: seq<string>)
    requires Names(a1) == Names(a2)
    requires forall i :: 0 <= i < |a1| ==>
      Minimize(Slice(bytes1, a1[i].rng).GetOr("")) == Minimize(Slice(bytes2, a2[i].rng).GetOr(""))
    ensures AttributeParts(a1, bytes1, names) == AttributeParts(a2, bytes2, names)
  {
    if |names| > 0 {
      LayoutParts(a1, a2, bytes1, bytes2, names[1..]);
      LookupSameIndex(a1, a2, names[0]);
      if Lookup(a1, names[0]).Some? {
        var i := LookupIndex(a1, names[0]);
        assert Lookup(a1, names[0]).value == a1[i] && Lookup(a2, names[0]).value == a2[i];
      }
    }
  }

  /** Where a successful lookup found its attribute. */
  function LookupIndex(attrs: seq<Attribute>, name: string): (i: nat)
    requires Lookup(attrs, name).Some?
    ensures i < |attrs| && Lookup(attrs, name).value == attrs[i]
  {
    if attrs[0].name == name then 0 else 1 + LookupIndex(attrs[1..], name)
  }

  lemma {:induction false} LookupSameIndex(a1: seq<Attribute>, a2: seq<Attribute>, name: string)
    requires Names(a1) == Names(a2)
    ensures Lookup(a1, name).Some? <==> Lookup(a2, name).Some?
    ensures Lookup(a1, name).Some? ==> LookupIndex(a1, name) == LookupIndex(a2, name)
  {
    if |a1| > 0 {
      assert Names(a1)[0] == Names(a2)[0];
      assert Names(a1[1..]) == Names(a1)[1..] == Names(a2)[1..] == Names(a2[1..]);
      LookupSameIndex(a1[1..], a2[1..], name);
    }
  }

  // -------------------------------------------------------- collection

  predicate Fingerprinted(b: Block) {
    b.kind == "resource" || b.kind == "data"
  }

  /** `collectBlocks`: resource and data blocks at every depth, each before
      the blocks nested in it. */
  function CollectBlocks(blocks: seq<Block>, bytes: string): seq<Candidate>
    decreases blocks
  {
    if |blocks| == 0 then []
    else
      (if Fingerprinted(blocks[0]) then [Candidate(BlockKey(blocks[0], bytes), blocks[0].rng)] else [])
      + CollectBlocks(blocks[0].body.blocks, bytes)
      + CollectBlocks(blocks[1..], bytes)
  }

  /** `b` occurs among `blocks` at some depth. */
  predicate Within(blocks: seq<Block>, b: Block)
    decreases blocks
  {
    exists i :: 0 <= i < |blocks| && (blocks[i] == b || Within(blocks[i].body.blocks, b))
  }

  /** A fingerprint is collected iff it is that of a resource or data block
      at some depth. */
  lemma CollectBlocksMember(blocks: seq<Block>, bytes: string, c: Candidate)
    ensures c in CollectBlocks(blocks, bytes)
      <==> exists b :: Within(blocks, b) && Fingerprinted(b) && c == Candidate(BlockKey(b, bytes), b.rng)
  {
    if c in CollectBlocks(blocks, bytes) {
      CollectedIsWithin(blocks, bytes, c);
    }
    if exists b :: Within(blocks, b) && Fingerprinted(b) && c == Candidate(BlockKey(b, bytes), b.rng) {
      var b :| Within(blocks, b) && Fingerprinted(b) && c == Candidate(BlockKey(b, bytes), b.rng);
      WithinIsCollected(blocks, bytes, b);
    }
  }

  lemma {:induction false} CollectedIsWithin(blocks: seq<Block>, bytes: string, c: Candidate)
    requires c in CollectBlocks(blocks, bytes)
    ensures exists b :: Within(blocks, b) && Fingerprinted(b) && c == Candidate(BlockKey(b, bytes), b.rng)
    decreases blocks
  {
    var b0 := blocks[0];
    if c in CollectBlocks(b0.body.blocks, bytes) {
      CollectedIsWithin(b0.body.blocks, bytes, c);
      var b :| Within(b0.body.blocks, b) && Fingerprinted(b) && c == Candidate(BlockKey(b, bytes), b.rng);
      assert Within(blocks, b);
    } else if c in CollectBlocks(blocks[1..], bytes) {
      CollectedIsWithin(blocks[1..], bytes, c);
      var b :| Within(blocks[1..], b) && Fingerprinted(b) && c == Candidate(BlockKey(b, bytes), b.rng);
      WithinTail(blocks, b);
    } else {
      assert Within(blocks, b0);
    }
  }

  lemma WithinTail(blocks: seq<Block>, b: Block)
    requires |blocks| > 0 && Within(blocks[1..], b)
    ensures Within(blocks, b)
  {
    var i :| 0 <= i < |blocks[1..]| && (blocks[1..][i] == b || Within(blocks[1..][i].body.blocks, b));
    assert blocks[i + 1] == blocks[1..][i];
  }

  lemma {:induction false} WithinIsCollected(blocks: seq<Block>, bytes: string, b: Block)
    requires Within(blocks, b) && Fingerprinted(b)
    ensures Candidate(BlockKey(b, bytes), b.rng) in CollectBlocks(blocks, bytes)
    decreases blocks
  {
    var i :| 0 <= i < |blocks| && (blocks[i] == b || Within(blocks[i].body.blocks, b));
    if i == 0 {
      if blocks[0] != b {
        WithinIsCollected(blocks[0].body.blocks, bytes, b);
      }
    } else {
      assert blocks[1..][i - 1] == blocks[i];
      assert Within(blocks[1..], b);
      WithinIsCollected(blocks[1..], bytes, b);
    }
  }

  /** Block fingerprints of every file with a native-syntax body. */
  function FileBlocks(files: seq<SourceFile>): seq<Candidate> {
    if |files| == 0 then []
    else
      (if files[0].body.Some? then CollectBlocks(files[0].body.value.blocks, files[0].bytes) else [])
      + FileBlocks(files[1..])
  }
}
