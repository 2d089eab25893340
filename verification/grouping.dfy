/** Grouping of fingerprints by exact key, as the dry rule does with a
    `map[string][]hcl.Range`: each key whose number of occurrences reaches
    the threshold is reported once, at its occurrence with the smallest start
    byte. */
module Grouping {
  import opened Syntax

  /** One occurrence of a fingerprint. */
  datatype Candidate = Candidate(key: string, rng: Range)

  /** One reported fingerprint: its key, how often it occurs, where. */
  datatype Report = Report(key: string, count: nat, rng: Range)

  /** The distinct keys, in the order they are first seen. */
  function Keys(cs: seq<Candidate>): (r: seq<string>)
    ensures forall k :: k in r <==> exists c :: c in cs && c.key == k
    ensures forall i, j :: 0 <= i < j < |r| ==> r[i] != r[j]
  {
    if |cs| == 0 then []
    else
      var rest := Keys(cs[..|cs| - 1]);
      assert forall c :: c in cs <==> c in cs[..|cs| - 1] || c == cs[|cs| - 1];
      if cs[|cs| - 1].key in rest then rest else rest + [cs[|cs| - 1].key]
  }

  /** The ranges recorded for `key`, in candidate order. */
  function RangesOf(cs: seq<Candidate>, key: string): (r: seq<Range>)
    ensures |r| <= |cs|
    ensures forall x :: x in r <==> Candidate(key, x) in cs
  {
    if |cs| == 0 then []
    else
      assert forall c :: c in cs <==> c == cs[0] || c in cs[1..];
      (if cs[0].key == key then [cs[0].rng] else []) + RangesOf(cs[1..], key)
  }

  /** A range with the smallest start byte (the first such one). */
  function Earliest(rs: seq<Range>): (r: Range)
    requires |rs| > 0
    ensures r in rs
    ensures forall x :: x in rs ==> r.start.byte <= x.start.byte
  {
    if |rs| == 1 then rs[0]
    else
      var rest := Earliest(rs[1..]);
      assert forall x :: x in rs ==> x == rs[0] || x in rs[1..];
      if rs[0].start.byte <= rest.start.byte then rs[0] else rest
  }

  /** The report's count and range are those of its key. */
  predicate Faithful(cs: seq<Candidate>, p: Report) {
    p.count == |RangesOf(cs, p.key)| && p.rng in RangesOf(cs, p.key)
    && forall x :: x in RangesOf(cs, p.key) ==> p.rng.start.byte <= x.start.byte
  }

  predicate DistinctKeys(r: seq<Report>) {
    forall i, j :: 0 <= i < j < |r| ==> r[i].key != r[j].key
  }

  function ReportsFor(cs: seq<Candidate>, keys: seq<string>, threshold: int): (r: seq<Report>)
    ensures forall p :: p in r ==> p.key in keys
    ensures forall p :: p in r ==> Faithful(cs, p) && p.count >= threshold && p.count > 0
  {
    if |keys| == 0 then []
    else
      var rs := RangesOf(cs, keys[0]);
      var rest := ReportsFor(cs, keys[1..], threshold);
      if |rs| >= threshold && |rs| > 0 then [Report(keys[0], |rs|, Earliest(rs))] + rest else rest
  }

  lemma {:induction false} ReportsForHas(cs: seq<Candidate>, keys: seq<string>, threshold: int, key: string)
    requires key in keys && |RangesOf(cs, key)| >= threshold && |RangesOf(cs, key)| > 0
    ensures exists p :: p in ReportsFor(cs, keys, threshold) && p.key == key
  {
    if keys[0] == key {
      var rs := RangesOf(cs, key);
      assert Report(key, |rs|, Earliest(rs)) in ReportsFor(cs, keys, threshold);
    } else {
      ReportsForHas(cs, keys[1..], threshold, key);
      var p :| p in ReportsFor(cs, keys[1..], threshold) && p.key == key;
      assert p in ReportsFor(cs, keys, threshold);
    }
  }

  /** The reported fingerprints: one per key occurring at least `threshold`
      times. */
  function Reports(cs: seq<Candidate>, threshold: int): seq<Report> {
    ReportsFor(cs, Keys(cs), threshold)
  }

  /** A key is reported iff it occurs at least `threshold` (and at least
      one) times; the report carries its exact count and an occurrence with
      the smallest start byte. */
  lemma ReportedIff(cs: seq<Candidate>, threshold: int, key: string)
    ensures (exists p :: p in Reports(cs, threshold) && p.key == key)
      <==> |RangesOf(cs, key)| >= threshold && |RangesOf(cs, key)| > 0
    ensures forall p :: p in Reports(cs, threshold) ==> Faithful(cs, p)
  {
    if exists p :: p in Reports(cs, threshold) && p.key == key {
      var p :| p in Reports(cs, threshold) && p.key == key;
      assert Faithful(cs, p) && p.count >= threshold && p.count > 0;
    }
    if |RangesOf(cs, key)| > 0 {
      var x := RangesOf(cs, key)[0];
      assert Candidate(key, x) in cs;
      assert key in Keys(cs);
      if |RangesOf(cs, key)| >= threshold {
        ReportsForHas(cs, Keys(cs), threshold, key);
        var p :| p in ReportsFor(cs, Keys(cs), threshold) && p.key == key;
        assert p in Reports(cs, threshold);
      }
    }
  }

  /** No key is reported twice. */
  lemma {:induction false} ReportsDistinct(cs: seq<Candidate>, keys: seq<string>, threshold: int)
    requires forall i, j :: 0 <= i < j < |keys| ==> keys[i] != keys[j]
    ensures DistinctKeys(ReportsFor(cs, keys, threshold))
  {
    if |keys| > 0 {
      ReportsDistinct(cs, keys[1..], threshold);
      var rest := ReportsFor(cs, keys[1..], threshold);
      assert keys[0] !in keys[1..];
      forall j | 0 <= j < |rest|
        ensures rest[j].key != keys[0]
      {
        assert rest[j] in rest;
      }
    }
  }

  lemma ReportsOnce(cs: seq<Candidate>, threshold: int)
    ensures DistinctKeys(Reports(cs, threshold))
  {
    ReportsDistinct(cs, Keys(cs), threshold);
  }

  /** Raising the threshold never adds a report. */
  lemma {:induction false} ThresholdMonotone(cs: seq<Candidate>, keys: seq<string>, low: int, high: int)
    requires low <= high
    ensures forall p :: p in ReportsFor(cs, keys, high) ==> p in ReportsFor(cs, keys, low)
  {
    if |keys| > 0 {
      ThresholdMonotone(cs, keys[1..], low, high);
    }
  }

  lemma MoreThresholdFewerReports(cs: seq<Candidate>, low: int, high: int)
    requires low <= high
    ensures forall p :: p in Reports(cs, high) ==> p in Reports(cs, low)
  {
    ThresholdMonotone(cs, Keys(cs), low, high);
  }
}
