/**
  Stage one of a history tick: the two sensor histories of one cylinder (the
  "advanced" sensor and the "retracted" sensor) are reconciled into one series
  of chart points, one per distinct timestamp string, whose position follows
  the sensor-priority rule (extended wins, then retracted, else undefined).
  Points whose timestamp is not a valid instant are dropped.
 */
module Reconciler {
  import opened Wrappers
  import opened Readings

  /**
    The timestamp strings of a history, in order (`h.map(d => d.ts)`). The
    `ensures` only exposes the comprehension element by element to the
    verifier; the proofs about `Reconcile` rely on it.
   */
  function StampsOf(h: seq<Sample>): (r: seq<string>)
    ensures |r| == |h|
    ensures forall i :: 0 <= i < |h| ==> r[i] == h[i].ts
  {
    seq(|h|, i requires 0 <= i < |h| => h[i].ts)
  }

  /** The position of the first occurrence of `t` in `s`. */
  function IndexOf(s: seq<string>, t: string): (k: nat)
    requires t in s
    ensures k < |s| && s[k] == t && t !in s[..k]
  {
    if s[0] == t then 0 else 1 + IndexOf(s[1..], t)
  }

  /** Extending a sequence does not move the first occurrences already in it. */
  lemma {:induction false} IndexOfPrefix(s: seq<string>, n: nat, t: string)
    requires n <= |s| && t in s[..n]
    ensures IndexOf(s, t) == IndexOf(s[..n], t)
  {
    if s[0] != t {
      assert s[1..][..n - 1] == s[..n][1..];
      IndexOfPrefix(s[1..], n - 1, t);
    }
  }

  /**
    The distinct strings of `s`, each kept at its first occurrence
    (`[...new Set(s)]`: a JavaScript `Set` iterates in insertion order).
   */
  function Dedup(s: seq<string>): (r: seq<string>)
    ensures forall t :: t in r <==> t in s
    ensures forall i, j :: 0 <= i < j < |r| ==> r[i] != r[j]
    ensures forall i, j :: 0 <= i < j < |r| ==> IndexOf(s, r[i]) < IndexOf(s, r[j])
  {
    if s == [] then []
    else
      var n := |s| - 1;
      var r := Dedup(s[..n]);
      assert forall i :: 0 <= i < |r| ==> r[i] in s[..n] by {
        forall i | 0 <= i < |r| ensures r[i] in s[..n] {
          assert r[i] in r;
        }
      }
      DedupExtend(s, r);
      if s[n] in r then r else r + [s[n]]
  }

  /**
    One step of `Dedup`: from the distinct strings of all but the last
    element of `s`, adding the last one when it is new gives those of `s`.
   */
  lemma DedupExtend(s: seq<string>, r: seq<string>)
    requires s != []
    requires forall t :: t in r <==> t in s[..|s| - 1]
    requires forall i :: 0 <= i < |r| ==> r[i] in s[..|s| - 1]
    requires forall i, j :: 0 <= i < j < |r| ==> r[i] != r[j]
    requires forall i, j :: 0 <= i < j < |r| ==> IndexOf(s[..|s| - 1], r[i]) < IndexOf(s[..|s| - 1], r[j])
    ensures var r' := if s[|s| - 1] in r then r else r + [s[|s| - 1]];
      && (forall t :: t in r' <==> t in s)
      && (forall i, j :: 0 <= i < j < |r'| ==> r'[i] != r'[j])
      && (forall i, j :: 0 <= i < j < |r'| ==> IndexOf(s, r'[i]) < IndexOf(s, r'[j]))
  {
    var n := |s| - 1;
    assert s == s[..n] + [s[n]];
    forall i | 0 <= i < |r| ensures IndexOf(s, r[i]) == IndexOf(s[..n], r[i]) {
      IndexOfPrefix(s, n, r[i]);
    }
    if s[n] !in r {
      assert IndexOf(s, s[n]) == n;
    }
  }

  /** Every timestamp string that occurs in either history, once each. */
  function AllTimestamps(ext: seq<Sample>, ret: seq<Sample>): (r: seq<string>)
    ensures forall i, j :: 0 <= i < j < |r| ==> r[i] != r[j]
    ensures forall t :: t in r <==> t in StampsOf(ext) || t in StampsOf(ret)
  {
    Dedup(StampsOf(ext) + StampsOf(ret))
  }

  /** The first sample of `h` stamped `ts`, if any (`h.find(d => d.ts === ts)`). */
  function FirstAt(h: seq<Sample>, ts: string): (r: Option<Sample>)
    ensures r.None? <==> forall i :: 0 <= i < |h| ==> h[i].ts != ts
    ensures r.Some? ==>
      exists i :: 0 <= i < |h| && h[i] == r.value && h[i].ts == ts &&
        forall j :: 0 <= j < i ==> h[j].ts != ts
  {
    if h == [] then None
    else if h[0].ts == ts then Some(h[0])
    else FirstAt(h[1..], ts)
  }

  /** The first sample of `h` stamped `ts` exists and reads 1. */
  ghost predicate FirstReadsOne(h: seq<Sample>, ts: string) {
    exists i :: 0 <= i < |h| && h[i].ts == ts && h[i].valor == 1 &&
      forall j :: 0 <= j < i ==> h[j].ts != ts
  }

  /**
    The position at one timestamp, from the extended sensor's sample
    (`avanco`) and the retracted sensor's sample (`recuo`) found there:
    an extended reading of 1 takes precedence, then a retracted reading of 1;
    anything else (a missing sample, a 0) leaves the position undefined.
   */
  function Derive(avanco: Option<Sample>, recuo: Option<Sample>): Position {
    if avanco.Some? && avanco.value.valor == 1 then Extended
    else if recuo.Some? && recuo.value.valor == 1 then Retracted
    else Undefined
  }

  /**
    One point per timestamp of `tss`, with its derived position (the `.map`
    step). The `ensures` only exposes the comprehension element by element
    to the verifier; the proofs about `Reconcile` rely on it.
   */
  function Derived(ext: seq<Sample>, ret: seq<Sample>, tss: seq<string>): (r: seq<Point>)
    ensures |r| == |tss|
    ensures forall i :: 0 <= i < |tss| ==> r[i].ts == tss[i]
    ensures forall p :: p in r ==> p.valor == Derive(FirstAt(ext, p.ts), FirstAt(ret, p.ts))
  {
    seq(|tss|, i requires 0 <= i < |tss| =>
      Point(tss[i], Derive(FirstAt(ext, tss[i]), FirstAt(ret, tss[i]))))
  }

  /** The points of `pts` whose timestamp is a valid instant, in order (the `.filter` step). */
  function KeepValid(parse: Parser, pts: seq<Point>): (r: seq<Point>)
    ensures forall p :: p in r <==> p in pts && Parses(parse, p.ts)
    ensures DistinctTs(pts) ==> DistinctTs(r)
  {
    if pts == [] then []
    else
      var rest := KeepValid(parse, pts[1..]);
      if Parses(parse, pts[0].ts) then [pts[0]] + rest else rest
  }

  /**
    The reconciled series of one tick: at most one point per timestamp
    string, exactly the valid timestamps found in either history, each with
    the position derived from the first sample of each history at it.
   */
  function Reconcile(parse: Parser, ext: seq<Sample>, ret: seq<Sample>): (r: seq<Point>)
    ensures DistinctTs(r)
    ensures AllParse(parse, r)
    ensures forall t :: t in Stamps(r) <==> (t in StampsOf(ext) || t in StampsOf(ret)) && Parses(parse, t)
    ensures forall p :: p in r ==> p.valor == Derive(FirstAt(ext, p.ts), FirstAt(ret, p.ts))
  {
    var tss := AllTimestamps(ext, ret);
    var pts := Derived(ext, ret, tss);
    assert DistinctTs(pts);
    KeepValid(parse, pts)
  }

  /**
    Sensor priority at a timestamp (the position `Reconcile` gives the point
    stamped `ts`): extended when the extended sensor's first sample there
    reads 1, whatever the retracted sensor says; otherwise retracted when the
    retracted sensor's first sample there reads 1; otherwise undefined.
   */
  lemma ReconciledPosition(ext: seq<Sample>, ret: seq<Sample>, ts: string)
    ensures var p := Derive(FirstAt(ext, ts), FirstAt(ret, ts));
      && (p == Extended <==> FirstReadsOne(ext, ts))
      && (p == Retracted <==> !FirstReadsOne(ext, ts) && FirstReadsOne(ret, ts))
      && (p == Undefined <==> !FirstReadsOne(ext, ts) && !FirstReadsOne(ret, ts))
  {
  }
}
