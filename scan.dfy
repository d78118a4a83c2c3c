/**
 * The name scan of `Receiver::update`: for one reader, `std::string::find` looks for
 * the reader's chunk name from `pos`; each hit is handed to `read`, and the search
 * resumes `step` (the reader's data length) bytes after the hit.
 */
module Scan {
  import opened Wire

  /** `name` occurs in `buf` starting at index `i`. */
  predicate OccursAt(buf: seq<byte>, name: seq<byte>, i: nat)
  {
    i + |name| <= |buf| && buf[i..i + |name|] == name
  }

  /** `name` occurs nowhere in `buf` at an index in `[lo, hi)`. */
  predicate NoOccurrenceIn(buf: seq<byte>, name: seq<byte>, lo: nat, hi: nat)
  {
    forall i :: lo <= i < hi ==> !OccursAt(buf, name, i)
  }

  /** `name` occurs nowhere in `buf` at or after `lo`. */
  ghost predicate NoOccurrenceFrom(buf: seq<byte>, name: seq<byte>, lo: nat)
  {
    forall i :: lo <= i ==> !OccursAt(buf, name, i)
  }

  /**
   * `buf.find(name, from)`: the leftmost occurrence at or after `from`, `None` for
   * `npos` (which is also the answer when `from` is past the end). An empty name is
   * found at `from` whenever `from <= |buf|`.
   */
  function Find(buf: seq<byte>, name: seq<byte>, from: nat): (r: Option<nat>)
    ensures r.Some? ==> from <= r.value && OccursAt(buf, name, r.value)
    ensures r.Some? ==> NoOccurrenceIn(buf, name, from, r.value)
    ensures r.None? ==> NoOccurrenceFrom(buf, name, from)
    decreases |buf| - from
  {
    if from + |name| > |buf| then None
    else if buf[from..from + |name|] == name then Some(from)
    else Find(buf, name, from + 1)
  }

  /** The positions passed to `read`, in order, for a search that starts at `from`. */
  function Hits(buf: seq<byte>, name: seq<byte>, step: nat, from: nat): (hits: seq<nat>)
    requires step > 0
    ensures forall k :: 0 <= k < |hits| ==> from <= hits[k] && OccursAt(buf, name, hits[k])
    decreases if from <= |buf| then |buf| + 1 - from else 0
  {
    match Find(buf, name, from)
    case None => []
    case Some(p) => [p] + Hits(buf, name, step, p + step)
  }

  /** Where the search for the k-th hit starts: `from`, then `step` bytes after each hit. */
  function SearchStart(hits: seq<nat>, from: nat, step: nat, k: nat): nat
    requires k <= |hits|
  {
    if k == 0 then from else hits[k - 1] + step
  }

  /**
   * The k-th hit is an occurrence, and the leftmost one at or after the place where
   * its search started.
   */
  predicate LeftmostHit(buf: seq<byte>, name: seq<byte>, step: nat, from: nat, hits: seq<nat>, k: nat)
    requires k < |hits|
  {
    var start := SearchStart(hits, from, step, k);
    start <= hits[k] && OccursAt(buf, name, hits[k]) && NoOccurrenceIn(buf, name, start, hits[k])
  }

  /**
   * The greedy, non-overlapping scan, stated without the search loop: every hit is the
   * leftmost occurrence at or after its search start, and there is no occurrence at
   * or after the search start that follows the last hit.
   */
  ghost predicate GreedyHits(buf: seq<byte>, name: seq<byte>, step: nat, from: nat, hits: seq<nat>)
  {
    (forall k :: 0 <= k < |hits| ==> LeftmostHit(buf, name, step, from, hits, k)) &&
    NoOccurrenceFrom(buf, name, SearchStart(hits, from, step, |hits|))
  }

  lemma SearchStartShift(p: nat, rest: seq<nat>, from: nat, step: nat, k: nat)
    requires k <= |rest|
    ensures SearchStart([p] + rest, from, step, k + 1) == SearchStart(rest, p + step, step, k)
  {
  }

  /** The characterisation unfolds one hit at a time: taking the first hit off ... */
  lemma GreedyTail(buf: seq<byte>, name: seq<byte>, step: nat, from: nat, p: nat, rest: seq<nat>)
    requires GreedyHits(buf, name, step, from, [p] + rest)
    ensures from <= p && OccursAt(buf, name, p) && NoOccurrenceIn(buf, name, from, p)
    ensures GreedyHits(buf, name, step, p + step, rest)
  {
    var hits := [p] + rest;
    assert hits[0] == p && SearchStart(hits, from, step, 0) == from;
    assert LeftmostHit(buf, name, step, from, hits, 0);
    var next := p + step;
    forall k | 0 <= k < |rest|
      ensures LeftmostHit(buf, name, step, next, rest, k)
    {
      assert LeftmostHit(buf, name, step, from, hits, k + 1);
      assert hits[k + 1] == rest[k];
      SearchStartShift(p, rest, from, step, k);
    }
    SearchStartShift(p, rest, from, step, |rest|);
  }

  /** ... and putting it back. */
  lemma GreedyCons(buf: seq<byte>, name: seq<byte>, step: nat, from: nat, p: nat, rest: seq<nat>)
    requires from <= p && OccursAt(buf, name, p) && NoOccurrenceIn(buf, name, from, p)
    requires GreedyHits(buf, name, step, p + step, rest)
    ensures GreedyHits(buf, name, step, from, [p] + rest)
  {
    var hits := [p] + rest;
    forall k | 0 <= k < |hits|
      ensures LeftmostHit(buf, name, step, from, hits, k)
    {
      if k > 0 {
        assert LeftmostHit(buf, name, step, p + step, rest, k - 1);
        assert hits[k] == rest[k - 1];
        SearchStartShift(p, rest, from, step, k - 1);
      }
    }
    SearchStartShift(p, rest, from, step, |rest|);
  }

  /** `Find` returns exactly the leftmost occurrence at or after `from`. */
  lemma FindLeftmost(buf: seq<byte>, name: seq<byte>, from: nat, p: nat)
    requires from <= p && OccursAt(buf, name, p) && NoOccurrenceIn(buf, name, from, p)
    ensures Find(buf, name, from) == Some(p)
  {
  }

  /** Greedy matching: the hits of the search loop satisfy the greedy characterisation. */
  lemma {:induction false} HitsAreGreedy(buf: seq<byte>, name: seq<byte>, step: nat, from: nat)
    requires step > 0
    ensures GreedyHits(buf, name, step, from, Hits(buf, name, step, from))
    decreases if from <= |buf| then |buf| + 1 - from else 0
  {
    match Find(buf, name, from)
    case None =>
      assert Hits(buf, name, step, from) == [];
      assert SearchStart([], from, step, 0) == from;
    case Some(p) =>
      var rest := Hits(buf, name, step, p + step);
      assert Hits(buf, name, step, from) == [p] + rest;
      HitsAreGreedy(buf, name, step, p + step);
      GreedyCons(buf, name, step, from, p, rest);
  }

  /** ... and they are the only sequence that does: the characterisation determines the scan. */
  lemma {:induction false} GreedyHitsUnique(buf: seq<byte>, name: seq<byte>, step: nat, from: nat, hits: seq<nat>)
    requires step > 0
    requires GreedyHits(buf, name, step, from, hits)
    ensures hits == Hits(buf, name, step, from)
    decreases |hits|
  {
    if hits == [] {
      assert SearchStart(hits, from, step, 0) == from;
      assert Find(buf, name, from).None?;
    } else {
      var p, rest := hits[0], hits[1..];
      assert hits == [p] + rest;
      GreedyTail(buf, name, step, from, p, rest);
      FindLeftmost(buf, name, from, p);
      GreedyHitsUnique(buf, name, step, p + step, rest);
    }
  }

  /** Successive hits strictly increase and lie at least `step` apart, so records never overlap. */
  lemma HitsSpaced(buf: seq<byte>, name: seq<byte>, step: nat, from: nat, k: nat)
    requires step > 0
    requires k + 1 < |Hits(buf, name, step, from)|
    ensures Hits(buf, name, step, from)[k] + step <= Hits(buf, name, step, from)[k + 1]
  {
    var hits := Hits(buf, name, step, from);
    HitsAreGreedy(buf, name, step, from);
    assert LeftmostHit(buf, name, step, from, hits, k + 1);
  }

  /**
   * Only the LAST hit can lack `step` bytes before the end of the buffer: every
   * earlier hit is followed by another occurrence at least `step` bytes later.
   */
  lemma OnlyLastHitTruncated(buf: seq<byte>, name: seq<byte>, step: nat, from: nat, k: nat)
    requires step > 0
    requires k + 1 < |Hits(buf, name, step, from)|
    ensures Hits(buf, name, step, from)[k] + step <= |buf|
  {
    var hits := Hits(buf, name, step, from);
    HitsSpaced(buf, name, step, from, k);
    HitsAreGreedy(buf, name, step, from);
    assert LeftmostHit(buf, name, step, from, hits, k + 1);
  }

  /**
   * The loop `for (pos = 0; (pos = buf.find(name, pos)) != npos; pos += step) read(pos)`.
   * It terminates because `step` is positive.
   */
  method ScanReader(buf: seq<byte>, name: seq<byte>, step: nat) returns (hits: seq<nat>)
    requires step > 0
    ensures hits == Hits(buf, name, step, 0)
    ensures GreedyHits(buf, name, step, 0, hits)
  {
    hits := [];
    var pos: nat := 0;
    var found := Find(buf, name, pos);
    while found.Some?
      invariant found == Find(buf, name, pos)
      invariant Hits(buf, name, step, 0) == hits + Hits(buf, name, step, pos)
      decreases if pos <= |buf| then |buf| + 1 - pos else 0
    {
      hits := hits + [found.value];
      pos := found.value + step;
      found := Find(buf, name, pos);
    }
    HitsAreGreedy(buf, name, step, 0);
  }
}
