/**
 * `Receiver`: the ordered list of registered readers and the `update` that fills a
 * buffer from the socket and hands every hit of every reader's chunk name to that
 * reader's `read`.
 */
module Registry {
  import opened Wire
  import Fill
  import Scan

  /**
   * A registered reader, as `update` sees it: `getChunkName()` and `getDataLength()`.
   * `handle` tells apart two reader objects of the same kind; equality of entries
   * stands for `shared_ptr` equality.
   */
  datatype ReaderEntry = ReaderEntry(handle: nat, chunkName: seq<byte>, dataLength: nat)

  /** One `r->read(buf.data() + pos)` call. */
  datatype Dispatch = Dispatch(reader: ReaderEntry, pos: nat)

  /** Readers whose scan loop terminates: the step after a hit is positive. */
  predicate Steps(readers: seq<ReaderEntry>)
  {
    forall k :: 0 <= k < |readers| ==> readers[k].dataLength > 0
  }

  /** The read calls for one reader, in hit order. */
  function ReaderCalls(r: ReaderEntry, hits: seq<nat>): (calls: seq<Dispatch>)
    ensures |calls| == |hits|
    ensures forall i :: 0 <= i < |hits| ==> calls[i] == Dispatch(r, hits[i])
  {
    seq(|hits|, i requires 0 <= i < |hits| => Dispatch(r, hits[i]))
  }

  /** Every read call of one update: reader by reader in registration order, each reader's hits in order. */
  function Dispatches(readers: seq<ReaderEntry>, buf: seq<byte>): seq<Dispatch>
    requires Steps(readers)
  {
    if readers == [] then []
    else
      var last := readers[|readers| - 1];
      Dispatches(readers[..|readers| - 1], buf) +
      ReaderCalls(last, Scan.Hits(buf, last.chunkName, last.dataLength, 0))
  }

  /**
   * Each read call is made at an occurrence of its own reader's chunk name, by a
   * reader that is registered.
   */
  lemma {:induction false} DispatchesAtOccurrences(readers: seq<ReaderEntry>, buf: seq<byte>, i: nat)
    requires Steps(readers) && i < |Dispatches(readers, buf)|
    ensures Dispatches(readers, buf)[i].reader in readers
    ensures Scan.OccursAt(buf, Dispatches(readers, buf)[i].reader.chunkName, Dispatches(readers, buf)[i].pos)
    decreases |readers|
  {
    var last := readers[|readers| - 1];
    var init := readers[..|readers| - 1];
    var front := Dispatches(init, buf);
    var hits := Scan.Hits(buf, last.chunkName, last.dataLength, 0);
    if i < |front| {
      DispatchesAtOccurrences(init, buf, i);
      assert front[i].reader in init;
    } else {
      Scan.HitsAreGreedy(buf, last.chunkName, last.dataLength, 0);
      assert Scan.LeftmostHit(buf, last.chunkName, last.dataLength, 0, hits, i - |front|);
    }
  }

  /** With a single reader, the calls are exactly that reader's hits. */
  lemma SingleReaderDispatches(r: ReaderEntry, buf: seq<byte>)
    requires r.dataLength > 0
    ensures Dispatches([r], buf) == ReaderCalls(r, Scan.Hits(buf, r.chunkName, r.dataLength, 0))
  {
  }

  /** `erase(find(begin, end, x))`: the first element equal to `x` is removed; no element, no change. */
  function RemoveFirst(s: seq<ReaderEntry>, x: ReaderEntry): seq<ReaderEntry>
  {
    if s == [] then []
    else if s[0] == x then s[1..]
    else [s[0]] + RemoveFirst(s[1..], x)
  }

  /** Removing a reader that is not registered leaves the list unchanged. */
  lemma {:induction false} RemoveFirstAbsent(s: seq<ReaderEntry>, x: ReaderEntry)
    requires x !in s
    ensures RemoveFirst(s, x) == s
  {
    if s != [] {
      RemoveFirstAbsent(s[1..], x);
    }
  }

  /** Removing a registered reader erases exactly its first occurrence `i` and keeps the others in order. */
  lemma {:induction false} RemoveFirstAt(s: seq<ReaderEntry>, x: ReaderEntry, i: nat)
    requires i < |s| && s[i] == x && forall j :: 0 <= j < i ==> s[j] != x
    ensures RemoveFirst(s, x) == s[..i] + s[i + 1..]
  {
    if i > 0 {
      RemoveFirstAt(s[1..], x, i - 1);
      assert s[1..][..i - 1] == s[1..i];
      assert s[1..][i..] == s[i + 1..];
      assert s[..i] == [s[0]] + s[1..i];
    }
  }

  /** Removal takes exactly one copy of `x` out of the list, nothing more. */
  lemma {:induction false} RemoveFirstMultiset(s: seq<ReaderEntry>, x: ReaderEntry)
    ensures multiset(RemoveFirst(s, x)) == multiset(s) - multiset{x}
  {
    if s != [] {
      assert s == [s[0]] + s[1..];
      if s[0] != x {
        RemoveFirstMultiset(s[1..], x);
      }
    }
  }

  /** Adding a new reader and removing it again restores the list. */
  lemma AddThenRemove(s: seq<ReaderEntry>, x: ReaderEntry)
    requires x !in s
    ensures RemoveFirst(s + [x], x) == s
  {
    RemoveFirstAt(s + [x], x, |s|);
    assert (s + [x])[..|s|] == s;
  }

  /** `std::find`: the first index holding `x`, `|readers|` when there is none. */
  method FindReader(readers: seq<ReaderEntry>, x: ReaderEntry) returns (i: nat)
    ensures i <= |readers|
    ensures i < |readers| ==> readers[i] == x
    ensures forall j :: 0 <= j < i ==> readers[j] != x
  {
    i := 0;
    while i < |readers| && readers[i] != x
      invariant i <= |readers|
      invariant forall j :: 0 <= j < i ==> readers[j] != x
    {
      i := i + 1;
    }
  }

  class Receiver {
    var readers: seq<ReaderEntry>

    constructor ()
      ensures readers == []
    {
      readers := [];
    }

    /** `addReader`: registration appends. */
    method AddReader(r: ReaderEntry)
      modifies this
      ensures readers == old(readers) + [r]
    {
      readers := readers + [r];
    }

    /** `removeReader`: `warned` is the "reader not found" warning. */
    method RemoveReader(r: ReaderEntry) returns (warned: bool)
      modifies this
      ensures warned <==> r !in old(readers)
      ensures readers == RemoveFirst(old(readers), r)
    {
      var i := FindReader(readers, r);
      if i == |readers| {
        RemoveFirstAbsent(readers, r);
        warned := true;
        return;
      }
      RemoveFirstAt(readers, r, i);
      readers := readers[..i] + readers[i + 1..];
      warned := false;
    }

    /**
     * `update`, with the socket as an oracle (`peek` for `PeekReceive`, `pieces` for
     * the `Receive` calls). It returns the buffer it scanned and the read calls it
     * made, in order; when nothing is queued it returns at once and no reader is called.
     */
    method Update(peek: nat, pieces: seq<seq<byte>>) returns (buf: seq<byte>, calls: seq<Dispatch>)
      requires Steps(readers)
      ensures peek == 0 ==> buf == [] && calls == []
      ensures peek > 0 ==> buf == Fill.DatagramBuffer(peek, pieces) && calls == Dispatches(readers, buf)
    {
      if peek == 0 {
        return [], [];
      }
      var filled;
      buf, filled := Fill.FillBuffer(peek, pieces);
      calls := [];
      for k := 0 to |readers|
        invariant calls == Dispatches(readers[..k], buf)
      {
        var r := readers[k];
        var hits := Scan.ScanReader(buf, r.chunkName, r.dataLength);
        assert readers[..k + 1][..k] == readers[..k];
        calls := calls + ReaderCalls(r, hits);
      }
      assert readers[..|readers|] == readers;
    }
  }
}
