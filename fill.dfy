/**
 * The fill loop at the start of `Receiver::update`: the number of queued bytes is
 * peeked, a zeroed buffer of that size is allocated, and `Receive` is called until
 * the buffer is full or a call delivers nothing.
 *
 * The socket is an oracle: `pieces` is the queue of datagrams the `Receive` calls
 * would deliver, in order. A receive into `rest` free bytes takes the first one and
 * delivers `Min(|pieces[0]|, rest)` bytes of it (a datagram larger than the buffer
 * is truncated); a receive on an empty queue delivers nothing.
 */
module Fill {
  import opened Wire

  /** The byte count the next `Receive(ptr, rest)` returns. */
  function ReceiveLength(pieces: seq<seq<byte>>, rest: nat): (n: nat)
    ensures n <= rest
    ensures pieces != [] ==> n == Min(|pieces[0]|, rest)
    ensures pieces == [] ==> n == 0
  {
    if pieces != [] then Min(|pieces[0]|, rest) else 0
  }

  /** The bytes the loop writes, in order, when it starts with `rest` free bytes. */
  function Received(rest: nat, pieces: seq<seq<byte>>): (r: seq<byte>)
    decreases |pieces|
  {
    var n := ReceiveLength(pieces, rest);
    if rest == 0 || n == 0 then []
    else pieces[0][..n] + Received(rest - n, pieces[1..])
  }

  /** The loop never writes more than the buffer holds. */
  lemma {:induction false} ReceivedFits(rest: nat, pieces: seq<seq<byte>>)
    ensures |Received(rest, pieces)| <= rest
    decreases |pieces|
  {
    var n := ReceiveLength(pieces, rest);
    if rest != 0 && n != 0 {
      ReceivedFits(rest - n, pieces[1..]);
    }
  }

  /** Everything the receives would deliver, up to the first one that delivers nothing. */
  function Delivered(pieces: seq<seq<byte>>): seq<byte>
  {
    if pieces == [] || pieces[0] == [] then [] else pieces[0] + Delivered(pieces[1..])
  }

  /** The first `n` bytes of `s`, or all of `s` when it is shorter. */
  function Take(n: nat, s: seq<byte>): (r: seq<byte>)
    ensures |r| == Min(n, |s|)
  {
    s[..Min(n, |s|)]
  }

  /**
   * The loop stated without it: the buffer's filled prefix is the delivered stream cut
   * to the buffer size, since a receive truncated to the free space leaves none free.
   */
  lemma {:induction false} ReceivedIsTake(rest: nat, pieces: seq<seq<byte>>)
    ensures Received(rest, pieces) == Take(rest, Delivered(pieces))
    decreases |pieces|
  {
    if rest != 0 && pieces != [] && pieces[0] != [] {
      var n := ReceiveLength(pieces, rest);
      var tail := Delivered(pieces[1..]);
      ReceivedIsTake(rest - n, pieces[1..]);
      if n < |pieces[0]| {
        assert rest - n == 0;
        assert (pieces[0] + tail)[..rest] == pieces[0][..rest];
      } else {
        assert (pieces[0] + tail)[..Min(rest, |pieces[0]| + |tail|)] ==
          pieces[0] + tail[..Min(rest - n, |tail|)];
      }
    }
  }

  /** When every receive delivers at least what is still free, the buffer is filled completely. */
  lemma ReceivedFillsWhenEnough(rest: nat, pieces: seq<seq<byte>>)
    requires |pieces| >= 1 && |pieces[0]| >= rest
    ensures Received(rest, pieces) == pieces[0][..rest]
  {
  }

  /** The one buffer the scan sees: the received bytes, then the never-written zero tail. */
  function DatagramBuffer(size: nat, pieces: seq<seq<byte>>): (buf: seq<byte>)
    ensures |buf| == size
  {
    ReceivedFits(size, pieces);
    var got := Received(size, pieces);
    got + Zeros(size - |got|)
  }

  /**
   * One turn of the loop: when `got` from `ptr` on is what the queued receives
   * deliver, the next receive writes its bytes at `ptr` and the rest follows.
   */
  lemma ReceivedStep(got: seq<byte>, ptr: nat, rest: nat, pieces: seq<seq<byte>>, n: nat)
    requires ptr <= |got| && got[ptr..] == Received(rest, pieces)
    requires n == ReceiveLength(pieces, rest)
    ensures rest == 0 || n == 0 ==> ptr == |got|
    ensures rest > 0 && n > 0 ==> ptr + n <= |got|
    ensures rest > 0 && n > 0 ==> got[ptr + n..] == Received(rest - n, pieces[1..])
    ensures rest > 0 && n > 0 ==> forall i :: ptr <= i < ptr + n ==> got[i] == pieces[0][i - ptr]
  {
    if rest > 0 && n > 0 {
      assert got[ptr + n..] == got[ptr..][n..];
    }
  }

  /** A buffer that starts with `got` and is zero after it is `got` padded with zeros. */
  lemma PaddedBuffer(buf: seq<byte>, got: seq<byte>)
    requires |got| <= |buf|
    requires forall i :: 0 <= i < |got| ==> buf[i] == got[i]
    requires forall i :: |got| <= i < |buf| ==> buf[i] == 0
    ensures buf == got + Zeros(|buf| - |got|) && buf[..|got|] == got
  {
  }

  /**
   * `Receive(ptr, rest)`: the first queued datagram, cut to `rest`, is written into
   * `a` from `ptr` on; `n` is how many bytes were written and `left` the queue after
   * the call. Nothing else in `a` changes.
   */
  method Receive(a: array<byte>, ptr: nat, rest: nat, pieces: seq<seq<byte>>)
    returns (n: nat, left: seq<seq<byte>>)
    requires ptr + rest <= a.Length
    modifies a
    ensures n == ReceiveLength(pieces, rest)
    ensures pieces == [] ==> left == []
    ensures pieces != [] ==> left == pieces[1..]
    ensures forall i :: 0 <= i < a.Length && !(ptr <= i < ptr + n) ==> a[i] == old(a[i])
    ensures pieces != [] ==> forall i :: ptr <= i < ptr + n ==> a[i] == pieces[0][i - ptr]
  {
    n := ReceiveLength(pieces, rest);
    if pieces == [] {
      left := [];
    } else {
      forall i | ptr <= i < ptr + n {
        a[i] := pieces[0][i - ptr];
      }
      left := pieces[1..];
    }
  }

  /**
   * The fill loop, in place on a zeroed buffer of `size` bytes. `ptr` and `rest` are
   * the source's pointer offset and free count; `filled` is the final offset.
   */
  method FillBuffer(size: nat, pieces: seq<seq<byte>>) returns (buf: seq<byte>, filled: nat)
    ensures buf == DatagramBuffer(size, pieces)
    ensures filled == |Received(size, pieces)| && filled <= size
    ensures buf[..filled] == Received(size, pieces)
    ensures forall i :: filled <= i < size ==> buf[i] == 0
  {
    var a := new byte[size](_ => 0);
    var ptr: nat, rest: nat, queue := 0, size, pieces;
    ghost var got := Received(size, pieces);
    ReceivedFits(size, pieces);
    assert got[0..] == got;
    while rest > 0
      invariant a.Length == size && ptr + rest == size
      invariant ptr <= |got| && got[ptr..] == Received(rest, queue)
      invariant forall i :: 0 <= i < ptr ==> a[i] == got[i]
      invariant forall i :: ptr <= i < size ==> a[i] == 0
      decreases rest
    {
      ghost var before := queue;
      var length;
      length, queue := Receive(a, ptr, rest, queue);
      ReceivedStep(got, ptr, rest, before, length);
      if length == 0 {
        break;
      }
      ptr, rest := ptr + length, rest - length;
    }
    filled := ptr;
    buf := a[..];
    PaddedBuffer(buf, got);
  }
}
