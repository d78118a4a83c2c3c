/**
 * The packed (`#pragma pack(1)`) record `BtdtData` that `Reader<BtdtData>::read`
 * casts onto the buffer at a hit. The cast is modelled as an explicit, bounds-checked
 * extraction of each field at its byte offset.
 */
module Btdt {
  import opened Wire

  /** The four raw bytes of one `float` field, in buffer order; their IEEE-754 value is not modelled. */
  datatype F32 = F32(b0: byte, b1: byte, b2: byte, b3: byte)

  /** The fields of `BtdtData`, in declaration order. */
  datatype BtdtData = BtdtData(
    btdtName: seq<byte>,    // char[4], "btdt"
    btdt: seq<byte>,        // char[4]
    bnidName: seq<byte>,    // char[4], "bnid"
    bnid: byte,             // char
    unknown1: seq<byte>,    // char[5]
    tranName: seq<byte>,    // char[4], "tran"
    orientation: seq<F32>,  // float[4], wire order x, y, z, w
    position: seq<F32>)     // float[3]

  const BTDT_NAME_OFFSET: nat := 0
  const BTDT_OFFSET: nat := 4
  const BNID_NAME_OFFSET: nat := 8
  const BNID_OFFSET: nat := 12
  const UNKNOWN1_OFFSET: nat := 13
  const TRAN_NAME_OFFSET: nat := 18
  const ORIENTATION_OFFSET: nat := 22
  const POSITION_OFFSET: nat := 38
  /** `sizeof(BtdtData)` under `#pragma pack(1)`. */
  const BTDT_SIZE: nat := 50

  /** The chunk name `"btdt"` as bytes. */
  const BTDT_NAME: seq<byte> := [0x62, 0x74, 0x64, 0x74]

  /** Every array field has its declared length. */
  predicate WellSized(d: BtdtData)
  {
    |d.btdtName| == 4 && |d.btdt| == 4 && |d.bnidName| == 4 && |d.unknown1| == 5 &&
    |d.tranName| == 4 && |d.orientation| == 4 && |d.position| == 3
  }

  function F32Bytes(f: F32): (r: seq<byte>)
    ensures |r| == 4
  {
    [f.b0, f.b1, f.b2, f.b3]
  }

  /** The bytes of consecutive `float` fields. */
  function FloatsBytes(fs: seq<F32>): (r: seq<byte>)
    ensures |r| == 4 * |fs|
  {
    if fs == [] then [] else F32Bytes(fs[0]) + FloatsBytes(fs[1..])
  }

  /** The 50 bytes of a record, laid out without padding. */
  function Encode(d: BtdtData): (r: seq<byte>)
    requires WellSized(d)
    ensures |r| == BTDT_SIZE
  {
    d.btdtName + d.btdt + d.bnidName + [d.bnid] + d.unknown1 + d.tranName +
    FloatsBytes(d.orientation) + FloatsBytes(d.position)
  }

  function DecodeF32(buf: seq<byte>, at: nat): F32
    requires at + 4 <= |buf|
  {
    F32(buf[at], buf[at + 1], buf[at + 2], buf[at + 3])
  }

  /** `n` consecutive `float` fields starting at `at`. */
  function DecodeFloats(buf: seq<byte>, at: nat, n: nat): (r: seq<F32>)
    requires at + 4 * n <= |buf|
    ensures |r| == n
    ensures forall i :: 0 <= i < n ==> r[i] == DecodeF32(buf, at + 4 * i)
  {
    seq(n, i requires 0 <= i < n => DecodeF32(buf, at + 4 * i))
  }

  /**
   * The record at `pos`, or `None` when fewer than `BTDT_SIZE` bytes remain: the
   * bounds check the source's cast does not make.
   */
  function Decode(buf: seq<byte>, pos: nat): (r: Option<BtdtData>)
    ensures r.Some? <==> pos + BTDT_SIZE <= |buf|
    ensures r.Some? ==> WellSized(r.value)
  {
    if pos + BTDT_SIZE > |buf| then None
    else
      var at := pos;
      Some(BtdtData(
        buf[at + BTDT_NAME_OFFSET..at + BTDT_OFFSET],
        buf[at + BTDT_OFFSET..at + BNID_NAME_OFFSET],
        buf[at + BNID_NAME_OFFSET..at + BNID_OFFSET],
        buf[at + BNID_OFFSET],
        buf[at + UNKNOWN1_OFFSET..at + TRAN_NAME_OFFSET],
        buf[at + TRAN_NAME_OFFSET..at + ORIENTATION_OFFSET],
        DecodeFloats(buf, at + ORIENTATION_OFFSET, 4),
        DecodeFloats(buf, at + POSITION_OFFSET, 3)))
  }

  /** The byte offset of each field in the encoding is its declared offset. */
  lemma EncodeLayout(d: BtdtData)
    requires WellSized(d)
    ensures Encode(d)[BTDT_NAME_OFFSET..BTDT_OFFSET] == d.btdtName
    ensures Encode(d)[BTDT_OFFSET..BNID_NAME_OFFSET] == d.btdt
    ensures Encode(d)[BNID_NAME_OFFSET..BNID_OFFSET] == d.bnidName
    ensures Encode(d)[BNID_OFFSET] == d.bnid
    ensures Encode(d)[UNKNOWN1_OFFSET..TRAN_NAME_OFFSET] == d.unknown1
    ensures Encode(d)[TRAN_NAME_OFFSET..ORIENTATION_OFFSET] == d.tranName
    ensures Encode(d)[ORIENTATION_OFFSET..POSITION_OFFSET] == FloatsBytes(d.orientation)
    ensures Encode(d)[POSITION_OFFSET..BTDT_SIZE] == FloatsBytes(d.position)
  {
    var o, p := FloatsBytes(d.orientation), FloatsBytes(d.position);
    var head := d.btdtName + d.btdt + d.bnidName + [d.bnid] + d.unknown1 + d.tranName;
    assert Encode(d) == head + o + p;
    assert |head| == ORIENTATION_OFFSET;
  }

  /** Float fields read back from their bytes. */
  lemma {:induction false} DecodeFloatsBytes(fs: seq<F32>, buf: seq<byte>, at: nat)
    requires at + 4 * |fs| <= |buf| && buf[at..at + 4 * |fs|] == FloatsBytes(fs)
    ensures DecodeFloats(buf, at, |fs|) == fs
    decreases |fs|
  {
    if fs != [] {
      var b := FloatsBytes(fs);
      assert b == F32Bytes(fs[0]) + FloatsBytes(fs[1..]);
      assert buf[at..at + 4] == b[..4];
      assert buf[at + 4..at + 4 + 4 * |fs[1..]|] == b[4..];
      DecodeFloatsBytes(fs[1..], buf, at + 4);
      assert buf[at] == b[0] && buf[at + 1] == b[1] && buf[at + 2] == b[2] && buf[at + 3] == b[3];
      var r := DecodeFloats(buf, at, |fs|);
      forall j | 0 <= j < |fs| - 1
        ensures r[1..][j] == DecodeFloats(buf, at + 4, |fs| - 1)[j]
      {
        assert at + 4 * (j + 1) == at + 4 + 4 * j;
      }
      assert r == [r[0]] + r[1..];
    }
  }

  /** Round trip: a record encoded anywhere in a buffer decodes back to itself. */
  lemma DecodeEncode(d: BtdtData, before: seq<byte>, after: seq<byte>)
    requires WellSized(d)
    ensures Decode(before + Encode(d) + after, |before|) == Some(d)
  {
    var buf := before + Encode(d) + after;
    var at := |before|;
    var e := Encode(d);
    EncodeLayout(d);
    assert buf[at..at + BTDT_SIZE] == e;
    assert forall i, j :: 0 <= i <= j <= BTDT_SIZE ==> buf[at + i..at + j] == e[i..j];
    DecodeFloatsBytes(d.orientation, buf, at + ORIENTATION_OFFSET);
    DecodeFloatsBytes(d.position, buf, at + POSITION_OFFSET);
    assert buf[at + BNID_OFFSET] == e[BNID_OFFSET];
  }

  /** Adjacent slices concatenate. */
  lemma SliceSplit(s: seq<byte>, i: nat, j: nat, k: nat)
    requires i <= j <= k <= |s|
    ensures s[i..k] == s[i..j] + s[j..k]
  {
  }

  /** Decoded floats re-encode to the bytes they were read from. */
  lemma {:induction false} FloatsBytesOfDecode(buf: seq<byte>, at: nat, n: nat)
    requires at + 4 * n <= |buf|
    ensures FloatsBytes(DecodeFloats(buf, at, n)) == buf[at..at + 4 * n]
    decreases n
  {
    if n > 0 {
      var fs := DecodeFloats(buf, at, n);
      assert fs[1..] == DecodeFloats(buf, at + 4, n - 1);
      FloatsBytesOfDecode(buf, at + 4, n - 1);
      assert F32Bytes(fs[0]) == buf[at..at + 4];
      SliceSplit(buf, at, at + 4, at + 4 * n);
    }
  }

  /** Round trip the other way: a decoded record re-encodes to exactly the 50 bytes at `pos`. */
  lemma EncodeDecode(buf: seq<byte>, pos: nat)
    requires pos + BTDT_SIZE <= |buf|
    ensures Encode(Decode(buf, pos).value) == buf[pos..pos + BTDT_SIZE]
  {
    var d := Decode(buf, pos).value;
    FloatsBytesOfDecode(buf, pos + ORIENTATION_OFFSET, 4);
    FloatsBytesOfDecode(buf, pos + POSITION_OFFSET, 3);
    assert [d.bnid] == buf[pos + BNID_OFFSET..pos + UNKNOWN1_OFFSET];
    SliceSplit(buf, pos, pos + POSITION_OFFSET, pos + BTDT_SIZE);
    SliceSplit(buf, pos, pos + ORIENTATION_OFFSET, pos + POSITION_OFFSET);
    SliceSplit(buf, pos, pos + TRAN_NAME_OFFSET, pos + ORIENTATION_OFFSET);
    SliceSplit(buf, pos, pos + UNKNOWN1_OFFSET, pos + TRAN_NAME_OFFSET);
    SliceSplit(buf, pos, pos + BNID_OFFSET, pos + UNKNOWN1_OFFSET);
    SliceSplit(buf, pos, pos + BNID_NAME_OFFSET, pos + BNID_OFFSET);
    SliceSplit(buf, pos, pos + BTDT_OFFSET, pos + BNID_NAME_OFFSET);
  }

  /**
   * The bone index as the source computes it: `d.bnid` is a `char`, which is signed
   * on the x86-64 and AArch64-Apple ABIs, so bytes 128..255 index negatively. The
   * conversion of a byte to signed `char` keeps its value modulo 256 within -128..127.
   */
  function BoneSlotAsWritten(d: BtdtData): (slot: int)
    ensures -128 <= slot < 128 && (slot - d.bnid) % 256 == 0
  {
    if d.bnid < 128 then d.bnid else d.bnid - 256
  }

  /** The range and the congruence fix the index: no other value meets both. */
  lemma CongruentPins(d: BtdtData, s: int)
    requires -128 <= s < 128 && (s - d.bnid) % 256 == 0
    ensures s == BoneSlotAsWritten(d)
  {
    var slot := BoneSlotAsWritten(d);
    var q, r := (s - d.bnid) / 256, (slot - d.bnid) / 256;
    assert s - d.bnid == 256 * q && slot - d.bnid == 256 * r;
    assert -383 <= 256 * (q - r) <= 383;
  }
}
