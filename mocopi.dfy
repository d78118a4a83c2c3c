/**
 * `ofxMocopiReceiver`: one `Receiver` with one `BoneReader` registered, the bind state
 * of `setup`, and `update`, which applies every `btdt` record of the queued datagram
 * to the skeleton.
 */
module Mocopi {
  import opened Wire
  import opened Btdt
  import opened Bones
  import Fill
  import Scan
  import Registry

  /** The default argument of `setup`: a call `setup()` is `Setup(DEFAULT_PORT, listenOk)`. */
  const DEFAULT_PORT: uint16 := 12351

  /** How the receiver sees its bone reader: chunk name "btdt", step `sizeof(BtdtData)`. */
  const BONE_ENTRY: Registry.ReaderEntry := Registry.ReaderEntry(0, BTDT_NAME, BTDT_SIZE)

  /** The skeleton carries the hard-coded topology of `constructSkeleton`. */
  predicate HasSkeletonTopology(bones: seq<Bone>)
  {
    |bones| == NUM_BONES && forall i :: 0 <= i < NUM_BONES ==> bones[i].parent == SkeletonParent(i)
  }

  /** The bones after one `update`. */
  function UpdatedBones(bones: seq<Bone>, peek: nat, pieces: seq<seq<byte>>): (r: seq<Bone>)
    requires |bones| == NUM_BONES
    ensures |r| == NUM_BONES
  {
    if peek == 0 then bones
    else
      var buf := Fill.DatagramBuffer(peek, pieces);
      ApplyAll(bones, buf, Scan.Hits(buf, BTDT_NAME, BTDT_SIZE, 0))
  }

  /** `update` never changes the topology. */
  lemma UpdateKeepsTopology(bones: seq<Bone>, peek: nat, pieces: seq<seq<byte>>)
    requires HasSkeletonTopology(bones)
    ensures HasSkeletonTopology(UpdatedBones(bones, peek, pieces))
  {
    if peek > 0 {
      var buf := Fill.DatagramBuffer(peek, pieces);
      ApplyAllKeepsParents(bones, buf, Scan.Hits(buf, BTDT_NAME, BTDT_SIZE, 0));
      var r := UpdatedBones(bones, peek, pieces);
      assert forall i :: 0 <= i < NUM_BONES ==> Parents(r)[i] == Parents(bones)[i];
    }
  }

  class MocopiReceiver {
    var receiver: Registry.Receiver
    var bone: BoneReader
    var isSetup: bool
    var port: uint16

    ghost predicate Valid()
      reads this, receiver, bone, bone.bones
    {
      receiver.readers == [BONE_ENTRY] && bone.Valid() && HasSkeletonTopology(bone.bones[..])
    }

    /** The constructor: an unbound receiver, the bone reader registered, port 0. */
    constructor ()
      ensures Valid() && fresh(receiver) && fresh(bone) && fresh(bone.bones)
      ensures !isSetup && port == 0
      ensures forall i :: 0 <= i < NUM_BONES ==> bone.bones[i] == DEFAULT_BONE.(parent := SkeletonParent(i))
    {
      var r := new Registry.Receiver();
      bone := new BoneReader();
      r.AddReader(BONE_ENTRY);
      receiver := r;
      isSetup := false;
      port := 0;
    }

    /** `isSetup()`. */
    function IsSetup(): (bound: bool)
      reads this
      ensures bound <==> isSetup
    {
      isSetup
    }

    /** `getPort()`. */
    function GetPort(): (p: uint16)
      reads this
      ensures p == port
    {
      port
    }

    /**
     * `setup(port)`, with `listenOk` for the outcome of `listen` (socket create and
     * bind). `closed` tells whether `close()` was called: exactly when the receiver
     * was already set up. The port is recorded even when binding fails.
     */
    method Setup(newPort: uint16, listenOk: bool) returns (ok: bool, closed: bool)
      requires Valid()
      modifies this
      ensures Valid()
      ensures closed == old(isSetup)
      ensures GetPort() == newPort
      ensures IsSetup() == listenOk && ok == listenOk
      ensures receiver == old(receiver) && bone == old(bone)
    {
      closed := false;
      if isSetup {
        closed := true;
      }
      port := newPort;
      isSetup := listenOk;
      ok := isSetup;
    }

    /**
     * `update()`: every hit of "btdt" in the received buffer is applied in order; the
     * topology is kept.
     */
    method Update(peek: nat, pieces: seq<seq<byte>>)
      requires Valid()
      modifies bone.bones
      ensures Valid()
      ensures bone.bones[..] == UpdatedBones(old(bone.bones[..]), peek, pieces)
    {
      ghost var start := bone.bones[..];
      var buf, calls := receiver.Update(peek, pieces);
      var positions := seq(|calls|, i requires 0 <= i < |calls| => calls[i].pos);
      assert positions == if peek == 0 then [] else Scan.Hits(buf, BTDT_NAME, BTDT_SIZE, 0) by {
        Registry.SingleReaderDispatches(BONE_ENTRY, buf);
      }
      bone.ReadHits(buf, positions);
      UpdateKeepsTopology(start, peek, pieces);
    }
  }

  // ---------------------------------------------------------------------------
  // The unchecked reads of the source, and what the model does instead

  /**
   * A datagram of just the 4 bytes "btdt": the scan hands position 0 to `read`,
   * whose cast then takes 50 bytes from a 4-byte buffer.
   */
  lemma TruncatedRecordExample()
    ensures Scan.Hits(BTDT_NAME, BTDT_NAME, BTDT_SIZE, 0) == [0]
    ensures 0 + BTDT_SIZE > |Fill.DatagramBuffer(4, [BTDT_NAME])|
    ensures Fill.DatagramBuffer(4, [BTDT_NAME]) == BTDT_NAME
    ensures forall bones :: |bones| == NUM_BONES ==> ApplyHit(bones, BTDT_NAME, 0) == bones
  {
  }

  /** The record of the examples below: bone id `bnid`, every other byte zero. */
  function ZeroRecord(bnid: byte): (d: BtdtData)
    ensures WellSized(d) && d.btdtName == BTDT_NAME && d.bnid == bnid
  {
    var z := F32(0, 0, 0, 0);
    BtdtData(BTDT_NAME, [0, 0, 0, 0], [0, 0, 0, 0], bnid, [0, 0, 0, 0, 0], [0, 0, 0, 0], [z, z, z, z], [z, z, z])
  }

  /** A well-formed 50-byte datagram holding one record is scanned exactly once, at 0. */
  lemma OneRecordHits(d: BtdtData)
    requires WellSized(d) && d.btdtName == BTDT_NAME
    ensures Scan.Hits(Encode(d), BTDT_NAME, BTDT_SIZE, 0) == [0]
    ensures Fill.DatagramBuffer(BTDT_SIZE, [Encode(d)]) == Encode(d)
  {
  }

  /** The update for a one-record datagram is the read of that one record. */
  lemma OneRecordApplied(bones: seq<Bone>, d: BtdtData)
    requires |bones| == NUM_BONES && WellSized(d) && d.btdtName == BTDT_NAME
    ensures Decode(Encode(d), 0) == Some(d)
    ensures UpdatedBones(bones, BTDT_SIZE, [Encode(d)]) == ApplyHit(bones, Encode(d), 0)
  {
    var e := Encode(d);
    OneRecordHits(d);
    DecodeEncode(d, [], []);
    assert [] + e + [] == e;
    var hits := Scan.Hits(e, BTDT_NAME, BTDT_SIZE, 0);
    assert hits[..0] == [];
    assert ApplyAll(bones, e, hits) == ApplyHit(ApplyAll(bones, e, []), e, 0);
  }

  /** A one-record datagram whose id is not a bone changes nothing. */
  lemma OneRecordIgnored(bones: seq<Bone>, d: BtdtData)
    requires |bones| == NUM_BONES && WellSized(d) && d.btdtName == BTDT_NAME && d.bnid >= NUM_BONES
    ensures Scan.Hits(Encode(d), BTDT_NAME, BTDT_SIZE, 0) == [0]
    ensures Decode(Encode(d), 0) == Some(d)
    ensures UpdatedBones(bones, BTDT_SIZE, [Encode(d)]) == bones
  {
    OneRecordHits(d);
    OneRecordApplied(bones, d);
  }

  /**
   * A record with bone id byte 200 is found by the scan, and the source indexes the
   * bone vector with it: as a signed `char` that is -56, as an unsigned one 200;
   * neither is one of the 27 bones. The model ignores the record.
   */
  /** An id byte that is no bone either way: 200 unsigned, -56 as a signed `char`. */
  const OUT_OF_RANGE_ID: byte := 200

  lemma OutOfRangeBoneIdExample(bones: seq<Bone>)
    requires |bones| == NUM_BONES
    ensures Scan.Hits(Encode(ZeroRecord(OUT_OF_RANGE_ID)), BTDT_NAME, BTDT_SIZE, 0) == [0]
    ensures Decode(Encode(ZeroRecord(OUT_OF_RANGE_ID)), 0) == Some(ZeroRecord(OUT_OF_RANGE_ID))
    ensures BoneSlotAsWritten(ZeroRecord(OUT_OF_RANGE_ID)) == -56
    ensures !(0 <= BoneSlotAsWritten(ZeroRecord(OUT_OF_RANGE_ID)) < NUM_BONES) && ZeroRecord(OUT_OF_RANGE_ID).bnid >= NUM_BONES
    ensures UpdatedBones(bones, BTDT_SIZE, [Encode(ZeroRecord(OUT_OF_RANGE_ID))]) == bones
  {
    var d := ZeroRecord(OUT_OF_RANGE_ID);
    OneRecordIgnored(bones, d);
  }

  /**
   * End to end: a datagram that is exactly one record for bone `bnid` poses that bone
   * from the record and leaves every other bone as it was.
   */
  lemma OneRecordUpdate(bones: seq<Bone>, d: BtdtData)
    requires |bones| == NUM_BONES && WellSized(d) && d.btdtName == BTDT_NAME && d.bnid < NUM_BONES
    ensures UpdatedBones(bones, BTDT_SIZE, [Encode(d)]) == bones[d.bnid := Posed(bones[d.bnid], d)]
  {
    OneRecordApplied(bones, d);
    assert ApplyHit(bones, Encode(d), 0) == bones[d.bnid := Posed(bones[d.bnid], d)];
  }
}
