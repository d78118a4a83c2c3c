/**
 * `BoneReader`: the 27 bones of a mocopi skeleton, the hard-coded parent links of
 * `constructSkeleton`, and the pose update `read` applies for one `btdt` record.
 * A bone is reduced to what `ofNode` is told here: a local position, a local
 * orientation and an optional parent; transform composition is not modelled.
 */
module Bones {
  import opened Wire
  import opened Btdt

  const NUM_BONES: nat := 27
  const SCENE_SCALE: int := 1000

  /**
   * A float as the receiver computes it, without IEEE-754 arithmetic: a literal, a
   * wire float taken as is, or a wire float multiplied by an integer factor.
   */
  datatype Scalar = Literal(value: int) | WireFloat(bits: F32) | ScaledFloat(bits: F32, factor: int)

  datatype Vec3 = Vec3(x: Scalar, y: Scalar, z: Scalar)

  /** The `glm::quat` that `setOrientation` takes, built as `(w, x, y, z)`: the scalar part comes first. */
  datatype Quat = Quat(w: Scalar, x: Scalar, y: Scalar, z: Scalar)

  datatype Bone = Bone(position: Vec3, orientation: Quat, parent: Option<nat>)

  /** A default-constructed `ofNode`: at the origin, identity orientation, no parent. */
  const DEFAULT_BONE: Bone :=
    Bone(Vec3(Literal(0), Literal(0), Literal(0)), Quat(Literal(1), Literal(0), Literal(0), Literal(0)), None)

  /** `setPosition(p[0]*SCENE_SCALE, p[1]*SCENE_SCALE, p[2]*SCENE_SCALE)`. */
  function ScaledPosition(d: BtdtData): Vec3
    requires WellSized(d)
  {
    Vec3(ScaledFloat(d.position[0], SCENE_SCALE), ScaledFloat(d.position[1], SCENE_SCALE),
         ScaledFloat(d.position[2], SCENE_SCALE))
  }

  /** `setOrientation({o[3], o[0], o[1], o[2]})`: the wire's fourth float is the scalar part. */
  function WireOrientation(d: BtdtData): Quat
    requires WellSized(d)
  {
    Quat(WireFloat(d.orientation[3]), WireFloat(d.orientation[0]), WireFloat(d.orientation[1]),
         WireFloat(d.orientation[2]))
  }

  /** A quaternion's components in the wire's order x, y, z, w. */
  function WireOrder(q: Quat): (r: seq<Scalar>)
    ensures |r| == 4 && r[3] == q.w
  {
    [q.x, q.y, q.z, q.w]
  }

  /** A position's components in order x, y, z. */
  function Components(v: Vec3): (r: seq<Scalar>)
    ensures |r| == 3
  {
    [v.x, v.y, v.z]
  }

  /** The bone after one record: position and orientation replaced, parent kept. */
  function Posed(b: Bone, d: BtdtData): (r: Bone)
    requires WellSized(d)
    ensures r.parent == b.parent
  {
    b.(position := ScaledPosition(d), orientation := WireOrientation(d))
  }

  /**
   * The orientation reorder loses nothing: read back in wire order it is the wire's
   * four floats, and its scalar part is the wire's last float.
   */
  lemma OrientationFromWire(d: BtdtData)
    requires WellSized(d)
    ensures |WireOrder(WireOrientation(d))| == |d.orientation|
    ensures forall i :: 0 <= i < 4 ==> WireOrder(WireOrientation(d))[i] == WireFloat(d.orientation[i])
    ensures WireOrientation(d).w == WireFloat(d.orientation[3])
  {
  }

  /** Every position component is the matching wire float times `SCENE_SCALE`. */
  lemma PositionFromWire(d: BtdtData)
    requires WellSized(d)
    ensures forall i :: 0 <= i < 3 ==> Components(ScaledPosition(d))[i] == ScaledFloat(d.position[i], SCENE_SCALE)
  {
  }

  /** Whether the hit at `pos` is applied, and to which bone: the record fits and its id is a bone. */
  predicate WritesBone(buf: seq<byte>, pos: nat, j: nat)
  {
    var r := Decode(buf, pos);
    r.Some? && r.value.bnid < NUM_BONES && r.value.bnid == j
  }

  /**
   * `read` at hit `pos`, with the two checks the source leaves out: a record that does
   * not fit in the buffer, or whose id is not a bone, changes nothing.
   */
  function ApplyHit(bones: seq<Bone>, buf: seq<byte>, pos: nat): (r: seq<Bone>)
    requires |bones| == NUM_BONES
    ensures |r| == NUM_BONES
    ensures forall j :: 0 <= j < NUM_BONES ==> r[j].parent == bones[j].parent
    ensures pos + BTDT_SIZE > |buf| ==> r == bones
    ensures forall j :: 0 <= j < NUM_BONES && r[j] != bones[j] ==> WritesBone(buf, pos, j)
  {
    match Decode(buf, pos)
    case None => bones
    case Some(d) => if d.bnid < NUM_BONES then bones[d.bnid := Posed(bones[d.bnid], d)] else bones
  }

  /** Locality of one read: at most one bone changes, and only its pose. */
  lemma ApplyHitLocal(bones: seq<Bone>, buf: seq<byte>, pos: nat)
    requires |bones| == NUM_BONES
    ensures |ApplyHit(bones, buf, pos)| == NUM_BONES
    ensures forall j :: 0 <= j < NUM_BONES && !WritesBone(buf, pos, j) ==> ApplyHit(bones, buf, pos)[j] == bones[j]
    ensures forall j :: 0 <= j < NUM_BONES && WritesBone(buf, pos, j) ==>
      ApplyHit(bones, buf, pos)[j] == Posed(bones[j], Decode(buf, pos).value)
    ensures pos + BTDT_SIZE > |buf| ==> ApplyHit(bones, buf, pos) == bones
  {
  }

  /** A read that fits depends on the record's own 50 bytes and nothing else in the buffer. */
  lemma ApplyHitWithinRecord(bones: seq<Bone>, buf: seq<byte>, pos: nat)
    requires |bones| == NUM_BONES && pos + BTDT_SIZE <= |buf|
    ensures ApplyHit(bones, buf, pos) == ApplyHit(bones, buf[pos..pos + BTDT_SIZE], 0)
  {
    var d := Decode(buf, pos).value;
    EncodeDecode(buf, pos);
    DecodeEncode(d, [], []);
    assert [] + Encode(d) + [] == buf[pos..pos + BTDT_SIZE];
  }

  /** All hits of one datagram, applied in order. */
  function ApplyAll(bones: seq<Bone>, buf: seq<byte>, hits: seq<nat>): (r: seq<Bone>)
    requires |bones| == NUM_BONES
    ensures |r| == NUM_BONES
  {
    if hits == [] then bones
    else
      ApplyHitLocal(ApplyAll(bones, buf, hits[..|hits| - 1]), buf, hits[|hits| - 1]);
      ApplyHit(ApplyAll(bones, buf, hits[..|hits| - 1]), buf, hits[|hits| - 1])
  }

  /** The parent of every bone. */
  function Parents(bones: seq<Bone>): (r: seq<Option<nat>>)
    ensures |r| == |bones| && forall j :: 0 <= j < |bones| ==> r[j] == bones[j].parent
  {
    seq(|bones|, j requires 0 <= j < |bones| => bones[j].parent)
  }

  /** A datagram never changes the topology: every parent link survives every read. */
  lemma {:induction false} ApplyAllKeepsParents(bones: seq<Bone>, buf: seq<byte>, hits: seq<nat>)
    requires |bones| == NUM_BONES
    ensures Parents(ApplyAll(bones, buf, hits)) == Parents(bones)
    decreases |hits|
  {
    if hits != [] {
      var prefix := hits[..|hits| - 1];
      ApplyAllKeepsParents(bones, buf, prefix);
      ApplyHitLocal(ApplyAll(bones, buf, prefix), buf, hits[|hits| - 1]);
    }
  }

  /** A bone that no hit of the datagram writes is left exactly as it was. */
  lemma {:induction false} ApplyAllUntouched(bones: seq<Bone>, buf: seq<byte>, hits: seq<nat>, j: nat)
    requires |bones| == NUM_BONES && j < NUM_BONES
    requires forall k :: 0 <= k < |hits| ==> !WritesBone(buf, hits[k], j)
    ensures ApplyAll(bones, buf, hits)[j] == bones[j]
    decreases |hits|
  {
    if hits != [] {
      var prefix := hits[..|hits| - 1];
      assert forall k :: 0 <= k < |prefix| ==> prefix[k] == hits[k];
      ApplyAllUntouched(bones, buf, prefix, j);
      ApplyHitLocal(ApplyAll(bones, buf, prefix), buf, hits[|hits| - 1]);
    }
  }

  /** The last hit that writes bone `j` decides its pose: later hits for other bones leave it alone. */
  lemma {:induction false} ApplyAllLastWriteWins(bones: seq<Bone>, buf: seq<byte>, hits: seq<nat>, j: nat, k: nat)
    requires |bones| == NUM_BONES && j < NUM_BONES
    requires k < |hits| && WritesBone(buf, hits[k], j)
    requires forall m :: k < m < |hits| ==> !WritesBone(buf, hits[m], j)
    ensures ApplyAll(bones, buf, hits)[j].position == ScaledPosition(Decode(buf, hits[k]).value)
    ensures ApplyAll(bones, buf, hits)[j].orientation == WireOrientation(Decode(buf, hits[k]).value)
    ensures ApplyAll(bones, buf, hits)[j].parent == bones[j].parent
    decreases |hits|
  {
    var prefix, last := hits[..|hits| - 1], hits[|hits| - 1];
    var before := ApplyAll(bones, buf, prefix);
    assert ApplyAll(bones, buf, hits) == ApplyHit(before, buf, last);
    ApplyHitLocal(before, buf, last);
    ApplyAllKeepsParents(bones, buf, prefix);
    assert Parents(before)[j] == Parents(bones)[j];
    if k < |hits| - 1 {
      assert prefix[k] == hits[k];
      forall m | k < m < |prefix|
        ensures !WritesBone(buf, prefix[m], j)
      {
        assert prefix[m] == hits[m];
      }
      ApplyAllLastWriteWins(bones, buf, prefix, j, k);
    }
  }

  // ---------------------------------------------------------------------------
  // Skeleton topology

  /**
   * The parent of each bone, stated directly: bone 0 is the root; 11 and 15
   * branch off 6; 19 and 23 branch off 0; every other bone hangs off its predecessor.
   */
  function SkeletonParent(i: nat): Option<nat>
  {
    if i == 0 then None
    else if i == 11 || i == 15 then Some(6)
    else if i == 19 || i == 23 then Some(0)
    else Some(i - 1)
  }

  /** Every bone other than the root has a parent with a smaller index. */
  lemma ParentPrecedes(i: nat)
    requires i < NUM_BONES
    ensures i == 0 <==> SkeletonParent(i).None?
    ensures i > 0 ==> SkeletonParent(i).value < i
  {
  }

  /** The bones from `i` up to the root, following parent links. */
  function PathToRoot(i: nat): (path: seq<nat>)
    requires i < NUM_BONES
    ensures |path| >= 1 && path[0] == i
    decreases i
  {
    match SkeletonParent(i)
    case None => [i]
    case Some(p) => [i] + PathToRoot(p)
  }

  /**
   * Every parent chain ends at the root and strictly descends, so no bone is its own
   * ancestor: the topology is a tree rooted at bone 0.
   */
  lemma {:induction false} PathEndsAtRoot(i: nat)
    requires i < NUM_BONES
    ensures PathToRoot(i)[|PathToRoot(i)| - 1] == 0
    ensures forall k :: 0 <= k < |PathToRoot(i)| - 1 ==> SkeletonParent(PathToRoot(i)[k]) == Some(PathToRoot(i)[k + 1])
    ensures forall k :: 0 < k < |PathToRoot(i)| ==> PathToRoot(i)[k] < i
    ensures i !in PathToRoot(i)[1..]
    decreases i
  {
    if i > 0 {
      var p := SkeletonParent(i).value;
      PathEndsAtRoot(p);
      var path := PathToRoot(i);
      assert path == [i] + PathToRoot(p);
      assert forall k :: 0 < k < |path| ==> path[k] == PathToRoot(p)[k - 1];
    }
  }

  /** The bones whose parent is `p`. */
  function Children(p: nat): set<nat>
  {
    set c | 0 <= c < NUM_BONES && SkeletonParent(c) == Some(p)
  }

  /**
   * The branch points: the root carries the spine and both legs, bone 6 the neck and
   * both arms; every other bone has at most one child, and the five chain ends are leaves.
   */
  lemma BranchPoints()
    ensures Children(0) == {1, 19, 23}
    ensures Children(6) == {7, 11, 15}
    ensures forall p :: 0 <= p < NUM_BONES && p != 0 && p != 6 ==> |Children(p)| <= 1
    ensures forall p :: p in {10, 14, 18, 22, 26} ==> Children(p) == {}
  {
    forall p | 0 <= p < NUM_BONES && p != 0 && p != 6
      ensures |Children(p)| <= 1
    {
      if p in {10, 14, 18, 22, 26} {
        assert Children(p) == {};
      } else {
        assert Children(p) == {p + 1};
      }
    }
    assert Children(0) == {1, 19, 23};
    assert Children(6) == {7, 11, 15};
  }

  // ---------------------------------------------------------------------------
  // do_array

  /** The bones after `do_index(c, p)`: `c`'s parent becomes `p`. */
  function SetParent(bones: seq<Bone>, c: nat, p: nat): (r: seq<Bone>)
    requires c < |bones|
    ensures |r| == |bones|
  {
    bones[c := bones[c].(parent := Some(p))]
  }

  /** The bones after the first `n` pairs of `do_array(chain)`. */
  function LinkPairs(bones: seq<Bone>, chain: seq<nat>, n: nat): (r: seq<Bone>)
    requires n < |chain| && forall i :: 0 <= i < |chain| ==> chain[i] < |bones|
    ensures |r| == |bones|
  {
    if n == 0 then bones else SetParent(LinkPairs(bones, chain, n - 1), chain[n], chain[n - 1])
  }

  /** Bone `k` once the run `[p, a, ..., a+n-1]` is linked. */
  function RunLinked(bones: seq<Bone>, p: nat, a: nat, n: nat, k: nat): Bone
    requires k < |bones|
  {
    if a <= k < a + n then bones[k].(parent := Some(if k == a then p else k - 1)) else bones[k]
  }

  /**
   * `do_array` over a run `[p, a, a+1, ..., b]`: `a` is hung off `p`, every later bone
   * off its predecessor, and nothing else changes.
   */
  lemma {:induction false} LinkRun(bones: seq<Bone>, chain: seq<nat>, p: nat, a: nat, n: nat)
    requires n < |chain| && forall i :: 0 <= i < |chain| ==> chain[i] < |bones|
    requires chain[0] == p && p < a
    requires forall i :: 1 <= i < |chain| ==> chain[i] == a + i - 1
    ensures forall k :: 0 <= k < |bones| ==> LinkPairs(bones, chain, n)[k] == RunLinked(bones, p, a, n, k)
    decreases n
  {
    if n > 0 {
      LinkRun(bones, chain, p, a, n - 1);
      assert chain[n] == a + n - 1;
      if n > 1 {
        assert chain[n - 1] == a + n - 2;
      }
    }
  }

  /** The five `do_array` chains of `constructSkeleton`, in call order. */
  const SPINE: seq<nat> := [0, 1, 2, 3, 4, 5, 6, 7, 8, 9, 10]
  const LEFT_ARM: seq<nat> := [6, 11, 12, 13, 14]
  const RIGHT_ARM: seq<nat> := [6, 15, 16, 17, 18]
  const LEFT_LEG: seq<nat> := [0, 19, 20, 21, 22]
  const RIGHT_LEG: seq<nat> := [0, 23, 24, 25, 26]

  /** Each chain is a run: a parent followed by consecutive bones. */
  lemma ChainShapes()
    ensures forall i :: 1 <= i < |SPINE| ==> SPINE[i] == 1 + i - 1
    ensures forall i :: 1 <= i < |LEFT_ARM| ==> LEFT_ARM[i] == 11 + i - 1
    ensures forall i :: 1 <= i < |RIGHT_ARM| ==> RIGHT_ARM[i] == 15 + i - 1
    ensures forall i :: 1 <= i < |LEFT_LEG| ==> LEFT_LEG[i] == 19 + i - 1
    ensures forall i :: 1 <= i < |RIGHT_LEG| ==> RIGHT_LEG[i] == 23 + i - 1
  {
  }

  /** Linking the five chains over cleared bones yields exactly `SkeletonParent`. */
  lemma ChainsBuildSkeleton(b0: seq<Bone>)
    requires |b0| == NUM_BONES && forall i :: 0 <= i < NUM_BONES ==> b0[i].parent == None
    ensures var b5 := LinkPairs(LinkPairs(LinkPairs(LinkPairs(LinkPairs(b0,
        SPINE, 10), LEFT_ARM, 4), RIGHT_ARM, 4), LEFT_LEG, 4), RIGHT_LEG, 4);
      forall i :: 0 <= i < NUM_BONES ==> b5[i] == b0[i].(parent := SkeletonParent(i))
  {
    ChainShapes();
    var b1 := LinkPairs(b0, SPINE, 10);
    LinkRun(b0, SPINE, 0, 1, 10);
    var b2 := LinkPairs(b1, LEFT_ARM, 4);
    LinkRun(b1, LEFT_ARM, 6, 11, 4);
    var b3 := LinkPairs(b2, RIGHT_ARM, 4);
    LinkRun(b2, RIGHT_ARM, 6, 15, 4);
    var b4 := LinkPairs(b3, LEFT_LEG, 4);
    LinkRun(b3, LEFT_LEG, 0, 19, 4);
    var b5 := LinkPairs(b4, RIGHT_LEG, 4);
    LinkRun(b4, RIGHT_LEG, 0, 23, 4);
    forall i | 0 <= i < NUM_BONES
      ensures b5[i] == b0[i].(parent := SkeletonParent(i))
    {
      assert b5[i] == RunLinked(b4, 0, 23, 4, i);
      assert b4[i] == RunLinked(b3, 0, 19, 4, i);
      assert b3[i] == RunLinked(b2, 6, 15, 4, i);
      assert b2[i] == RunLinked(b1, 6, 11, 4, i);
      assert b1[i] == RunLinked(b0, 0, 1, 10, i);
    }
  }

  /** The rebuilt bones of `constructSkeleton`. */
  class BoneReader {
    var bones: array<Bone>

    ghost predicate Valid()
      reads this
    {
      bones.Length == NUM_BONES
    }

    /** `getChunkName()`. */
    function ChunkName(): (name: seq<byte>)
      ensures |name| == 4 && name == BTDT_NAME
    {
      BTDT_NAME
    }

    /** `getDataLength()`: the packed size of exactly one record. */
    function DataLength(): (n: nat)
      ensures n > 0
      ensures forall d :: WellSized(d) ==> |Encode(d)| == n
    {
      BTDT_SIZE
    }

    /**
     * `BoneReader()` calling `constructSkeleton()`: 27 default nodes, every parent
     * cleared, then the five chains linked.
     */
    constructor ()
      ensures Valid() && fresh(bones)
      ensures forall i :: 0 <= i < NUM_BONES ==> bones[i] == DEFAULT_BONE.(parent := SkeletonParent(i))
    {
      bones := new Bone[NUM_BONES](_ => DEFAULT_BONE);
      new;
      ClearParents();
      ghost var b0 := bones[..];
      LinkChain(SPINE);
      LinkChain(LEFT_ARM);
      LinkChain(RIGHT_ARM);
      LinkChain(LEFT_LEG);
      LinkChain(RIGHT_LEG);
      ChainsBuildSkeleton(b0);
    }

    /** The loop of `b.clearParent()` over every bone. */
    method ClearParents()
      requires Valid()
      modifies bones
      ensures forall i :: 0 <= i < NUM_BONES ==> bones[i] == old(bones[i]).(parent := None)
    {
      for i := 0 to bones.Length
        invariant forall k :: 0 <= k < i ==> bones[k] == old(bones[k]).(parent := None)
        invariant forall k :: i <= k < bones.Length ==> bones[k] == old(bones[k])
      {
        bones[i] := bones[i].(parent := None);
      }
    }

    /** `do_array(indices)`: each bone in the list is hung off the one before it. */
    method LinkChain(chain: seq<nat>)
      requires Valid()
      requires |chain| >= 1 && forall i :: 0 <= i < |chain| ==> chain[i] < NUM_BONES
      modifies bones
      ensures bones[..] == LinkPairs(old(bones[..]), chain, |chain| - 1)
    {
      for i := 0 to |chain| - 1
        invariant bones[..] == LinkPairs(old(bones[..]), chain, i)
      {
        bones[chain[i + 1]] := bones[chain[i + 1]].(parent := Some(chain[i]));
      }
    }

    /** `read(const BtdtData&)`: bone `bnid` takes the record's pose; the source requires the id to be a bone. */
    method Read(d: BtdtData)
      requires Valid() && WellSized(d) && d.bnid < NUM_BONES
      modifies bones
      ensures bones[..] == old(bones[..])[d.bnid := Posed(old(bones[d.bnid]), d)]
    {
      var bone := bones[d.bnid];
      bones[d.bnid] := Posed(bone, d);
    }

    /** The read at a hit, with the missing bounds and id checks in place. */
    method ReadHit(buf: seq<byte>, pos: nat)
      requires Valid()
      modifies bones
      ensures bones[..] == ApplyHit(old(bones[..]), buf, pos)
    {
      var r := Decode(buf, pos);
      if r.Some? && r.value.bnid < NUM_BONES {
        Read(r.value);
      }
    }

    /** The hits of one datagram, read in order. */
    method ReadHits(buf: seq<byte>, hits: seq<nat>)
      requires Valid()
      modifies bones
      ensures bones[..] == ApplyAll(old(bones[..]), buf, hits)
    {
      for i := 0 to |hits|
        invariant bones[..] == ApplyAll(old(bones[..]), buf, hits[..i])
      {
        ReadHit(buf, hits[i]);
        assert hits[..i + 1][..i] == hits[..i];
      }
      assert hits[..|hits|] == hits;
    }
  }
}
