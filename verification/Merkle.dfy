/** Inclusion trees of section 2.1 of RFC 9162 over an arbitrary 32-byte hash. */
module Merkle {
  import opened Words

  /** The two domain-separated hash uses, over any type of digests. */
  datatype Hasher<!D> = Hasher(leaf: Bytes -> D, node: (D, D) -> D)

  /** The Merkle tree hash of `size` records at `start`, by the largest-power-of-two split. */
  function Root<D>(h: Hasher<D>, records: seq<Bytes>, start: nat, size: nat): D
    requires size > 0 && start + size <= |records|
    decreases size
  {
    if size == 1 then h.leaf(records[start])
    else
      var k := Split(size);
      h.node(Root(h, records, start, k), Root(h, records, start + k, size - k))
  }

  /** The siblings of the leaf at `index` within such a range, from leaf to root. */
  function Path<D>(h: Hasher<D>, records: seq<Bytes>, start: nat, size: nat, index: nat): seq<D>
    requires start <= index < start + size <= |records|
    decreases size
  {
    if size == 1 then []
    else
      var k := Split(size);
      if index < start + k then Path(h, records, start, k, index) + [Root(h, records, start + k, size - k)]
      else Path(h, records, start + k, size - k, index) + [Root(h, records, start, k)]
  }

  // ----- What a position alone determines

  datatype Side = OnLeft | OnRight

  /** The sibling a node meets on its own level: none for a right-edge node without one, which is promoted. */
  function Level(index: nat, size: nat): seq<Side> {
    if index % 2 == 1 then [OnLeft] else if index == size - 1 then [] else [OnRight]
  }

  /** On which side each sibling stands, level by level from leaf to root. */
  function Sides(index: nat, size: nat): seq<Side>
    requires index < size
    decreases size
  {
    if size == 1 then [] else Level(index, size) + Sides(index / 2, (size + 1) / 2)
  }

  function Step<D>(h: Hasher<D>, side: Side, sibling: D, value: D): D {
    match side
    case OnLeft => h.node(sibling, value)
    case OnRight => h.node(value, sibling)
  }

  /** The root recomputed from a leaf value and siblings on the given sides. */
  function Climb<D>(h: Hasher<D>, sides: seq<Side>, path: seq<D>, value: D): D
    requires |sides| == |path|
  {
    if sides == [] then value
    else Climb(h, sides[1..], path[1..], Step(h, sides[0], path[0], value))
  }

  /** Acceptance of a proof that starts from a leaf value: the declarative form of the iterative check. */
  predicate Accepts<D(==)>(h: Hasher<D>, index: nat, size: nat, path: seq<D>, value: D, root: D)
    requires index < size
  {
    |path| == |Sides(index, size)| && Climb(h, Sides(index, size), path, value) == root
  }

  lemma {:induction false} SidesNonempty(index: nat, size: nat)
    requires index < size && size >= 2
    ensures Sides(index, size) != []
    decreases size
  {
    if Level(index, size) == [] {
      SidesNonempty(index / 2, (size + 1) / 2);
    }
  }

  lemma SidesUp(fn: nat, sn: nat)
    requires fn <= sn && sn > 0
    ensures Sides(fn, sn + 1) == Level(fn, sn + 1) + Sides(fn / 2, sn / 2 + 1)
  {
    assert (sn + 2) / 2 == sn / 2 + 1;
  }

  /** Consuming one sibling: the position `(fn0, sn0)` may have been promoted to `(fn, sn)` before it met its sibling. */
  lemma Consume<D>(h: Hasher<D>, fn0: nat, sn0: nat, fn: nat, sn: nat, side: Side, path: seq<D>, value: D, root: D)
    requires fn0 <= sn0 && fn <= sn && sn > 0 && path != []
    requires Sides(fn0, sn0 + 1) == Sides(fn, sn + 1) && Level(fn, sn + 1) == [side]
    ensures Accepts(h, fn0, sn0 + 1, path, value, root)
       <==> Accepts(h, fn / 2, sn / 2 + 1, path[1..], Step(h, side, path[0], value), root)
  {
    SidesUp(fn, sn);
    assert Sides(fn0, sn0 + 1)[1..] == Sides(fn / 2, sn / 2 + 1);
  }

  lemma ConsumeNone<D>(h: Hasher<D>, fn: nat, sn: nat, value: D, root: D)
    requires fn <= sn
    ensures Accepts(h, fn, sn + 1, [], value, root) <==> sn == 0 && value == root
  {
    if sn > 0 {
      SidesNonempty(fn, sn + 1);
    }
  }

  /** One turn of the loop: climb past every promotion, meet one sibling, move up. */
  method Turn<D>(h: Hasher<D>, fn0: nat, sn0: nat, value0: D, sibling: D, ghost path: seq<D>, ghost root: D)
    returns (fn: nat, sn: nat, value: D)
    requires fn0 <= sn0 && sn0 > 0 && path != [] && path[0] == sibling
    ensures fn <= sn
    ensures Accepts(h, fn0, sn0 + 1, path, value0, root) <==> Accepts(h, fn, sn + 1, path[1..], value, root)
  {
    fn, sn := fn0, sn0;
    if fn % 2 == 1 || fn == sn {
      value := h.node(sibling, value0);
      while fn != 0 && fn % 2 == 0
        invariant 0 < fn <= sn && (fn % 2 == 0 ==> fn == sn)
        invariant Sides(fn, sn + 1) == Sides(fn0, sn0 + 1)
      {
        SidesUp(fn, sn);
        fn, sn := fn / 2, sn / 2;
      }
      Consume(h, fn0, sn0, fn, sn, OnLeft, path, value0, root);
    } else {
      value := h.node(value0, sibling);
      Consume(h, fn0, sn0, fn, sn, OnRight, path, value0, root);
    }
    fn, sn := fn / 2, sn / 2;
  }

  /** The iterative inclusion check of section 2.1.3.2 of RFC 9162. */
  method Included<D(==)>(h: Hasher<D>, record: Bytes, index: nat, size: nat, path: seq<D>, root: D)
    returns (ok: bool)
    requires index < size
    ensures ok <==> Accepts(h, index, size, path, h.leaf(record), root)
  {
    var fn: nat, sn: nat := index, size - 1;
    var value := h.leaf(record);
    assert path[0..] == path;
    for i := 0 to |path|
      invariant fn <= sn
      invariant Accepts(h, index, size, path, h.leaf(record), root)
           <==> Accepts(h, fn, sn + 1, path[i..], value, root)
    {
      if sn == 0 {
        return false;
      }
      fn, sn, value := Turn(h, fn, sn, value, path[i], path[i..], root);
      assert path[i..][1..] == path[i + 1..];
    }
    ConsumeNone(h, fn, sn, value, root);
    return sn == 0 && value == root;
  }

  // ----- The level-by-level reading agrees with the largest-power-of-two split

  lemma LevelShift(index: nat, size: nat, k: nat, index': nat, size': nat)
    requires 2 * k <= index < size && index' == index - 2 * k && size' == size - 2 * k
    ensures Level(index', size') == Level(index, size)
    ensures index' / 2 == index / 2 - k && (size' + 1) / 2 == (size + 1) / 2 - k
  {
  }

  /** The same sides by the split: the topmost sibling is the other part, the rest belong to the own part. */
  function SplitSides(index: nat, size: nat): seq<Side>
    requires index < size
    decreases size
  {
    if size == 1 then []
    else
      var k := Split(size);
      if index < k then SplitSides(index, k) + [OnRight] else SplitSides(index - k, size - k) + [OnLeft]
  }

  lemma LevelPrefix(index: nat, size: nat, k: nat)
    requires size > 2 && k == Split(size) && index < k
    ensures Level(index, k) == Level(index, size) && (k + 1) / 2 == Split((size + 1) / 2)
  {
  }

  lemma {:induction false} SidesSplit(index: nat, size: nat, k: nat)
    requires index < size && size >= 2 && k == Split(size)
    ensures index < k ==> Sides(index, size) == Sides(index, k) + [OnRight]
    ensures index >= k ==> Sides(index, size) == Sides(index - k, size - k) + [OnLeft]
    decreases size
  {
    if size > 2 {
      var half, i := (size + 1) / 2, index / 2;
      var k' := Split(half);
      var level := Level(index, size);
      SidesSplit(i, half, k');
      if index < k {
        var rest := Sides(i, k');
        assert level + (rest + [OnRight]) == (level + rest) + [OnRight];
        LevelPrefix(index, size, k);
        hide Level;
        assert Sides(index, k) == level + rest;
      } else {
        var index', size' := index - k, size - k;
        LevelShift(index, size, k', index', size');
        hide Level;
        var rest := Sides(i - k', half - k');
        assert level + (rest + [OnLeft]) == (level + rest) + [OnLeft];
        assert Sides(index', size') == level + rest;
      }
    }
  }

  /** Pairing nodes level by level builds exactly the tree of largest-power-of-two splits. */
  lemma {:induction false} LevelsFollowSplits(index: nat, size: nat)
    requires index < size
    ensures Sides(index, size) == SplitSides(index, size)
    decreases size
  {
    if size > 1 {
      var k := Split(size);
      SidesSplit(index, size, k);
      if index < k {
        LevelsFollowSplits(index, k);
      } else {
        LevelsFollowSplits(index - k, size - k);
      }
    }
  }

  // ----- Completeness

  lemma {:induction false} ClimbAppend<D>(h: Hasher<D>, sides: seq<Side>, path: seq<D>, value: D, side: Side, top: D)
    requires |sides| == |path|
    ensures Climb(h, sides + [side], path + [top], value) == Step(h, side, top, Climb(h, sides, path, value))
  {
    if sides != [] {
      ClimbAppend(h, sides[1..], path[1..], Step(h, sides[0], path[0], value), side, top);
      assert (sides + [side])[1..] == sides[1..] + [side];
      assert (path + [top])[1..] == path[1..] + [top];
    } else {
      assert Climb(h, [side], [top], value) == Climb(h, [], [], Step(h, side, top, value)) by {
        assert [side][1..] == [] && [top][1..] == [];
      }
      assert sides + [side] == [side] && path + [top] == [top];
    }
  }

  /** Every path of the recursive tree climbs to its root along the split. */
  lemma PathGoesLeft<D>(h: Hasher<D>, records: seq<Bytes>, start: nat, size: nat, k: nat, index: nat)
    requires size > 1 && k == Split(size) && start <= index < start + k && start + size <= |records|
    ensures Path(h, records, start, size, index) == Path(h, records, start, k, index) + [Root(h, records, start + k, size - k)]
    ensures SplitSides(index - start, size) == SplitSides(index - start, k) + [OnRight]
  {
    hide Split, Root;
  }

  lemma PathGoesRight<D>(h: Hasher<D>, records: seq<Bytes>, start: nat, size: nat, k: nat, index: nat)
    requires size > 1 && k == Split(size) && start + k <= index < start + size <= |records|
    ensures Path(h, records, start, size, index) == Path(h, records, start + k, size - k, index) + [Root(h, records, start, k)]
    ensures SplitSides(index - start, size) == SplitSides(index - (start + k), size - k) + [OnLeft]
  {
    hide Split, Root;
  }

  lemma RootSplits<D>(h: Hasher<D>, records: seq<Bytes>, start: nat, size: nat, k: nat)
    requires size > 1 && k == Split(size) && start + size <= |records|
    ensures Root(h, records, start, size) == h.node(Root(h, records, start, k), Root(h, records, start + k, size - k))
  {
    hide Split;
  }

  lemma OnlyLeafClimbs<D>(h: Hasher<D>, records: seq<Bytes>, index: nat)
    requires index < |records|
    ensures SplitSides(0, 1) == [] && Path(h, records, index, 1, index) == []
    ensures Climb(h, [], [], h.leaf(records[index])) == Root(h, records, index, 1)
  {
  }

  lemma {:induction false} PathClimbs<D>(h: Hasher<D>, records: seq<Bytes>, start: nat, size: nat, index: nat)
    requires start <= index < start + size <= |records|
    ensures |SplitSides(index - start, size)| == |Path(h, records, start, size, index)|
    ensures Climb(h, SplitSides(index - start, size), Path(h, records, start, size, index), h.leaf(records[index]))
         == Root(h, records, start, size)
    decreases size
  {
    hide Climb, Split, SplitSides, Path, Root;
    if size == 1 {
      OnlyLeafClimbs(h, records, index);
    } else {
      var k, leaf := Split(size), h.leaf(records[index]);
      RootSplits(h, records, start, size, k);
      if index < start + k {
        PathClimbs(h, records, start, k, index);
        PathGoesLeft(h, records, start, size, k, index);
        ClimbAppend(h, SplitSides(index - start, k), Path(h, records, start, k, index), leaf,
                    OnRight, Root(h, records, start + k, size - k));
      } else {
        PathClimbs(h, records, start + k, size - k, index);
        PathGoesRight(h, records, start, size, k, index);
        ClimbAppend(h, SplitSides(index - (start + k), size - k), Path(h, records, start + k, size - k, index), leaf,
                    OnLeft, Root(h, records, start, k));
      }
    }
  }

  /** Every proof of the recursive tree is accepted by the iterative check, at every position of every size. */
  lemma Completeness<D>(h: Hasher<D>, records: seq<Bytes>, index: nat)
    requires index < |records|
    ensures Accepts(h, index, |records|, Path(h, records, 0, |records|, index),
                    h.leaf(records[index]), Root(h, records, 0, |records|))
  {
    PathClimbs(h, records, 0, |records|, index);
    LevelsFollowSplits(index, |records|);
  }

  /** No proof is longer than the bit length of the last index, and the first leaf's proof has exactly that length. */
  lemma {:induction false} ProofLength(index: nat, size: nat)
    requires index < size
    ensures |Sides(index, size)| <= BitLength(size - 1)
    ensures |Sides(0, size)| == BitLength(size - 1)
    decreases size
  {
    if size > 1 {
      assert (size + 1) / 2 - 1 == (size - 1) / 2;
      ProofLength(index / 2, (size + 1) / 2);
    }
  }

  const MAX_PROOF_NODES: nat := 12

  /** The proof-node limit is exactly what the batch limit needs. */
  lemma ProofNodeLimit(size: nat)
    requires size >= 1
    ensures size <= MAX_BATCH <==> (forall index: nat | index < size :: |Sides(index, size)| <= MAX_PROOF_NODES)
  {
    assert Pow2(12) == 4096 by {
      assert Pow2(4) == 16;
      assert Pow2(8) == 256;
    }
    BitLengthBounds(size - 1, 12);
    ProofLength(0, size);
    forall index: nat | index < size
      ensures |Sides(index, size)| <= BitLength(size - 1)
    {
      ProofLength(index, size);
    }
  }

  // ----- Binding

  /** Two different inputs of one hash use with the same result. */
  datatype Meeting<D> = Leaves(a: Bytes, b: Bytes) | Nodes(a1: D, a2: D, b1: D, b2: D)

  predicate Collides<D(==)>(h: Hasher<D>, m: Meeting<D>) {
    match m
    case Leaves(a, b) => a != b && h.leaf(a) == h.leaf(b)
    case Nodes(a1, a2, b1, b2) => (a1, a2) != (b1, b2) && h.node(a1, a2) == h.node(b1, b2)
  }

  function MeetAt<D>(side: Side, p: D, v: D, q: D, w: D): Meeting<D> {
    match side
    case OnLeft => Nodes(p, v, q, w)
    case OnRight => Nodes(v, p, w, q)
  }

  /** Where two different climbs first meet; equal climbs meet nowhere. */
  function ClimbMeeting<D(==)>(h: Hasher<D>, sides: seq<Side>, p: seq<D>, v: D, q: seq<D>, w: D): Meeting<D>
    requires |sides| == |p| == |q|
  {
    if sides == [] then Leaves([], [])
    else
      var v', w' := Step(h, sides[0], p[0], v), Step(h, sides[0], q[0], w);
      if (v, p[0]) != (w, q[0]) && v' == w' then MeetAt(sides[0], p[0], v, q[0], w)
      else ClimbMeeting(h, sides[1..], p[1..], v', q[1..], w')
  }

  lemma {:induction false} ClimbBinding<D>(h: Hasher<D>, sides: seq<Side>, p: seq<D>, v: D, q: seq<D>, w: D)
    requires |sides| == |p| == |q|
    requires Climb(h, sides, p, v) == Climb(h, sides, q, w)
    ensures (p == q && v == w) || Collides(h, ClimbMeeting(h, sides, p, v, q, w))
  {
    if sides != [] {
      var v', w' := Step(h, sides[0], p[0], v), Step(h, sides[0], q[0], w);
      if (v, p[0]) == (w, q[0]) || v' != w' {
        ClimbBinding(h, sides[1..], p[1..], v', q[1..], w');
        assert p == [p[0]] + p[1..] && q == [q[0]] + q[1..];
      }
    }
  }

  /** The hash collision hidden in two different proofs accepted at one position. */
  function ProofMeeting<D(==)>(h: Hasher<D>, index: nat, size: nat,
                              record: Bytes, path: seq<D>, record': Bytes, path': seq<D>): Meeting<D>
    requires index < size && |path| == |path'| == |Sides(index, size)|
  {
    if record != record' && h.leaf(record) == h.leaf(record') then Leaves(record, record')
    else ClimbMeeting(h, Sides(index, size), path, h.leaf(record), path', h.leaf(record'))
  }

  /** Position binding, for any root at all: two proofs accepted at the same index of the same size are the same
      record and the same path, or they contain the collision that `ProofMeeting` computes from them. */
  lemma Binding<D>(h: Hasher<D>, index: nat, size: nat, root: D,
                   record: Bytes, path: seq<D>, record': Bytes, path': seq<D>)
    requires index < size
    requires Accepts(h, index, size, path, h.leaf(record), root)
    requires Accepts(h, index, size, path', h.leaf(record'), root)
    ensures (record == record' && path == path')
         || Collides(h, ProofMeeting(h, index, size, record, path, record', path'))
  {
    ClimbBinding(h, Sides(index, size), path, h.leaf(record), path', h.leaf(record'));
  }

  /** Against the root of a record list, the only acceptable proof is the tree's own record and path. */
  lemma TreeBinding<D>(h: Hasher<D>, records: seq<Bytes>, index: nat, record: Bytes, path: seq<D>)
    requires index < |records|
    requires Accepts(h, index, |records|, path, h.leaf(record), Root(h, records, 0, |records|))
    ensures |Path(h, records, 0, |records|, index)| == |Sides(index, |records|)|
    ensures (record == records[index] && path == Path(h, records, 0, |records|, index))
         || Collides(h, ProofMeeting(h, index, |records|, record, path,
                                     records[index], Path(h, records, 0, |records|, index)))
  {
    Completeness(h, records, index);
    Binding(h, index, |records|, Root(h, records, 0, |records|), record, path,
            records[index], Path(h, records, 0, |records|, index));
  }

  // ----- The recursive builder, appending to all proofs in place

  /** The root of a range is built: every proof in the range has grown by the path of its record, no other has changed. */
  ghost predicate Built<D>(h: Hasher<D>, records: seq<Bytes>, start: nat, size: nat,
                           before: seq<seq<D>>, after: seq<seq<D>>, root: D)
  {
    && 0 < size && start + size <= |records| == |before| == |after|
    && root == Root(h, records, start, size)
    && before[..start] == after[..start] && before[start + size..] == after[start + size..]
    && forall i | start <= i < start + size :: after[i] == before[i] + Path(h, records, start, size, i)
  }

  ghost predicate Appended<D>(from: nat, to: nat, before: seq<seq<D>>, after: seq<seq<D>>, sibling: D) {
    && from <= to <= |before| == |after|
    && before[..from] == after[..from] && before[to..] == after[to..]
    && forall i | from <= i < to :: after[i] == before[i] + [sibling]
  }

  lemma BuiltOne<D>(h: Hasher<D>, records: seq<Bytes>, start: nat, paths: seq<seq<D>>)
    requires start < |records| == |paths|
    ensures Built(h, records, start, 1, paths, paths, h.leaf(records[start]))
  {
  }

  lemma BuiltBoth<D>(h: Hasher<D>, records: seq<Bytes>, start: nat, size: nat, k: nat, left: D, right: D,
                     p0: seq<seq<D>>, p1: seq<seq<D>>, p2: seq<seq<D>>, p3: seq<seq<D>>, p4: seq<seq<D>>)
    requires size >= 2 && k == Split(size)
    requires Built(h, records, start, k, p0, p1, left) && Built(h, records, start + k, size - k, p1, p2, right)
    requires Appended(start, start + k, p2, p3, right) && Appended(start + k, start + size, p3, p4, left)
    ensures Built(h, records, start, size, p0, p4, h.node(left, right))
  {
    RootSplits(h, records, start, size, k);
    hide Split, Root, Path;
    forall i | 0 <= i < |p0|
      ensures i < start || i >= start + size ==> p4[i] == p0[i]
      ensures start <= i < start + size ==> p4[i] == p0[i] + Path(h, records, start, size, i)
    {
      Pointwise(start, k, size, i, p0, p1, p2, p3, p4);
      if start <= i < start + k {
        PathGoesLeft(h, records, start, size, k, i);
      } else if start + k <= i < start + size {
        PathGoesRight(h, records, start, size, k, i);
      }
    }
  }

  /** Pointwise reading of the slices that stay equal while two adjacent ranges change in turn. */
  lemma Pointwise<D>(start: nat, k: nat, size: nat, i: nat,
                  p0: seq<D>, p1: seq<D>, p2: seq<D>, p3: seq<D>, p4: seq<D>)
    requires k <= size && start + size <= |p0| == |p1| == |p2| == |p3| == |p4| && i < |p0|
    requires p0[..start] == p1[..start] && p0[start + k..] == p1[start + k..]
    requires p1[..start + k] == p2[..start + k] && p1[start + size..] == p2[start + size..]
    requires p3[..start] == p2[..start] && p3[start + k..] == p2[start + k..]
    requires p4[..start + k] == p3[..start + k] && p4[start + size..] == p3[start + size..]
    ensures i < start || i >= start + size ==> p4[i] == p0[i]
    ensures start <= i < start + k ==> p1[i] == p2[i] && p4[i] == p3[i]
    ensures start + k <= i < start + size ==> p1[i] == p0[i] && p3[i] == p2[i]
  {
    if i < start {
      assert p0[..start][i] == p1[..start][i] && p2[..start][i] == p3[..start][i];
    }
    if i < start + k {
      assert p1[..start + k][i] == p2[..start + k][i] && p3[..start + k][i] == p4[..start + k][i];
    } else {
      var j := i - (start + k);
      assert p0[start + k..][j] == p1[start + k..][j] && p2[start + k..][j] == p3[start + k..][j];
      if i >= start + size {
        var m := i - (start + size);
        assert p1[start + size..][m] == p2[start + size..][m] && p3[start + size..][m] == p4[start + size..][m];
      }
    }
  }

  /** Append one sibling to every proof in a range. */
  method AppendSibling<D>(paths: array<seq<D>>, from: nat, to: nat, sibling: D)
    requires from <= to <= paths.Length
    modifies paths
    ensures Appended(from, to, old(paths[..]), paths[..], sibling)
  {
    for index := from to to
      invariant paths[..from] == old(paths[..from]) && paths[index..] == old(paths[index..])
      invariant forall i | from <= i < index :: paths[i] == old(paths[i]) + [sibling]
    {
      paths[index] := paths[index] + [sibling];
    }
  }

  /** Hash the subtree of `size` records at `start`, appending its siblings to the proofs of those records. */
  method Build<D>(h: Hasher<D>, records: seq<Bytes>, paths: array<seq<D>>, start: nat, size: nat) returns (root: D)
    requires paths.Length == |records|
    requires size >= 1 && start + size <= |records|
    modifies paths
    ensures Built(h, records, start, size, old(paths[..]), paths[..], root)
    decreases size
  {
    hide Built, Appended, Root, Path;
    if size == 1 {
      BuiltOne(h, records, start, paths[..]);
      return h.leaf(records[start]);
    }
    var split := Split(size);
    ghost var p0 := paths[..];
    var left := Build(h, records, paths, start, split);
    ghost var p1 := paths[..];
    var right := Build(h, records, paths, start + split, size - split);
    ghost var p2 := paths[..];
    AppendSibling(paths, start, start + split, right);
    ghost var p3 := paths[..];
    AppendSibling(paths, start + split, start + size, left);
    BuiltBoth(h, records, start, size, split, left, right, p0, p1, p2, p3, paths[..]);
    return h.node(left, right);
  }

  /** One pass over the records yields the root and every inclusion path. */
  method Tree<D(==)>(h: Hasher<D>, records: seq<Bytes>) returns (root: D, paths: seq<seq<D>>)
    requires records != []
    ensures root == Root(h, records, 0, |records|)
    ensures |paths| == |records|
    ensures forall i | 0 <= i < |records| :: paths[i] == Path(h, records, 0, |records|, i)
  {
    var proofs := new seq<D>[|records|](_ => []);
    root := Build(h, records, proofs, 0, |records|);
    paths := proofs[..];
  }

  // ----- The one-pass stack construction of section 2.1.2 of RFC 9162

  /** The number of records in `v` chunks of 2^e: doubling, so that no product of unknowns appears. */
  function Scale(v: nat, e: nat): nat
    decreases e
  {
    if e == 0 then v else Scale(2 * v, e - 1)
  }

  lemma {:induction false} ScaleNext(v: nat, e: nat)
    ensures Scale(v + 1, e) == Scale(v, e) + Pow2(e)
    decreases e
  {
    if e > 0 {
      ScaleNext(2 * v, e - 1);
      ScaleNext(2 * v + 1, e - 1);
    }
  }

  lemma {:induction false} ScaleZero(e: nat)
    ensures Scale(0, e) == 0
    decreases e
  {
    if e > 0 {
      ScaleZero(e - 1);
    }
  }

  /** The subtree over one chunk. */
  function Chunk<D>(h: Hasher<D>, records: seq<Bytes>, v: nat, e: nat): D
    requires Scale(v, e) + Pow2(e) <= |records|
  {
    Root(h, records, Scale(v, e), Pow2(e))
  }

  /** The stack after `v` chunks of 2^e records: one perfect subtree for each set bit of `v`. */
  function Peaks<D>(h: Hasher<D>, records: seq<Bytes>, v: nat, e: nat): seq<D>
    requires Scale(v, e) <= |records|
    decreases v
  {
    if v == 0 then []
    else if v % 2 == 0 then Peaks(h, records, v / 2, e + 1)
    else
      ScaleNext(v - 1, e);
      Peaks(h, records, v / 2, e + 1) + [Chunk(h, records, v - 1, e)]
  }

  /** Fold a stack from its top, as the final loop does. */
  function FoldStack<D>(h: Hasher<D>, stack: seq<D>): D
    requires stack != []
    decreases |stack|
  {
    var n := |stack|;
    if n == 1 then stack[0]
    else FoldStack(h, stack[..n - 2] + [h.node(stack[n - 2], stack[n - 1])])
  }

  lemma FoldTop<D>(h: Hasher<D>, stack: seq<D>, left: D, right: D)
    ensures FoldStack(h, (stack + [left]) + [right]) == FoldStack(h, stack + [h.node(left, right)])
  {
    var whole := stack + [left] + [right];
    assert whole[..|whole| - 2] == stack;
  }

  lemma PeaksOdd<D>(h: Hasher<D>, records: seq<Bytes>, v: nat, e: nat)
    requires v % 2 == 1 && Scale(v - 1, e) + Pow2(e) == Scale(v, e) <= |records| && Scale(v / 2, e + 1) == Scale(v - 1, e)
    ensures Peaks(h, records, v, e) == Peaks(h, records, v / 2, e + 1) + [Chunk(h, records, v - 1, e)]
  {
    hide Scale, Root, Chunk, Pow2;
  }

  lemma EdgeRoot<D>(h: Hasher<D>, records: seq<Bytes>, start: nat, e: nat, edge: nat)
    requires 0 < edge <= Pow2(e) && start + Pow2(e) + edge <= |records|
    ensures Root(h, records, start, Pow2(e) + edge)
         == h.node(Root(h, records, start, Pow2(e)), Root(h, records, start + Pow2(e), edge))
  {
    SplitAt(e, edge);
  }

  lemma MergeEdge<D>(h: Hasher<D>, records: seq<Bytes>, v: nat, e: nat, start: nat, edge: nat)
    requires v % 2 == 1 && start == Scale(v - 1, e) && 0 < edge <= Pow2(e) && start + Pow2(e) + edge <= |records|
    ensures start == Scale(v / 2, e + 1) && start + Pow2(e) == Scale(v, e)
    ensures FoldStack(h, Peaks(h, records, v, e) + [Root(h, records, start + Pow2(e), edge)])
         == FoldStack(h, Peaks(h, records, v / 2, e + 1) + [Root(h, records, start, Pow2(e) + edge)])
  {
    CarryNumbers(v, e);
    PeaksOdd(h, records, v, e);
    EdgeRoot(h, records, start, e, edge);
    hide Root, Peaks, Scale, Pow2, FoldStack;
    FoldTop(h, Peaks(h, records, v / 2, e + 1), Chunk(h, records, v - 1, e), Root(h, records, start + Pow2(e), edge));
  }

  /** Folding the peaks below a right edge of at most one chunk gives the tree over both. */
  lemma {:induction false} FoldWithEdge<D>(h: Hasher<D>, records: seq<Bytes>, v: nat, e: nat, end: nat, edge: nat, total: nat)
    requires end == Scale(v, e) && 0 < edge <= Pow2(e) && total == end + edge <= |records|
    ensures FoldStack(h, Peaks(h, records, v, e) + [Root(h, records, end, edge)]) == Root(h, records, 0, total)
    decreases v
  {
    hide Root;
    if v == 0 {
      ScaleZero(e);
      assert Peaks(h, records, v, e) + [Root(h, records, end, edge)] == [Root(h, records, end, edge)];
    } else if v % 2 == 0 {
      FoldWithEdge(h, records, v / 2, e + 1, end, edge, total);
    } else {
      ScaleNext(v - 1, e);
      MergeEdge(h, records, v, e, end - Pow2(e), edge);
      FoldWithEdge(h, records, v / 2, e + 1, end - Pow2(e), Pow2(e) + edge, total);
    }
  }

  /** Folding the peaks of whole chunks gives the recursive root. */
  lemma {:induction false} FoldPeaks<D>(h: Hasher<D>, records: seq<Bytes>, v: nat, e: nat, end: nat)
    requires 0 < v && end == Scale(v, e) <= |records|
    ensures 0 < end && Peaks(h, records, v, e) != []
    ensures FoldStack(h, Peaks(h, records, v, e)) == Root(h, records, 0, end)
    decreases v
  {
    if v % 2 == 0 {
      FoldPeaks(h, records, v / 2, e + 1, end);
    } else {
      ScaleNext(v - 1, e);
      FoldWithEdge(h, records, v / 2, e + 1, end - Pow2(e), Pow2(e), end);
    }
  }

  /** Merging two equal chunks carries one bit: the stack below stays, the chunk doubles. */
  lemma Carry<D>(h: Hasher<D>, records: seq<Bytes>, v: nat, e: nat)
    requires v % 2 == 1 && Scale(v + 1, e) <= |records|
    ensures Scale(v, e) <= Scale(v, e) + Pow2(e) == Scale(v + 1, e) == Scale(v / 2 + 1, e + 1)
    ensures Scale(v / 2, e + 1) <= Scale(v / 2, e + 1) + Pow2(e + 1) == Scale(v / 2 + 1, e + 1)
    ensures Scale(v - 1, e) + Pow2(e) == Scale(v, e)
    ensures Peaks(h, records, v, e) == Peaks(h, records, v / 2, e + 1) + [Chunk(h, records, v - 1, e)]
    ensures h.node(Chunk(h, records, v - 1, e), Chunk(h, records, v, e)) == Chunk(h, records, v / 2, e + 1)
    ensures Peaks(h, records, v + 1, e) == Peaks(h, records, v / 2 + 1, e + 1)
  {
    CarryNumbers(v, e);
    CarryPeaks(h, records, v, e);
    CarryRoot(h, records, Scale(v - 1, e), e);
    hide Peaks, Scale, Root, Pow2;
  }

  lemma CarryNumbers(v: nat, e: nat)
    requires v % 2 == 1
    ensures Scale(v, e) + Pow2(e) == Scale(v + 1, e) == Scale(v / 2 + 1, e + 1)
    ensures Scale(v / 2, e + 1) + Pow2(e + 1) == Scale(v / 2 + 1, e + 1) && Scale(v / 2, e + 1) == Scale(v - 1, e)
    ensures Scale(v - 1, e) + Pow2(e) == Scale(v, e)
  {
    ScaleNext(v, e);
    ScaleNext(v - 1, e);
    ScaleNext(v / 2, e + 1);
    assert v + 1 == 2 * (v / 2 + 1);
  }

  lemma CarryPeaks<D>(h: Hasher<D>, records: seq<Bytes>, v: nat, e: nat)
    requires v % 2 == 1 && Scale(v - 1, e) + Pow2(e) == Scale(v, e)
    requires Scale(v, e) + Pow2(e) == Scale(v + 1, e) == Scale(v / 2 + 1, e + 1) <= |records|
    requires Scale(v / 2, e + 1) == Scale(v - 1, e)
    ensures Peaks(h, records, v, e) == Peaks(h, records, v / 2, e + 1) + [Chunk(h, records, v - 1, e)]
    ensures Peaks(h, records, v + 1, e) == Peaks(h, records, v / 2 + 1, e + 1)
  {
    hide Scale, Root, Chunk, Pow2;
    assert (v + 1) / 2 == v / 2 + 1 && (v + 1) % 2 == 0;
  }

  lemma CarryRoot<D>(h: Hasher<D>, records: seq<Bytes>, start: nat, e: nat)
    requires start + Pow2(e + 1) <= |records|
    ensures Pow2(e + 1) == 2 * Pow2(e)
    ensures h.node(Root(h, records, start, Pow2(e)), Root(h, records, start + Pow2(e), Pow2(e))) == Root(h, records, start, Pow2(e + 1))
  {
    SplitAt(e, Pow2(e));
  }

  /** With an even number of chunks below, one more chunk is one more peak. */
  lemma NoCarry<D>(h: Hasher<D>, records: seq<Bytes>, v: nat, e: nat)
    requires v % 2 == 0 && Scale(v + 1, e) <= |records|
    ensures Scale(v, e) + Pow2(e) == Scale(v + 1, e)
    ensures Peaks(h, records, v + 1, e) == Peaks(h, records, v, e) + [Chunk(h, records, v, e)]
  {
    ScaleNext(v, e);
    assert (v + 1) / 2 == v / 2;
    assert Peaks(h, records, v / 2, e + 1) == Peaks(h, records, v, e);
  }

  /** The stack within the merging loop: the peaks of whole chunks, and one more chunk on top. */
  ghost predicate Merging<D>(h: Hasher<D>, records: seq<Bytes>, count: nat, stack: seq<D>, v: nat, e: nat)
    requires count <= |records|
  {
    && Scale(v, e) + Pow2(e) == Scale(v + 1, e) == count
    && stack == Peaks(h, records, v, e) + [Chunk(h, records, v, e)]
    && Peaks(h, records, count, 0) == Peaks(h, records, v + 1, e)
  }

  lemma MergeStep<D>(h: Hasher<D>, records: seq<Bytes>, count: nat, stack: seq<D>, v: nat, e: nat)
    requires count <= |records| && v % 2 == 1 && Merging(h, records, count, stack, v, e)
    ensures |stack| >= 2
    ensures Merging(h, records, count, stack[..|stack| - 2] + [h.node(stack[|stack| - 2], stack[|stack| - 1])], v / 2, e + 1)
  {
    Carry(h, records, v, e);
    assert stack[..|stack| - 2] == Peaks(h, records, v / 2, e + 1);
  }

  /** Push one leaf and merge while the low bit of the index is set. */
  method Push<D>(h: Hasher<D>, records: seq<Bytes>, index: nat, before: seq<D>) returns (stack: seq<D>)
    requires index < |records| && before == Peaks(h, records, index, 0)
    ensures stack == Peaks(h, records, index + 1, 0)
  {
    stack := before + [h.leaf(records[index])];
    var value: nat := index;
    ghost var e: nat := 0;
    while value % 2 == 1
      invariant Merging(h, records, index + 1, stack, value, e)
      decreases value
    {
      MergeStep(h, records, index + 1, stack, value, e);
      var right, left := stack[|stack| - 1], stack[|stack| - 2];
      stack := stack[..|stack| - 2] + [h.node(left, right)];
      value, e := value / 2, e + 1;
    }
    NoCarry(h, records, value, e);
  }

  /** The stack construction computes the recursive root for every number of records. */
  method StackRoot<D>(h: Hasher<D>, records: seq<Bytes>) returns (root: D)
    requires records != []
    ensures root == Root(h, records, 0, |records|)
  {
    var stack: seq<D> := [];
    for index := 0 to |records|
      invariant stack == Peaks(h, records, index, 0)
    {
      stack := Push(h, records, index, stack);
    }
    FoldPeaks(h, records, |records|, 0, |records|);
    while |stack| > 1
      invariant stack != []
      invariant FoldStack(h, stack) == Root(h, records, 0, |records|)
      decreases |stack|
    {
      var right, left := stack[|stack| - 1], stack[|stack| - 2];
      stack := stack[..|stack| - 2] + [h.node(left, right)];
    }
    return stack[0];
  }
}
