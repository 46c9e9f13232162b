/**
 * Ordered traversal of a cluster: the forward scan (ceiling from 0, then
 * higher from the first element of each batch) and the backward scan (floor
 * from Long.MAX_VALUE, then lower from the last element of each batch).
 */
module Traversal {
  import opened Wrappers
  import opened Records
  import opened Directory

  /** The elements of s in reverse order. */
  function Reversed(s: seq<nat>): (r: seq<nat>) {
    if s == [] then [] else [s[|s| - 1]] + Reversed(s[..|s| - 1])
  }

  /** The element at index k of s sits at the mirrored index of the reversal, which is as long as s. */
  lemma {:induction false} ReversedMirror(s: seq<nat>, k: nat)
    requires k < |s|
    ensures |Reversed(s)| == |s|
    ensures Reversed(s)[|s| - 1 - k] == s[k]
    decreases |s|
  {
    var init := s[..|s| - 1];
    if k < |s| - 1 {
      ReversedMirror(init, k);
    } else if init != [] {
      ReversedMirror(init, 0);
    } else {
      assert Reversed(init) == [];
    }
  }

  /** Appending to a sequence puts the new element at the front of its reversal. */
  lemma ReversedSnoc(s: seq<nat>, x: nat)
    ensures Reversed(s + [x]) == [x] + Reversed(s)
  {
    assert (s + [x])[..|s|] == s;
  }

  /** Absent positions at the bottom of a range do not contribute to it. */
  lemma {:induction false} SkipAbsentBelow(dir: Dir, lo: nat, f: nat, hi: nat)
    requires lo <= f <= hi <= |dir|
    requires forall q | lo <= q < f :: !dir[q].Present?
    ensures PresentBetween(dir, lo, hi) == PresentBetween(dir, f, hi)
    decreases f - lo
  {
    if lo < f {
      SkipAbsentBelow(dir, lo + 1, f, hi);
    }
  }

  /** Absent positions at the top of a range do not contribute to it. */
  lemma {:induction false} SkipAbsentAbove(dir: Dir, lo: nat, m: nat, hi: nat)
    requires lo <= m <= hi <= |dir|
    requires forall q | m <= q < hi :: !IsPresent(dir, q)
    ensures PresentBetween(dir, lo, hi) == PresentBetween(dir, lo, m)
    decreases hi - m
  {
    if m < hi {
      assert !IsPresent(dir, hi - 1);
      PresentBetweenSnoc(dir, lo, hi);
      SkipAbsentAbove(dir, lo, m, hi - 1);
    }
  }

  /** A full scan visits exactly as many positions as getEntries counts. */
  lemma {:induction false} ScanLengthIsCount(dir: Dir, k: nat)
    requires k <= |dir|
    ensures |PresentBetween(dir, 0, k)| == CountPresent(dir[..k])
    decreases k
  {
    if k > 0 {
      PresentBetweenSnoc(dir, 0, k);
      ScanLengthIsCount(dir, k - 1);
      assert dir[..k][..k - 1] == dir[..k - 1];
    }
  }

  /** The ascending scan of all positions starts at the first and ends at the last position. */
  lemma ScanEnds(dir: Dir)
    ensures var s := PresentBetween(dir, 0, |dir|);
            && (s == [] <==> FirstPosition(dir).None?)
            && (s != [] ==> FirstPosition(dir) == Some(s[0]) && LastPosition(dir) == Some(s[|s| - 1]))
  {
    var s := PresentBetween(dir, 0, |dir|);
    PresentBetweenSpec(dir, 0, |dir|);
    if s != [] {
      assert s[0] in PresentSet(dir) && s[|s| - 1] in PresentSet(dir);
      forall q | q in PresentSet(dir) ensures s[0] <= q <= s[|s| - 1] {
        var k :| 0 <= k < |s| && s[k] == q;
      }
    }
  }

  /** What a forward scan still has to visit, given the batch in hand. */
  function Ahead(dir: Dir, batch: seq<nat>): (r: seq<nat>) {
    if batch == [] || batch[0] > |dir| then [] else PresentBetween(dir, batch[0], |dir|)
  }

  lemma ForwardStart(dir: Dir, bucket: nat)
    requires bucket > 0
    ensures Ahead(dir, Ceiling(dir, 0, bucket)) == PresentBetween(dir, 0, |dir|)
  {
    var batch := Ceiling(dir, 0, bucket);
    CeilingHead(dir, 0, bucket);
    if batch != [] {
      SkipAbsentBelow(dir, 0, batch[0], |dir|);
    } else {
      SkipAbsentBelow(dir, 0, |dir|, |dir|);
    }
  }

  /** One forward step: the head of the batch is visited next, and the higher batch is what follows it. */
  lemma ForwardStep(dir: Dir, batch: seq<nat>, bucket: nat)
    requires bucket > 0 && batch != [] && IsPresent(dir, batch[0])
    ensures Ahead(dir, batch) == [batch[0]] + Ahead(dir, Higher(dir, batch[0], bucket))
    ensures var h := Higher(dir, batch[0], bucket); h != [] ==> batch[0] < h[0] && IsPresent(dir, h[0])
  {
    var next := batch[0];
    var h := Higher(dir, next, bucket);
    CeilingHead(dir, next + 1, bucket);
    if h != [] {
      SkipAbsentBelow(dir, next + 1, h[0], |dir|);
    } else {
      SkipAbsentBelow(dir, next + 1, |dir|, |dir|);
    }
  }

  /** What a backward scan still has to visit, given the batch in hand, in ascending order. */
  function Behind(dir: Dir, batch: seq<nat>): (r: seq<nat>) {
    if batch == [] || batch[|batch| - 1] >= |dir| then []
    else PresentBetween(dir, 0, batch[|batch| - 1] + 1)
  }

  /** A batch whose last position is the last present one below top leaves behind it everything below top. */
  lemma BehindTop(dir: Dir, l: seq<nat>, top: nat)
    requires top <= |dir|
    requires l == [] ==> forall q | q < top :: !IsPresent(dir, q)
    requires l != [] ==> l[|l| - 1] < top && forall q | l[|l| - 1] < q < top :: !IsPresent(dir, q)
    ensures Behind(dir, l) == PresentBetween(dir, 0, top)
  {
    if l != [] {
      SkipAbsentAbove(dir, 0, l[|l| - 1] + 1, top);
    } else {
      SkipAbsentAbove(dir, 0, 0, top);
    }
  }

  lemma BackwardStart(dir: Dir, bucket: nat)
    requires bucket > 0 && |dir| <= MAX_POSITION + 1
    ensures Behind(dir, Floor(dir, MAX_POSITION, bucket)) == PresentBetween(dir, 0, |dir|)
  {
    FloorHead(dir, MAX_POSITION, bucket);
    BehindTop(dir, Floor(dir, MAX_POSITION, bucket), |dir|);
  }

  /** What remains behind the lower batch of a present position: everything below that position. */
  lemma BehindLower(dir: Dir, next: nat, bucket: nat)
    requires bucket > 0 && next < |dir|
    ensures Behind(dir, Lower(dir, next, bucket)) == PresentBetween(dir, 0, next)
  {
    LowerSpec(dir, next, bucket);
    BehindTop(dir, Lower(dir, next, bucket), next);
  }

  /** One backward step: the last of the batch is visited next, and the lower batch is what precedes it. */
  lemma BackwardStep(dir: Dir, batch: seq<nat>, bucket: nat)
    requires bucket > 0 && batch != [] && IsPresent(dir, batch[|batch| - 1])
    ensures var next := batch[|batch| - 1];
            Reversed(Behind(dir, batch)) == [next] + Reversed(Behind(dir, Lower(dir, next, bucket)))
    ensures var next := batch[|batch| - 1];
            var l := Lower(dir, next, bucket);
            l != [] ==> l[|l| - 1] < next && IsPresent(dir, l[|l| - 1])
  {
    var next := batch[|batch| - 1];
    PresentBetweenSnoc(dir, 0, next + 1);
    ReversedSnoc(PresentBetween(dir, 0, next), next);
    LowerSpec(dir, next, bucket);
    BehindLower(dir, next, bucket);
  }

  /** The walk starts on ceilingPositions(0): its head, if any, is present, and the whole scan lies ahead. */
  lemma ForwardBegin(dir: Dir, bucket: nat)
    requires bucket > 0
    ensures var ps := CeilingPositions(dir, 0, bucket);
            && (ps != [] ==> IsPresent(dir, ps[0].clusterPosition))
            && Ahead(dir, Keys(ps)) == PresentBetween(dir, 0, |dir|)
  {
    var ps := CeilingPositions(dir, 0, bucket);
    ForwardStart(dir, bucket);
    if ps != [] {
      assert Keys(ps)[0] == ps[0].clusterPosition;
    }
  }

  /** One turn of the forward walk on the physical positions a batch query returned. */
  lemma ForwardAdvance(dir: Dir, positions: seq<PhysicalPosition>, bucket: nat)
    requires bucket > 0 && positions != [] && IsPresent(dir, positions[0].clusterPosition)
    ensures var next := positions[0].clusterPosition;
            var h := HigherPositions(dir, next, bucket);
            && Ahead(dir, Keys(positions)) == [next] + Ahead(dir, Keys(h))
            && (h != [] ==> next < h[0].clusterPosition && IsPresent(dir, h[0].clusterPosition))
  {
    var batch := Keys(positions);
    assert batch[0] == positions[0].clusterPosition;
    ForwardStep(dir, batch, bucket);
    var h := HigherPositions(dir, batch[0], bucket);
    if h != [] {
      assert Keys(h)[0] == h[0].clusterPosition;
    }
  }

  /** The walk starts on floorPositions(Long.MAX_VALUE): its last element, if any, is present, and the whole scan lies behind. */
  lemma BackwardBegin(dir: Dir, bucket: nat)
    requires bucket > 0 && |dir| <= MAX_POSITION + 1
    ensures var ps := FloorPositions(dir, MAX_POSITION, bucket);
            && (ps != [] ==> IsPresent(dir, ps[|ps| - 1].clusterPosition))
            && Behind(dir, Keys(ps)) == PresentBetween(dir, 0, |dir|)
  {
    var ps := FloorPositions(dir, MAX_POSITION, bucket);
    BackwardStart(dir, bucket);
    if ps != [] {
      assert Keys(ps)[|ps| - 1] == ps[|ps| - 1].clusterPosition;
    }
  }

  /** One turn of the backward walk on the physical positions a batch query returned. */
  lemma BackwardAdvance(dir: Dir, positions: seq<PhysicalPosition>, bucket: nat)
    requires bucket > 0 && positions != [] && IsPresent(dir, positions[|positions| - 1].clusterPosition)
    ensures var next := positions[|positions| - 1].clusterPosition;
            var l := LowerPositions(dir, next, bucket);
            && Reversed(Behind(dir, Keys(positions))) == [next] + Reversed(Behind(dir, Keys(l)))
            && (l != [] ==> l[|l| - 1].clusterPosition < next && IsPresent(dir, l[|l| - 1].clusterPosition))
  {
    var batch := Keys(positions);
    assert batch[|batch| - 1] == positions[|positions| - 1].clusterPosition;
    BackwardStep(dir, batch, bucket);
    var l := LowerPositions(dir, batch[|batch| - 1], bucket);
    if l != [] {
      assert Keys(l)[|l| - 1] == l[|l| - 1].clusterPosition;
    }
  }

  /**
   * The forward walk of testForwardIteration: ceilingPositions from 0, then
   * higherPositions from the head of each batch, collects the ascending
   * scan of the directory (whose properties AscendingScan states).
   */
  method ForwardIteration(dir: Dir, bucket: nat) returns (visited: seq<nat>)
    requires bucket > 0
    ensures visited == PresentBetween(dir, 0, |dir|)
  {
    var positions := CeilingPositions(dir, 0, bucket);
    ForwardBegin(dir, bucket);
    visited := [];
    while positions != []
      invariant positions != [] ==> IsPresent(dir, positions[0].clusterPosition)
      invariant visited + Ahead(dir, Keys(positions)) == PresentBetween(dir, 0, |dir|)
      decreases if positions == [] then 0 else |dir| - positions[0].clusterPosition
    {
      var next := positions[0].clusterPosition;
      ForwardAdvance(dir, positions, bucket);
      ghost var rest := Ahead(dir, Keys(HigherPositions(dir, next, bucket)));
      assert visited + [next] + rest == visited + ([next] + rest);
      visited := visited + [next];
      positions := HigherPositions(dir, next, bucket);
    }
    assert Keys(positions) == [];
  }

  /**
   * The backward walk of testBackwardIteration: floorPositions from
   * Long.MAX_VALUE, then lowerPositions from the last of each batch,
   * collects the ascending scan in reverse (whose properties DescendingScan
   * states).
   */
  method BackwardIteration(dir: Dir, bucket: nat) returns (visited: seq<nat>)
    requires bucket > 0
    requires |dir| <= MAX_POSITION + 1
    ensures visited == Reversed(PresentBetween(dir, 0, |dir|))
  {
    var positions := FloorPositions(dir, MAX_POSITION, bucket);
    BackwardBegin(dir, bucket);
    visited := [];
    while positions != []
      invariant positions != [] ==> IsPresent(dir, positions[|positions| - 1].clusterPosition)
      invariant visited + Reversed(Behind(dir, Keys(positions))) == Reversed(PresentBetween(dir, 0, |dir|))
      decreases if positions == [] then 0 else positions[|positions| - 1].clusterPosition + 1
    {
      var next := positions[|positions| - 1].clusterPosition;
      BackwardAdvance(dir, positions, bucket);
      ghost var rest := Reversed(Behind(dir, Keys(LowerPositions(dir, next, bucket))));
      assert visited + [next] + rest == visited + ([next] + rest);
      visited := visited + [next];
      positions := LowerPositions(dir, next, bucket);
    }
    assert Keys(positions) == [];
  }

  /** The ascending scan is ascending, holds the present set, and is counted by getEntries. */
  lemma AscendingScan(dir: Dir)
    ensures var s := PresentBetween(dir, 0, |dir|);
            && |s| == CountPresent(dir)
            && Ascending(s)
            && (forall p: nat :: p in s <==> p in PresentSet(dir))
            && (s == [] <==> FirstPosition(dir).None?)
            && (s != [] ==> FirstPosition(dir) == Some(s[0]) && LastPosition(dir) == Some(s[|s| - 1]))
  {
    PresentBetweenSpec(dir, 0, |dir|);
    ScanLengthIsCount(dir, |dir|);
    assert dir[..|dir|] == dir;
    ScanEnds(dir);
  }

  /** Reversing an ascending sequence gives a descending one with the same elements. */
  lemma ReversedAscending(s: seq<nat>)
    requires Ascending(s)
    ensures |Reversed(s)| == |s|
    ensures forall i, j | 0 <= i < j < |Reversed(s)| :: Reversed(s)[i] > Reversed(s)[j]
    ensures forall p :: p in Reversed(s) <==> p in s
  {
    var r := Reversed(s);
    if s == [] {
      assert r == [];
    } else {
      ReversedMirror(s, 0);
      forall k | 0 <= k < |s| ensures r[k] == s[|s| - 1 - k] {
        ReversedMirror(s, |s| - 1 - k);
      }
      forall p ensures p in r <==> p in s {
        if p in r {
          var k :| 0 <= k < |r| && r[k] == p;
          ReversedMirror(s, |s| - 1 - k);
          assert p == s[|s| - 1 - k];
        }
        if p in s {
          var k :| 0 <= k < |s| && s[k] == p;
          ReversedMirror(s, k);
          assert r[|s| - 1 - k] == p;
        }
      }
    }
  }

  /** The reversed ascending scan is descending, holds the present set, and is counted by getEntries. */
  lemma DescendingScan(dir: Dir, visited: seq<nat>)
    requires visited == Reversed(PresentBetween(dir, 0, |dir|))
    ensures |visited| == CountPresent(dir)
    ensures forall i, j | 0 <= i < j < |visited| :: visited[i] > visited[j]
    ensures forall p: nat :: p in visited <==> p in PresentSet(dir)
    ensures visited != [] ==> LastPosition(dir) == Some(visited[0])
                              && FirstPosition(dir) == Some(visited[|visited| - 1])
  {
    var s := PresentBetween(dir, 0, |dir|);
    AscendingScan(dir);
    ReversedAscending(s);
    if s != [] {
      ReversedMirror(s, |s| - 1);
      ReversedMirror(s, 0);
    }
  }
}
