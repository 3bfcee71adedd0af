/** The physical frame allocator of kernel/memory.c: a segment tree of flags, one leaf per frame.
    A flag is true when nothing below it is free. Index 1 is the root, node p has children 2p and 2p+1. */
module Frames {
  import opened Basics
  import opened Powers

  const MAX_PHYSICAL_PAGES: nat := 0x8000

  /** An inner flag is the conjunction of its children's flags. */
  predicate AndAt(v: seq<bool>, p: nat) {
    2 * p + 1 < |v| && v[p] == (v[2 * p] && v[2 * p + 1])
  }

  /** All inner flags below `first` are right, except possibly the one at `hole`. */
  ghost predicate RightExcept(v: seq<bool>, first: nat, hole: nat) {
    forall p {:trigger AndAt(v, p)} :: 1 <= p < first && p != hole ==> AndAt(v, p)
  }

  /** The first and last leaf below node p; leaves start at index `first`. */
  function FirstLeaf(p: nat, first: nat): nat
    requires p >= 1
    decreases first - p
  {
    if p >= first then p else FirstLeaf(2 * p, first)
  }

  function LastLeaf(p: nat, first: nat): nat
    requires p >= 1
    decreases first - p
  {
    if p >= first then p else LastLeaf(2 * p + 1, first)
  }

  /** p lies on level e of a tree with 2^h leaves. */
  predicate OnLevel(p: nat, e: nat, h: nat) {
    e <= h && Pow2(e) <= p < Pow2(e + 1)
  }

  lemma LevelMeansInner(p: nat, e: nat, h: nat)
    requires OnLevel(p, e, h)
    ensures p >= 1 && (p < Pow2(h) <==> e < h)
    ensures e < h ==> OnLevel(2 * p, e + 1, h) && OnLevel(2 * p + 1, e + 1, h)
    ensures e == h ==> p < 2 * Pow2(h)
  {
    if e < h { Pow2Monotonic(e + 1, h); }
  }

  /** Neighbours on a level have neighbouring leaves. */
  lemma {:induction false} LeavesAdjacent(p: nat, e: nat, h: nat)
    requires OnLevel(p, e, h) && OnLevel(p + 1, e, h)
    ensures LastLeaf(p, Pow2(h)) + 1 == FirstLeaf(p + 1, Pow2(h))
    decreases h - e
  {
    LevelMeansInner(p, e, h);
    LevelMeansInner(p + 1, e, h);
    if e < h {
      LeavesAdjacent(2 * p + 1, e + 1, h);
    }
  }

  lemma {:induction false} LeavesInRange(p: nat, e: nat, h: nat)
    requires OnLevel(p, e, h)
    ensures Pow2(h) <= FirstLeaf(p, Pow2(h)) <= LastLeaf(p, Pow2(h)) < 2 * Pow2(h)
    decreases h - e
  {
    LevelMeansInner(p, e, h);
    if e < h {
      LeavesInRange(2 * p, e + 1, h);
      LeavesInRange(2 * p + 1, e + 1, h);
      LeavesAdjacent(2 * p, e + 1, h);
    }
  }

  /** A flag is the conjunction of all leaf flags below it. */
  lemma {:induction false} FlagIsConjunction(v: seq<bool>, p: nat, e: nat, h: nat)
    requires |v| >= 2 * Pow2(h) && RightExcept(v, Pow2(h), 0) && OnLevel(p, e, h)
    ensures Pow2(h) <= FirstLeaf(p, Pow2(h)) <= LastLeaf(p, Pow2(h)) < 2 * Pow2(h)
    ensures p < |v| && (v[p] <==> forall q :: FirstLeaf(p, Pow2(h)) <= q <= LastLeaf(p, Pow2(h)) ==> v[q])
    decreases h - e
  {
    LevelMeansInner(p, e, h);
    LeavesInRange(p, e, h);
    if e < h {
      assert AndAt(v, p);
      FlagIsConjunction(v, 2 * p, e + 1, h);
      FlagIsConjunction(v, 2 * p + 1, e + 1, h);
      LeavesAdjacent(2 * p, e + 1, h);
    }
  }

  lemma {:induction false} RootSeesAllLeaves(h: nat)
    ensures FirstLeaf(1, Pow2(h)) == Pow2(h) && LastLeaf(1, Pow2(h)) == 2 * Pow2(h) - 1
  {
    LeavesOfPower(0, h);
  }

  lemma {:induction false} LeavesOfPower(e: nat, h: nat)
    requires e <= h
    ensures FirstLeaf(Pow2(e), Pow2(h)) == Pow2(h) && LastLeaf(2 * Pow2(e) - 1, Pow2(h)) == 2 * Pow2(h) - 1
    decreases h - e
  {
    if e < h {
      Pow2Monotonic(e + 1, h);
      LeavesOfPower(e + 1, h);
    }
  }

  /** The leaf flags determine the whole tree. */
  lemma {:induction false} LeavesDetermineTree(v: seq<bool>, w: seq<bool>, h: nat, p: nat, e: nat)
    requires |v| >= 2 * Pow2(h) && |w| >= 2 * Pow2(h) && OnLevel(p, e, h)
    requires RightExcept(v, Pow2(h), 0) && RightExcept(w, Pow2(h), 0)
    requires forall q :: Pow2(h) <= q < 2 * Pow2(h) ==> v[q] == w[q]
    ensures p < |v| && p < |w| && v[p] == w[p]
  {
    FlagIsConjunction(v, p, e, h);
    FlagIsConjunction(w, p, e, h);
  }

  /** The frames from lo up to, but not including, hi. */
  ghost function FramesBetween(lo: nat, hi: int): (s: set<nat>)
    ensures forall ppn: nat :: ppn in s <==> lo <= ppn < hi
    ensures |s| == if lo <= hi then hi - lo else 0
    decreases hi - lo
  {
    if hi <= lo then {} else FramesBetween(lo, hi - 1) + {hi - 1}
  }

  /** Leaf p is marked taken exactly when its frame is not free; `start` is the frame of the first leaf. */
  ghost predicate LeafFlag(v: seq<bool>, first: nat, start: nat, free: set<nat>, p: nat) {
    first <= p < 2 * first ==> p < |v| && (v[p] <==> p - first + start !in free)
  }

  predicate InLeaves(first: nat, start: nat, ppn: nat) {
    start <= ppn < start + first
  }

  ghost predicate LeavesRight(v: seq<bool>, first: nat, start: nat, free: set<nat>) {
    && (forall p {:trigger LeafFlag(v, first, start, free, p)} :: LeafFlag(v, first, start, free, p))
    && (forall q {:trigger InLeaves(first, start, q)} :: q in free ==> InLeaves(first, start, q))
  }

  /** Setting the flag of leaf p takes its frame away from the free ones; clearing it gives the frame back. */
  lemma LeafSet(v: seq<bool>, w: seq<bool>, first: nat, start: nat, free: set<nat>, p: nat)
    requires LeavesRight(v, first, start, free) && |v| == |w| && first <= p < 2 * first
    requires forall q :: first <= q < 2 * first && q < |v| && q != p ==> w[q] == v[q]
    ensures p < |w|
    ensures LeavesRight(w, first, start, if w[p] then free - {p - first + start} else free + {p - first + start})
  {
    assert LeafFlag(v, first, start, free, p);
    var free' := if w[p] then free - {p - first + start} else free + {p - first + start};
    forall q: nat
      ensures LeafFlag(w, first, start, free', q)
    {
      assert LeafFlag(v, first, start, free, q);
    }
    forall q: nat
      ensures q in free' ==> InLeaves(first, start, q)
    {
      assert q in free ==> InLeaves(first, start, q);
    }
  }

  class FrameAllocator {
    const node: array<bool>
    var firstSingle: nat    // index of the first leaf
    var startPpn: nat       // the frame of the first leaf
    ghost var height: nat
    ghost var free: set<nat>

    ghost predicate Valid()
      reads this, node
    {
      && firstSingle == Pow2(height) && node.Length >= 2 * firstSingle
      && RightExcept(node[..], firstSingle, 0)
      && LeavesRight(node[..], firstSingle, startPpn, free)
    }

    /** ppn is the frame of one of the leaves. */
    ghost predicate IsLeafFrame(ppn: int)
      reads this
    {
      startPpn <= ppn < startPpn + firstSingle
    }

    constructor ()
      ensures node.Length == 2 * MAX_PHYSICAL_PAGES && fresh(node)
    {
      node := new bool[2 * MAX_PHYSICAL_PAGES];
    }

    /** Afterwards the free frames are those from startPpn to endPpn - 2: the leaf of frame endPpn - 1 stays taken. */
    method NewAllocator(start: nat, end: nat)
      requires 1 <= start <= end && end - start + 2 <= MAX_PHYSICAL_PAGES && node.Length == 2 * MAX_PHYSICAL_PAGES
      modifies this, node
      ensures Valid()
      ensures free == FramesBetween(start, end - 1)
    {
      startPpn := start - 1;
      var length := end - start;
      firstSingle, height := 1, 0;
      Pow2Values();
      while firstSingle < length + 2
        invariant firstSingle == Pow2(height) && height <= 15 && startPpn == start - 1
        decreases 15 - height
      {
        Pow2Order(height, 15);
        firstSingle := firstSingle * 2;
        height := height + 1;
      }
      Pow2Order(height, 15);
      FillLeaves(length);
      BuildInner();
      free := FramesBetween(start, end - 1);
      forall p: nat
        ensures LeafFlag(node[..], firstSingle, startPpn, free, p)
      {
      }
    }

    /** The loops that mark every node taken and then the leaves 1 to length - 1 free. */
    method FillLeaves(length: nat)
      requires firstSingle >= 1 && 2 * firstSingle <= node.Length && length + 2 <= firstSingle
      modifies node
      ensures forall p :: firstSingle <= p < 2 * firstSingle ==> (node[p] <==> !(1 <= p - firstSingle < length))
    {
      var i := 1;
      while i < firstSingle * 2
        invariant 1 <= i <= firstSingle * 2
        invariant forall p :: 1 <= p < i ==> node[p]
      {
        node[i] := true;
        i := i + 1;
      }
      i := 1;
      while i < length
        invariant 1 <= i && (i <= length || i == 1)
        invariant forall p :: firstSingle <= p < 2 * firstSingle ==> (node[p] <==> !(1 <= p - firstSingle < i))
      {
        node[firstSingle + i] := false;
        i := i + 1;
      }
    }

    /** The loop that computes the inner flags from the leaves upward. */
    method BuildInner()
      requires firstSingle >= 1 && 2 * firstSingle <= node.Length
      modifies node
      ensures RightExcept(node[..], firstSingle, 0)
      ensures forall p :: firstSingle <= p < 2 * firstSingle ==> node[p] == old(node[p])
    {
      var i := firstSingle - 1;
      while i >= 1
        invariant 0 <= i < firstSingle
        invariant forall p {:trigger AndAt(node[..], p)} :: i < p < firstSingle ==> AndAt(node[..], p)
        invariant forall p :: firstSingle <= p < 2 * firstSingle ==> node[p] == old(node[p])
      {
        ghost var v := node[..];
        node[i] := node[i * 2] && node[i * 2 + 1];
        forall p | i <= p < firstSingle
          ensures AndAt(node[..], p)
        {
          if p > i { assert AndAt(v, p); }
        }
        i := i - 1;
      }
    }

    /** Hands out the smallest free frame; panics (None) exactly when there is none. */
    method Alloc() returns (r: Option<nat>)
      requires Valid()
      modifies this`free, node
      ensures Valid()
      ensures r == None <==> old(free) == {}
      ensures r == None ==> free == old(free)
      ensures r.Some? ==> r.value in old(free) && (forall q <- old(free) :: r.value <= q) && free == old(free) - {r.value}
    {
      EmptyMeansRoot();
      if node[1] {
        return None;
      }
      ghost var v := node[..];
      var p := Descend();
      var result := p - firstSingle + startPpn;
      assert LeafFlag(v, firstSingle, startPpn, free, p);
      forall q <- free
        ensures result <= q
      {
        assert InLeaves(firstSingle, startPpn, q) && LeafFlag(v, firstSingle, startPpn, free, q - startPpn + firstSingle);
      }
      SetLeaf(p, true);
      LeafSet(v, node[..], firstSingle, startPpn, free, p);
      free := free - {result};
      r := Some(result);
    }

    lemma EmptyMeansRoot()
      requires Valid()
      ensures 1 < node.Length && (node[1] <==> free == {})
    {
      FlagIsConjunction(node[..], 1, 0, height);
      RootSeesAllLeaves(height);
      if ppn :| ppn in free {
        assert InLeaves(firstSingle, startPpn, ppn);
        assert LeafFlag(node[..], firstSingle, startPpn, free, ppn - startPpn + firstSingle);
      } else {
        forall p: nat | firstSingle <= p < 2 * firstSingle
          ensures node[..][p]
        {
          assert LeafFlag(node[..], firstSingle, startPpn, free, p);
        }
      }
    }

    /** alloc's loop from the root to the leftmost free leaf. */
    method Descend() returns (p: nat)
      requires Valid() && node.Length > 1 && !node[1]
      ensures firstSingle <= p < 2 * firstSingle && !node[p]
      ensures forall q :: firstSingle <= q < p ==> node[q]
    {
      ghost var v, h, e := node[..], height, 0;
      p := 1;
      RootSeesAllLeaves(h);
      LevelMeansInner(1, 0, h);
      while p < firstSingle
        invariant OnLevel(p, e, h) && p < node.Length && !node[p]
        invariant forall q :: firstSingle <= q < FirstLeaf(p, firstSingle) && q < 2 * firstSingle ==> v[q]
        decreases h - e
      {
        LevelMeansInner(p, e, h);
        assert AndAt(v, p);
        FlagIsConjunction(v, 2 * p, e + 1, h);
        LeavesAdjacent(2 * p, e + 1, h);
        if !node[p * 2] {
          p := p * 2;
        } else {
          p := p * 2 + 1;
        }
        e := e + 1;
      }
      LevelMeansInner(p, e, h);
    }

    /** Writes one leaf and recomputes the flags above it: the end of both alloc and dealloc. */
    method SetLeaf(leaf: nat, taken: bool)
      requires firstSingle == Pow2(height) && 2 * firstSingle <= node.Length && firstSingle <= leaf < 2 * firstSingle
      requires RightExcept(node[..], firstSingle, 0)
      modifies node
      ensures RightExcept(node[..], firstSingle, 0)
      ensures forall p :: firstSingle <= p < 2 * firstSingle ==> node[p] == if p == leaf then taken else old(node[p])
    {
      ghost var v := node[..];
      node[leaf] := taken;
      var p := leaf / 2;
      StillRight(v, node[..], firstSingle, leaf, 0);
      while p > 0
        invariant 0 <= p < firstSingle
        invariant RightExcept(node[..], firstSingle, p)
        invariant forall q :: firstSingle <= q < 2 * firstSingle ==> node[q] == if q == leaf then taken else old(node[q])
      {
        v := node[..];
        node[p] := node[p * 2] && node[p * 2 + 1];
        StillRight(v, node[..], firstSingle, p, p);
        p := p / 2;
      }
    }

    /** Gives a frame back; a frame that is free already stays as it is. */
    method Dealloc(ppn: nat)
      requires Valid() && IsLeafFrame(ppn)
      modifies this`free, node
      ensures Valid()
      ensures free == old(free) + {ppn}
      ensures ppn in old(free) ==> node[..] == old(node[..])
    {
      var p := ppn - startPpn + firstSingle;
      ghost var v := node[..];
      assert LeafFlag(v, firstSingle, startPpn, free, p);
      if !node[p] {
        assert free == free + {ppn};
        return;
      }
      SetLeaf(p, false);
      LeafSet(v, node[..], firstSingle, startPpn, free, p);
      free := free + {ppn};
    }
  }

  /** Writing node i can only disturb the flag of its parent. */
  lemma StillRight(v: seq<bool>, w: seq<bool>, first: nat, i: nat, hole: nat)
    requires |v| == |w| && first >= 1 && 2 * first <= |v| && 1 <= i < 2 * first
    requires RightExcept(v, first, hole)
    requires forall j :: 0 <= j < |v| && j != i ==> w[j] == v[j]
    requires if i < first then i == hole && w[i] == (v[2 * i] && v[2 * i + 1]) else hole == 0
    ensures RightExcept(w, first, i / 2)
  {
    forall p | 1 <= p < first && p != i / 2
      ensures AndAt(w, p)
    {
      if p != i { assert AndAt(v, p); }
    }
  }
}
