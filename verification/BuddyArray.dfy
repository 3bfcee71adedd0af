/** The array form of the buddy tree and the loops that maintain it (kernel/heap.c, user/malloc.c).
    Node i has children 2i+1 and 2i+2; the value of a node is the largest free run below it,
    but nodes below a live or a free block are never consulted and keep their full size. */
module BuddyArray {
  import opened Powers
  import opened Bits
  import opened BuddySpec

  function Parent(i: nat): (p: nat)
    requires i > 0
    ensures p < i && (i == 2 * p + 1 || i == 2 * p + 2)
  {
    (i + 1) / 2 - 1
  }

  /** The subtree at array index i; below a block that is not split, everything counts as free. */
  function Sub(t: Tree, i: nat): Tree {
    if i == 0 then t
    else if i % 2 == 1 then Left(Sub(t, Parent(i)))
    else Right(Sub(t, Parent(i)))
  }

  function Depth(i: nat): nat {
    if i == 0 then 0 else 1 + Depth(Parent(i))
  }

  /** Replaces the subtree at index i and re-joins all the way up: what the upward loops do. */
  function SetAt(t: Tree, i: nat, s: Tree): Tree {
    if i == 0 then s
    else if i % 2 == 1 then SetAt(t, Parent(i), Join(s, Sub(t, i + 1)))
    else SetAt(t, Parent(i), Join(Sub(t, i - 1), s))
  }

  /** The array value that belongs at index i. */
  function Value(t: Tree, h: nat, i: nat): nat {
    if Depth(i) <= h then Longest(Sub(t, i), h - Depth(i)) else 0
  }

  /** The whole array is a function of the tree. */
  ghost predicate IsImage(v: seq<int>, t: Tree, h: nat) {
    && |v| == 2 * Pow2(h) - 1
    && forall i: nat :: i < |v| ==> v[i] == Value(t, h, i)
  }

  // ----- index arithmetic --------------------------------------------------

  lemma {:induction false} DepthBounds(i: nat)
    ensures Pow2(Depth(i)) <= i + 1 < Pow2(Depth(i) + 1)
  {
    if i > 0 { DepthBounds(Parent(i)); }
  }

  lemma DepthAtMost(i: nat, h: nat)
    ensures i < 2 * Pow2(h) - 1 <==> Depth(i) <= h
    ensures i < Pow2(h) - 1 <==> Depth(i) < h
  {
    DepthBounds(i);
    if Depth(i) <= h { Pow2Monotonic(Depth(i) + 1, h + 1); } else { Pow2Monotonic(h + 1, Depth(i)); }
    if Depth(i) < h { Pow2Monotonic(Depth(i) + 1, h); } else { Pow2Monotonic(h, Depth(i)); }
  }

  /** The first smallest block below index i. */
  function Offset(h: nat, i: nat): nat
    requires Depth(i) <= h
  {
    if i == 0 then 0
    else if i % 2 == 1 then Offset(h, Parent(i))
    else Offset(h, Parent(i)) + Pow2(h - Depth(i))
  }

  /** buddyAlloc computes that block from the index alone; d is the height of the block. */
  lemma {:induction false} OffsetFormula(h: nat, i: nat, d: nat)
    requires Depth(i) + d == h
    ensures (i + 1) * Pow2(d) == Offset(h, i) + Pow2(h)
    decreases i
  {
    if i > 0 {
      OffsetFormula(h, Parent(i), d + 1);
      ParentTimes(i, Pow2(d));
    }
  }

  lemma ParentTimes(i: nat, x: int)
    requires i > 0
    ensures (i + 1) * x == (Parent(i) + 1) * (2 * x) + if i % 2 == 1 then 0 else x
  {
    Distribute(Parent(i), x);
  }

  lemma Distribute(p: int, x: int)
    ensures (2 * p + 2) * x == (p + 1) * (2 * x)
    ensures (2 * p + 3) * x == (p + 1) * (2 * x) + x
  {
  }

  // ----- subtrees ----------------------------------------------------------

  lemma {:induction false} SubCanonical(t: Tree, h: nat, i: nat)
    requires Canonical(t, h) && Depth(i) <= h
    ensures Canonical(Sub(t, i), h - Depth(i))
  {
    if i > 0 { SubCanonical(t, h, Parent(i)); }
  }

  /** i lies at or below a. */
  predicate Below(a: nat, i: nat) {
    i == a || (i > a && Below(a, Parent(i)))
  }

  lemma {:induction false} BelowBoth(a: nat, b: nat, i: nat)
    requires Below(a, i) && Below(b, i)
    ensures Below(a, b) || Below(b, a)
  {
    if i != a && i != b { BelowBoth(a, b, Parent(i)); }
  }

  lemma {:induction false} SubCongruence(t: Tree, u: Tree, a: nat, i: nat)
    requires Sub(t, a) == Sub(u, a) && Below(a, i)
    ensures Sub(t, i) == Sub(u, i)
  {
    if i != a { SubCongruence(t, u, a, Parent(i)); }
  }

  /** Replacing at a puts the new subtree there ... */
  lemma {:induction false} SubAtSet(t: Tree, a: nat, s: Tree)
    ensures Sub(SetAt(t, a, s), a) == s
    decreases a
  {
    if a > 0 {
      var p := Parent(a);
      SubAtSet(t, p, if a % 2 == 1 then Join(s, Sub(t, a + 1)) else Join(Sub(t, a - 1), s));
    }
  }

  lemma Children(t: Tree, i: nat)
    ensures Parent(2 * i + 1) == i && Parent(2 * i + 2) == i
    ensures Depth(2 * i + 1) == Depth(2 * i + 2) == Depth(i) + 1
    ensures Sub(t, 2 * i + 1) == Left(Sub(t, i)) && Sub(t, 2 * i + 2) == Right(Sub(t, i))
  {
  }

  lemma SetAtChildren(t: Tree, i: nat, s: Tree)
    ensures SetAt(t, 2 * i + 1, s) == SetAt(t, i, Join(s, Right(Sub(t, i))))
    ensures SetAt(t, 2 * i + 2, s) == SetAt(t, i, Join(Left(Sub(t, i)), s))
  {
    Children(t, i);
  }

  /** ... and leaves its sibling alone ... */
  lemma SubBesideSet(t: Tree, a: nat, s: Tree)
    requires a > 0
    ensures Sub(SetAt(t, a, s), Sibling(a)) == Sub(t, Sibling(a)) && Parent(Sibling(a)) == Parent(a)
  {
    var p := Parent(a);
    var joined := if a % 2 == 1 then Join(s, Right(Sub(t, p))) else Join(Left(Sub(t, p)), s);
    SetAtChildren(t, p, s);
    SubAtSet(t, p, joined);
    Children(t, p);
    Children(SetAt(t, p, joined), p);
  }

  function Sibling(a: nat): nat
    requires a > 0
  {
    if a % 2 == 1 then a + 1 else a - 1
  }

  /** ... and everything else that is neither above nor below. */
  lemma {:induction false} SubOfSetAt(t: Tree, a: nat, s: Tree, i: nat)
    requires !Below(a, i) && !Below(i, a)
    ensures Sub(SetAt(t, a, s), i) == Sub(t, i)
    decreases a
  {
    if a == 0 {
      BelowRoot(i);
    } else {
      var p := Parent(a);
      if Below(p, i) {
        SubBesideSet(t, a, s);
        BelowSibling(p, a, Sibling(a), i);
        SubCongruence(SetAt(t, a, s), t, Sibling(a), i);
      } else {
        if Below(i, p) { BelowStep(i, p, a); }
        SubOfSetAt(t, p, if a % 2 == 1 then Join(s, Sub(t, a + 1)) else Join(Sub(t, a - 1), s), i);
      }
    }
  }

  lemma {:induction false} BelowRoot(i: nat)
    ensures Below(0, i)
  {
    if i > 0 { BelowRoot(Parent(i)); }
  }

  lemma BelowStep(i: nat, p: nat, a: nat)
    requires a > 0 && p == Parent(a) && Below(i, p)
    ensures Below(i, a)
  {
    BelowOrder(i, p);
  }

  lemma {:induction false} BelowOrder(i: nat, p: nat)
    requires Below(i, p)
    ensures i <= p
  {
  }

  lemma AboveOnly(i: nat, p: nat)
    requires p < i
    ensures !Below(i, p)
  {
  }

  lemma {:induction false} BelowSibling(p: nat, a: nat, sib: nat, i: nat)
    requires a > 0 && sib > 0 && p == Parent(a) == Parent(sib) && a != sib
    requires Below(p, i) && i != p
    ensures Below(a, i) || Below(sib, i)
    decreases i
  {
    if i != a && i != sib {
      assert Parent(i) != p;
      BelowSibling(p, a, sib, Parent(i));
      BelowOrder(p, Parent(i));
    }
  }

  lemma {:induction false} BelowAtom(t: Tree, a: nat, i: nat)
    requires !Sub(t, a).Node? && Below(a, i) && i != a
    ensures Sub(t, i) == Free
    decreases i
  {
    if Parent(i) != a { BelowAtom(t, a, Parent(i)); }
  }

  /** Every array value outside the path to the root, after the block at a changes between free and live. */
  lemma AtomChange(t: Tree, a: nat, s: Tree, i: nat)
    requires !Sub(t, a).Node? && !s.Node?
    requires !Below(i, a) || i == a
    ensures Sub(SetAt(t, a, s), i) == if i == a then s else Sub(t, i)
  {
    SubAtSet(t, a, s);
    if i != a {
      if Below(a, i) {
        BelowAtom(t, a, i);
        BelowAtom(SetAt(t, a, s), a, i);
      } else {
        SubOfSetAt(t, a, s, i);
      }
    }
  }

  /** Above a replaced subtree the tree is split or merged, never a live block. */
  lemma {:induction false} AboveSetAt(t: Tree, a: nat, s: Tree, i: nat)
    requires Below(i, a) && i != a
    ensures Sub(SetAt(t, a, s), i) == Join(Sub(SetAt(t, a, s), 2 * i + 1), Sub(SetAt(t, a, s), 2 * i + 2))
    decreases a
  {
    var p := Parent(a);
    var s' := if a % 2 == 1 then Join(s, Sub(t, a + 1)) else Join(Sub(t, a - 1), s);
    if p == i {
      SubAtSet(t, p, s');
      assert Parent(2 * i + 1) == i && Parent(2 * i + 2) == i;
    } else {
      BelowOrder(i, p);
      AboveSetAt(t, p, s', i);
    }
  }

  lemma {:induction false} SetAtCanonical(t: Tree, h: nat, a: nat, s: Tree)
    requires Canonical(t, h) && Depth(a) <= h && Canonical(s, h - Depth(a))
    ensures Canonical(SetAt(t, a, s), h)
    decreases a
  {
    if a > 0 {
      if a % 2 == 1 {
        assert Depth(a + 1) == Depth(a);
        SubCanonical(t, h, a + 1);
        SetAtCanonical(t, h, Parent(a), Join(s, Sub(t, a + 1)));
      } else {
        assert Depth(a - 1) == Depth(a);
        SubCanonical(t, h, a - 1);
        SetAtCanonical(t, h, Parent(a), Join(Sub(t, a - 1), s));
      }
    }
  }

  // ----- descents seen from the array --------------------------------------

  lemma OffsetOfChildren(h: nat, i: nat)
    requires Depth(i) < h
    ensures Depth(2 * i + 1) == Depth(2 * i + 2) == Depth(i) + 1
    ensures Offset(h, 2 * i + 1) == Offset(h, i)
    ensures Offset(h, 2 * i + 2) == Offset(h, i) + Pow2(h - Depth(i) - 1)
  {
    Children(Free, i);
  }

  /** Releasing in the whole heap is releasing in the part below index i. */
  ghost predicate ReleasesAt(t: Tree, h: nat, i: nat, x: int) {
    && Canonical(t, h) && Depth(i) <= h && Canonical(Sub(t, i), h - Depth(i))
    && Release(t, h, x) == SetAt(t, i, Release(Sub(t, i), h - Depth(i), x - Offset(h, i)))
  }

  lemma ReleaseInLeft(t: Tree, h: nat, p: nat, x: int)
    requires ReleasesAt(t, h, p, x) && Depth(p) < h && x - Offset(h, p) < Pow2(h - Depth(p) - 1)
    ensures ReleasesAt(t, h, 2 * p + 1, x)
  {
    var s, d, y := Sub(t, p), h - Depth(p), x - Offset(h, p);
    Children(t, p);
    OffsetOfChildren(h, p);
    assert Release(s, d, y) == Join(Release(Left(s), d - 1, y), Right(s));
    SetAtChildren(t, p, Release(Left(s), d - 1, y));
  }

  lemma ReleaseInRight(t: Tree, h: nat, p: nat, x: int)
    requires ReleasesAt(t, h, p, x) && Depth(p) < h && x - Offset(h, p) >= Pow2(h - Depth(p) - 1)
    ensures ReleasesAt(t, h, 2 * p + 2, x)
  {
    var s, d, y := Sub(t, p), h - Depth(p), x - Offset(h, p);
    Children(t, p);
    OffsetOfChildren(h, p);
    assert Release(s, d, y) == Join(Left(s), Release(Right(s), d - 1, y - Pow2(d - 1)));
    SetAtChildren(t, p, Release(Right(s), d - 1, y - Pow2(d - 1)));
  }

  /** That holds for every index whose block contains x. */
  lemma {:induction false} ReleaseAt(t: Tree, h: nat, i: nat, x: int)
    requires Canonical(t, h) && Depth(i) <= h
    requires Offset(h, i) <= x < Offset(h, i) + Pow2(h - Depth(i))
    ensures ReleasesAt(t, h, i, x)
    decreases i
  {
    if i > 0 {
      var p := Parent(i);
      OffsetOfChildren(h, p);
      ReleaseAt(t, h, p, x);
      if i == 2 * p + 1 {
        ReleaseInLeft(t, h, p, x);
      } else {
        ReleaseInRight(t, h, p, x);
      }
    }
  }

  /** The state of buddyAlloc's descent at index i, whose block has height d:
      finishing below i finishes the whole request. */
  ghost predicate Descending(t: Tree, h: nat, k: nat, i: nat, d: nat) {
    && Serves(t, h, k) && Depth(i) + d == h && Serves(Sub(t, i), d, k)
    && Alloc(t, h, k) == (SetAt(t, i, Alloc(Sub(t, i), d, k).0), Offset(h, i) + Alloc(Sub(t, i), d, k).1)
  }

  /** The request for Pow2(k) blocks can be served. */
  ghost predicate Serves(t: Tree, h: nat, k: nat) {
    Canonical(t, h) && k <= h && Pow2(k) <= Longest(t, h)
  }

  /** In either half, the rest of the descent is the descent of that half. */
  lemma DescendHalf(t: Tree, h: nat, k: nat)
    requires Serves(t, h, k) && k < h
    ensures if TakesLeft(Longest(Left(t), h - 1), Longest(Right(t), h - 1), Pow2(k))
            then Serves(Left(t), h - 1, k) && var a := Alloc(Left(t), h - 1, k);
                 Alloc(t, h, k) == (Join(a.0, Right(t)), a.1)
            else Serves(Right(t), h - 1, k) && var a := Alloc(Right(t), h - 1, k);
                 Alloc(t, h, k) == (Join(Left(t), a.0), Pow2(h - 1) + a.1)
  {
    LongestBounds(t, h);
    Pow2Monotonic(k, h - 1);
  }

  lemma DescendLeft(t: Tree, h: nat, k: nat, i: nat, d: nat)
    requires Descending(t, h, k, i, d) && k < d
    requires TakesLeft(Longest(Sub(t, 2 * i + 1), d - 1), Longest(Sub(t, 2 * i + 2), d - 1), Pow2(k))
    ensures Descending(t, h, k, 2 * i + 1, d - 1)
  {
    Children(t, i);
    OffsetOfChildren(h, i);
    DescendHalf(Sub(t, i), d, k);
    SetAtChildren(t, i, Alloc(Left(Sub(t, i)), d - 1, k).0);
  }

  lemma DescendRight(t: Tree, h: nat, k: nat, i: nat, d: nat)
    requires Descending(t, h, k, i, d) && k < d
    requires !TakesLeft(Longest(Sub(t, 2 * i + 1), d - 1), Longest(Sub(t, 2 * i + 2), d - 1), Pow2(k))
    ensures Descending(t, h, k, 2 * i + 2, d - 1)
  {
    Children(t, i);
    OffsetOfChildren(h, i);
    DescendHalf(Sub(t, i), d, k);
    SetAtChildren(t, i, Alloc(Right(Sub(t, i)), d - 1, k).0);
  }

  lemma DescendStep(v: seq<int>, t: Tree, h: nat, k: nat, i: nat, d: nat) returns (next: nat)
    requires IsImage(v, t, h) && Descending(t, h, k, i, d) && Pow2(k) != Pow2(d)
    ensures d > 0 && 2 * i + 2 < |v| && Pow2(d) / 2 == Pow2(d - 1)
    ensures next == if TakesLeft(v[2 * i + 1], v[2 * i + 2], Pow2(k)) then 2 * i + 1 else 2 * i + 2
    ensures Descending(t, h, k, next, d - 1)
  {
    Pow2Order(k, d);
    DepthAtMost(i, h);
    Children(t, i);
    if TakesLeft(v[2 * i + 1], v[2 * i + 2], Pow2(k)) {
      DescendLeft(t, h, k, i, d);
      next := 2 * i + 1;
    } else {
      DescendRight(t, h, k, i, d);
      next := 2 * i + 2;
    }
  }

  // ----- upward loops ------------------------------------------------------

  /** The indices strictly above i, up to the root. */
  ghost function Path(i: nat): set<nat> {
    if i == 0 then {} else {Parent(i)} + Path(Parent(i))
  }

  lemma {:induction false} PathIsAbove(i: nat)
    ensures forall p: nat :: p in Path(i) <==> Below(p, i) && p != i
  {
    if i > 0 {
      PathIsAbove(Parent(i));
      forall p: nat | Below(p, Parent(i))
        ensures p < i
      {
        BelowOrder(p, Parent(i));
      }
    }
  }

  /** Two arrays agree everywhere but on a path. */
  ghost predicate SameExcept(v: seq<int>, target: seq<int>, path: set<nat>) {
    && |v| == |target|
    && forall j: nat :: j < |v| && j !in path ==> v[j] == target[j]
  }

  /** The merge rule of buddyFree. */
  function Merged(left: int, right: int, full: int): int {
    if left + right == full then full else Max(left, right)
  }

  /** Above the changed block, a node's value follows from its children's values. */
  lemma ValueAbove(t: Tree, h: nat, a: nat, s: Tree, p: nat)
    requires Canonical(t, h) && Depth(a) <= h && Canonical(s, h - Depth(a))
    requires Below(p, a) && p != a && Depth(p) < h
    ensures var u := SetAt(t, a, s);
            var l, r := Value(u, h, 2 * p + 1), Value(u, h, 2 * p + 2);
            && Value(u, h, p) == Merged(l, r, Pow2(h - Depth(p)))
            && (s == Used ==> Value(u, h, p) == Max(l, r))
  {
    var u := SetAt(t, a, s);
    Children(u, p);
    SetAtCanonical(t, h, a, s);
    SubCanonical(u, h, 2 * p + 1);
    SubCanonical(u, h, 2 * p + 2);
    AboveSetAt(t, a, s, p);
    LongestOfJoin(Sub(u, 2 * p + 1), Sub(u, 2 * p + 2), h - Depth(p));
    if s == Used {
      SubAtSet(t, a, s);
      SubCanonical(u, h, p);
      LongestBounds(Sub(u, p), h - Depth(p));
      if Sub(u, p) == Free { BelowAtom(u, p, a); }
    }
  }

  predicate MaxAt(target: seq<int>, p: nat) {
    2 * p + 2 < |target| && target[p] == Max(target[2 * p + 1], target[2 * p + 2])
  }

  predicate MergedAt(target: seq<int>, full: seq<int>, p: nat) {
    && 2 * p + 2 < |target| == |full|
    && full[p] == 2 * full[2 * p + 1] == 2 * full[2 * p + 2]
    && target[p] == Merged(target[2 * p + 1], target[2 * p + 2], full[p])
  }

  /** Above a block just taken, every entry is the larger of the two below it. */
  ghost predicate MaxOn(target: seq<int>, path: set<nat>) {
    forall p {:trigger MaxAt(target, p)} :: p in path ==> MaxAt(target, p)
  }

  /** Above a block just freed, every entry follows from the two below it by the merge rule. */
  ghost predicate MergedOn(target: seq<int>, full: seq<int>, path: set<nat>) {
    forall p {:trigger MergedAt(target, full, p)} :: p in path ==> MergedAt(target, full, p)
  }

  /** Changing one block between free and live: the array to be reached differs, besides the block's own entry,
      only on the path above it, and there each entry follows from the two below it. */
  lemma Climb(v: seq<int>, t: Tree, h: nat, a: nat, s: Tree, x: int) returns (target: seq<int>, full: seq<int>)
    requires IsImage(v, t, h) && a < |v| && Canonical(t, h) && !Sub(t, a).Node? && !s.Node?
    requires Depth(a) <= h && x == Longest(s, h - Depth(a))
    ensures Canonical(SetAt(t, a, s), h)
    ensures IsImage(target, SetAt(t, a, s), h) && IsImage(full, Free, h)
    ensures SameExcept(v[a := x], target, Path(a))
    ensures MergedOn(target, full, Path(a)) && full[a] == Pow2(h - Depth(a))
    ensures s == Used ==> MaxOn(target, Path(a))
  {
    var u := SetAt(t, a, s);
    SetAtCanonical(t, h, a, s);
    full := FullImage(h);
    target := seq(|v|, i requires 0 <= i => Value(u, h, i));
    PathIsAbove(a);
    forall j: nat | j < |v| && j !in Path(a)
      ensures v[a := x][j] == target[j]
    {
      AtomChange(t, a, s, j);
    }
    PathValues(target, full, t, h, a, s);
    FullValue(h, a);
  }

  lemma PathValues(target: seq<int>, full: seq<int>, t: Tree, h: nat, a: nat, s: Tree)
    requires Canonical(t, h) && Depth(a) <= h && !s.Node?
    requires IsImage(target, SetAt(t, a, s), h) && IsImage(full, Free, h)
    ensures MergedOn(target, full, Path(a))
    ensures s == Used ==> MaxOn(target, Path(a))
  {
    PathIsAbove(a);
    forall p <- Path(a)
      ensures MergedAt(target, full, p) && (s == Used ==> MaxAt(target, p))
    {
      PathValue(target, full, t, h, a, s, p);
    }
  }

  lemma PathValue(target: seq<int>, full: seq<int>, t: Tree, h: nat, a: nat, s: Tree, p: nat)
    requires Canonical(t, h) && Depth(a) <= h && !s.Node? && Below(p, a) && p != a
    requires IsImage(target, SetAt(t, a, s), h) && IsImage(full, Free, h)
    ensures MergedAt(target, full, p) && (s == Used ==> MaxAt(target, p))
  {
    BelowDepth(p, a);
    DepthAtMost(p, h);
    ValueAbove(t, h, a, s, p);
    FullPath(full, h, p);
  }

  lemma FullPath(full: seq<int>, h: nat, p: nat)
    requires IsImage(full, Free, h) && 2 * p + 2 < |full| && Depth(p) < h
    ensures full[p] == Pow2(h - Depth(p)) == 2 * full[2 * p + 1] == 2 * full[2 * p + 2]
  {
    Children(Free, p);
    FullValue(h, p);
    FullValue(h, 2 * p + 1);
    FullValue(h, 2 * p + 2);
  }

  lemma FullValue(h: nat, i: nat)
    requires Depth(i) <= h
    ensures Value(Free, h, i) == Pow2(h - Depth(i))
  {
    if i > 0 {
      BelowRoot(i);
      BelowAtom(Free, 0, i);
    }
  }

  /** The array of a heap without live blocks. */
  lemma FullImage(h: nat) returns (v: seq<int>)
    ensures IsImage(v, Free, h)
  {
    v := seq(2 * Pow2(h) - 1, i requires 0 <= i => Value(Free, h, i));
  }

  /** Once node p has its new value, only the nodes above it may still have old ones. */
  lemma Repaired(v: seq<int>, w: seq<int>, target: seq<int>, p: nat, above: set<nat>)
    requires p < |v| && SameExcept(v, target, {p} + above) && w == v[p := target[p]]
    ensures SameExcept(w, target, above)
  {
  }

  /** One step up the path: both children of the parent already agree with the target. */
  lemma PathStep(i: nat, a: nat) returns (p: nat)
    requires i > 0 && (i == a || i in Path(a))
    ensures p == (i + 1) / 2 - 1 && (i == 2 * p + 1 || i == 2 * p + 2)
    ensures p in Path(a) && Path(i) == {p} + Path(p)
    ensures 2 * p + 1 !in Path(i) && 2 * p + 2 !in Path(i)
  {
    p := Parent(i);
    PathIsAbove(i);
    PathIsAbove(p);
    PathIsAbove(a);
    BelowStep(p, p, i);
    BelowTransitive(p, i, a);
    BelowOrder(i, a);
    AboveOnly(2 * p + 1, p);
    AboveOnly(2 * p + 2, p);
  }

  lemma {:induction false} BelowDepth(p: nat, a: nat)
    requires Below(p, a)
    ensures Depth(p) <= Depth(a) && (p != a ==> Depth(p) < Depth(a))
  {
    if p != a { BelowDepth(p, Parent(a)); }
  }

  lemma {:induction false} BelowTransitive(a: nat, b: nat, c: nat)
    requires Below(a, b) && Below(b, c)
    ensures Below(a, c)
  {
    if b != c {
      BelowTransitive(a, b, Parent(c));
      BelowOrder(a, Parent(c));
    }
  }

  // ----- the loops themselves ----------------------------------------------

  /** The size buddyAlloc really serves, as an exponent. */
  ghost function Rounded(size: int): nat {
    if size <= 0 then 0 else CeilExp(size)
  }

  /** It has room for the request, and half of it would not have. */
  lemma RoundedIsLeast(size: int)
    ensures size <= Pow2(Rounded(size))
    ensures if size <= 1 then Pow2(Rounded(size)) == 1 else Pow2(Rounded(size)) < 2 * size
  {
    var k := Rounded(size);
    assert Pow2(0) == 1;
    if size > 1 { assert k > 0 && Pow2(k - 1) < size; }
  }

  /** The IS_POWER_OF_2 macro; its value for a request that is not positive is never used. */
  method IsPowerOf2(x: int) returns (b: bool)
    ensures x > 0 ==> (b <==> IsPow2(x))
  {
    if x <= 0 { return false; }
    ClearLowestBit(x);
    b := And(x, x - 1) == 0;
  }

  /** fixSize: the least power of two that is at least `size`. Above 2^30 the C expression overflows. */
  method FixSize(size: int) returns (r: int)
    requires 0 < size <= 0x4000_0000
    ensures r == Pow2(CeilExp(size))
  {
    var n := size - 1;
    n := Or(n, ShiftRight(n, 1));
    n := Or(n, ShiftRight(n, 2));
    n := Or(n, ShiftRight(n, 4));
    n := Or(n, ShiftRight(n, 8));
    n := Or(n, ShiftRight(n, 16));
    r := n + 1;
    assert n == Smear(size - 1);
    FixSizeIsCeil(size);
  }

  lemma CeilExpFits(size: int)
    requires 0 < size <= 0x4000_0000
    ensures CeilExp(size) <= 30
    ensures CeilExp(size) > 0 ==> Pow2(CeilExp(size) - 1) < size
  {
    Pow2Values();
  }

  lemma FixSizeIsCeil(size: int)
    requires 0 < size <= 0x4000_0000
    ensures Smear(size - 1) + 1 == Pow2(CeilExp(size))
  {
    var k := CeilExp(size);
    CeilExpFits(size);
    if k > 0 {
      SmearFills(size - 1, k - 1);
    } else {
      SmearOfZero();
    }
  }

  class BuddyTree {
    var size: int            // number of smallest blocks
    var longest: array<int>
    ghost var height: nat
    ghost var tree: Tree

    ghost predicate Valid()
      reads this, longest
    {
      && Canonical(tree, height) && size == Pow2(height) && height <= 30
      && IsImage(longest[..], tree, height)
    }

    /** The live blocks. */
    ghost function Blocks(): set<Block>
      reads this
    {
      Live(tree, height, 0)
    }

    constructor (ghost h: nat, blocks: int)
      requires h <= 30 && blocks == Pow2(h)
      ensures Valid() && height == h && tree == Free && fresh(longest)
    {
      longest := new int[2 * blocks - 1];
      size := blocks;
      height := h;
      tree := Free;
      new;
      BuddyInit(h, blocks);
    }

    /** Every block free: the array holds the full size of every node, whatever it held before. */
    method BuddyInit(ghost h: nat, blocks: int)
      requires h <= 30 && blocks == Pow2(h) && longest.Length == 2 * blocks - 1
      modifies this`size, this`height, this`tree, longest
      ensures Valid() && height == h && tree == Free
    {
      size := blocks;
      height, tree := h, Free;
      var nodeSize := blocks * 2;
      var i := 0;
      while i < blocks * 2 - 1
        invariant 0 <= i <= longest.Length
        invariant InitSize(h, i, nodeSize)
        invariant forall j: nat :: j < i ==> FreshEntry(longest[j], h, j)
        modifies longest
      {
        nodeSize := NextNodeSize(h, i, nodeSize);
        longest[i] := nodeSize;
        i := i + 1;
      }
      assert IsImage(longest[..], Free, h);
    }

    /** Serves `request` smallest blocks, rounded up to a power of two; -1 when that is impossible. */
    method BuddyAlloc(request: int) returns (offset: int)
      requires Valid() && request <= 0x4000_0000
      modifies this`tree, longest
      ensures Valid()
      // complete: refused exactly when no aligned block of the rounded size is free
      ensures offset == -1 <==> !HasRoom(old(tree), height, Rounded(request))
      ensures offset == -1 ==> tree == old(tree)
      // sound: the block is aligned, inside the heap and apart from every live block, and becomes live
      ensures offset != -1 ==> offset >= 0 && Legal(old(tree), height, 0, Rounded(request), offset)
      ensures offset != -1 ==> Blocks() == old(Blocks()) + {Block(offset, Pow2(Rounded(request)))}
      // the choice among legal blocks
      ensures offset != -1 ==> Serves(old(tree), height, Rounded(request))
      ensures offset != -1 ==> (tree, offset) == Alloc(old(tree), height, Rounded(request))
    {
      var size := RoundUp(request);
      ghost var t, k := tree, Rounded(request);
      AllocOutcome(t, height, k);
      assert longest[..][0] == Value(t, height, 0) == Longest(t, height);
      if longest[0] < size {
        return -1;
      }
      offset := TakeBlock(size, k);
    }

    /** The rest of buddyAlloc, when the request can be served. */
    method TakeBlock(size: int, ghost k: nat) returns (offset: nat)
      requires Valid() && size == Pow2(k) && Serves(tree, height, k)
      modifies this`tree, longest
      ensures Valid() && (tree, offset) == Alloc(old(tree), height, k)
    {
      var index, nodeSize := Descend(size, k);
      ghost var after := SetAt(tree, index, Used);
      offset := (index + 1) * nodeSize - this.size;
      assert (after, offset) == Alloc(tree, height, k);
      ghost var target, _ := Climb(longest[..], tree, height, index, Used, 0);
      longest[index] := 0;
      RaiseParents(index, target);
      tree := after;
    }

    /** The smaller half is chosen if it is large enough. */
    method ChooseLeft(left: int, right: int, size: int) returns (r: bool)
      ensures r <==> TakesLeft(left, right, size)
    {
      if left <= right {
        if left >= size { r := true; } else { r := false; }
      } else {
        if right >= size { r := false; } else { r := true; }
      }
    }

    /** buddyAlloc's loop from the root down to a node of the requested size. */
    method Descend(size: int, ghost k: nat) returns (index: int, nodeSize: int)
      requires Valid() && size == Pow2(k) && Serves(tree, height, k)
      ensures 0 <= index < longest.Length && Sub(tree, index) == Free
      ensures nodeSize == size && Depth(index) <= height
      ensures Alloc(tree, height, k) == (SetAt(tree, index, Used), (index + 1) * nodeSize - this.size)
    {
      ghost var v, t, h := longest[..], tree, height;
      index := 0;
      nodeSize := this.size;
      ghost var d := h;
      DescendStart(t, h, k);
      while nodeSize != size
        invariant 0 <= index < |v| && nodeSize == Pow2(d)
        invariant Descending(t, h, k, index, d)
        decreases d
      {
        ghost var next := DescendStep(v, t, h, k, index, d);
        var left := ChooseLeft(longest[index * 2 + 1], longest[index * 2 + 2], size);
        index := if left then index * 2 + 1 else index * 2 + 2;
        nodeSize := nodeSize / 2;
        d := d - 1;
        assert index == next;
      }
      DescendEnd(t, h, k, index, d);
    }

    /** buddyAlloc's loop from a block just taken up to the root. */
    method RaiseParents(start: int, ghost target: seq<int>)
      requires 0 <= start < longest.Length
      requires SameExcept(longest[..], target, Path(start)) && MaxOn(target, Path(start))
      modifies longest
      ensures longest[..] == target
    {
      var index := start;
      while index != 0
        invariant 0 <= index < longest.Length && (index == start || index in Path(start))
        invariant SameExcept(longest[..], target, Path(index))
      {
        ghost var p := PathStep(index, start);
        index := (index + 1) / 2 - 1;
        assert index == p && MaxAt(target, p);
        ghost var v := longest[..];
        longest[index] := Max(longest[index * 2 + 1], longest[index * 2 + 2]);
        Repaired(v, longest[..], target, p, Path(index));
      }
    }

    /** Frees the live block that contains smallest block `offset`; does nothing if there is none. */
    method BuddyFree(offset: int)
      requires Valid() && 0 <= offset < size
      modifies this`tree, longest
      ensures Valid()
      ensures tree == Release(old(tree), height, offset)
      ensures forall b <- old(Blocks()) :: b.Contains(offset) ==> Blocks() == old(Blocks()) - {b}
      ensures (forall b <- old(Blocks()) :: !b.Contains(offset)) ==> tree == old(tree)
    {
      ReleaseOutcome(tree, height, offset);
      var index, nodeSize := FindLive(offset);
      if index == -1 {
        return;
      }
      ghost var target, full := Climb(longest[..], tree, height, index, Free, nodeSize);
      longest[index] := nodeSize;
      MergeParents(index, nodeSize, target, full);
      tree := SetAt(tree, index, Free);
    }

    /** buddyFree's loop from the smallest block up to the first node that holds 0. */
    method FindLive(offset: int) returns (index: int, nodeSize: int)
      requires Valid() && 0 <= offset < size
      ensures index == -1 ==> Release(tree, height, offset) == tree
      ensures index != -1 ==>
              && 0 <= index < longest.Length && Depth(index) <= height && nodeSize == Pow2(height - Depth(index))
              && Sub(tree, index) == Used && Release(tree, height, offset) == SetAt(tree, index, Free)
    {
      nodeSize := 1;
      index := offset + size - 1;
      ScanStart(tree, height, offset);
      while longest[index] != 0
        invariant 0 <= index < longest.Length && Scanning(tree, height, index, offset)
        invariant nodeSize == Pow2(height - Depth(index))
        decreases index
      {
        nodeSize := nodeSize * 2;
        if index == 0 {
          return -1, nodeSize;
        }
        ScanStep(tree, height, index, offset);
        index := (index + 1) / 2 - 1;
      }
      ReleaseAt(tree, height, index, offset);
    }

    /** The value of a node from those of its halves, which coalesce when both are entirely free. */
    method MergeOne(index: int, nodeSize: int)
      requires 0 <= index && index * 2 + 2 < longest.Length
      modifies longest
      ensures longest[..] == old(longest[..])[index := Merged(old(longest[index * 2 + 1]), old(longest[index * 2 + 2]), nodeSize)]
    {
      var leftLongest := longest[index * 2 + 1];
      var rightLongest := longest[index * 2 + 2];
      if leftLongest + rightLongest == nodeSize {
        longest[index] := nodeSize;
      } else {
        longest[index] := Max(leftLongest, rightLongest);
      }
    }

    /** buddyFree's loop from a block just freed up to the root. */
    method MergeParents(start: int, size: int, ghost target: seq<int>, ghost full: seq<int>)
      requires 0 <= start < longest.Length
      requires SameExcept(longest[..], target, Path(start)) && MergedOn(target, full, Path(start))
      requires |full| == |target| && size == full[start]
      modifies longest
      ensures longest[..] == target
    {
      var index, nodeSize := start, size;
      while index != 0
        invariant 0 <= index < longest.Length && (index == start || index in Path(start))
        invariant nodeSize == full[index]
        invariant SameExcept(longest[..], target, Path(index))
      {
        ghost var p := PathStep(index, start);
        index := (index + 1) / 2 - 1;
        assert index == p && MergedAt(target, full, p);
        nodeSize := nodeSize * 2;
        ghost var v := longest[..];
        MergeOne(index, nodeSize);
        Repaired(v, longest[..], target, p, Path(index));
      }
    }
  }

  // ----- what the methods above rely on ------------------------------------

  /** buddyAlloc's adjustment of the request. */
  method RoundUp(request: int) returns (size: int)
    requires request <= 0x4000_0000
    ensures size == Pow2(Rounded(request))
  {
    size := request;
    var isPower := IsPowerOf2(size);
    if size <= 0 {
      CeilExpOfPower(0);
      size := 1;
    } else if !isPower {
      size := FixSize(size);
    } else {
      ghost var j: nat :| size == Pow2(j);
      CeilExpOfPower(j);
    }
  }

  /** Some aligned block of size Pow2(k) meets no live block. */
  ghost predicate HasRoom(t: Tree, h: nat, k: nat) {
    k <= h && exists o: nat :: Legal(t, h, 0, k, o)
  }

  /** Soundness and completeness of the greedy descent, in one place. */
  lemma AllocOutcome(t: Tree, h: nat, k: nat)
    requires Canonical(t, h)
    ensures Pow2(k) <= Longest(t, h) <==> Serves(t, h, k)
    ensures Serves(t, h, k) <==> HasRoom(t, h, k)
    ensures Serves(t, h, k) ==>
            var (u, off) := Alloc(t, h, k);
            Legal(t, h, 0, k, off) && Live(u, h, 0) == Live(t, h, 0) + {Block(off, Pow2(k))}
  {
    LongestBounds(t, h);
    Pow2Order(k, h);
    if k <= h {
      LongestMeaning(t, h, 0, k);
      if Pow2(k) <= Longest(t, h) {
        AllocIsPlace(t, h, 0, k);
        PlaceAddsBlock(t, h, 0, k, Alloc(t, h, k).1);
      }
    }
  }

  lemma ReleaseOutcome(t: Tree, h: nat, x: nat)
    requires Canonical(t, h) && x < Pow2(h)
    ensures forall b <- Live(t, h, 0) :: b.Contains(x) ==> Live(Release(t, h, x), h, 0) == Live(t, h, 0) - {b}
    ensures (forall b <- Live(t, h, 0) :: !b.Contains(x)) ==> Release(t, h, x) == t
  {
    forall b <- Live(t, h, 0) | b.Contains(x)
      ensures Live(Release(t, h, x), h, 0) == Live(t, h, 0) - {b}
    {
      ReleaseIsExact(t, h, 0, x, b);
    }
    if !Owned(t, h, 0, x) { ReleaseOfFree(t, h, 0, x); }
  }

  lemma DescendStart(t: Tree, h: nat, k: nat)
    requires Serves(t, h, k)
    ensures Descending(t, h, k, 0, h)
  {
  }

  lemma DescendEnd(t: Tree, h: nat, k: nat, i: nat, d: nat)
    requires Descending(t, h, k, i, d) && Pow2(d) == Pow2(k)
    ensures Sub(t, i) == Free && Depth(i) + k == h
    ensures Alloc(t, h, k) == (SetAt(t, i, Used), (i + 1) * Pow2(k) - Pow2(h))
  {
    Pow2Order(k, d);
    LongestBounds(Sub(t, i), k);
    OffsetFormula(h, i, k);
  }

  /** buddyInit's nodeSize before entry i is written. */
  ghost predicate InitSize(h: nat, i: nat, nodeSize: int) {
    if i == 0 then nodeSize == 2 * Pow2(h) else Depth(i - 1) <= h && nodeSize == Pow2(h - Depth(i - 1))
  }

  predicate FreshEntry(x: int, h: nat, i: nat) {
    x == Value(Free, h, i)
  }

  /** buddyInit halves nodeSize where a new level of the tree starts. */
  method NextNodeSize(ghost h: nat, i: nat, nodeSize: int) returns (next: int)
    requires InitSize(h, i, nodeSize) && i < 2 * Pow2(h) - 1
    ensures InitSize(h, i + 1, next) && FreshEntry(next, h, i)
  {
    InitStep(h, i, nodeSize);
    next := nodeSize;
    var newLevel := IsPowerOf2(i + 1);
    if newLevel {
      next := next / 2;
    }
  }

  lemma InitStep(h: nat, i: nat, nodeSize: int)
    requires InitSize(h, i, nodeSize) && i < 2 * Pow2(h) - 1
    ensures var next := if IsPow2(i + 1) then nodeSize / 2 else nodeSize;
            InitSize(h, i + 1, next) && FreshEntry(next, h, i)
  {
    DepthAtMost(i, h);
    NextDepth(i);
    FullValue(h, i);
  }

  lemma DepthUnique(i: nat, d: nat)
    requires Pow2(d) <= i + 1 < Pow2(d + 1)
    ensures Depth(i) == d
  {
    DepthBounds(i);
    Pow2Order(d + 1, Depth(i));
    Pow2Order(Depth(i) + 1, d);
  }

  /** A new level of the tree starts exactly where i + 1 is a power of two. */
  lemma NextDepth(i: nat)
    ensures i > 0 ==> Depth(i) == Depth(i - 1) + (if IsPow2(i + 1) then 1 else 0)
    ensures i == 0 ==> IsPow2(i + 1)
  {
    if i == 0 {
      assert i + 1 == Pow2(0);
    } else if k: nat :| i + 1 == Pow2(k) {
      assert k > 0;
      DepthUnique(i, k);
      DepthUnique(i - 1, k - 1);
    } else {
      DepthBounds(i);
      assert i + 1 != Pow2(Depth(i));
      DepthUnique(i - 1, Depth(i));
    }
  }

  lemma LeafDepth(h: nat, leaf: nat)
    requires Pow2(h) - 1 <= leaf < 2 * Pow2(h) - 1
    ensures Depth(leaf) == h && Offset(h, leaf) == leaf + 1 - Pow2(h)
  {
    DepthAtMost(leaf, h);
    OffsetFormula(h, leaf, 0);
  }

  /** While buddyFree climbs, with x below index i: if the value at i is 0 then i is the live block that holds x,
      and otherwise releasing x below i changes nothing. */
  ghost predicate Scanning(t: Tree, h: nat, i: nat, x: int) {
    && Canonical(t, h) && Depth(i) <= h && Canonical(Sub(t, i), h - Depth(i))
    && Offset(h, i) <= x < Offset(h, i) + Pow2(h - Depth(i))
    && if Value(t, h, i) == 0 then Sub(t, i) == Used
       else Release(Sub(t, i), h - Depth(i), x - Offset(h, i)) == Sub(t, i)
  }

  lemma ScanStart(t: Tree, h: nat, x: nat)
    requires Canonical(t, h) && x < Pow2(h)
    ensures Scanning(t, h, x + Pow2(h) - 1, x) && Depth(x + Pow2(h) - 1) == h
  {
    LeafDepth(h, x + Pow2(h) - 1);
    SubCanonical(t, h, x + Pow2(h) - 1);
  }

  lemma ScanStep(t: Tree, h: nat, i: nat, x: int)
    requires Scanning(t, h, i, x) && i > 0 && Value(t, h, i) != 0
    ensures Scanning(t, h, Parent(i), x) && Depth(i) == Depth(Parent(i)) + 1
  {
    SubCanonical(t, h, Parent(i));
  }
}
