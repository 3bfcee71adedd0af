/** What a buddy heap is: a binary tree whose leaves are free or live blocks.
    The array of "longest free run" values that kernel/heap.c and user/malloc.c keep is a function of this tree
    (module BuddyArray), and this tree is a function of the set of live blocks (lemma TreeIsDetermined). */
module BuddySpec {
  import opened Powers

  /** `Free` and `Used` stand for a whole aligned block, `Node` for a block that has been split. */
  datatype Tree = Free | Used | Node(left: Tree, right: Tree)

  /** A run of smallest blocks, by number of the first one and length. */
  datatype Block = Block(offset: nat, length: nat) {
    predicate Contains(x: int) { offset <= x < offset + length }
    predicate Apart(other: Block) {
      offset + length <= other.offset || other.offset + other.length <= offset
    }
  }

  /** The halves of a block; the halves of a block that is not split are free. */
  function Left(t: Tree): Tree { if t.Node? then t.left else Free }
  function Right(t: Tree): Tree { if t.Node? then t.right else Free }

  /** Joins two halves, merging two free ones. */
  function Join(l: Tree, r: Tree): Tree {
    if l.Free? && r.Free? then Free else Node(l, r)
  }

  /** A tree of height at most h in which free halves have been merged. */
  predicate Canonical(t: Tree, h: nat) {
    t.Node? ==> h > 0 && Canonical(t.left, h - 1) && Canonical(t.right, h - 1) && !(t.left.Free? && t.right.Free?)
  }

  /** The size of the largest free block of a tree of height h. */
  function Longest(t: Tree, h: nat): nat {
    match t
    case Free => Pow2(h)
    case Used => 0
    case Node(l, r) => if h == 0 then 0 else Max(Longest(l, h - 1), Longest(r, h - 1))
  }

  function Max(a: int, b: int): int { if a > b then a else b }

  /** The live blocks of a tree of height h that starts at smallest block `base`. */
  ghost function Live(t: Tree, h: nat, base: nat): set<Block> {
    match t
    case Free => {}
    case Used => {Block(base, Pow2(h))}
    case Node(l, r) => if h == 0 then {} else Live(l, h - 1, base) + Live(r, h - 1, base + Pow2(h - 1))
  }

  /** Alloc as a function: buddyAlloc's descent, preferring the smaller half that still fits. */
  function Alloc(t: Tree, h: nat, k: nat): (r: (Tree, nat))
    requires Canonical(t, h) && k <= h && Pow2(k) <= Longest(t, h)
    decreases h
  {
    if h == k then (Used, 0)
    else
      LongestBounds(t, h);
      Pow2Monotonic(k, h - 1);
      var left, right := Longest(Left(t), h - 1), Longest(Right(t), h - 1);
      if TakesLeft(left, right, Pow2(k)) then
        var a := Alloc(Left(t), h - 1, k);
        (Join(a.0, Right(t)), a.1)
      else
        var a := Alloc(Right(t), h - 1, k);
        (Join(Left(t), a.0), Pow2(h - 1) + a.1)
  }

  predicate TakesLeft(left: int, right: int, size: int) {
    if left <= right then left >= size else right < size
  }

  /** Free as a function: the live block that contains smallest block `x` becomes free. */
  function Release(t: Tree, h: nat, x: int): (r: Tree)
    requires Canonical(t, h)
    ensures Canonical(r, h)
  {
    if !t.Node? then Free
    else if x < Pow2(h - 1) then Join(Release(t.left, h - 1, x), t.right)
    else Join(t.left, Release(t.right, h - 1, x - Pow2(h - 1)))
  }

  /** Marks the aligned block of size Pow2(k) at `off` as live. */
  function Place(t: Tree, h: nat, k: nat, off: int): Tree
    requires k <= h
    decreases h
  {
    if h == k then Used
    else if off < Pow2(h - 1) then Join(Place(Left(t), h - 1, k, off), Right(t))
    else Join(Left(t), Place(Right(t), h - 1, k, off - Pow2(h - 1)))
  }

  /** `off` is a multiple of Pow2(k) (lemma AlignedIsMultiple). */
  predicate Aligned(off: nat, k: nat) {
    k == 0 || (off % 2 == 0 && Aligned(off / 2, k - 1))
  }

  /** `off` starts an aligned block of size Pow2(k) inside the heap that meets no live block.
      Offsets are relative to the start `base` of the (part of the) heap that the tree describes. */
  ghost predicate Legal(t: Tree, h: nat, base: nat, k: nat, off: nat) {
    && off + Pow2(k) <= Pow2(h) && Aligned(off, k)
    && forall b <- Live(t, h, base) :: b.Apart(Block(base + off, Pow2(k)))
  }

  // ----- basic facts -------------------------------------------------------

  lemma {:induction false} LongestBounds(t: Tree, h: nat)
    requires Canonical(t, h)
    ensures Longest(t, h) <= Pow2(h)
    ensures Longest(t, h) == Pow2(h) <==> t.Free?
    decreases t
  {
    if t.Node? {
      LongestBounds(t.left, h - 1);
      LongestBounds(t.right, h - 1);
    }
  }

  /** The array's rule for a split block: merge two full halves, otherwise take the larger value. */
  lemma LongestOfJoin(l: Tree, r: Tree, h: nat)
    requires h > 0 && Canonical(l, h - 1) && Canonical(r, h - 1)
    ensures var a, b := Longest(l, h - 1), Longest(r, h - 1);
            Longest(Join(l, r), h) == if a + b == Pow2(h) then Pow2(h) else Max(a, b)
    ensures Canonical(Join(l, r), h)
  {
    LongestBounds(l, h - 1);
    LongestBounds(r, h - 1);
  }

  lemma {:induction false} LiveShape(t: Tree, h: nat, base: nat)
    requires Canonical(t, h)
    ensures forall b <- Live(t, h, base) :: base <= b.offset && b.offset + b.length <= base + Pow2(h) && b.length > 0
    ensures t.Node? ==> forall b <- Live(t, h, base) :: b.length <= Pow2(h - 1)
    ensures forall b <- Live(t, h, base) :: !b.Apart(Block(base, Pow2(h)))
    ensures Live(t, h, base) == {} <==> t.Free?
    decreases t
  {
    if t.Node? {
      LiveShape(t.left, h - 1, base);
      LiveShape(t.right, h - 1, base + Pow2(h - 1));
      Pow2Monotonic(h - 1, h);
      if h >= 2 { Pow2Monotonic(h - 2, h - 1); }
    }
  }

  /** Live blocks never overlap. */
  lemma {:induction false} LiveBlocksApart(t: Tree, h: nat, base: nat)
    requires Canonical(t, h)
    ensures forall b, c | b in Live(t, h, base) && c in Live(t, h, base) && b != c :: b.Apart(c)
    decreases t
  {
    if t.Node? {
      LiveBlocksApart(t.left, h - 1, base);
      LiveBlocksApart(t.right, h - 1, base + Pow2(h - 1));
      LiveShape(t.left, h - 1, base);
      LiveShape(t.right, h - 1, base + Pow2(h - 1));
    }
  }

  /** The live blocks of a split heap, sorted into its halves. */
  lemma LiveOfHalves(t: Tree, h: nat, base: nat)
    requires Canonical(t, h) && t.Node?
    ensures Live(t.left, h - 1, base) == set b <- Live(t, h, base) | b.offset < base + Pow2(h - 1)
    ensures Live(t.right, h - 1, base + Pow2(h - 1)) == set b <- Live(t, h, base) | b.offset >= base + Pow2(h - 1)
  {
    LiveShape(t.left, h - 1, base);
    LiveShape(t.right, h - 1, base + Pow2(h - 1));
  }

  /** The set of live blocks determines the whole tree, hence the whole array. */
  lemma {:induction false} TreeIsDetermined(t: Tree, u: Tree, h: nat, base: nat)
    requires Canonical(t, h) && Canonical(u, h)
    requires Live(t, h, base) == Live(u, h, base)
    ensures t == u
    decreases h
  {
    if t.Node? && u.Node? {
      LiveOfHalves(t, h, base);
      LiveOfHalves(u, h, base);
      TreeIsDetermined(t.left, u.left, h - 1, base);
      TreeIsDetermined(t.right, u.right, h - 1, base + Pow2(h - 1));
    } else {
      LiveShape(t, h, base);
      LiveShape(u, h, base);
      if t.Used? || u.Used? {
        assert Block(base, Pow2(h)) in Live(t, h, base);
      }
    }
  }

  // ----- placing a block ---------------------------------------------------

  /** Dividing by 2 m is dividing by 2 and then by m. */
  lemma DivideTwice(x: nat, m: nat)
    requires m > 0
    ensures x % (2 * m) == 2 * (x / 2 % m) + x % 2
  {
    var q, s := x / 2 / m, x / 2 % m;
    assert x / 2 == q * m + s;
    QuotientIsUnique(x, 2 * m, q, 2 * s + x % 2) by {
      assert x == 2 * (x / 2) + x % 2;
      assert q * (2 * m) == 2 * (q * m);
    }
  }

  lemma QuotientIsUnique(x: nat, m: nat, q: nat, r: nat)
    requires x == q * m + r && r < m
    ensures x % m == r && x / m == q
  {
    var d := x / m - q;
    assert x == x / m * m + x % m;
    assert d * m == x / m * m - q * m;
    assert d >= 1 ==> d * m >= m;
    assert d <= -1 ==> d * m + m <= 0;
  }

  lemma {:induction false} AlignedIsMultiple(off: nat, k: nat)
    ensures Aligned(off, k) <==> off % Pow2(k) == 0
  {
    if k > 0 {
      AlignedIsMultiple(off / 2, k - 1);
      DivideTwice(off, Pow2(k - 1));
    }
  }

  /** An aligned block smaller than the heap lies in one half, and is aligned there. */
  lemma {:induction false} AlignedInHalf(h: nat, k: nat, off: nat)
    requires k < h && Aligned(off, k) && off + Pow2(k) <= Pow2(h)
    ensures off < Pow2(h - 1) ==> off + Pow2(k) <= Pow2(h - 1)
    ensures off >= Pow2(h - 1) ==> Aligned(off - Pow2(h - 1), k)
    decreases k
  {
    if k > 0 {
      AlignedInHalf(h - 1, k - 1, off / 2);
    }
  }

  lemma {:induction false} AlignedFromHalf(h: nat, k: nat, off: nat)
    requires k < h && Aligned(off, k)
    ensures Aligned(off + Pow2(h - 1), k)
    decreases k
  {
    if k > 0 {
      AlignedFromHalf(h - 1, k - 1, off / 2);
      assert (off + Pow2(h - 1)) / 2 == off / 2 + Pow2(h - 2);
    }
  }

  lemma {:induction false} AlignedZero(k: nat)
    ensures Aligned(0, k)
  {
    if k > 0 { AlignedZero(k - 1); }
  }

  /** A legal place of a split heap is a legal place of one of its halves. */
  lemma LegalInHalf(t: Tree, h: nat, base: nat, k: nat, off: nat)
    requires Canonical(t, h) && k < h && Legal(t, h, base, k, off)
    ensures off < Pow2(h - 1) ==> Legal(Left(t), h - 1, base, k, off)
    ensures off >= Pow2(h - 1) ==> Legal(Right(t), h - 1, base + Pow2(h - 1), k, off - Pow2(h - 1))
    ensures !t.Used?
  {
    AlignedInHalf(h, k, off);
    if t.Used? {
      assert Block(base, Pow2(h)) in Live(t, h, base);
    } else {
      assert Live(Left(t), h - 1, base) <= Live(t, h, base);
      assert Live(Right(t), h - 1, base + Pow2(h - 1)) <= Live(t, h, base);
    }
  }

  lemma LegalFromHalf(t: Tree, h: nat, base: nat, k: nat, off: nat)
    requires Canonical(t, h) && k < h && !t.Used?
    requires if off < Pow2(h - 1) then Legal(Left(t), h - 1, base, k, off)
             else Legal(Right(t), h - 1, base + Pow2(h - 1), k, off - Pow2(h - 1))
    ensures Legal(t, h, base, k, off)
  {
    if off >= Pow2(h - 1) { AlignedFromHalf(h, k, off - Pow2(h - 1)); }
    if t.Node? {
      LiveShape(t.left, h - 1, base);
      LiveShape(t.right, h - 1, base + Pow2(h - 1));
    }
  }

  /** A block added to one half is added to the whole. */
  lemma LiveOfJoin(l: Tree, r: Tree, h: nat, base: nat)
    requires h > 0
    ensures Live(Join(l, r), h, base) == Live(l, h - 1, base) + Live(r, h - 1, base + Pow2(h - 1))
  {
  }

  lemma JoinAddsBlock(l: Tree, r: Tree, l': Tree, r': Tree, h: nat, base: nat, b: Block)
    requires h > 0
    requires || (r' == r && Live(l', h - 1, base) == Live(l, h - 1, base) + {b})
             || (l' == l && Live(r', h - 1, base + Pow2(h - 1)) == Live(r, h - 1, base + Pow2(h - 1)) + {b})
    requires Canonical(l', h - 1) && Canonical(r', h - 1) && !(l'.Free? && r'.Free?)
    ensures Canonical(Join(l', r'), h) && !Join(l', r').Free?
    ensures Live(Join(l', r'), h, base) == Live(Join(l, r), h, base) + {b}
  {
    LiveOfJoin(l, r, h, base);
    LiveOfJoin(l', r', h, base);
  }

  /** A block that is not live is the join of its halves. */
  lemma JoinOfHalves(t: Tree, h: nat)
    requires Canonical(t, h) && !t.Used?
    ensures Join(Left(t), Right(t)) == t
  {
  }

  /** Placing a block adds exactly that block to the live blocks. */
  lemma {:induction false} PlaceAddsBlock(t: Tree, h: nat, base: nat, k: nat, off: nat)
    requires Canonical(t, h) && k <= h && Legal(t, h, base, k, off)
    ensures Canonical(Place(t, h, k, off), h)
    ensures !Place(t, h, k, off).Free?
    ensures Live(Place(t, h, k, off), h, base) == Live(t, h, base) + {Block(base + off, Pow2(k))}
    decreases h
  {
    if h == k {
      assert off == 0;
      WholeHeapLegal(t, h, base);
    } else {
      var m := Pow2(h - 1);
      var l, r := Left(t), Right(t);
      LegalInHalf(t, h, base, k, off);
      JoinOfHalves(t, h);
      if off < m {
        PlaceAddsBlock(l, h - 1, base, k, off);
        var l' := Place(l, h - 1, k, off);
        assert Place(t, h, k, off) == Join(l', r);
        JoinAddsBlock(l, r, l', r, h, base, Block(base + off, Pow2(k)));
      } else {
        PlaceAddsBlock(r, h - 1, base + m, k, off - m);
        var r' := Place(r, h - 1, k, off - m);
        assert Place(t, h, k, off) == Join(l, r');
        JoinAddsBlock(l, r, l, r', h, base, Block(base + off, Pow2(k)));
      }
    }
  }

  lemma WholeHeapLegal(t: Tree, h: nat, base: nat)
    requires Canonical(t, h) && Legal(t, h, base, h, 0)
    ensures t.Free?
  {
    LiveShape(t, h, base);
  }

  // ----- allocation: sound, complete, least harmful ------------------------

  /** The descent finds a legal place and makes exactly that place live. */
  lemma {:induction false} AllocIsPlace(t: Tree, h: nat, base: nat, k: nat)
    requires Canonical(t, h) && k <= h && Pow2(k) <= Longest(t, h)
    ensures Legal(t, h, base, k, Alloc(t, h, k).1)
    ensures Alloc(t, h, k).0 == Place(t, h, k, Alloc(t, h, k).1)
    decreases h
  {
    LongestBounds(t, h);
    if h > k {
      Pow2Monotonic(k, h - 1);
      var left, right := Longest(Left(t), h - 1), Longest(Right(t), h - 1);
      if TakesLeft(left, right, Pow2(k)) {
        AllocIsPlace(Left(t), h - 1, base, k);
      } else {
        AllocIsPlace(Right(t), h - 1, base + Pow2(h - 1), k);
      }
      LegalFromHalf(t, h, base, k, Alloc(t, h, k).1);
    } else {
      assert t.Free?;
      AlignedZero(k);
    }
  }

  /** `Longest` says exactly which sizes can still be served. */
  lemma LongestMeaning(t: Tree, h: nat, base: nat, k: nat)
    requires Canonical(t, h) && k <= h
    ensures Pow2(k) <= Longest(t, h) <==> exists off: nat :: Legal(t, h, base, k, off)
  {
    if Pow2(k) <= Longest(t, h) {
      AllocIsPlace(t, h, base, k);
    }
    if off: nat :| Legal(t, h, base, k, off) {
      LegalFits(t, h, base, k, off);
    }
  }

  lemma {:induction false} LegalFits(t: Tree, h: nat, base: nat, k: nat, off: nat)
    requires Canonical(t, h) && k <= h && Legal(t, h, base, k, off)
    ensures Pow2(k) <= Longest(t, h)
    decreases h
  {
    if h == k {
      assert off == 0;
      WholeHeapLegal(t, h, base);
    } else {
      LegalInHalf(t, h, base, k, off);
      Pow2Monotonic(k, h);
      if t.Node? {
        if off < Pow2(h - 1) {
          LegalFits(t.left, h - 1, base, k, off);
        } else {
          LegalFits(t.right, h - 1, base + Pow2(h - 1), k, off - Pow2(h - 1));
        }
      }
    }
  }

  /** A placement below a split leaves the other half alone. */
  lemma PlaceValue(t: Tree, h: nat, base: nat, k: nat, off: nat)
    requires Canonical(t, h) && k < h && Legal(t, h, base, k, off)
    ensures Longest(Place(t, h, k, off), h) ==
            if off < Pow2(h - 1)
            then Max(Longest(Place(Left(t), h - 1, k, off), h - 1), Longest(Right(t), h - 1))
            else Max(Longest(Left(t), h - 1), Longest(Place(Right(t), h - 1, k, off - Pow2(h - 1)), h - 1))
  {
    LegalInHalf(t, h, base, k, off);
    if off < Pow2(h - 1) {
      PlaceAddsBlock(Left(t), h - 1, base, k, off);
    } else {
      PlaceAddsBlock(Right(t), h - 1, base + Pow2(h - 1), k, off - Pow2(h - 1));
    }
  }

  /** A placement never makes the largest free block larger. */
  lemma {:induction false} PlaceShrinks(t: Tree, h: nat, base: nat, k: nat, off: nat)
    requires Canonical(t, h) && k <= h && Legal(t, h, base, k, off)
    ensures Longest(Place(t, h, k, off), h) <= Longest(t, h)
    decreases h
  {
    if h > k {
      LegalInHalf(t, h, base, k, off);
      PlaceValue(t, h, base, k, off);
      if off < Pow2(h - 1) {
        PlaceShrinks(Left(t), h - 1, base, k, off);
      } else {
        PlaceShrinks(Right(t), h - 1, base + Pow2(h - 1), k, off - Pow2(h - 1));
      }
    }
  }

  /** A placement never makes the half that it falls into offer more. */
  lemma HalfShrinks(t: Tree, h: nat, base: nat, k: nat, off: nat)
    requires Canonical(t, h) && k < h && Legal(t, h, base, k, off)
    ensures off < Pow2(h - 1) ==>
            Pow2(k) <= Longest(Left(t), h - 1) && Longest(Place(Left(t), h - 1, k, off), h - 1) <= Longest(Left(t), h - 1)
    ensures off >= Pow2(h - 1) ==>
            Pow2(k) <= Longest(Right(t), h - 1) &&
            Longest(Place(Right(t), h - 1, k, off - Pow2(h - 1)), h - 1) <= Longest(Right(t), h - 1)
  {
    LegalInHalf(t, h, base, k, off);
    if off < Pow2(h - 1) {
      LegalFits(Left(t), h - 1, base, k, off);
      PlaceShrinks(Left(t), h - 1, base, k, off);
    } else {
      LegalFits(Right(t), h - 1, base + Pow2(h - 1), k, off - Pow2(h - 1));
      PlaceShrinks(Right(t), h - 1, base + Pow2(h - 1), k, off - Pow2(h - 1));
    }
  }

  /** The descent, one level at a time. */
  lemma AllocValue(t: Tree, h: nat, base: nat, k: nat)
    requires Canonical(t, h) && k < h && Pow2(k) <= Longest(t, h)
    ensures var left, right := Longest(Left(t), h - 1), Longest(Right(t), h - 1);
            if TakesLeft(left, right, Pow2(k))
            then Pow2(k) <= left && Longest(Alloc(t, h, k).0, h) == Max(Longest(Alloc(Left(t), h - 1, k).0, h - 1), right)
            else Pow2(k) <= right && Longest(Alloc(t, h, k).0, h) == Max(left, Longest(Alloc(Right(t), h - 1, k).0, h - 1))
  {
    LongestBounds(t, h);
    Pow2Monotonic(k, h - 1);
    var left, right := Longest(Left(t), h - 1), Longest(Right(t), h - 1);
    if TakesLeft(left, right, Pow2(k)) {
      AllocIsPlace(Left(t), h - 1, base, k);
      PlaceAddsBlock(Left(t), h - 1, base, k, Alloc(Left(t), h - 1, k).1);
    } else {
      AllocIsPlace(Right(t), h - 1, base + Pow2(h - 1), k);
      PlaceAddsBlock(Right(t), h - 1, base + Pow2(h - 1), k, Alloc(Right(t), h - 1, k).1);
    }
  }

  /** A placement in the half that the descent takes. */
  lemma SameHalf(t: Tree, h: nat, base: nat, k: nat, off: nat)
    requires Canonical(t, h) && k < h && Legal(t, h, base, k, off) && Pow2(k) <= Longest(t, h)
    requires TakesLeft(Longest(Left(t), h - 1), Longest(Right(t), h - 1), Pow2(k)) <==> off < Pow2(h - 1)
    requires off < Pow2(h - 1) ==>
               Pow2(k) <= Longest(Left(t), h - 1) &&
               Longest(Place(Left(t), h - 1, k, off), h - 1) <= Longest(Alloc(Left(t), h - 1, k).0, h - 1)
    requires off >= Pow2(h - 1) ==>
               Pow2(k) <= Longest(Right(t), h - 1) &&
               Longest(Place(Right(t), h - 1, k, off - Pow2(h - 1)), h - 1) <= Longest(Alloc(Right(t), h - 1, k).0, h - 1)
    ensures Longest(Place(t, h, k, off), h) <= Longest(Alloc(t, h, k).0, h)
  {
    AllocValue(t, h, base, k);
    PlaceValue(t, h, base, k, off);
  }

  /** Of two halves that offer the same, the descent takes the lower: an empty heap is served from its start. */
  lemma {:induction false} EmptyHeapServesFromItsStart(h: nat, k: nat)
    requires k <= h
    ensures Longest(Free, h) == Pow2(h) >= Pow2(k)
    ensures Alloc(Free, h, k).1 == 0
  {
    Pow2Monotonic(k, h);
    if k < h {
      EmptyHeapServesFromItsStart(h - 1, k);
    }
  }

  /** The half that the descent does not choose is either too small, or no smaller than the chosen one. */
  lemma OtherHalf(t: Tree, h: nat, base: nat, k: nat, off: nat)
    requires Canonical(t, h) && k < h && Legal(t, h, base, k, off) && Pow2(k) <= Longest(t, h)
    requires TakesLeft(Longest(Left(t), h - 1), Longest(Right(t), h - 1), Pow2(k)) <==> off >= Pow2(h - 1)
    ensures Longest(Place(t, h, k, off), h) <= Longest(Alloc(t, h, k).0, h)
  {
    AllocValue(t, h, base, k);
    PlaceValue(t, h, base, k, off);
    HalfShrinks(t, h, base, k, off);
  }

  /** No legal placement leaves a larger free block than the greedy descent does. */
  lemma {:induction false} LeastHarm(t: Tree, h: nat, base: nat, k: nat, off: nat)
    requires Canonical(t, h) && k <= h && Legal(t, h, base, k, off)
    ensures Pow2(k) <= Longest(t, h)
    ensures Longest(Place(t, h, k, off), h) <= Longest(Alloc(t, h, k).0, h)
    decreases h
  {
    LegalFits(t, h, base, k, off);
    if h > k {
      var m := Pow2(h - 1);
      var takesLeft := TakesLeft(Longest(Left(t), h - 1), Longest(Right(t), h - 1), Pow2(k));
      if takesLeft <==> off >= m {
        OtherHalf(t, h, base, k, off);
      } else {
        LegalInHalf(t, h, base, k, off);
        if takesLeft {
          LeastHarm(Left(t), h - 1, base, k, off);
        } else {
          LeastHarm(Right(t), h - 1, base + m, k, off - m);
        }
        SameHalf(t, h, base, k, off);
      }
    }
  }

  /** Least harm in terms of live blocks alone: whatever heap has one more legal block of the requested size,
      its largest free block is no larger than the one buddyAlloc leaves. */
  lemma LeastHarmAmongAllHeaps(t: Tree, u: Tree, h: nat, k: nat, off: nat)
    requires Canonical(t, h) && Canonical(u, h) && k <= h && Legal(t, h, 0, k, off)
    requires Live(u, h, 0) == Live(t, h, 0) + {Block(off, Pow2(k))}
    ensures Pow2(k) <= Longest(t, h)
    ensures Longest(u, h) <= Longest(Alloc(t, h, k).0, h)
  {
    PlaceAddsBlock(t, h, 0, k, off);
    TreeIsDetermined(u, Place(t, h, k, off), h, 0);
    LeastHarm(t, h, 0, k, off);
  }

  // ----- release -----------------------------------------------------------

  /** Some live block contains smallest block `x`. */
  ghost predicate Owned(t: Tree, h: nat, base: nat, x: int) {
    exists b <- Live(t, h, base) :: b.Contains(x)
  }

  lemma OwnedInHalf(t: Tree, h: nat, base: nat, x: nat)
    requires Canonical(t, h) && t.Node? && x < Pow2(h)
    ensures Owned(t, h, base, base + x) <==>
            if x < Pow2(h - 1) then Owned(t.left, h - 1, base, base + x)
            else Owned(t.right, h - 1, base + Pow2(h - 1), base + x)
  {
    LiveShape(t.left, h - 1, base);
    LiveShape(t.right, h - 1, base + Pow2(h - 1));
  }

  /** Elsewhere than in a live block nothing changes. */
  lemma {:induction false} ReleaseOfFree(t: Tree, h: nat, base: nat, x: nat)
    requires Canonical(t, h) && x < Pow2(h) && !Owned(t, h, base, base + x)
    ensures Release(t, h, x) == t
    decreases t
  {
    if t.Node? {
      var m := Pow2(h - 1);
      OwnedInHalf(t, h, base, x);
      if x < m {
        ReleaseOfFree(t.left, h - 1, base, x);
      } else {
        assert base + x == (base + m) + (x - m);
        ReleaseOfFree(t.right, h - 1, base + m, x - m);
      }
    } else if t.Used? {
      assert Block(base, Pow2(h)).Contains(base + x);
    }
  }

  /** Releasing any smallest block of a live block removes precisely that live block. */
  lemma {:induction false} ReleaseIsExact(t: Tree, h: nat, base: nat, x: nat, b: Block)
    requires Canonical(t, h) && x < Pow2(h)
    requires b in Live(t, h, base) && b.Contains(base + x)
    ensures Live(Release(t, h, x), h, base) == Live(t, h, base) - {b}
    decreases t
  {
    if t.Node? {
      var m := Pow2(h - 1);
      LiveShape(t.left, h - 1, base);
      LiveShape(t.right, h - 1, base + m);
      if x < m {
        ReleaseIsExact(t.left, h - 1, base, x, b);
        assert b !in Live(t.right, h - 1, base + m);
      } else {
        assert base + x == (base + m) + (x - m);
        ReleaseIsExact(t.right, h - 1, base + m, x - m, b);
        assert b !in Live(t.left, h - 1, base);
      }
    }
  }

  /** Releasing any part of a block just placed restores the tree. */
  lemma ReleaseUndoesPlace(t: Tree, h: nat, k: nat, off: nat, x: nat)
    requires Canonical(t, h) && k <= h && Legal(t, h, 0, k, off)
    requires off <= x < off + Pow2(k)
    ensures Canonical(Place(t, h, k, off), h)
    ensures Release(Place(t, h, k, off), h, x) == t
  {
    var u, b := Place(t, h, k, off), Block(off, Pow2(k));
    PlaceAddsBlock(t, h, 0, k, off);
    ReleaseIsExact(u, h, 0, x, b);
    assert b !in Live(t, h, 0) by {
      assert !b.Apart(b);
    }
    TreeIsDetermined(Release(u, h, x), t, h, 0);
  }
}
