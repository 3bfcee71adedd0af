/** When segments can be mapped depends only on which tables and pages an address space has and on how many frames are
    free, not on where the tables are. */
module MappingKeys {
  import opened Basics
  import opened Sv39
  import opened MappingState
  import opened Segments

  /** The keys of the middle tables, of the last-level tables, and of the mapped pages. */
  datatype Keys = Keys(dirs: set<nat>, subs: set<nat>, pages: set<nat>)

  ghost function KeysOf(s: Shape): Keys { Keys(s.dir.Keys, s.sub.Keys, s.leaf.Keys) }

  /** The keys once the n pages from `start` on have been mapped. */
  ghost function KeysAfter(k: Keys, start: nat, n: nat): Keys {
    Keys(k.dirs + set i: nat | i < n :: DirKeyAt(start, i),
         k.subs + set i: nat | i < n :: SubKeyAt(start, i),
         k.pages + set i: nat | i < n :: PageKey(start, i))
  }

  /** How many tables have to be created for the n pages from `start` on. */
  ghost function TablesNeeded(k: Keys, start: nat, n: nat): nat {
    if n == 0 then 0
    else
      TablesNeeded(k, start, n - 1)
      + One(DirKeyAt(start, n - 1) !in k.dirs && !DirKeyUsed(start, n - 1, DirKeyAt(start, n - 1)))
      + One(SubKeyAt(start, n - 1) !in k.subs && !SubKeyUsed(start, n - 1, SubKeyAt(start, n - 1)))
  }

  /** The n pages from `start` on are unmapped and differ from one another. */
  ghost predicate PagesFree(k: Keys, start: nat, n: nat) {
    n <= VPN_LIMIT && forall i: nat :: i < n ==> PageKey(start, i) !in k.pages
  }

  /** The frames for n pages of a framed segment and its tables. */
  ghost function FrameCost(k: Keys, start: nat, n: nat): nat { TablesNeeded(k, start, n) + n }

  lemma {:induction false} TablesNeededIsNewTables(s: Shape, start: nat, n: nat)
    ensures TablesNeeded(KeysOf(s), start, n) == NewTables(s, start, n)
    decreases n
  {
    if n > 0 { TablesNeededIsNewTables(s, start, n - 1); }
  }

  /** A mapping has exactly the keys of its pages in addition. */
  lemma KeysOfMapped(p: Progress)
    ensures KeysOf(p.b.shape) == KeysAfter(KeysOf(p.a.shape), p.start, |p.ptes|)
  {
    assert Maps(p, 0);
    DirKeysOfMapped(p.a.shape, p.b.shape, p.start, |p.ptes|);
    SubKeysOfMapped(p.a.shape, p.b.shape, p.start, |p.ptes|);
    PagesOfMapped(p.a.shape.leaf, p.start, p.ptes);
  }

  lemma DirKeysOfMapped(s: Shape, t: Shape, start: nat, n: nat)
    requires DirKeysAdded(s, t, start, n)
    ensures t.dir.Keys == s.dir.Keys + set i: nat | i < n :: DirKeyAt(start, i)
  {
    forall k: nat
      ensures k in t.dir.Keys <==> k in s.dir.Keys + set i: nat | i < n :: DirKeyAt(start, i)
    {
      assert k in t.dir <==> k in s.dir || DirKeyUsed(start, n, k);
    }
  }

  lemma SubKeysOfMapped(s: Shape, t: Shape, start: nat, n: nat)
    requires SubKeysAdded(s, t, start, n)
    ensures t.sub.Keys == s.sub.Keys + set i: nat | i < n :: SubKeyAt(start, i)
  {
    forall k: nat
      ensures k in t.sub.Keys <==> k in s.sub.Keys + set i: nat | i < n :: SubKeyAt(start, i)
    {
      assert k in t.sub <==> k in s.sub || SubKeyUsed(start, n, k);
    }
  }

  lemma PagesOfMapped(leaf: map<nat, nat>, start: nat, ptes: seq<nat>)
    requires NoClash(leaf, start, |ptes|)
    ensures AddPages(leaf, start, ptes).Keys == leaf.Keys + set i: nat | i < |ptes| :: PageKey(start, i)
  {
    AddPagesLookup(leaf, start, ptes);
  }

  /** The pages of one segment. */
  datatype PageRun = PageRun(start: nat, pages: nat)

  ghost predicate RunFree(k: Keys, run: PageRun) { PagesFree(k, run.start, run.pages) }
  ghost function AfterRun(k: Keys, run: PageRun): Keys { KeysAfter(k, run.start, run.pages) }
  ghost function RunCost(k: Keys, run: PageRun): nat { FrameCost(k, run.start, run.pages) }

  /** Framed segments with these pages can be mapped one after the other: each finds its own pages unmapped, and frames
      enough for them and for the tables that are missing by then. */
  ghost predicate RunsFit(k: Keys, free: int, runs: seq<PageRun>)
    decreases |runs|
  {
    runs == [] || (RunFree(k, runs[0]) && RunCost(k, runs[0]) <= free && RunsFit(AfterRun(k, runs[0]), free - RunCost(k, runs[0]), runs[1..]))
  }

  /** All frames that they take. */
  ghost function RunsCost(k: Keys, runs: seq<PageRun>): nat
    decreases |runs|
  {
    if runs == [] then 0 else RunCost(k, runs[0]) + RunsCost(AfterRun(k, runs[0]), runs[1..])
  }

  ghost predicate Disjoint(p: PageRun, q: PageRun) {
    forall x: nat, y: nat :: x < p.pages && y < q.pages ==> PageKey(p.start, x) != PageKey(q.start, y)
  }

  ghost predicate AllFree(k: Keys, runs: seq<PageRun>) {
    forall i: nat {:trigger runs[i]} :: i < |runs| ==> RunFree(k, runs[i])
  }

  ghost predicate AllDisjoint(runs: seq<PageRun>) {
    forall i: nat, j: nat {:trigger runs[i], runs[j]} :: i < j < |runs| ==> Disjoint(runs[i], runs[j])
  }

  lemma FreeAfterRun(k: Keys, p: PageRun, q: PageRun)
    ensures RunFree(AfterRun(k, p), q) <==> RunFree(k, q) && Disjoint(p, q)
  {
    if RunFree(AfterRun(k, p), q) {
      forall x: nat, y: nat | x < p.pages && y < q.pages
        ensures PageKey(p.start, x) != PageKey(q.start, y)
      {
        assert PageKey(p.start, x) in AfterRun(k, p).pages;
      }
    }
  }

  lemma AllFreeAfterRun(k: Keys, runs: seq<PageRun>)
    requires runs != []
    ensures RunFree(k, runs[0]) && AllFree(AfterRun(k, runs[0]), runs[1..]) && AllDisjoint(runs[1..]) <==> AllFree(k, runs) && AllDisjoint(runs)
  {
    var rest := runs[1..];
    assert forall i: nat :: i < |rest| ==> rest[i] == runs[i + 1];
    forall i: nat | i < |rest|
      ensures RunFree(AfterRun(k, runs[0]), rest[i]) <==> RunFree(k, rest[i]) && Disjoint(runs[0], rest[i])
    {
      FreeAfterRun(k, runs[0], rest[i]);
    }
    assert forall i: nat :: 0 < i < |runs| ==> runs[i] == rest[i - 1];
  }

  /** The segments can be mapped in their order exactly when all their pages are unmapped, no two segments share a page,
      and the free frames suffice for all of them together. */
  lemma {:induction false} WhenRunsFit(k: Keys, free: nat, runs: seq<PageRun>)
    ensures RunsFit(k, free, runs) <==> AllFree(k, runs) && AllDisjoint(runs) && RunsCost(k, runs) <= free
    decreases |runs|
  {
    if runs != [] {
      AllFreeAfterRun(k, runs);
      if RunCost(k, runs[0]) <= free {
        WhenRunsFit(AfterRun(k, runs[0]), free - RunCost(k, runs[0]), runs[1..]);
      }
    }
  }

  /** A framed segment can be mapped by what the keys and the number of free frames say. */
  lemma MappableByKeys(a: State, run: PageRun)
    ensures Mappable(a, run.start, run.pages, 1) <==> RunFree(KeysOf(a.shape), run) && RunCost(KeysOf(a.shape), run) <= |a.free|
    ensures RunCost(KeysOf(a.shape), run) == NewTables(a.shape, run.start, run.pages) + run.pages
  {
    TablesNeededIsNewTables(a.shape, run.start, run.pages);
  }
}
