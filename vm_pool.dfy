/**
 * A pool of virtual memory: a range of logical addresses handed out in
 * regions. The pool keeps, in its first page, a list of allocated regions
 * (slots 0 .. 255) and a list of free regions (slots 256 .. 511); allocation
 * is first fit on the free list, release moves a region to the free list
 * without merging, and an address is legitimate when an allocated region
 * covers it.
 */
module VirtualMemory {
  import opened Util
  import opened Paging
  import RecursivePaging

  /** A region: base address and size in bytes. A released allocated slot holds (0, 0). */
  datatype Region = Region(base: nat, size: nat)

  /** Each of the two lists has 256 slots. */
  const LIST_CAPACITY: nat := 256
  /** The slots of the list page: allocated_list[k] is slot k, free_list[k] is slot 256 + k. */
  const SLOT_COUNT: nat := 512
  /** The lists occupy the pool's first 4096 bytes. */
  const LIST_PAGE_SIZE: nat := 4096

  /** Address `x` lies in region `r`. */
  predicate Covers(r: Region, x: int)
  {
    r.base <= x < r.base + r.size
  }

  /** Two regions have no address in common. */
  predicate Apart(r: Region, q: Region)
  {
    r.base + r.size <= q.base || q.base + q.size <= r.base
  }

  /** Slot `k` is one of the first `na` allocated entries or one of the first `nf` free entries. */
  predicate Live(na: nat, nf: nat, k: int)
  {
    0 <= k < na || LIST_CAPACITY <= k < LIST_CAPACITY + nf
  }

  /** free_list[j]: slot 256 + j of the list page. */
  function FreeEntry(slots: seq<Region>, j: nat): Region
    requires |slots| == SLOT_COUNT && j < LIST_CAPACITY
  {
    slots[LIST_CAPACITY + j]
  }

  /** The sum of the sizes of `rs`. */
  function SumSizes(rs: seq<Region>): nat
  {
    if |rs| == 0 then 0 else SumSizes(rs[..|rs| - 1]) + rs[|rs| - 1].size
  }

  /** Appending a region adds its size. */
  lemma SumSizesAppend(rs: seq<Region>, r: Region)
    ensures SumSizes(rs + [r]) == SumSizes(rs) + r.size
  {
    assert (rs + [r])[..|rs|] == rs;
  }

  /** Replacing one region swaps its size for the new one's. */
  lemma {:induction false} SumSizesUpdate(rs: seq<Region>, i: nat, r: Region)
    requires i < |rs|
    ensures SumSizes(rs[i := r]) + rs[i].size == SumSizes(rs) + r.size
    decreases |rs|
  {
    var n := |rs| - 1;
    assert rs[i := r][..n] == if i == n then rs[..n] else rs[..n][i := r];
    if i < n {
      SumSizesUpdate(rs[..n], i, r);
    }
  }

  /** The well-formed list page of a pool of `size` bytes at `base`. */
  predicate WellFormed(slots: seq<Region>, na: nat, nf: nat)
  {
    |slots| == SLOT_COUNT && na <= LIST_CAPACITY && nf <= LIST_CAPACITY
  }

  /** The sizes of all live entries: allocated ones first, then free ones. */
  function Total(slots: seq<Region>, na: nat, nf: nat): nat
    requires WellFormed(slots, na, nf)
  {
    SumSizes(slots[..na]) + SumSizes(slots[LIST_CAPACITY..LIST_CAPACITY + nf])
  }

  /**
   * The live entries split the pool: their sizes add up to the pool's size,
   * every non-empty one lies inside the pool, and no two non-empty ones
   * overlap.
   */
  ghost predicate Partition(slots: seq<Region>, na: nat, nf: nat, base: nat, size: nat)
    requires WellFormed(slots, na, nf)
  {
    Total(slots, na, nf) == size &&
    (forall k :: Live(na, nf, k) && slots[k].size > 0 ==>
      base <= slots[k].base && slots[k].base + slots[k].size <= base + size) &&
    (forall j, k ::
      Live(na, nf, j) && Live(na, nf, k) && j != k && slots[j].size > 0 && slots[k].size > 0 ==>
        Apart(slots[j], slots[k]))
  }

  /** The list page right after construction: the lists' own page allocated, the rest free. */
  function FreshSlots(base: nat, size: nat): (r: seq<Region>)
    requires LIST_PAGE_SIZE <= size
    ensures |r| == SLOT_COUNT
    ensures r[0] == Region(base, LIST_PAGE_SIZE)
    ensures FreeEntry(r, 0) == Region(base + LIST_PAGE_SIZE, size - LIST_PAGE_SIZE)
    ensures forall k :: 0 <= k < SLOT_COUNT && k != 0 && k != LIST_CAPACITY ==> r[k] == Region(0, 0)
  {
    seq(SLOT_COUNT, k =>
      if k == 0 then Region(base, LIST_PAGE_SIZE)
      else if k == LIST_CAPACITY then Region(base + LIST_PAGE_SIZE, size - LIST_PAGE_SIZE)
      else Region(0, 0))
  }

  /** A fresh pool's two entries split it. */
  lemma FreshSlotsPartition(base: nat, size: nat)
    requires LIST_PAGE_SIZE <= size
    ensures WellFormed(FreshSlots(base, size), 1, 1)
    ensures Partition(FreshSlots(base, size), 1, 1, base, size)
  {
    var s := FreshSlots(base, size);
    assert s[..1] == [s[0]];
    assert s[LIST_CAPACITY..LIST_CAPACITY + 1] == [s[LIST_CAPACITY]];
    assert SumSizes([s[0]]) == s[0].size;
    assert SumSizes([s[LIST_CAPACITY]]) == s[LIST_CAPACITY].size;
  }

  // ---------------------------------------------------------------------------
  // allocate
  // ---------------------------------------------------------------------------

  /** The first free entry at or after `from` with room for `s` bytes. */
  function FirstFitFrom(slots: seq<Region>, nf: nat, s: nat, from: nat): (r: Option<nat>)
    requires |slots| == SLOT_COUNT && nf <= LIST_CAPACITY && from <= nf
    ensures r.Some? ==> from <= r.value < nf && s <= FreeEntry(slots, r.value).size
    ensures r.Some? ==> forall j :: from <= j < r.value ==> FreeEntry(slots, j).size < s
    ensures r.None? ==> forall j :: from <= j < nf ==> FreeEntry(slots, j).size < s
    decreases nf - from
  {
    if from == nf then None
    else if s <= slots[LIST_CAPACITY + from].size then Some(from)
    else FirstFitFrom(slots, nf, s, from + 1)
  }

  /** The first free entry with room for `s` bytes. */
  function FirstFit(slots: seq<Region>, nf: nat, s: nat): (r: Option<nat>)
    requires |slots| == SLOT_COUNT && nf <= LIST_CAPACITY
    ensures r.Some? ==> r.value < nf && s <= FreeEntry(slots, r.value).size
    ensures r.Some? ==> forall j :: 0 <= j < r.value ==> FreeEntry(slots, j).size < s
    ensures r.None? ==> forall j :: 0 <= j < nf ==> FreeEntry(slots, j).size < s
  {
    FirstFitFrom(slots, nf, s, 0)
  }

  /**
   * The list page after `s` bytes are taken from the front of free entry `i`:
   * allocated entry `na` becomes the region taken, and the free entry keeps
   * what is left.
   */
  function Carve(slots: seq<Region>, na: nat, i: nat, s: nat): (r: seq<Region>)
    requires |slots| == SLOT_COUNT && na < LIST_CAPACITY && i < LIST_CAPACITY
    requires s <= slots[LIST_CAPACITY + i].size
    ensures |r| == SLOT_COUNT
    ensures r[na] == Region(FreeEntry(slots, i).base, s)
    ensures FreeEntry(r, i) == Region(FreeEntry(slots, i).base + s, FreeEntry(slots, i).size - s)
    ensures forall k :: 0 <= k < SLOT_COUNT && k != na && k != LIST_CAPACITY + i ==> r[k] == slots[k]
  {
    var f := slots[LIST_CAPACITY + i];
    slots[na := Region(f.base, s)][LIST_CAPACITY + i := Region(f.base + s, f.size - s)]
  }

  /** Allocation keeps the sum of the live entries' sizes. */
  lemma CarveTotal(slots: seq<Region>, na: nat, nf: nat, i: nat, s: nat)
    requires WellFormed(slots, na, nf) && na < LIST_CAPACITY && i < nf
    requires s <= slots[LIST_CAPACITY + i].size
    ensures WellFormed(Carve(slots, na, i, s), na + 1, nf)
    ensures Total(Carve(slots, na, i, s), na + 1, nf) == Total(slots, na, nf)
  {
    var r := Carve(slots, na, i, s);
    var f := slots[LIST_CAPACITY + i];
    var fr := slots[LIST_CAPACITY..LIST_CAPACITY + nf];
    assert r[..na + 1] == slots[..na] + [Region(f.base, s)];
    assert r[LIST_CAPACITY..LIST_CAPACITY + nf] == fr[i := Region(f.base + s, f.size - s)];
    SumSizesAppend(slots[..na], Region(f.base, s));
    SumSizesUpdate(fr, i, Region(f.base + s, f.size - s));
  }

  /** After allocation no two non-empty live entries overlap. */
  lemma CarveApart(slots: seq<Region>, na: nat, nf: nat, i: nat, s: nat, base: nat, size: nat, j: nat, k: nat)
    requires WellFormed(slots, na, nf) && na < LIST_CAPACITY && i < nf
    requires s <= slots[LIST_CAPACITY + i].size
    requires Partition(slots, na, nf, base, size)
    requires Live(na + 1, nf, j) && Live(na + 1, nf, k) && j != k
    requires Carve(slots, na, i, s)[j].size > 0 && Carve(slots, na, i, s)[k].size > 0
    ensures Apart(Carve(slots, na, i, s)[j], Carve(slots, na, i, s)[k])
  {
    var r := Carve(slots, na, i, s);
    var ij := LIST_CAPACITY + i;
    if j != na && j != ij && k != na && k != ij {
      assert r[j] == slots[j] && r[k] == slots[k];
    } else if j != na && j != ij {
      assert r[j] == slots[j] && Live(na, nf, j) && j != ij;
    } else if k != na && k != ij {
      assert r[k] == slots[k] && Live(na, nf, k) && k != ij;
    }
  }

  /** Allocation keeps the pool split among its entries. */
  lemma CarveKeepsPartition(slots: seq<Region>, na: nat, nf: nat, i: nat, s: nat, base: nat, size: nat)
    requires WellFormed(slots, na, nf) && na < LIST_CAPACITY && i < nf
    requires s <= slots[LIST_CAPACITY + i].size
    requires Partition(slots, na, nf, base, size)
    ensures WellFormed(Carve(slots, na, i, s), na + 1, nf)
    ensures Partition(Carve(slots, na, i, s), na + 1, nf, base, size)
  {
    var r := Carve(slots, na, i, s);
    CarveTotal(slots, na, nf, i, s);
    forall k | Live(na + 1, nf, k) && r[k].size > 0
      ensures base <= r[k].base && r[k].base + r[k].size <= base + size
    {
      if k != na && k != LIST_CAPACITY + i {
        assert r[k] == slots[k] && Live(na, nf, k);
      } else {
        assert Live(na, nf, LIST_CAPACITY + i);
      }
    }
    forall j, k | Live(na + 1, nf, j) && Live(na + 1, nf, k) && j != k && r[j].size > 0 && r[k].size > 0
      ensures Apart(r[j], r[k])
    {
      CarveApart(slots, na, nf, i, s, base, size, j, k);
    }
  }

  /**
   * The result allocate evidently means to return: the base of the region it
   * has just entered in the allocated list, together with the new list page.
   */
  function IntendedAllocate(slots: seq<Region>, na: nat, nf: nat, s: nat): (r: Option<(nat, seq<Region>)>)
    requires WellFormed(slots, na, nf) && na < LIST_CAPACITY
    ensures r.Some? <==> FirstFit(slots, nf, s).Some?
    ensures r.Some? ==> r.value.1 == Carve(slots, na, FirstFit(slots, nf, s).value, s)
    ensures r.Some? ==> r.value.1[na] == Region(r.value.0, s)
    ensures r.Some? && s > 0 ==> Legitimate(r.value.1, na + 1, r.value.0)
  {
    match FirstFit(slots, nf, s)
    case None => None
    case Some(i) =>
      var after := Carve(slots, na, i, s);
      assert Covers(after[na], after[na].base) <== s > 0;
      Some((after[na].base, after))
  }

  /**
   * As written, allocate returns the base of the slot after the entry it
   * created: on a fresh pool that slot was never written, so allocating 100
   * bytes gives 0 instead of the address 4096 bytes into the pool.
   */
  lemma AllocateReturnsNextSlot(base: nat, size: nat)
    requires LIST_PAGE_SIZE + 100 <= size
    ensures FirstFit(FreshSlots(base, size), 1, 100) == Some(0)
    ensures Carve(FreshSlots(base, size), 1, 0, 100)[2].base == 0
    ensures IntendedAllocate(FreshSlots(base, size), 1, 1, 100).value.0 == base + LIST_PAGE_SIZE
  {
  }

  // ---------------------------------------------------------------------------
  // release and is_legitimate
  // ---------------------------------------------------------------------------

  /** The first of the `na` allocated entries whose base is `a`. */
  function FirstMatch(slots: seq<Region>, na: nat, a: nat): (r: Option<nat>)
    requires |slots| == SLOT_COUNT && na <= LIST_CAPACITY
    ensures r.Some? ==> r.value < na && slots[r.value].base == a
    ensures r.Some? ==> forall j :: 0 <= j < r.value ==> slots[j].base != a
    ensures r.None? ==> forall j :: 0 <= j < na ==> slots[j].base != a
    decreases na
  {
    if na == 0 then None
    else match FirstMatch(slots, na - 1, a)
      case Some(i) => Some(i)
      case None => if slots[na - 1].base == a then Some(na - 1) else None
  }

  /** The list page after allocated entry `i` moves to free entry `nf` and is zeroed. */
  function Vacate(slots: seq<Region>, nf: nat, i: nat): (r: seq<Region>)
    requires |slots| == SLOT_COUNT && nf < LIST_CAPACITY && i < LIST_CAPACITY
    ensures |r| == SLOT_COUNT
    ensures FreeEntry(r, nf) == slots[i] && r[i] == Region(0, 0)
    ensures forall k :: 0 <= k < SLOT_COUNT && k != i && k != LIST_CAPACITY + nf ==> r[k] == slots[k]
  {
    slots[LIST_CAPACITY + nf := slots[i]][i := Region(0, 0)]
  }

  /** Release keeps the sum of the live entries' sizes. */
  lemma VacateTotal(slots: seq<Region>, na: nat, nf: nat, i: nat)
    requires WellFormed(slots, na, nf) && nf < LIST_CAPACITY && i < na
    ensures WellFormed(Vacate(slots, nf, i), na, nf + 1)
    ensures Total(Vacate(slots, nf, i), na, nf + 1) == Total(slots, na, nf)
  {
    var r := Vacate(slots, nf, i);
    var nn := LIST_CAPACITY + nf;
    assert r[..na] == slots[..na][i := Region(0, 0)];
    assert r[LIST_CAPACITY..nn + 1] == slots[LIST_CAPACITY..nn] + [slots[i]];
    SumSizesUpdate(slots[..na], i, Region(0, 0));
    SumSizesAppend(slots[LIST_CAPACITY..nn], slots[i]);
  }

  /** After a release no two non-empty live entries overlap. */
  lemma VacateApart(slots: seq<Region>, na: nat, nf: nat, i: nat, base: nat, size: nat, j: nat, k: nat)
    requires WellFormed(slots, na, nf) && nf < LIST_CAPACITY && i < na
    requires Partition(slots, na, nf, base, size)
    requires Live(na, nf + 1, j) && Live(na, nf + 1, k) && j != k
    requires Vacate(slots, nf, i)[j].size > 0 && Vacate(slots, nf, i)[k].size > 0
    ensures Apart(Vacate(slots, nf, i)[j], Vacate(slots, nf, i)[k])
  {
    var r := Vacate(slots, nf, i);
    var nn := LIST_CAPACITY + nf;
    if j != nn && k != nn {
      assert r[j] == slots[j] && r[k] == slots[k];
    } else if j == nn {
      assert r[k] == slots[k] && k != i && Live(na, nf, k);
    } else {
      assert r[j] == slots[j] && j != i && Live(na, nf, j);
    }
  }

  /** Release keeps the pool split among its entries. */
  lemma VacateKeepsPartition(slots: seq<Region>, na: nat, nf: nat, i: nat, base: nat, size: nat)
    requires WellFormed(slots, na, nf) && nf < LIST_CAPACITY && i < na
    requires Partition(slots, na, nf, base, size)
    ensures WellFormed(Vacate(slots, nf, i), na, nf + 1)
    ensures Partition(Vacate(slots, nf, i), na, nf + 1, base, size)
  {
    var r := Vacate(slots, nf, i);
    VacateTotal(slots, na, nf, i);
    forall k | Live(na, nf + 1, k) && r[k].size > 0
      ensures base <= r[k].base && r[k].base + r[k].size <= base + size
    {
      if k == LIST_CAPACITY + nf {
        assert r[k] == slots[i] && Live(na, nf, i);
      } else {
        assert r[k] == slots[k] && Live(na, nf, k);
      }
    }
    forall j, k | Live(na, nf + 1, j) && Live(na, nf + 1, k) && j != k && r[j].size > 0 && r[k].size > 0
      ensures Apart(r[j], r[k])
    {
      VacateApart(slots, na, nf, i, base, size, j, k);
    }
  }

  /** Some allocated entry covers address `x`. */
  predicate Legitimate(slots: seq<Region>, na: nat, x: int)
    requires |slots| == SLOT_COUNT && na <= LIST_CAPACITY
    ensures Legitimate(slots, na, x) <==>
      exists k :: 0 <= k < na && slots[k].size > 0 && Covers(slots[k], x)
  {
    exists k :: 0 <= k < na && Covers(slots[k], x)
  }

  /** A legitimate address lies inside the pool. */
  lemma LegitimateInPool(slots: seq<Region>, na: nat, nf: nat, base: nat, size: nat, x: int)
    requires WellFormed(slots, na, nf) && Partition(slots, na, nf, base, size)
    requires Legitimate(slots, na, x)
    ensures base <= x < base + size
  {
    var k :| 0 <= k < na && Covers(slots[k], x);
    assert Live(na, nf, k);
  }

  /** After allocation an address is legitimate exactly when it was, or lies in the new region. */
  lemma CarveLegitimate(slots: seq<Region>, na: nat, nf: nat, i: nat, s: nat, x: int)
    requires WellFormed(slots, na, nf) && na < LIST_CAPACITY && i < nf
    requires s <= slots[LIST_CAPACITY + i].size
    ensures Legitimate(Carve(slots, na, i, s), na + 1, x) <==>
      Legitimate(slots, na, x) || Covers(Region(slots[LIST_CAPACITY + i].base, s), x)
  {
    var r := Carve(slots, na, i, s);
    if Legitimate(r, na + 1, x) {
      var k :| 0 <= k < na + 1 && Covers(r[k], x);
      if k < na {
        assert r[k] == slots[k];
      }
    }
    if Legitimate(slots, na, x) {
      var k :| 0 <= k < na && Covers(slots[k], x);
      assert r[k] == slots[k];
    }
    if Covers(Region(slots[LIST_CAPACITY + i].base, s), x) {
      assert Covers(r[na], x);
    }
  }

  /**
   * After a release an address is legitimate exactly when it was and does
   * not lie in the released region.
   */
  lemma VacateLegitimate(slots: seq<Region>, na: nat, nf: nat, i: nat, base: nat, size: nat, x: int)
    requires WellFormed(slots, na, nf) && nf < LIST_CAPACITY && i < na
    requires Partition(slots, na, nf, base, size)
    ensures Legitimate(Vacate(slots, nf, i), na, x) <==> Legitimate(slots, na, x) && !Covers(slots[i], x)
  {
    var r := Vacate(slots, nf, i);
    if Legitimate(r, na, x) {
      var k :| 0 <= k < na && Covers(r[k], x);
      assert k != i && r[k] == slots[k];
      assert Live(na, nf, k) && Live(na, nf, i);
      assert slots[k].size > 0 && slots[i].size > 0 ==> Apart(slots[k], slots[i]);
    }
    if Legitimate(slots, na, x) && !Covers(slots[i], x) {
      var k :| 0 <= k < na && Covers(slots[k], x);
      assert k != i && r[k] == slots[k];
    }
  }

  /** A virtual-memory pool. */
  class VMPool {
    /** base_address and size: the pool's logical address range. */
    const baseAddress: nat
    const size: nat
    /** page_table: the page table the pool is registered with. */
    const pageTable: RecursivePaging.PageTable
    /** The list page: allocated_list is slots 0 .. 255, free_list slots 256 .. 511. */
    const page: array<Region>
    /** no_of_allocated and no_of_freed: the lengths of the two lists. */
    var noOfAllocated: nat
    var noOfFreed: nat

    ghost predicate Valid()
      reads this, page
    {
      WellFormed(page[..], noOfAllocated, noOfFreed) &&
      Partition(page[..], noOfAllocated, noOfFreed, baseAddress, size)
    }

    /**
     * Registers the pool with its page table, then records the list page
     * itself as the first allocated region and the rest of the pool as the
     * first free region.
     */
    constructor (base: nat, sz: nat, pt: RecursivePaging.PageTable)
      requires LIST_PAGE_SIZE <= sz
      modifies pt`vmpoolList
      ensures Valid() && fresh(page)
      ensures baseAddress == base && size == sz && pageTable == pt
      ensures pt.vmpoolList == old(pt.vmpoolList) + [this]
      ensures page[..] == FreshSlots(base, sz) && noOfAllocated == 1 && noOfFreed == 1
    {
      baseAddress := base;
      size := sz;
      pageTable := pt;
      page := new Region[SLOT_COUNT](_ => Region(0, 0));
      new;
      pt.RegisterPool(this);
      page[0] := Region(base, LIST_PAGE_SIZE);
      noOfAllocated := 1;
      page[LIST_CAPACITY] := Region(base + LIST_PAGE_SIZE, sz - LIST_PAGE_SIZE);
      noOfFreed := 1;
      assert page[..] == FreshSlots(base, sz);
      FreshSlotsPartition(base, sz);
    }

    /**
     * allocate: takes `s` bytes from the front of the first free region with
     * room for them and enters them in the allocated list; returns 0 and
     * changes nothing when no free region has room. As written, the address
     * returned is the base of the slot after the new entry.
     */
    method Allocate(s: nat) returns (r: nat)
      requires Valid()
      requires noOfAllocated < LIST_CAPACITY || FirstFit(page[..], noOfFreed, s).None?
      modifies page, this`noOfAllocated
      ensures Valid()
      ensures match FirstFit(old(page[..]), noOfFreed, s)
        case None =>
          r == 0 && page[..] == old(page[..]) && noOfAllocated == old(noOfAllocated)
        case Some(i) =>
          page[..] == Carve(old(page[..]), old(noOfAllocated), i, s) &&
          noOfAllocated == old(noOfAllocated) + 1 && r == page[noOfAllocated].base
    {
      var allocationFlag, freeIndex := FindFree(s);
      if allocationFlag {
        TakeFree(freeIndex, s);
        return page[noOfAllocated].base;
      } else {
        return 0;
      }
    }

    /** The scan of allocate: the first free entry with room for `s` bytes. */
    method FindFree(s: nat) returns (found: bool, freeIndex: nat)
      requires WellFormed(page[..], noOfAllocated, noOfFreed)
      ensures found <==> FirstFit(page[..], noOfFreed, s).Some?
      ensures found ==> FirstFit(page[..], noOfFreed, s) == Some(freeIndex)
    {
      freeIndex, found := 0, false;
      var i: nat := 0;
      while i < noOfFreed
        invariant 0 <= i <= noOfFreed && !found
        invariant forall j :: 0 <= j < i ==> FreeEntry(page[..], j).size < s
      {
        if s <= page[LIST_CAPACITY + i].size {
          freeIndex := i;
          found := true;
          break;
        }
        i := i + 1;
      }
      if found {
        assert s <= FreeEntry(page[..], freeIndex).size;
      }
    }

    /** The update of allocate: `s` bytes of free entry `i` become allocated entry `noOfAllocated`. */
    method TakeFree(i: nat, s: nat)
      requires Valid() && noOfAllocated < LIST_CAPACITY && i < noOfFreed
      requires s <= FreeEntry(page[..], i).size
      modifies page, this`noOfAllocated
      ensures Valid()
      ensures page[..] == Carve(old(page[..]), old(noOfAllocated), i, s)
      ensures noOfAllocated == old(noOfAllocated) + 1
    {
      ghost var slots := page[..];
      page[noOfAllocated] := page[noOfAllocated].(base := page[LIST_CAPACITY + i].base);
      page[noOfAllocated] := page[noOfAllocated].(size := s);
      noOfAllocated := noOfAllocated + 1;
      var fi := LIST_CAPACITY + i;
      page[fi] := page[fi].(base := page[fi].base + s);
      page[fi] := page[fi].(size := page[fi].size - s);
      assert page[..] == Carve(slots, noOfAllocated - 1, i, s);
      CarveKeepsPartition(slots, noOfAllocated - 1, noOfFreed, i, s, baseAddress, size);
    }

    /**
     * release: finds the first allocated entry starting at `startAddress`,
     * halts when it is empty (a double release), else appends it to the
     * free list, zeroes the allocated entry and has the page table free the
     * page at `startAddress`. When no entry starts there the pool halts.
     */
    method Release(hw: Hardware, startAddress: Word) returns (halted: bool)
      requires Valid() && noOfFreed < LIST_CAPACITY
      requires hw.Wf() && RecursivePaging.SelfMapped(hw.mem, EntryFrame(hw.cr3))
      modifies page, this`noOfFreed, hw`mem
      ensures Valid()
      ensures match FirstMatch(old(page[..]), noOfAllocated, startAddress)
        case None =>
          halted && page[..] == old(page[..]) && noOfFreed == old(noOfFreed) && hw.mem == old(hw.mem)
        case Some(i) =>
          if old(page[i]).size == 0 then
            halted && page[..] == old(page[..]) && noOfFreed == old(noOfFreed) && hw.mem == old(hw.mem)
          else
            !halted && page[..] == Vacate(old(page[..]), old(noOfFreed), i) &&
            noOfFreed == old(noOfFreed) + 1 &&
            hw.mem == RecursivePaging.Unmap(old(hw.mem), EntryFrame(hw.cr3), startAddress)
    {
      var found, allocatedIndex := FindAllocated(startAddress);
      if !found {
        return true;
      }
      if page[allocatedIndex].size == 0 {
        return true;
      }
      MoveToFree(allocatedIndex);
      var _ := pageTable.FreePage(hw, startAddress);
      halted := false;
    }

    /** The scan of release: the first allocated entry whose base is `a`. */
    method FindAllocated(a: nat) returns (found: bool, allocatedIndex: nat)
      requires WellFormed(page[..], noOfAllocated, noOfFreed)
      ensures found <==> FirstMatch(page[..], noOfAllocated, a).Some?
      ensures found ==> FirstMatch(page[..], noOfAllocated, a) == Some(allocatedIndex)
    {
      allocatedIndex, found := 0, false;
      var i: nat := 0;
      while i < noOfAllocated
        invariant 0 <= i <= noOfAllocated && !found
        invariant forall j :: 0 <= j < i ==> page[j].base != a
      {
        if page[i].base == a {
          allocatedIndex := i;
          found := true;
          break;
        }
        i := i + 1;
      }
    }

    /** The update of release: allocated entry `i` moves to the end of the free list and is zeroed. */
    method MoveToFree(i: nat)
      requires Valid() && noOfFreed < LIST_CAPACITY && i < noOfAllocated
      modifies page, this`noOfFreed
      ensures Valid()
      ensures page[..] == Vacate(old(page[..]), old(noOfFreed), i)
      ensures noOfFreed == old(noOfFreed) + 1
    {
      ghost var slots := page[..];
      page[LIST_CAPACITY + noOfFreed] := page[LIST_CAPACITY + noOfFreed].(base := page[i].base);
      page[LIST_CAPACITY + noOfFreed] := page[LIST_CAPACITY + noOfFreed].(size := page[i].size);
      noOfFreed := noOfFreed + 1;
      page[i] := page[i].(base := 0);
      page[i] := page[i].(size := 0);
      assert page[..] == Vacate(slots, noOfFreed - 1, i);
      VacateKeepsPartition(slots, noOfAllocated, noOfFreed - 1, i, baseAddress, size);
    }

    /** is_legitimate: whether an allocated region covers `address`. */
    method IsLegitimate(address: nat) returns (r: bool)
      requires Valid()
      ensures r <==> Legitimate(page[..], noOfAllocated, address)
    {
      for i := 0 to noOfAllocated
        invariant forall j :: 0 <= j < i ==> !Covers(page[j], address)
      {
        if page[i].base <= address && address < page[i].base + page[i].size {
          assert Covers(page[..][i], address);
          return true;
        }
      }
      return false;
    }
  }
}
