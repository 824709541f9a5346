/**
 * The page table of the kernel once it runs with virtual memory. The last
 * directory entry maps the directory onto itself, so the directory is
 * reachable at the fixed logical page PD_LOOKUP and page table `pde` at
 * PT_LOOKUP + pde * 4096; the fault handler writes the entries through these
 * windows instead of at physical addresses.
 */
module RecursivePaging {
  import opened Util
  import opened Paging
  import DirectPaging

  /**
   * The directory of frame `d` may be walked, its last entry names `d` itself
   * and no other present entry does.
   */
  predicate SelfMapped(mem: Memory, d: nat)
    ensures SelfMapped(mem, d) ==>
      FrameShaped(mem) && d < FRAME_COUNT &&
      Translate(mem, FrameAddress(d), PD_LOOKUP) == Some(WordLocation(d, 0))
  {
    Walkable(mem, d) && Present(mem[d][SELF_SLOT]) && EntryFrame(mem[d][SELF_SLOT]) == d &&
    forall k :: 0 <= k < SELF_SLOT && Present(mem[d][k]) ==> EntryFrame(mem[d][k]) != d
  }

  // ---------------------------------------------------------------------------
  // The windows.
  // ---------------------------------------------------------------------------

  /** PD_LOOKUP + 4 * pde: the logical address of directory entry `pde`. */
  function PdeEntryAddress(pde: nat): (r: Word)
    requires pde < ENTRIES_PER_PAGE
    ensures PdeIndex(r) == SELF_SLOT && PteIndex(r) == SELF_SLOT && PageOffset(r) == 4 * pde
  {
    FieldsOfAddress(SELF_SLOT, SELF_SLOT, 4 * pde);
    PD_LOOKUP + 4 * pde
  }

  /**
   * (PT_LOOKUP | pde << 12) + 4 * i: the logical address of entry `i` of the
   * page table that directory entry `pde` names.
   */
  function TableWordAddress(pde: nat, i: nat): (r: Word)
    requires pde < ENTRIES_PER_PAGE && i < ENTRIES_PER_PAGE
    ensures PdeIndex(r) == SELF_SLOT && PteIndex(r) == pde && PageOffset(r) == 4 * i
  {
    FieldsOfAddress(SELF_SLOT, pde, 4 * i);
    PT_LOOKUP + pde * PAGE_SIZE + 4 * i
  }

  /** The table window's `|` adds: a directory index shifted by 12 has no bit in common with PT_LOOKUP. */
  lemma WindowOrIsPlus(pde: bv32)
    requires pde < 1024
    ensures 0xFFC0_0000 | (pde << 12) == 0xFFC0_0000 + (pde << 12)
  {
  }

  /** PDE_address: the logical address of the directory entry for address `a`. */
  function PdeAddress(a: Word): (r: Word)
    ensures PdeIndex(r) == SELF_SLOT && PteIndex(r) == SELF_SLOT && PageOffset(r) == 4 * PdeIndex(a)
  {
    PdeEntryAddress(PdeIndex(a))
  }

  /** PTE_address: the logical address of the page-table entry for address `a`. */
  function PteAddress(a: Word): (r: Word)
    ensures PdeIndex(r) == SELF_SLOT && PteIndex(r) == PdeIndex(a) && PageOffset(r) == 4 * PteIndex(a)
  {
    TableWordAddress(PdeIndex(a), PteIndex(a))
  }

  /** With the self map in place, the directory window reaches word `pde` of the directory. */
  lemma DirectoryWindow(mem: Memory, cr3: Word, pde: nat)
    requires SelfMapped(mem, EntryFrame(cr3)) && pde < ENTRIES_PER_PAGE
    ensures Translate(mem, cr3, PdeEntryAddress(pde)) == Some(WordLocation(EntryFrame(cr3), pde))
  {
  }

  /**
   * With the self map in place, the table window reaches word `i` of the
   * table that directory entry `pde` names, and faults when that entry is
   * not present.
   */
  lemma TableWindow(mem: Memory, cr3: Word, pde: nat, i: nat)
    requires SelfMapped(mem, EntryFrame(cr3)) && pde < ENTRIES_PER_PAGE && i < ENTRIES_PER_PAGE
    ensures var e := mem[EntryFrame(cr3)][pde];
      Translate(mem, cr3, TableWordAddress(pde, i))
        == if Present(e) then Some(WordLocation(EntryFrame(e), i)) else None
  {
  }

  /**
   * Reading the two windows for `a` and following the entries found there is
   * the walk the MMU makes for `a`.
   */
  lemma WindowsAgreeWithWalk(mem: Memory, cr3: Word, a: Word)
    requires SelfMapped(mem, EntryFrame(cr3))
    ensures var d := EntryFrame(cr3);
      var p := Translate(mem, cr3, PdeAddress(a)).value;
      var e := mem[p.frame][p.index];
      p == WordLocation(d, PdeIndex(a)) &&
      (Present(e) ==>
        var q := Translate(mem, cr3, PteAddress(a)).value;
        var x := mem[q.frame][q.index];
        q == WordLocation(EntryFrame(e), PteIndex(a)) &&
        Translate(mem, cr3, a) == if Present(x) && EntryFrame(x) in mem
                                  then Some(WordLocation(EntryFrame(x), PageOffset(a) / 4))
                                  else None)
  {
    DirectoryWindow(mem, cr3, PdeIndex(a));
    TableWindow(mem, cr3, PdeIndex(a), PteIndex(a));
  }

  // ---------------------------------------------------------------------------
  // The tables the constructor builds.
  // ---------------------------------------------------------------------------

  /** The first page table as built: entries 0 .. 1022 map onto frames 0 .. 1022, entry 1023 is left as it was. */
  function PartialIdentity(old_: seq<Word>): (t: seq<Word>)
    requires |old_| == ENTRIES_PER_PAGE
    ensures |t| == ENTRIES_PER_PAGE && t[SELF_SLOT] == old_[SELF_SLOT]
    ensures forall i :: 0 <= i < SELF_SLOT ==> t[i] == DirectPaging.IdentityTable()[i]
  {
    seq(ENTRIES_PER_PAGE, i requires 0 <= i < ENTRIES_PER_PAGE =>
      if i < SELF_SLOT then MakeEntry(i, S_W_P) else old_[SELF_SLOT])
  }

  /**
   * The directory as built: entry 0 names the first table, entry 1023 names
   * the directory, the others are not present.
   */
  function RecursiveDirectory(d: nat, t: nat): (r: seq<Word>)
    requires d < FRAME_COUNT && t < FRAME_COUNT
    ensures |r| == ENTRIES_PER_PAGE
    ensures r[0] == MakeEntry(t, S_W_P) && Present(r[0]) && EntryFrame(r[0]) == t
    ensures r[SELF_SLOT] == MakeEntry(d, S_W_P) && Present(r[SELF_SLOT]) && EntryFrame(r[SELF_SLOT]) == d
    ensures forall i :: 0 < i < SELF_SLOT ==> r[i] == S_W_NP && !Present(r[i])
  {
    DirectPaging.InitialDirectory(t)[SELF_SLOT := MakeEntry(d, S_W_P)]
  }

  /** The directory as built maps itself when the table frame is another frame. */
  lemma RecursiveDirectorySelfMapped(mem: Memory, d: nat, t: nat)
    requires FrameShaped(mem) && d < FRAME_COUNT && t < FRAME_COUNT
    requires d in mem && t in mem && d != t && mem[d] == RecursiveDirectory(d, t)
    ensures SelfMapped(mem, d)
  {
  }

  /**
   * As built, the last page of the first 4 MiB is not identity-mapped: when
   * entry 1023 of the table frame was not present before, address 0x3FF000
   * faults.
   */
  lemma LastLowPageUnmapped(mem0: Memory, d: nat, t: nat)
    requires FrameShaped(mem0) && d < FRAME_COUNT && t < FRAME_COUNT
    requires d in mem0 && t in mem0 && d != t && !Present(mem0[t][SELF_SLOT])
    ensures var mem := mem0[t := PartialIdentity(mem0[t])][d := RecursiveDirectory(d, t)];
      Translate(mem, FrameAddress(d), 0x3F_F000) == None
  {
    var mem := mem0[t := PartialIdentity(mem0[t])][d := RecursiveDirectory(d, t)];
    assert PdeIndex(0x3F_F000) == 0 && PteIndex(0x3F_F000) == SELF_SLOT;
    assert mem[t][SELF_SLOT] == mem0[t][SELF_SLOT];
  }

  /**
   * With all 1024 entries of the first table written, the recursive
   * directory maps every address below 4 MiB onto itself.
   */
  lemma IntendedTablesMapFirst4MiB(mem: Memory, d: nat, t: nat, a: Word)
    requires FrameShaped(mem) && DirectPaging.LowMemory(mem) && d < FRAME_COUNT && t < FRAME_COUNT
    requires d in mem && t in mem && d != t
    requires mem[d] == RecursiveDirectory(d, t) && mem[t] == DirectPaging.IdentityTable()
    requires a < 0x40_0000
    ensures SelfMapped(mem, d)
    ensures Translate(mem, FrameAddress(d), a) == Some(WordLocation(a / PAGE_SIZE, PageOffset(a) / 4))
  {
    assert PdeIndex(a) == 0;
    assert PteIndex(a) == a / PAGE_SIZE;
  }

  // ---------------------------------------------------------------------------
  // Fault handling and unmapping through the windows.
  // ---------------------------------------------------------------------------

  /** Handling a not-present fault keeps the self map. */
  lemma ResolveFaultKeepsSelfMap(mem: Memory, d: nat, a: Word, tf: nat, df: nat)
    requires SelfMapped(mem, d) && NotPresentFault(mem, d, a)
    requires df in mem && df != d && df < FRAME_COUNT && tf < FRAME_COUNT
    requires !Present(mem[d][PdeIndex(a)]) ==> tf in mem && tf != d
    ensures SelfMapped(ResolveFault(mem, d, a, tf, df), d)
  {
    var r := ResolveFault(mem, d, a, tf, df);
    AttributePresence(df);
    if Present(mem[d][PdeIndex(a)]) {
      var t := EntryFrame(mem[d][PdeIndex(a)]);
      if t == d {
        assert PteIndex(a) != SELF_SLOT;
        assert r[d] == Put(mem[d], PteIndex(a), MakeEntry(df, S_W_P));
      } else {
        assert r[d] == mem[d];
      }
    } else {
      AttributePresence(tf);
      assert PdeIndex(a) != SELF_SLOT;
      assert r[d] == Put(mem[d], PdeIndex(a), MakeEntry(tf, S_W_P));
    }
  }

  /** Memory after the page of `a` is marked not present, when it is mapped. */
  function Unmap(mem: Memory, d: nat, a: Word): (r: Memory)
    requires Walkable(mem, d)
    ensures r.Keys == mem.Keys && FrameShaped(r)
  {
    var e := mem[d][PdeIndex(a)];
    if Present(e) && Present(mem[EntryFrame(e)][PteIndex(a)]) then
      var t := EntryFrame(e);
      mem[t := Put(mem[t], PteIndex(a), ClearPresent(mem[t][PteIndex(a)]))]
    else
      mem
  }

  /** After unmapping, `a` faults; nothing changes when it was not mapped. */
  lemma UnmapUnmaps(mem: Memory, cr3: Word, a: Word)
    requires Walkable(mem, EntryFrame(cr3))
    ensures Translate(Unmap(mem, EntryFrame(cr3), a), cr3, a) == None
    ensures NotPresentFault(mem, EntryFrame(cr3), a) ==> Unmap(mem, EntryFrame(cr3), a) == mem
  {
    var d := EntryFrame(cr3);
    var r := Unmap(mem, d, a);
    var e := mem[d][PdeIndex(a)];
    if Present(e) && Present(mem[EntryFrame(e)][PteIndex(a)]) {
      var t := EntryFrame(e);
      if t == d && PdeIndex(a) == PteIndex(a) {
        assert !Present(r[d][PdeIndex(a)]);
      } else {
        assert r[d][PdeIndex(a)] == e;
        assert !Present(r[t][PteIndex(a)]);
      }
    }
  }

  /** Unmapping keeps the self map, unless the page unmapped is the directory window itself. */
  lemma UnmapKeepsSelfMap(mem: Memory, d: nat, a: Word)
    requires SelfMapped(mem, d)
    requires PdeIndex(a) != SELF_SLOT || PteIndex(a) != SELF_SLOT
    ensures SelfMapped(Unmap(mem, d, a), d)
  {
    var r := Unmap(mem, d, a);
    var e := mem[d][PdeIndex(a)];
    if Present(e) && Present(mem[EntryFrame(e)][PteIndex(a)]) {
      var t := EntryFrame(e);
      if t == d {
        assert PteIndex(a) != SELF_SLOT;
        assert r[d] == Put(mem[d], PteIndex(a), ClearPresent(mem[d][PteIndex(a)]));
      } else {
        assert r[d] == mem[d];
      }
    }
  }

  /** A page table object of the kernel with virtual memory. */
  class PageTable {
    /** page_directory: the physical address of the directory frame. */
    const pageDirectory: Word
    /** vmpool_list: the virtual-memory pools registered with this table, in order. */
    var vmpoolList: seq<object>

    /**
     * Builds the first page table in frame `tableFrame` (entries 0 .. 1022
     * only) and the directory in frame `dirFrame`, with entry 1023 naming the
     * directory itself; both frames are taken from the process frame pool by
     * the caller. Paging is still disabled, so the stores are physical.
     */
    constructor (hw: Hardware, dirFrame: nat, tableFrame: nat)
      requires hw.Wf() && dirFrame in hw.mem && tableFrame in hw.mem
      requires dirFrame < FRAME_COUNT && tableFrame < FRAME_COUNT
      modifies hw`mem
      ensures pageDirectory == FrameAddress(dirFrame) && vmpoolList == []
      ensures hw.Wf() && (dirFrame != tableFrame ==> SelfMapped(hw.mem, dirFrame))
      ensures hw.mem == old(hw.mem)[tableFrame := PartialIdentity(old(hw.mem)[tableFrame])]
                                   [dirFrame := RecursiveDirectory(dirFrame, tableFrame)]
    {
      pageDirectory := FrameAddress(dirFrame);
      vmpoolList := [];
      new;
      FillFirstTable(hw, tableFrame);
      FillDirectory(hw, dirFrame, tableFrame);
      if dirFrame != tableFrame {
        RecursiveDirectorySelfMapped(hw.mem, dirFrame, tableFrame);
      }
    }

    /** The constructor's first loop: entries 0 .. 1022 of the table map the first frames. */
    static method FillFirstTable(hw: Hardware, tableFrame: nat)
      requires hw.Wf() && tableFrame in hw.mem
      modifies hw`mem
      ensures hw.Wf() && hw.mem == old(hw.mem)[tableFrame := PartialIdentity(old(hw.mem)[tableFrame])]
    {
      ghost var m0 := hw.mem;
      var address: Word := 0;
      for i := 0 to SELF_SLOT
        invariant hw.Wf() && hw.mem.Keys == m0.Keys && address == i * PAGE_SIZE
        invariant forall f :: f in m0 && f != tableFrame ==> hw.mem[f] == m0[f]
        invariant forall k :: 0 <= k < i ==> hw.mem[tableFrame][k] == MakeEntry(k, S_W_P)
        invariant hw.mem[tableFrame][SELF_SLOT] == m0[tableFrame][SELF_SLOT]
      {
        hw.Store(tableFrame, i, WithAttrs(address, S_W_P));
        address := address + PAGE_SIZE;
      }
      assert hw.mem[tableFrame] == PartialIdentity(m0[tableFrame]);
    }

    /** The constructor's directory stores: the self map in entry 1023, then the table in entry 0. */
    static method SetFixedEntries(hw: Hardware, dirFrame: nat, tableFrame: nat)
      requires hw.Wf() && dirFrame in hw.mem && dirFrame < FRAME_COUNT && tableFrame < FRAME_COUNT
      modifies hw`mem
      ensures hw.Wf() && hw.mem.Keys == old(hw.mem).Keys
      ensures forall f :: f in old(hw.mem) && f != dirFrame ==> hw.mem[f] == old(hw.mem)[f]
      ensures hw.mem[dirFrame][SELF_SLOT] == MakeEntry(dirFrame, S_W_P)
      ensures hw.mem[dirFrame][0] == MakeEntry(tableFrame, S_W_P)
    {
      hw.Store(dirFrame, SELF_SLOT, FrameAddress(dirFrame));
      hw.Store(dirFrame, SELF_SLOT, WithAttrs(hw.mem[dirFrame][SELF_SLOT], S_W_P));
      hw.Store(dirFrame, 0, FrameAddress(tableFrame));
      hw.Store(dirFrame, 0, WithAttrs(hw.mem[dirFrame][0], S_W_P));
    }

    /** The constructor's directory: the fixed entries, then entries 1 .. 1022 not present. */
    static method FillDirectory(hw: Hardware, dirFrame: nat, tableFrame: nat)
      requires hw.Wf() && dirFrame in hw.mem && dirFrame < FRAME_COUNT && tableFrame < FRAME_COUNT
      modifies hw`mem
      ensures hw.Wf() && hw.mem == old(hw.mem)[dirFrame := RecursiveDirectory(dirFrame, tableFrame)]
    {
      ghost var m1 := hw.mem;
      ghost var r := RecursiveDirectory(dirFrame, tableFrame);
      SetFixedEntries(hw, dirFrame, tableFrame);
      for i := 1 to SELF_SLOT
        invariant hw.Wf() && hw.mem.Keys == m1.Keys
        invariant forall f :: f in m1 && f != dirFrame ==> hw.mem[f] == m1[f]
        invariant hw.mem[dirFrame][SELF_SLOT] == r[SELF_SLOT]
        invariant forall k :: 0 <= k < i ==> hw.mem[dirFrame][k] == r[k]
      {
        hw.Store(dirFrame, i, S_W_NP);
      }
      assert hw.mem[dirFrame] == r;
    }

    /** load: makes this the current page table and loads its directory into CR3. */
    method Load(hw: Hardware)
      modifies hw`cr3, hw`currentDirectory
      ensures hw.cr3 == pageDirectory && hw.currentDirectory == Some(pageDirectory)
    {
      hw.currentDirectory := Some(pageDirectory);
      hw.cr3 := pageDirectory;
    }

    /**
     * enable_paging: halts when no page table has been loaded or the current
     * page table's directory is not the one in CR3, else sets the paging bit
     * of CR0 and keeps its other bits.
     */
    static method EnablePaging(hw: Hardware) returns (halted: bool)
      modifies hw`cr0
      ensures halted <==> hw.currentDirectory != Some(hw.cr3)
      ensures halted ==> hw.cr0 == old(hw.cr0)
      ensures !halted ==> hw.cr0 == SetPagingBit(old(hw.cr0))
    {
      if hw.currentDirectory != Some(hw.cr3) {
        return true;
      }
      hw.cr0 := SetPagingBit(hw.cr0);
      halted := false;
    }

    /**
     * handle_fault: for a not-present fault on the address in CR2, makes the
     * directory entry present with the new table frame `tableFrame` when it
     * is not, clearing that table through the table window, and points the
     * table entry at `dataFrame`; both frames are taken from the process
     * frame pool by the caller. Every entry is read and written through the
     * windows. A protection fault halts.
     */
    static method HandleFault(hw: Hardware, errCode: Word, dataFrame: nat, tableFrame: nat)
      returns (halted: bool)
      requires hw.Wf() && SelfMapped(hw.mem, EntryFrame(hw.cr3))
      requires dataFrame < FRAME_COUNT && tableFrame < FRAME_COUNT
      requires !Present(hw.mem[EntryFrame(hw.cr3)][PdeIndex(hw.cr2)]) ==>
        tableFrame in hw.mem && tableFrame != EntryFrame(hw.cr3)
      modifies hw`mem
      ensures hw.Wf()
      ensures halted <==> ErrorCause(errCode).protection
      ensures halted ==> hw.mem == old(hw.mem)
      ensures !halted ==>
        hw.mem == ResolveFault(old(hw.mem), EntryFrame(hw.cr3), hw.cr2, tableFrame, dataFrame)
    {
      ErrorCodeRoundTrip(errCode);
      if errCode % 2 != 0 {
        return true;
      }
      ResolveNotPresent(hw, dataFrame, tableFrame);
      halted := false;
    }

    /** The handler's not-present path. */
    static method ResolveNotPresent(hw: Hardware, dataFrame: nat, tableFrame: nat)
      requires hw.Wf() && SelfMapped(hw.mem, EntryFrame(hw.cr3))
      requires dataFrame < FRAME_COUNT && tableFrame < FRAME_COUNT
      requires !Present(hw.mem[EntryFrame(hw.cr3)][PdeIndex(hw.cr2)]) ==>
        tableFrame in hw.mem && tableFrame != EntryFrame(hw.cr3)
      modifies hw`mem
      ensures hw.Wf()
      ensures hw.mem == ResolveFault(old(hw.mem), EntryFrame(hw.cr3), hw.cr2, tableFrame, dataFrame)
    {
      var frameAddress := FrameAddress(dataFrame);
      var faultAddress := hw.cr2;
      var pde := PdeIndex(faultAddress);
      var pte := PteIndex(faultAddress);
      ghost var d: nat := EntryFrame(hw.cr3);
      ghost var m0: Memory := hw.mem;
      ghost var e := MakeEntry(dataFrame, S_W_P);
      var flag := EnsureTable(hw, pde, tableFrame);
      ghost var m2 := hw.mem;
      SetTableEntry(hw, pde, pte, WithAttrs(frameAddress, S_W_P));
      if flag {
        assert m2[d][pde] == MakeEntry(tableFrame, S_W_P) && m2[tableFrame] == EmptyTable();
        assert hw.mem == m0[d := Put(m0[d], pde, MakeEntry(tableFrame, S_W_P))][tableFrame := Put(EmptyTable(), pte, e)];
      } else {
        ghost var t: nat := EntryFrame(m0[d][pde]);
        assert hw.mem == m0[t := Put(m0[t], pte, e)];
      }
    }

    /**
     * The handler's first part: when directory entry `pde` is not present,
     * names the new table frame in it and clears that table, both through the
     * windows; `flag` says whether it did.
     */
    static method EnsureTable(hw: Hardware, pde: nat, tableFrame: nat) returns (flag: bool)
      requires hw.Wf() && SelfMapped(hw.mem, EntryFrame(hw.cr3)) && pde < ENTRIES_PER_PAGE
      requires tableFrame < FRAME_COUNT
      requires !Present(hw.mem[EntryFrame(hw.cr3)][pde]) ==>
        tableFrame in hw.mem && tableFrame != EntryFrame(hw.cr3)
      modifies hw`mem
      ensures hw.Wf() && SelfMapped(hw.mem, EntryFrame(hw.cr3))
      ensures flag <==> !Present(old(hw.mem)[EntryFrame(hw.cr3)][pde])
      ensures Present(hw.mem[EntryFrame(hw.cr3)][pde])
      ensures !flag ==> hw.mem == old(hw.mem)
      ensures var d := EntryFrame(hw.cr3);
        flag ==> hw.mem == old(hw.mem)[d := Put(old(hw.mem)[d], pde, MakeEntry(tableFrame, S_W_P))][tableFrame := EmptyTable()]
    {
      flag := false;
      var logicalPde := PdeEntryAddress(pde);
      DirectoryWindow(hw.mem, hw.cr3, pde);
      if hw.LoadLogical(logicalPde) % 2 != 1 {
        InstallTable(hw, pde, tableFrame);
        flag := true;
      }
      if flag {
        ghost var m1 := hw.mem;
        AttributePresence(tableFrame);
        assert m1[EntryFrame(hw.cr3)][pde] == MakeEntry(tableFrame, S_W_P);
        ClearTable(hw, pde);
        assert hw.mem == m1[tableFrame := EmptyTable()];
      }
    }

    /** The handler's last store: entry `pte` of the table of directory entry `pde`, through the table window. */
    static method SetTableEntry(hw: Hardware, pde: nat, pte: nat, w: Word)
      requires hw.Wf() && SelfMapped(hw.mem, EntryFrame(hw.cr3))
      requires pde < ENTRIES_PER_PAGE && pte < ENTRIES_PER_PAGE && Present(hw.mem[EntryFrame(hw.cr3)][pde])
      modifies hw`mem
      ensures hw.Wf()
      ensures var t := EntryFrame(old(hw.mem)[EntryFrame(hw.cr3)][pde]);
        hw.mem == old(hw.mem)[t := Put(old(hw.mem)[t], pte, w)]
    {
      TableWindow(hw.mem, hw.cr3, pde, pte);
      hw.StoreLogical(TableWordAddress(pde, pte), w);
    }

    /** The handler's directory stores: entry `pde` names the new table frame, through the directory window. */
    static method InstallTable(hw: Hardware, pde: nat, tableFrame: nat)
      requires hw.Wf() && SelfMapped(hw.mem, EntryFrame(hw.cr3)) && pde < ENTRIES_PER_PAGE
      requires !Present(hw.mem[EntryFrame(hw.cr3)][pde])
      requires tableFrame in hw.mem && tableFrame != EntryFrame(hw.cr3) && tableFrame < FRAME_COUNT
      modifies hw`mem
      ensures hw.Wf() && SelfMapped(hw.mem, EntryFrame(hw.cr3))
      ensures var d := EntryFrame(hw.cr3);
        hw.mem == old(hw.mem)[d := Put(old(hw.mem)[d], pde, MakeEntry(tableFrame, S_W_P))]
    {
      ghost var m0 := hw.mem;
      ghost var d := EntryFrame(hw.cr3);
      var logicalPde := PdeEntryAddress(pde);
      assert pde != SELF_SLOT;
      DirectoryWindow(hw.mem, hw.cr3, pde);
      hw.StoreLogical(logicalPde, FrameAddress(tableFrame));
      DirectoryWindow(hw.mem, hw.cr3, pde);
      hw.StoreLogical(logicalPde, WithAttrs(hw.LoadLogical(logicalPde), S_W_P));
      assert hw.mem[d] == Put(m0[d], pde, MakeEntry(tableFrame, S_W_P));
      AttributePresence(tableFrame);
    }

    /** The handler's loop: all 1024 entries of the new table of entry `pde` not present, through the table window. */
    static method ClearTable(hw: Hardware, pde: nat)
      requires hw.Wf() && SelfMapped(hw.mem, EntryFrame(hw.cr3)) && pde < ENTRIES_PER_PAGE
      requires Present(hw.mem[EntryFrame(hw.cr3)][pde]) && EntryFrame(hw.mem[EntryFrame(hw.cr3)][pde]) != EntryFrame(hw.cr3)
      modifies hw`mem
      ensures hw.Wf() && SelfMapped(hw.mem, EntryFrame(hw.cr3))
      ensures var t := EntryFrame(old(hw.mem)[EntryFrame(hw.cr3)][pde]);
        hw.mem == old(hw.mem)[t := EmptyTable()]
    {
      ghost var m1 := hw.mem;
      ghost var d := EntryFrame(hw.cr3);
      ghost var t := EntryFrame(m1[d][pde]);
      for i := 0 to ENTRIES_PER_PAGE
        invariant hw.Wf() && hw.mem.Keys == m1.Keys && hw.mem[d] == m1[d]
        invariant forall f :: f in m1 && f != t ==> hw.mem[f] == m1[f]
        invariant forall k :: 0 <= k < i ==> hw.mem[t][k] == S_W_NP
      {
        TableWindow(hw.mem, hw.cr3, pde, i);
        hw.StoreLogical(TableWordAddress(pde, i), S_W_NP);
      }
      assert hw.mem[t] == EmptyTable();
      assert hw.mem[d] == m1[d];
    }

    /** register_pool: appends a virtual-memory pool to the list of registered pools. */
    method RegisterPool(pool: object)
      modifies this`vmpoolList
      ensures vmpoolList == old(vmpoolList) + [pool]
    {
      vmpoolList := vmpoolList + [pool];
    }

    /**
     * free_page: when the page of `address` is mapped, marks its table entry
     * not present through the table window and returns the frame it named.
     */
    method FreePage(hw: Hardware, address: Word) returns (frame: Option<nat>)
      requires hw.Wf() && SelfMapped(hw.mem, EntryFrame(hw.cr3))
      modifies hw`mem
      ensures hw.Wf()
      ensures hw.mem == Unmap(old(hw.mem), EntryFrame(hw.cr3), address)
      ensures frame.None? <==> NotPresentFault(old(hw.mem), EntryFrame(hw.cr3), address)
      ensures frame.Some? ==>
        var e := old(hw.mem)[EntryFrame(hw.cr3)][PdeIndex(address)];
        frame.value == EntryFrame(old(hw.mem)[EntryFrame(e)][PteIndex(address)])
    {
      var pde := PdeIndex(address);
      var pte := PteIndex(address);
      DirectoryWindow(hw.mem, hw.cr3, pde);
      var e := hw.LoadLogical(PdeEntryAddress(pde));
      if !Present(e) {
        return None;
      }
      TableWindow(hw.mem, hw.cr3, pde, pte);
      var entry := hw.LoadLogical(TableWordAddress(pde, pte));
      if !Present(entry) {
        return None;
      }
      hw.StoreLogical(TableWordAddress(pde, pte), ClearPresent(entry));
      frame := Some(EntryFrame(entry));
    }
  }
}
