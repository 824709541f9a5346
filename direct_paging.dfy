/**
 * The first page table of the kernel: the first 4 MiB of memory are mapped
 * onto themselves through one page table, every other directory entry starts
 * not present, and the page-fault handler builds page tables on demand,
 * writing the directory and the tables at their physical addresses.
 */
module DirectPaging {
  import opened Util
  import opened Paging

  /** The page table that maps page i of the first 4 MiB onto frame i. */
  function IdentityTable(): (t: seq<Word>)
    ensures |t| == ENTRIES_PER_PAGE
    ensures forall i :: 0 <= i < ENTRIES_PER_PAGE ==> Present(t[i]) && EntryFrame(t[i]) == i
  {
    seq(ENTRIES_PER_PAGE, i requires 0 <= i < ENTRIES_PER_PAGE => MakeEntry(i, S_W_P))
  }

  /** The directory whose entry 0 names the table frame and whose other entries are not present. */
  function InitialDirectory(tableFrame: nat): (d: seq<Word>)
    requires tableFrame < FRAME_COUNT
    ensures |d| == ENTRIES_PER_PAGE
    ensures Present(d[0]) && EntryFrame(d[0]) == tableFrame
    ensures forall i :: 1 <= i < ENTRIES_PER_PAGE ==> !Present(d[i])
  {
    seq(ENTRIES_PER_PAGE, i => if i == 0 then MakeEntry(tableFrame, S_W_P) else S_W_NP)
  }

  /** Frames 0 .. 1023, the first 4 MiB, are in memory. */
  predicate LowMemory(mem: Memory)
  {
    forall f :: 0 <= f < ENTRIES_PER_PAGE ==> f in mem
  }

  /** With the initial tables loaded, every address below 4 MiB reaches itself. */
  lemma IdentityMapsFirst4MiB(mem: Memory, d: nat, t: nat, a: Word)
    requires FrameShaped(mem) && LowMemory(mem) && d < FRAME_COUNT && t < FRAME_COUNT
    requires d in mem && t in mem && d != t
    requires mem[d] == InitialDirectory(t) && mem[t] == IdentityTable()
    requires a < 0x40_0000
    ensures Translate(mem, FrameAddress(d), a) == Some(WordLocation(a / PAGE_SIZE, PageOffset(a) / 4))
  {
    assert PdeIndex(a) == 0;
    assert PteIndex(a) == a / PAGE_SIZE;
  }

  /** With the initial tables loaded, every address from 4 MiB on faults. */
  lemma InitialTablesFaultAbove4MiB(mem: Memory, d: nat, t: nat, a: Word)
    requires FrameShaped(mem) && d < FRAME_COUNT && t < FRAME_COUNT
    requires d in mem && mem[d] == InitialDirectory(t)
    requires a >= 0x40_0000
    ensures Translate(mem, FrameAddress(d), a) == None
  {
    assert PdeIndex(a) >= 1;
  }

  /**
   * The directory keeps the handler's invariant: its present entries name
   * frames of memory other than the directory.
   */
  predicate DirectoryWf(mem: Memory, d: nat)
  {
    Walkable(mem, d) &&
    forall k :: 0 <= k < ENTRIES_PER_PAGE && Present(mem[d][k]) ==> EntryFrame(mem[d][k]) != d
  }

  /** The initial tables satisfy the handler's invariant. */
  lemma InitialTablesWf(mem: Memory, d: nat, t: nat)
    requires FrameShaped(mem) && d < FRAME_COUNT && t < FRAME_COUNT
    requires d in mem && t in mem && d != t && mem[d] == InitialDirectory(t)
    ensures DirectoryWf(mem, d)
  {
  }

  /** Handling a fault keeps the handler's invariant. */
  lemma ResolveFaultKeepsDirectoryWf(mem: Memory, d: nat, a: Word, tf: nat, df: nat)
    requires DirectoryWf(mem, d) && df < FRAME_COUNT && FreshTableFrame(mem, d, tf)
    ensures DirectoryWf(ResolveFault(mem, d, a, tf, df), d)
  {
    var r := ResolveFault(mem, d, a, tf, df);
    if !Present(mem[d][PdeIndex(a)]) {
      assert r[d] == Put(mem[d], PdeIndex(a), MakeEntry(tf, S_W_P));
    } else {
      assert r[d] == mem[d];
    }
  }

  /** A page table object of this kernel. */
  class PageTable {
    /** page_directory: the physical address of the directory frame. */
    const pageDirectory: Word

    /**
     * Builds the identity table for the first 4 MiB in frame `tableFrame` and
     * the initial directory in frame `dirFrame`, both frames taken from the
     * kernel frame pool by the caller. Paging is still disabled, so the
     * stores are physical.
     */
    constructor (hw: Hardware, dirFrame: nat, tableFrame: nat)
      requires hw.Wf() && dirFrame in hw.mem && tableFrame in hw.mem
      requires dirFrame < FRAME_COUNT && tableFrame < FRAME_COUNT
      modifies hw`mem
      ensures pageDirectory == FrameAddress(dirFrame)
      ensures hw.Wf()
      ensures hw.mem == old(hw.mem)[tableFrame := IdentityTable()][dirFrame := InitialDirectory(tableFrame)]
    {
      pageDirectory := FrameAddress(dirFrame);
      new;
      FillIdentityTable(hw, tableFrame);
      FillInitialDirectory(hw, dirFrame, tableFrame);
    }

    /** The constructor's first loop: frame `tableFrame` becomes the identity table. */
    static method FillIdentityTable(hw: Hardware, tableFrame: nat)
      requires hw.Wf() && tableFrame in hw.mem && tableFrame < FRAME_COUNT
      modifies hw`mem
      ensures hw.Wf() && hw.mem == old(hw.mem)[tableFrame := IdentityTable()]
    {
      ghost var m0 := hw.mem;
      var address: Word := 0;
      for i := 0 to ENTRIES_PER_PAGE
        invariant hw.Wf() && hw.mem.Keys == m0.Keys && address == i * PAGE_SIZE
        invariant forall f :: f in m0 && f != tableFrame ==> hw.mem[f] == m0[f]
        invariant forall k :: 0 <= k < i ==> hw.mem[tableFrame][k] == MakeEntry(k, S_W_P)
      {
        hw.Store(tableFrame, i, WithAttrs(address, S_W_P));
        address := address + PAGE_SIZE;
      }
      assert hw.mem[tableFrame] == IdentityTable();
    }

    /** The constructor's directory stores: frame `dirFrame` becomes the initial directory. */
    static method FillInitialDirectory(hw: Hardware, dirFrame: nat, tableFrame: nat)
      requires hw.Wf() && dirFrame in hw.mem && tableFrame < FRAME_COUNT
      modifies hw`mem
      ensures hw.Wf() && hw.mem == old(hw.mem)[dirFrame := InitialDirectory(tableFrame)]
    {
      ghost var m1 := hw.mem;
      ghost var r := InitialDirectory(tableFrame);
      hw.Store(dirFrame, 0, FrameAddress(tableFrame));
      hw.Store(dirFrame, 0, WithAttrs(hw.mem[dirFrame][0], S_W_P));
      assert hw.mem[dirFrame][0] == r[0];
      for i := 1 to ENTRIES_PER_PAGE
        invariant hw.Wf() && dirFrame in hw.mem && hw.mem == m1[dirFrame := hw.mem[dirFrame]]
        invariant forall k :: 0 <= k < i ==> hw.mem[dirFrame][k] == r[k]
      {
        hw.Store(dirFrame, i, S_W_NP);
      }
      assert hw.mem[dirFrame] == r;
    }

    /** load: makes this the current page table and loads its directory into CR3. */
    method Load(hw: Hardware)
      modifies hw`cr3, hw`currentDirectory
      ensures hw.cr3 == pageDirectory && hw.currentDirectory == Some(pageDirectory)
    {
      hw.currentDirectory := Some(pageDirectory);
      hw.cr3 := pageDirectory;
    }

    /**
     * check_if_pt_loaded: whether the current page table's directory is the
     * one in CR3; never, when no table has been loaded.
     */
    static method CheckIfPtLoaded(hw: Hardware) returns (loaded: bool)
      ensures loaded <==> hw.currentDirectory == Some(hw.cr3)
    {
      loaded := hw.currentDirectory == Some(hw.cr3);
    }

    /**
     * enable_paging: halts unless the current page table is loaded, else sets
     * the paging bit of CR0 and leaves its other bits as they were.
     */
    static method EnablePaging(hw: Hardware) returns (halted: bool)
      modifies hw`cr0
      ensures halted <==> hw.currentDirectory != Some(hw.cr3)
      ensures halted ==> hw.cr0 == old(hw.cr0)
      ensures !halted ==> hw.cr0 == SetPagingBit(old(hw.cr0))
    {
      var loaded := CheckIfPtLoaded(hw);
      if !loaded {
        return true;
      }
      hw.cr0 := SetPagingBit(hw.cr0);
      halted := false;
    }

    /**
     * handle_fault: for a not-present fault (bit 0 of the error code clear)
     * on the address in CR2, makes the directory entry present with the new
     * table frame `tableFrame` when it is not, clearing that table, and maps
     * the page onto `dataFrame`; both frames are taken from the frame pools
     * by the caller. A protection fault halts. The directory and the tables
     * are written at their physical addresses.
     */
    static method HandleFault(hw: Hardware, errCode: Word, dataFrame: nat, tableFrame: nat)
      returns (halted: bool)
      requires hw.Wf() && Walkable(hw.mem, EntryFrame(hw.cr3))
      requires dataFrame < FRAME_COUNT && tableFrame < FRAME_COUNT
      requires !Present(hw.mem[EntryFrame(hw.cr3)][PdeIndex(hw.cr2)]) ==> tableFrame in hw.mem
      modifies hw`mem
      ensures hw.Wf()
      ensures halted <==> ErrorCause(errCode).protection
      ensures halted ==> hw.mem == old(hw.mem)
      ensures !halted ==>
        hw.mem == ResolveFault(old(hw.mem), EntryFrame(hw.cr3), hw.cr2, tableFrame, dataFrame)
    {
      ErrorCodeRoundTrip(errCode);
      if errCode % 2 != 0 {
        return true;
      }
      var pageDirectory := EntryFrame(hw.cr3);
      var frameAddress := FrameAddress(dataFrame);
      var faultAddress := hw.cr2;
      var pde := PdeIndex(faultAddress);
      var pte := PteIndex(faultAddress);
      var flag := false;
      ghost var m0 := hw.mem;
      if hw.mem[pageDirectory][pde] % 2 != 1 {
        hw.Store(pageDirectory, pde, FrameAddress(tableFrame));
        hw.Store(pageDirectory, pde, WithAttrs(hw.mem[pageDirectory][pde], S_W_P));
        assert hw.mem[pageDirectory] == Put(m0[pageDirectory], pde, MakeEntry(tableFrame, S_W_P));
        assert hw.mem == m0[pageDirectory := Put(m0[pageDirectory], pde, MakeEntry(tableFrame, S_W_P))];
        flag := true;
      }
      var pageTable := EntryFrame(hw.mem[pageDirectory][pde]);
      ghost var m1 := hw.mem;
      if flag {
        for i := 0 to ENTRIES_PER_PAGE
          invariant hw.Wf() && hw.mem.Keys == m1.Keys
          invariant forall f :: f in m1 && f != pageTable ==> hw.mem[f] == m1[f]
          invariant forall k :: 0 <= k < i ==> hw.mem[pageTable][k] == S_W_NP
        {
          hw.Store(pageTable, i, S_W_NP);
        }
        assert hw.mem[pageTable] == EmptyTable();
        assert hw.mem == m1[pageTable := EmptyTable()];
      }
      hw.Store(pageTable, pte, WithAttrs(frameAddress, S_W_P));
      if flag {
        assert pageTable == tableFrame;
        assert hw.mem == m1[tableFrame := Put(EmptyTable(), pte, MakeEntry(dataFrame, S_W_P))];
      } else {
        assert hw.mem == m0[pageTable := Put(m0[pageTable], pte, MakeEntry(dataFrame, S_W_P))];
      }
      halted := false;
    }
  }
}
