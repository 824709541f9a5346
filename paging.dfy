/**
 * Two-level x86 paging as the kernel's page tables use it: a page directory
 * and page tables of 1024 four-byte entries each, 4 KiB pages, the page-fault
 * error code and the control registers CR0, CR2 and CR3.
 *
 * Machine words are integers in [0, 2^32). Each mask-and-shift of the source
 * is written as the division, remainder or multiplication it computes on such
 * a word; `MasksSplitAddress` states the masks themselves on 32-bit vectors.
 */
module Paging {
  import opened Util

  /** A 32-bit machine word. */
  type Word = w: int | 0 <= w < 0x1_0000_0000

  const PAGE_SIZE: nat := 4096
  const ENTRIES_PER_PAGE: nat := 1024
  /** Number of 4 KiB frames of a 32-bit physical address space. */
  const FRAME_COUNT: nat := 0x10_0000

  const PHYSICAL_ADDRESS_MASK: bv32 := 0xFFFF_F000
  const PHYSICAL_ADDRESS_START: nat := 12
  const PDE_INDEX_MASK: bv32 := 0xFFC0_0000
  const PTE_INDEX_MASK: bv32 := 0x003F_F000
  const PDE_FIELD_START: nat := 22
  const PTE_FIELD_START: nat := 12

  /** Error-code values and entry attributes: user/supervisor, write/read, present. */
  const ERR_CODE_MASK: nat := 7
  const U_W_P: nat := 7
  const U_W_NP: nat := 6
  const U_R_P: nat := 5
  const U_R_NP: nat := 4
  const S_W_P: nat := 3
  const S_W_NP: nat := 2
  const S_R_P: nat := 1
  const S_R_NP: nat := 0

  const CR0_PAGING_BIT: Word := 0x8000_0000

  /** The logical address of the page directory under the recursive mapping. */
  const PD_LOOKUP: Word := 0xFFFF_F000
  /** The logical address of page table 0 under the recursive mapping. */
  const PT_LOOKUP: Word := 0xFFC0_0000
  /** The directory slot that maps the directory onto itself. */
  const SELF_SLOT: nat := 1023

  /**
   * The index masks split a 32-bit address into directory index, table index
   * and page offset, and the physical-address mask keeps the first two.
   */
  lemma MasksSplitAddress(a: bv32)
    ensures (a & PDE_INDEX_MASK) | (a & PTE_INDEX_MASK) | (a & 0xFFF) == a
    ensures (a & PDE_INDEX_MASK) & (a & PTE_INDEX_MASK) == 0
    ensures a & PHYSICAL_ADDRESS_MASK == (a & PDE_INDEX_MASK) | (a & PTE_INDEX_MASK)
    ensures (a & PDE_INDEX_MASK) >> 22 < 1024 && (a & PTE_INDEX_MASK) >> 12 < 1024
  {
  }

  // ---------------------------------------------------------------------------
  // Address fields.
  // ---------------------------------------------------------------------------

  /** (a & PDE_INDEX_MASK) >> PDE_FIELD_START */
  function PdeIndex(a: Word): (r: nat)
    ensures r < ENTRIES_PER_PAGE
  {
    a / 0x40_0000
  }

  /** (a & PTE_INDEX_MASK) >> PTE_FIELD_START */
  function PteIndex(a: Word): (r: nat)
    ensures r < ENTRIES_PER_PAGE
  {
    a / 0x1000 % 0x400
  }

  /** a & 0xFFF */
  function PageOffset(a: Word): (r: nat)
    ensures r < PAGE_SIZE
  {
    a % 0x1000
  }

  /** The three fields make up the whole address. */
  lemma AddressFields(a: Word)
    ensures a == PdeIndex(a) * 0x40_0000 + PteIndex(a) * 0x1000 + PageOffset(a)
  {
  }

  /** An address built from three fields has exactly those fields. */
  lemma FieldsOfAddress(pde: nat, pte: nat, off: nat)
    requires pde < ENTRIES_PER_PAGE && pte < ENTRIES_PER_PAGE && off < PAGE_SIZE
    ensures var a := pde * 0x40_0000 + pte * 0x1000 + off;
      0 <= a < 0x1_0000_0000 &&
      PdeIndex(a) == pde && PteIndex(a) == pte && PageOffset(a) == off
  {
    var a := pde * 0x40_0000 + pte * 0x1000 + off;
    assert a == (pde * 0x400 + pte) * 0x1000 + off;
    assert a / 0x1000 == pde * 0x400 + pte;
  }

  // ---------------------------------------------------------------------------
  // Entries: a frame address in the upper 20 bits, attributes in the lower 12.
  // ---------------------------------------------------------------------------

  /** f << PHYSICAL_ADDRESS_START: the physical address of frame `f`. */
  function FrameAddress(f: nat): (a: Word)
    requires f < FRAME_COUNT
    ensures a % PAGE_SIZE == 0 && a / PAGE_SIZE == f
  {
    f * PAGE_SIZE
  }

  /** addr | attrs, for a page-aligned address and attributes below 4096. */
  function WithAttrs(addr: Word, attrs: nat): (e: Word)
    requires addr % PAGE_SIZE == 0 && attrs < PAGE_SIZE
    ensures e / PAGE_SIZE == addr / PAGE_SIZE && e % PAGE_SIZE == attrs
  {
    addr + attrs
  }

  /** An entry naming frame `f` with attributes `attrs`. */
  function MakeEntry(f: nat, attrs: nat): (e: Word)
    requires f < FRAME_COUNT && attrs < PAGE_SIZE
    ensures EntryFrame(e) == f && e % PAGE_SIZE == attrs
  {
    WithAttrs(FrameAddress(f), attrs)
  }

  /** (e & PHYSICAL_ADDRESS_MASK) >> PHYSICAL_ADDRESS_START: the frame an entry names. */
  function EntryFrame(e: Word): (f: nat)
    ensures f < FRAME_COUNT
  {
    e / PAGE_SIZE
  }

  /** (e & 0x1) == 0x1: the present bit. */
  predicate Present(e: Word)
  {
    e % 2 == 1
  }

  /** A present entry with its present bit cleared, e & ~0x1. */
  function ClearPresent(e: Word): (r: Word)
    requires Present(e)
    ensures !Present(r) && EntryFrame(r) == EntryFrame(e) && r / 2 == e / 2
  {
    e - 1
  }

  /** An entry made with S_W_P is present; one made with S_W_NP is not. */
  lemma AttributePresence(f: nat)
    requires f < FRAME_COUNT
    ensures Present(MakeEntry(f, S_W_P)) && !Present(MakeEntry(f, S_W_NP))
  {
    var k := f * 2048 + 1;
    assert MakeEntry(f, S_W_P) == 2 * k + 1 && MakeEntry(f, S_W_NP) == 2 * k;
  }

  // ---------------------------------------------------------------------------
  // The page-fault error code.
  // ---------------------------------------------------------------------------

  /** What the low three bits of a page-fault error code report. */
  datatype FaultCause = FaultCause(user: bool, write: bool, protection: bool)

  /** err_code & ERR_CODE_MASK, read bit by bit. */
  function ErrorCause(err: Word): (c: FaultCause)
    ensures c.protection <==> err % 2 == 1
    ensures c.write <==> err / 2 % 2 == 1
    ensures c.user <==> err / 4 % 2 == 1
  {
    var c := err % 8;
    FaultCause(c / 4 == 1, c / 2 % 2 == 1, c % 2 == 1)
  }

  /** The error-code value naming a cause: U_W_P .. S_R_NP. */
  function CauseCode(c: FaultCause): (r: nat)
    ensures r <= U_W_P
    ensures c == FaultCause(true, true, true) ==> r == U_W_P
    ensures c == FaultCause(true, true, false) ==> r == U_W_NP
    ensures c == FaultCause(true, false, true) ==> r == U_R_P
    ensures c == FaultCause(true, false, false) ==> r == U_R_NP
    ensures c == FaultCause(false, true, true) ==> r == S_W_P
    ensures c == FaultCause(false, true, false) ==> r == S_W_NP
    ensures c == FaultCause(false, false, true) ==> r == S_R_P
    ensures c == FaultCause(false, false, false) ==> r == S_R_NP
  {
    (if c.user then 4 else 0) + (if c.write then 2 else 0) + (if c.protection then 1 else 0)
  }

  /** Decoding an error code and naming the cause gives back its low three bits. */
  lemma ErrorCodeRoundTrip(err: Word)
    ensures CauseCode(ErrorCause(err)) == err % 8
    ensures ErrorCause(err).protection <==> err % 2 == 1
  {
  }

  /** Naming a cause and decoding the code gives back the cause. */
  lemma CauseRoundTrip(c: FaultCause)
    ensures ErrorCause(CauseCode(c)) == c
  {
  }

  /** CR0 with the paging bit set: cr0 | CR0_PAGING_BIT. */
  function SetPagingBit(cr0: Word): (r: Word)
    ensures r / CR0_PAGING_BIT == 1
    ensures r % CR0_PAGING_BIT == cr0 % CR0_PAGING_BIT
  {
    if cr0 >= CR0_PAGING_BIT then cr0 else cr0 + CR0_PAGING_BIT
  }

  // ---------------------------------------------------------------------------
  // Physical memory and address translation.
  // ---------------------------------------------------------------------------

  /** Physical memory: frame number to the frame's 1024 words, for the frames the model uses. */
  type Memory = map<nat, seq<Word>>

  /** Every frame of memory holds 1024 words. */
  predicate FrameShaped(mem: Memory)
  {
    forall f :: f in mem ==> |mem[f]| == ENTRIES_PER_PAGE
  }

  /** A word of physical memory: frame number and word index in the frame. */
  datatype WordLocation = WordLocation(frame: nat, index: nat)

  /**
   * What the MMU does with logical address `a` when CR3 holds `cr3`: the word
   * it reaches, or None for a page fault (an entry not present, or a frame
   * outside modelled memory).
   */
  function Translate(mem: Memory, cr3: Word, a: Word): (r: Option<WordLocation>)
    requires FrameShaped(mem)
    ensures r.Some? ==> r.value.frame in mem && r.value.index < ENTRIES_PER_PAGE
  {
    var d := EntryFrame(cr3);
    if d !in mem then None
    else
      var pde := mem[d][PdeIndex(a)];
      if !Present(pde) || EntryFrame(pde) !in mem then None
      else
        var pte := mem[EntryFrame(pde)][PteIndex(a)];
        if !Present(pte) || EntryFrame(pte) !in mem then None
        else Some(WordLocation(EntryFrame(pte), PageOffset(a) / 4))
  }

  /** Frame contents `s` with word `i` replaced by `w`. */
  function Put(s: seq<Word>, i: nat, w: Word): (r: seq<Word>)
    requires i < |s|
    ensures |r| == |s| && r[i] == w && forall j :: 0 <= j < |s| && j != i ==> r[j] == s[j]
  {
    s[i := w]
  }

  /** A page table none of whose entries is present. */
  function EmptyTable(): (t: seq<Word>)
    ensures |t| == ENTRIES_PER_PAGE
    ensures forall i :: 0 <= i < ENTRIES_PER_PAGE ==> !Present(t[i])
  {
    seq(ENTRIES_PER_PAGE, _ => S_W_NP)
  }

  /** The state of the machine the page tables work on. */
  class Hardware {
    var mem: Memory
    var cr0: Word
    /** The faulting address of the last page fault. */
    var cr2: Word
    /** The physical address of the loaded page directory. */
    var cr3: Word
    /** The directory address of current_page_table; None before any table is loaded. */
    var currentDirectory: Option<Word>

    ghost predicate Wf()
      reads this
    {
      FrameShaped(mem)
    }

    /** A store to physical word `i` of frame `f`. */
    method Store(f: nat, i: nat, w: Word)
      requires Wf() && f in mem && i < ENTRIES_PER_PAGE
      modifies this`mem
      ensures Wf() && mem == old(mem)[f := Put(old(mem)[f], i, w)]
    {
      mem := mem[f := Put(mem[f], i, w)];
    }

    /** A load from logical address `a` through the MMU. */
    function LoadLogical(a: Word): (w: Word)
      reads this
      requires Wf() && Translate(mem, cr3, a).Some?
      ensures var loc := Translate(mem, cr3, a).value;
        loc.frame in mem && loc.index < ENTRIES_PER_PAGE && w == mem[loc.frame][loc.index]
    {
      var loc := Translate(mem, cr3, a).value;
      mem[loc.frame][loc.index]
    }

    /** A store to logical address `a` through the MMU. */
    method StoreLogical(a: Word, w: Word)
      requires Wf() && Translate(mem, cr3, a).Some?
      modifies this`mem
      ensures Wf()
      ensures var loc := Translate(old(mem), cr3, a).value;
        mem == old(mem)[loc.frame := Put(old(mem)[loc.frame], loc.index, w)]
      ensures Translate(mem, cr3, a) == Translate(old(mem), cr3, a) ==> LoadLogical(a) == w
    {
      var loc := Translate(mem, cr3, a).value;
      mem := mem[loc.frame := Put(mem[loc.frame], loc.index, w)];
    }
  }

  // ---------------------------------------------------------------------------
  // The effect of handling a not-present fault, shared by both page tables.
  // ---------------------------------------------------------------------------

  /** The directory of frame `d` may be walked: its present entries name frames of memory. */
  predicate Walkable(mem: Memory, d: nat)
  {
    FrameShaped(mem) && d in mem &&
    forall k :: 0 <= k < ENTRIES_PER_PAGE && Present(mem[d][k]) ==> EntryFrame(mem[d][k]) in mem
  }

  /**
   * Physical memory after a not-present fault on address `a` is handled with
   * directory `d`, new table frame `tf` (used only when the directory entry
   * is not present) and data frame `df`: when the directory entry is absent
   * it is set to `tf` and `tf` becomes an empty table; then the table entry
   * for `a` is set to `df`.
   */
  function ResolveFault(mem: Memory, d: nat, a: Word, tf: nat, df: nat): (r: Memory)
    requires Walkable(mem, d) && tf < FRAME_COUNT && df < FRAME_COUNT
    requires !Present(mem[d][PdeIndex(a)]) ==> tf in mem
    ensures r.Keys == mem.Keys && FrameShaped(r)
  {
    var pde := PdeIndex(a);
    var pte := PteIndex(a);
    if Present(mem[d][pde]) then
      var t := EntryFrame(mem[d][pde]);
      mem[t := Put(mem[t], pte, MakeEntry(df, S_W_P))]
    else
      mem[d := Put(mem[d], pde, MakeEntry(tf, S_W_P))][tf := Put(EmptyTable(), pte, MakeEntry(df, S_W_P))]
  }

  /**
   * The new table frame is a frame of memory other than the directory and is
   * not one of the directory's tables.
   */
  predicate FreshTableFrame(mem: Memory, d: nat, tf: nat)
    requires Walkable(mem, d)
  {
    tf in mem && tf != d && tf < FRAME_COUNT &&
    forall k :: 0 <= k < ENTRIES_PER_PAGE && Present(mem[d][k]) ==> EntryFrame(mem[d][k]) != tf
  }

  /** The page of `a` is not mapped: its directory entry or its table entry is not present. */
  predicate NotPresentFault(mem: Memory, d: nat, a: Word)
    requires Walkable(mem, d)
  {
    var e := mem[d][PdeIndex(a)];
    !Present(e) || !Present(mem[EntryFrame(e)][PteIndex(a)])
  }

  /**
   * After a not-present fault is resolved, `a` reaches the data frame. A new
   * table frame is needed only when the directory entry is absent, and must
   * then differ from the directory.
   */
  lemma ResolveFaultMapsAddress(mem: Memory, cr3: Word, a: Word, tf: nat, df: nat)
    requires Walkable(mem, EntryFrame(cr3)) && df in mem && df < FRAME_COUNT && tf < FRAME_COUNT
    requires NotPresentFault(mem, EntryFrame(cr3), a)
    requires !Present(mem[EntryFrame(cr3)][PdeIndex(a)]) ==> tf in mem && tf != EntryFrame(cr3)
    ensures Translate(ResolveFault(mem, EntryFrame(cr3), a, tf, df), cr3, a)
         == Some(WordLocation(df, PageOffset(a) / 4))
  {
    var d := EntryFrame(cr3);
    var r := ResolveFault(mem, d, a, tf, df);
    var entry := MakeEntry(df, S_W_P);
    AttributePresence(df);
    var t := if Present(mem[d][PdeIndex(a)]) then EntryFrame(mem[d][PdeIndex(a)]) else tf;
    if Present(mem[d][PdeIndex(a)]) {
      if t == d {
        assert PteIndex(a) != PdeIndex(a);
        assert r[d][PdeIndex(a)] == mem[d][PdeIndex(a)];
      } else {
        assert r[d] == mem[d];
      }
    } else {
      AttributePresence(tf);
      assert r[d][PdeIndex(a)] == MakeEntry(tf, S_W_P);
    }
    assert Present(r[d][PdeIndex(a)]) && EntryFrame(r[d][PdeIndex(a)]) == t && t in r;
    assert r[t][PteIndex(a)] == entry;
  }

  /**
   * Resolving a not-present fault changes no mapping that existed: every
   * address that reached a word before reaches the same word after.
   */
  lemma ResolveFaultKeepsMappings(mem: Memory, cr3: Word, a: Word, tf: nat, df: nat, b: Word)
    requires Walkable(mem, EntryFrame(cr3)) && df < FRAME_COUNT
    requires FreshTableFrame(mem, EntryFrame(cr3), tf)
    requires NotPresentFault(mem, EntryFrame(cr3), a)
    requires Translate(mem, cr3, b).Some?
    ensures Translate(ResolveFault(mem, EntryFrame(cr3), a, tf, df), cr3, b) == Translate(mem, cr3, b)
  {
    var d := EntryFrame(cr3);
    var r := ResolveFault(mem, d, a, tf, df);
    var eb := mem[d][PdeIndex(b)];
    var u := EntryFrame(eb);
    assert Present(eb) && Present(mem[u][PteIndex(b)]);
    if Present(mem[d][PdeIndex(a)]) {
      var t := EntryFrame(mem[d][PdeIndex(a)]);
      if t == d {
        assert PdeIndex(b) != PteIndex(a);
      }
      assert r[d][PdeIndex(b)] == eb;
      if u == t {
        assert PteIndex(b) != PteIndex(a);
      }
      assert r[u][PteIndex(b)] == mem[u][PteIndex(b)];
    } else {
      assert PdeIndex(b) != PdeIndex(a);
      assert r[d][PdeIndex(b)] == eb;
      if u == d {
        assert PteIndex(b) != PdeIndex(a);
      }
      assert r[u][PteIndex(b)] == mem[u][PteIndex(b)];
    }
  }
}
