/** 32-bit two-level paging as the kernel edits it: page tables are ordinary
    physical frames, and the kernel reaches them only through virtual addresses,
    by way of directories that map themselves. */
module Paging {

  const FRAMES: nat := 0x10_0000
  const ENTRIES: nat := 1024
  const PAGE_SIZE: nat := 4096
  const LARGE_PAGE: nat := 0x40_0000
  const ADDRESS_SPACE: nat := 0x1_0000_0000
  const VM_TMP_MAP: nat := 0xff7f_e000
  const VM_TMP2_MAP: nat := 0xff7f_f000
  const VM_EXPAGE_TABLES: nat := 0xff80_0000
  const VM_EXPAGE_DIR: nat := 0xffbf_f000
  const VM_PAGE_TABLES: nat := 0xffc0_0000
  const VM_PAGE_DIR: nat := 0xffff_f000
  const KERN_SLOT: nat := 768
  const KERN_END_SLOT: nat := 896
  const TMP_SLOT: nat := 1021
  const EX_SLOT: nat := 1022
  const SELF_SLOT: nat := 1023

  datatype Option<T> = None | Some(value: T)

  type FrameNo = f: nat | f < FRAMES
  type Flags = g: nat | g < PAGE_SIZE
  type Byte = b: nat | b < 256
  type Index = i: nat | i < ENTRIES

  /** A 32-bit word, seen as an entry: the bits above `PG_ALIGN` and the bits below.
      The word's numeric value is `frame * 4096 + flags`. */
  datatype Word = Word(frame: FrameNo, flags: Flags)

  const ZERO: Word := Word(0, 0)

  /** Physical memory: frames of 1024 words. */
  type Frame = seq<Word>
  type Memory = seq<Frame>

  ghost predicate IsMemory(m: Memory) {
    |m| == FRAMES && forall f {:trigger m[f]} :: 0 <= f < FRAMES ==> |m[f]| == ENTRIES
  }

  // ------------------------------------------------------- words and addresses

  predicate Present(w: Word) { w.flags % 2 == 1 }

  /** `(paddr & PG_ALIGN) | flags` */
  function Entry(paddr: Word, flags: Flags): Word { Word(paddr.frame, flags) }

  /** `flags | PG_PRESENT` */
  function OrPresent(flags: Flags): Flags { flags / 2 * 2 + 1 }

  /** The bit is set and the others stay. */
  lemma PresentBit(flags: Flags)
    ensures OrPresent(flags) == if flags % 2 == 1 then flags else flags + 1
  {
  }

  /** `w | PG_PRESENT | PG_RW` */
  function OrPresentRw(w: Word): Word { Word(w.frame, w.flags / 4 * 4 + 3) }

  function DirIndex(va: nat): (i: Index)
    requires va < ADDRESS_SPACE
  {
    va / LARGE_PAGE
  }

  function TableIndex(va: nat): (i: Index) {
    va / PAGE_SIZE % ENTRIES
  }

  // --------------------------------------------------------------- the walker

  /** The page-table entry with these two indices, zero where there is no table. */
  function Pte(m: Memory, pd: FrameNo, di: Index, ti: Index): Word
    requires IsMemory(m)
  {
    if Present(m[pd][di]) then m[m[pd][di].frame][ti] else ZERO
  }

  /** The frame that the processor translates the page of `va` to. */
  function Translate(m: Memory, pd: FrameNo, va: nat): Option<FrameNo>
    requires IsMemory(m) && va < ADDRESS_SPACE
  {
    var e := Pte(m, pd, DirIndex(va), TableIndex(va));
    if Present(e) then Some(e.frame) else None
  }

  predicate SelfMapped(m: Memory, pd: FrameNo)
    requires IsMemory(m)
  {
    Present(m[pd][SELF_SLOT]) && m[pd][SELF_SLOT].frame == pd
  }

  function SetWord(m: Memory, f: FrameNo, i: Index, w: Word): (m': Memory)
    requires IsMemory(m)
    ensures IsMemory(m')
    ensures m'[f][i] == w
    ensures forall g, j {:trigger m'[g][j]} :: 0 <= g < FRAMES && 0 <= j < ENTRIES && (g != f || j != i) ==> m'[g][j] == m[g][j]
    ensures forall g {:trigger m'[g]} :: 0 <= g < FRAMES && g != f ==> m'[g] == m[g]
  {
    m[f := m[f][i := w]]
  }

  // -------------------------------------------------- the windows onto tables

  lemma WindowArithmetic(base: nat, di: Index, ti: Index, i: Index)
    requires base == di * LARGE_PAGE + ti * PAGE_SIZE
    ensures var va := base + 4 * i;
      va < ADDRESS_SPACE && DirIndex(va) == di && TableIndex(va) == ti && va % PAGE_SIZE / 4 == i && va % 4 == 0
  {
    PageDivides(base + 4 * i, ENTRIES * di + ti, 4 * i);
    EntryDivides(di, ti);
    LargePageDivides(base + 4 * i, di, PAGE_SIZE * ti + 4 * i);
  }

  lemma PageDivides(va: nat, page: nat, o: nat)
    requires va == PAGE_SIZE * page + o && o < PAGE_SIZE
    ensures va / PAGE_SIZE == page && va % PAGE_SIZE == o
  {
  }

  lemma LargePageDivides(va: nat, di: nat, o: nat)
    requires va == LARGE_PAGE * di + o && o < LARGE_PAGE
    ensures va / LARGE_PAGE == di
  {
  }

  lemma EntryDivides(di: nat, ti: nat)
    requires ti < ENTRIES
    ensures (ENTRIES * di + ti) % ENTRIES == ti
  {
  }

  lemma PageNumberSplit(va: nat)
    requires va < ADDRESS_SPACE
    ensures va / PAGE_SIZE == ENTRIES * DirIndex(va) + TableIndex(va)
  {
    assert va / LARGE_PAGE == va / PAGE_SIZE / ENTRIES;
  }

  /** Virtual address `w` reads and writes word i of frame f. */
  ghost predicate Reaches(m: Memory, cr3: FrameNo, w: nat, f: FrameNo, i: Index)
    requires IsMemory(m)
  {
    w < ADDRESS_SPACE && w % 4 == 0 && Translate(m, cr3, w) == Some(f) && w % PAGE_SIZE / 4 == i
  }

  /** `current_pd[i]` is entry i of the current directory. */
  lemma CurrentDirWindow(m: Memory, cr3: FrameNo, i: Index)
    requires IsMemory(m) && SelfMapped(m, cr3)
    ensures Reaches(m, cr3, VM_PAGE_DIR + 4 * i, cr3, i)
  {
    WindowArithmetic(VM_PAGE_DIR, SELF_SLOT, SELF_SLOT, i);
  }

  /** `current_pts[va >> 12]` is the current page-table entry of va. */
  lemma CurrentTablesWindow(m: Memory, cr3: FrameNo, va: nat)
    requires IsMemory(m) && va < ADDRESS_SPACE && SelfMapped(m, cr3)
    requires Present(m[cr3][DirIndex(va)])
    ensures Reaches(m, cr3, VM_PAGE_TABLES + 4 * (va / PAGE_SIZE), m[cr3][DirIndex(va)].frame, TableIndex(va))
  {
    PageNumberSplit(va);
    WindowArithmetic(VM_PAGE_TABLES + PAGE_SIZE * DirIndex(va), SELF_SLOT, DirIndex(va), TableIndex(va));
  }

  /** The external slot of the current directory holds directory pd. */
  ghost predicate ExternalIs(m: Memory, cr3: FrameNo, pd: FrameNo)
    requires IsMemory(m)
  {
    Present(m[cr3][EX_SLOT]) && m[cr3][EX_SLOT].frame == pd && SelfMapped(m, pd)
  }

  /** `external_pd[i]` is entry i of the directory in the external slot. */
  lemma ExternalDirWindow(m: Memory, cr3: FrameNo, pd: FrameNo, i: Index)
    requires IsMemory(m) && ExternalIs(m, cr3, pd)
    ensures Reaches(m, cr3, VM_EXPAGE_DIR + 4 * i, pd, i)
  {
    WindowArithmetic(VM_EXPAGE_DIR, EX_SLOT, SELF_SLOT, i);
  }

  /** `external_pts[va >> 12]` is the entry of va in the address space in the external slot. */
  lemma ExternalTablesWindow(m: Memory, cr3: FrameNo, pd: FrameNo, va: nat)
    requires IsMemory(m) && va < ADDRESS_SPACE && ExternalIs(m, cr3, pd)
    requires Present(m[pd][DirIndex(va)])
    ensures Reaches(m, cr3, VM_EXPAGE_TABLES + 4 * (va / PAGE_SIZE), m[pd][DirIndex(va)].frame, TableIndex(va))
  {
    PageNumberSplit(va);
    WindowArithmetic(VM_EXPAGE_TABLES + PAGE_SIZE * DirIndex(va), EX_SLOT, DirIndex(va), TableIndex(va));
  }

  // ---------------------------------------------------- who owns which frame

  /** What a frame is used for.  Tables of the kernel range are shared by all
      directories; all other tables belong to one slot of one directory. */
  datatype Role = Directory | Table(pd: FrameNo, slot: nat) | SharedTable(slot: nat) | Page

  type Roles = map<FrameNo, Role>

  predicate KernelSlot(i: nat) { KERN_SLOT <= i < TMP_SLOT }

  /** A slot whose tables belong to one directory alone: user space and the temporary maps. */
  predicate OwnSlot(i: nat) { i < KERN_SLOT || i == TMP_SLOT }

  function TableRole(pd: FrameNo, slot: nat): Role {
    if KernelSlot(slot) then SharedTable(slot) else Table(pd, slot)
  }

  predicate IsDirectory(own: Roles, pd: FrameNo) {
    pd in own && own[pd] == Directory
  }

  /** Slot i of directory pd is empty or leads to a table that plays the right role. */
  ghost predicate SlotOk(m: Memory, own: Roles, pd: FrameNo, i: Index)
    requires IsMemory(m)
  {
    Present(m[pd][i]) ==> m[pd][i].frame in own && own[m[pd][i].frame] == TableRole(pd, i)
  }

  ghost predicate Sound(m: Memory, own: Roles) {
    && IsMemory(m)
    && (forall pd: FrameNo {:trigger IsDirectory(own, pd)} :: IsDirectory(own, pd) ==> SelfMapped(m, pd))
    && (forall pd: FrameNo, i: Index {:trigger SlotOk(m, own, pd, i)} :: IsDirectory(own, pd) && i < EX_SLOT ==> SlotOk(m, own, pd, i))
  }

  // ------------------------------------------- the effect of the map functions

  /** Memory after pg_map: a missing table is first given the frame `spare`, as it is. */
  function Mapped(m: Memory, pd: FrameNo, paddr: Word, di: Index, ti: Index, flags: Flags, spare: FrameNo, tableFlags: Flags): (m': Memory)
    requires IsMemory(m)
    ensures IsMemory(m')
  {
    var m1 := if Present(m[pd][di]) then m else SetWord(m, pd, di, Word(spare, tableFlags));
    SetWord(m1, m1[pd][di].frame, ti, Entry(paddr, flags))
  }

  function SlotSet(m: Memory, cr3: FrameNo, w: Word): (m': Memory)
    requires IsMemory(m)
    ensures IsMemory(m')
  {
    SetWord(m, cr3, EX_SLOT, OrPresentRw(w))
  }

  /** The directory that was in the external slot is there again; bits 0 and 1 are set, the
      other bits are as they were. */
  predicate SlotWrittenBack(before: Word, after: Word) {
    && after.frame == before.frame && after.flags % 2 == 1 && after.flags / 2 % 2 == 1
    && after.flags / 4 == before.flags / 4
  }

  lemma PresentRwBits(w: Word)
    ensures SlotWrittenBack(w, OrPresentRw(w)) && OrPresentRw(Word(w.frame, 0)) == Word(w.frame, 3)
  {
    var q := w.flags / 4;
    assert OrPresentRw(w).flags == 4 * q + 3;
    assert (4 * q + 3) / 2 == 2 * q + 1 && (4 * q + 3) / 4 == q;
  }

  function UserTableFlags(flags: Flags): Flags {
    if flags / 4 % 2 == 1 then 7 else 3
  }

  /** Memory after pg_map_to: the external slot of the current directory is borrowed and
      written back. */
  function MappedTo(m: Memory, cr3: FrameNo, pd: FrameNo, paddr: Word, di: Index, ti: Index, flags: Flags, spare: FrameNo): (m': Memory)
    requires IsMemory(m)
    ensures IsMemory(m')
  {
    var m1 := SlotSet(m, cr3, Word(pd, 0));
    var m2 := Mapped(m1, pd, paddr, di, ti, flags, spare, UserTableFlags(flags));
    SlotSet(m2, cr3, m[cr3][EX_SLOT])
  }

  function OwnAfter(m: Memory, own: Roles, pd: FrameNo, di: Index, spare: FrameNo): Roles
    requires IsMemory(m)
  {
    if Present(m[pd][di]) then own else own[spare := TableRole(pd, di)]
  }

  lemma MappedKeepsSound(m: Memory, own: Roles, pd: FrameNo, paddr: Word, di: Index, ti: Index, flags: Flags, spare: FrameNo, tableFlags: Flags)
    requires Sound(m, own) && IsDirectory(own, pd) && (Present(m[pd][di]) || spare !in own) && di < EX_SLOT && tableFlags % 2 == 1
    ensures Sound(Mapped(m, pd, paddr, di, ti, flags, spare, tableFlags), OwnAfter(m, own, pd, di, spare))
  {
    var m' := Mapped(m, pd, paddr, di, ti, flags, spare, tableFlags);
    var own' := OwnAfter(m, own, pd, di, spare);
    assert SlotOk(m, own, pd, di);
    forall pd2: FrameNo | IsDirectory(own', pd2) ensures SelfMapped(m', pd2) {
      assert IsDirectory(own, pd2);
    }
    forall pd2: FrameNo, i: Index | IsDirectory(own', pd2) && i < EX_SLOT ensures SlotOk(m', own', pd2, i) {
      assert IsDirectory(own, pd2) && SlotOk(m, own, pd2, i);
    }
  }

  /** Mapping a page changes the entry of that page alone; a new table brings in whatever
      the frame held before. */
  lemma MappedEntry(m: Memory, own: Roles, pd: FrameNo, paddr: Word, di: Index, ti: Index, flags: Flags, spare: FrameNo, tableFlags: Flags,
                    pd2: FrameNo, di2: Index, ti2: Index)
    requires Sound(m, own) && IsDirectory(own, pd) && IsDirectory(own, pd2) && (Present(m[pd][di]) || spare !in own)
    requires OwnSlot(di) && di2 < EX_SLOT && tableFlags % 2 == 1
    ensures Pte(Mapped(m, pd, paddr, di, ti, flags, spare, tableFlags), pd2, di2, ti2) ==
      if pd == pd2 && di == di2 && ti == ti2 then Word(paddr.frame, flags)
      else if pd == pd2 && di == di2 && !Present(m[pd][di]) then m[spare][ti2]
      else Pte(m, pd2, di2, ti2)
  {
    assert SlotOk(m, own, pd, di) && SlotOk(m, own, pd2, di2);
  }

  /** Directories pd and pd2 have the same table in slot di. */
  ghost predicate SameTable(m: Memory, pd: FrameNo, pd2: FrameNo, di: Index)
    requires IsMemory(m)
  {
    Present(m[pd][di]) && Present(m[pd2][di]) && m[pd][di].frame == m[pd2][di].frame
  }

  /** Tables of user space are never shared. */
  lemma SameTableIsKernels(m: Memory, own: Roles, pd: FrameNo, pd2: FrameNo, di: Index)
    requires Sound(m, own) && IsDirectory(own, pd) && IsDirectory(own, pd2) && di < EX_SLOT && SameTable(m, pd, pd2, di)
    ensures pd == pd2 || KernelSlot(di)
  {
    assert SlotOk(m, own, pd, di) && SlotOk(m, own, pd2, di);
  }

  /** A page mapped anywhere below the windows is seen by the address spaces that share its
      table, so the kernel's pages are seen by all that have the table already; a table made
      for it now is seen in one directory alone. */
  lemma MappedSeenFrom(m: Memory, own: Roles, pd: FrameNo, paddr: Word, di: Index, ti: Index, flags: Flags, spare: FrameNo, tableFlags: Flags,
                       pd2: FrameNo, di2: Index, ti2: Index)
    requires Sound(m, own) && IsDirectory(own, pd) && IsDirectory(own, pd2) && (Present(m[pd][di]) || spare !in own)
    requires di < EX_SLOT && di2 < EX_SLOT && tableFlags % 2 == 1
    ensures Pte(Mapped(m, pd, paddr, di, ti, flags, spare, tableFlags), pd2, di2, ti2) ==
      if di == di2 && ti == ti2 && (pd == pd2 || SameTable(m, pd, pd2, di)) then Word(paddr.frame, flags)
      else if pd == pd2 && di == di2 && !Present(m[pd][di]) then m[spare][ti2]
      else Pte(m, pd2, di2, ti2)
  {
    assert SlotOk(m, own, pd, di) && SlotOk(m, own, pd2, di2);
  }

  /** Borrowing the external slot changes no translation outside the windows. */
  lemma SlotSetKeepsSound(m: Memory, own: Roles, cr3: FrameNo, w: Word)
    requires Sound(m, own) && IsDirectory(own, cr3)
    ensures Sound(SlotSet(m, cr3, w), own)
  {
    var m' := SlotSet(m, cr3, w);
    forall pd: FrameNo, i: Index | IsDirectory(own, pd) && i < EX_SLOT ensures SlotOk(m', own, pd, i) {
      assert SlotOk(m, own, pd, i);
    }
  }

  lemma SlotSetEntry(m: Memory, own: Roles, cr3: FrameNo, w: Word, pd: FrameNo, di: Index, ti: Index)
    requires Sound(m, own) && IsDirectory(own, cr3) && IsDirectory(own, pd) && di < EX_SLOT
    ensures Pte(SlotSet(m, cr3, w), pd, di, ti) == Pte(m, pd, di, ti)
    ensures SlotSet(m, cr3, w)[pd][di] == m[pd][di]
  {
    assert SlotOk(m, own, pd, di);
  }

  /** Everything pg_map_to may be asked to do in a sound state. */
  ghost predicate CanMapTo(m: Memory, own: Roles, cr3: FrameNo, pd: FrameNo, di: Index, spare: FrameNo) {
    && Sound(m, own) && IsDirectory(own, cr3) && IsDirectory(own, pd)
    && (Present(m[pd][di]) || spare !in own) && OwnSlot(di)
  }

  /** What pg_map_to does to the whole of virtual memory: the entry of one page of one
      address space is set; nothing else changes but the siblings in a brand-new table. */
  lemma MappedToEntry(m: Memory, own: Roles, cr3: FrameNo, pd: FrameNo, paddr: Word, di: Index, ti: Index, flags: Flags, spare: FrameNo,
                      pd2: FrameNo, di2: Index, ti2: Index)
    requires CanMapTo(m, own, cr3, pd, di, spare) && IsDirectory(own, pd2) && di2 < EX_SLOT
    ensures Pte(MappedTo(m, cr3, pd, paddr, di, ti, flags, spare), pd2, di2, ti2) ==
      if pd == pd2 && di == di2 && ti == ti2 then Word(paddr.frame, flags)
      else if pd == pd2 && di == di2 && !Present(m[pd][di]) then m[spare][ti2]
      else Pte(m, pd2, di2, ti2)
  {
    var m1 := SlotSet(m, cr3, Word(pd, 0));
    SlotSetKeepsSound(m, own, cr3, Word(pd, 0));
    SlotSetEntry(m, own, cr3, Word(pd, 0), pd2, di2, ti2);
    SlotSetEntry(m, own, cr3, Word(pd, 0), pd, di, ti);
    MappedEntry(m1, own, pd, paddr, di, ti, flags, spare, UserTableFlags(flags), pd2, di2, ti2);
    MappedKeepsSound(m1, own, pd, paddr, di, ti, flags, spare, UserTableFlags(flags));
    var m2 := Mapped(m1, pd, paddr, di, ti, flags, spare, UserTableFlags(flags));
    SlotSetEntry(m2, OwnAfter(m1, own, pd, di, spare), cr3, m[cr3][EX_SLOT], pd2, di2, ti2);
  }

  /** Programs may use a page if the user bit is set in its entry and in that of its table. */
  ghost predicate UserMayUse(m: Memory, pd: FrameNo, di: Index, ti: Index)
    requires IsMemory(m)
  {
    && Present(m[pd][di]) && m[pd][di].flags / 4 % 2 == 1
    && Present(Pte(m, pd, di, ti)) && Pte(m, pd, di, ti).flags / 4 % 2 == 1
  }

  /** They may use a page just mapped if and only if it is mapped for them and its table was
      not made for a page of the kernel's; a table made now is writable and open to them as
      the page is. */
  lemma UserMayUseIff(m: Memory, own: Roles, cr3: FrameNo, pd: FrameNo, paddr: Word, di: Index, ti: Index, flags: Flags, spare: FrameNo)
    requires CanMapTo(m, own, cr3, pd, di, spare)
    ensures var m' := MappedTo(m, cr3, pd, paddr, di, ti, flags, spare);
      && (UserMayUse(m', pd, di, ti) <==> flags % 2 == 1 && flags / 4 % 2 == 1 && (Present(m[pd][di]) ==> m[pd][di].flags / 4 % 2 == 1))
      && (if Present(m[pd][di]) then m'[pd][di] == m[pd][di]
          else m'[pd][di].frame == spare && m'[pd][di].flags / 2 % 2 == 1 && (m'[pd][di].flags / 4 % 2 == 1 <==> flags / 4 % 2 == 1))
  {
    MappedToEntry(m, own, cr3, pd, paddr, di, ti, flags, spare, pd, di, ti);
    TableEntry(m, own, cr3, pd, paddr, di, ti, flags, spare);
  }

  lemma TableEntry(m: Memory, own: Roles, cr3: FrameNo, pd: FrameNo, paddr: Word, di: Index, ti: Index, flags: Flags, spare: FrameNo)
    requires CanMapTo(m, own, cr3, pd, di, spare)
    ensures MappedTo(m, cr3, pd, paddr, di, ti, flags, spare)[pd][di]
         == if Present(m[pd][di]) then m[pd][di] else Word(spare, if flags / 4 % 2 == 1 then 7 else 3)
  {
    assert SlotOk(m, own, pd, di);
  }

  lemma MappedToKeepsSound(m: Memory, own: Roles, cr3: FrameNo, pd: FrameNo, paddr: Word, di: Index, ti: Index, flags: Flags, spare: FrameNo)
    requires CanMapTo(m, own, cr3, pd, di, spare)
    ensures Sound(MappedTo(m, cr3, pd, paddr, di, ti, flags, spare), OwnAfter(m, own, pd, di, spare))
  {
    var m1 := SlotSet(m, cr3, Word(pd, 0));
    SlotSetKeepsSound(m, own, cr3, Word(pd, 0));
    SlotSetEntry(m, own, cr3, Word(pd, 0), pd, di, ti);
    MappedKeepsSound(m1, own, pd, paddr, di, ti, flags, spare, UserTableFlags(flags));
    var m2 := Mapped(m1, pd, paddr, di, ti, flags, spare, UserTableFlags(flags));
    SlotSetKeepsSound(m2, OwnAfter(m1, own, pd, di, spare), cr3, m[cr3][EX_SLOT]);
  }

  /** Frames that hold data, and frames not in use, keep their contents. */
  lemma MappedToKeepsData(m: Memory, own: Roles, cr3: FrameNo, pd: FrameNo, paddr: Word, di: Index, ti: Index, flags: Flags, spare: FrameNo, f: FrameNo)
    requires CanMapTo(m, own, cr3, pd, di, spare)
    requires (Present(m[pd][di]) || f != spare) && (f in own ==> own[f] == Page)
    ensures MappedTo(m, cr3, pd, paddr, di, ti, flags, spare)[f] == m[f]
  {
    assert SlotOk(m, own, pd, di);
  }

  /** No other page of any address space is disturbed exactly when a newly allocated table
      frame happens to hold no present entry elsewhere: pg_map_to never clears it. */
  lemma OthersKeptIffTableClean(m: Memory, own: Roles, cr3: FrameNo, pd: FrameNo, paddr: Word, di: Index, ti: Index, flags: Flags, spare: FrameNo)
    requires CanMapTo(m, own, cr3, pd, di, spare)
    ensures OthersKept(m, MappedTo(m, cr3, pd, paddr, di, ti, flags, spare), own, pd, di, ti)
        <==> Present(m[pd][di]) || CleanBut(m[spare], ti)
  {
    var m' := MappedTo(m, cr3, pd, paddr, di, ti, flags, spare);
    if Present(m[pd][di]) || CleanBut(m[spare], ti) {
      forall pd2: FrameNo, di2: Index, ti2: Index
        | IsDirectory(own, pd2) && di2 < EX_SLOT && !(pd == pd2 && di == di2 && ti == ti2)
        ensures SameTranslation(m, m', pd2, di2, ti2)
      {
        MappedToEntry(m, own, cr3, pd, paddr, di, ti, flags, spare, pd2, di2, ti2);
      }
    }
    if OthersKept(m, m', own, pd, di, ti) && !Present(m[pd][di]) {
      forall i: Index | i != ti ensures !Present(m[spare][i]) {
        MappedToEntry(m, own, cr3, pd, paddr, di, ti, flags, spare, pd, di, i);
        assert SameTranslation(m, m', pd, di, i);
      }
    }
  }

  ghost predicate SameTranslation(m: Memory, m': Memory, pd: FrameNo, di: Index, ti: Index)
    requires IsMemory(m) && IsMemory(m')
  {
    var e, e' := Pte(m, pd, di, ti), Pte(m', pd, di, ti);
    (Present(e) <==> Present(e')) && (Present(e) ==> e == e')
  }

  ghost predicate OthersKept(m: Memory, m': Memory, own: Roles, pd: FrameNo, di: Index, ti: Index)
    requires IsMemory(m) && IsMemory(m')
  {
    forall pd2: FrameNo, di2: Index, ti2: Index {:trigger SameTranslation(m, m', pd2, di2, ti2)} ::
      IsDirectory(own, pd2) && di2 < EX_SLOT && !(pd == pd2 && di == di2 && ti == ti2) ==> SameTranslation(m, m', pd2, di2, ti2)
  }

  ghost predicate CleanBut(frame: Frame, ti: Index)
    requires |frame| == ENTRIES
  {
    forall i: Index {:trigger frame[i]} :: i != ti ==> !Present(frame[i])
  }

  /** Frames that are about to be used for tables are clean. */
  ghost predicate Clean(m: Memory, supply: seq<FrameNo>)
    requires IsMemory(m)
  {
    forall i, j: Index {:trigger m[supply[i]][j]} :: 0 <= i < |supply| ==> m[supply[i]][j] == ZERO
  }

  /** Frames that stay in the supply and keep their contents stay clean. */
  lemma CleanKept(m: Memory, supply: seq<FrameNo>, m': Memory, later: seq<FrameNo>, n: nat)
    requires IsMemory(m) && IsMemory(m') && Clean(m, supply) && n <= |supply| && later == supply[n..]
    requires forall i {:trigger later[i]} :: 0 <= i < |later| ==> m'[later[i]] == m[later[i]]
    ensures Clean(m', later)
  {
    forall i | 0 <= i < |later| ensures forall j: Index :: m'[later[i]][j] == ZERO {
      assert later[i] == supply[n + i];
    }
  }

  lemma SlotSetKeepsEntries(m: Memory, own: Roles, cr3: FrameNo, w: Word)
    requires Sound(m, own) && IsDirectory(own, cr3)
    ensures forall pd: FrameNo, di: Index, ti: Index {:trigger Pte(SlotSet(m, cr3, w), pd, di, ti)} ::
      IsDirectory(own, pd) && di < EX_SLOT ==> Pte(SlotSet(m, cr3, w), pd, di, ti) == Pte(m, pd, di, ti)
  {
    forall pd: FrameNo, di: Index, ti: Index | IsDirectory(own, pd) && di < EX_SLOT
      ensures Pte(SlotSet(m, cr3, w), pd, di, ti) == Pte(m, pd, di, ti)
    {
      SlotSetEntry(m, own, cr3, w, pd, di, ti);
    }
  }

  lemma TmpAddress(base: nat, ti: Index, i: nat)
    requires base == TMP_SLOT * LARGE_PAGE + ti * PAGE_SIZE && i < PAGE_SIZE
    ensures base + i < ADDRESS_SPACE && DirIndex(base + i) == TMP_SLOT && TableIndex(base + i) == ti && (base + i) % PAGE_SIZE == i
  {
    assert base + i == PAGE_SIZE * (ENTRIES * TMP_SLOT + ti) + i;
    assert (base + i) / PAGE_SIZE == ENTRIES * TMP_SLOT + ti;
  }

  // ------------------------------------------- what the temporary maps disturb

  /** Memory after pg_unmap. */
  function Unmapped(m: Memory, pd: FrameNo, di: Index, ti: Index): (m': Memory)
    requires IsMemory(m)
    ensures IsMemory(m')
  {
    if Present(Pte(m, pd, di, ti)) then SetWord(m, m[pd][di].frame, ti, ZERO) else m
  }

  /** The unmap functions return `paddr | PG_ALIGN` where a mask was meant. */
  function UnmapResult(e: Word): Word {
    if Present(e) then Word(FRAMES - 1, e.flags) else ZERO
  }

  /** So the caller learns the frame that was unmapped exactly when it was the very last one. */
  lemma UnmapForgetsTheFrame(e: Word)
    requires Present(e)
    ensures UnmapResult(e).frame == e.frame <==> e.frame == FRAMES - 1
  {
  }

  /** Between the two states no address space changed outside the temporary maps and the
      windows, no page of data changed, and frames only became used. */
  ghost predicate Quiet(m: Memory, own: Roles, m': Memory, own': Roles) {
    && Sound(m, own) && Sound(m', own')
    && (forall f: FrameNo {:trigger f in own'} {:trigger f in own} :: f in own ==> f in own' && own'[f] == own[f])
    && (forall f: FrameNo {:trigger IsDirectory(own', f)} :: IsDirectory(own, f) ==> IsDirectory(own', f))
    && (forall pd: FrameNo, di: Index, ti: Index {:trigger Pte(m', pd, di, ti)} :: IsDirectory(own, pd) && di < TMP_SLOT ==>
          Pte(m', pd, di, ti) == Pte(m, pd, di, ti))
    && (forall pd: FrameNo, di: Index {:trigger m'[pd][di]} :: IsDirectory(own, pd) && di < TMP_SLOT ==> m'[pd][di] == m[pd][di])
    && (forall f: FrameNo {:trigger m'[f]} :: (f in own && own[f] == Page) || f !in own' ==> m'[f] == m[f])
  }

  lemma QuietTrans(m: Memory, own: Roles, m1: Memory, own1: Roles, m2: Memory, own2: Roles)
    requires Quiet(m, own, m1, own1) && Quiet(m1, own1, m2, own2)
    ensures Quiet(m, own, m2, own2)
  {
    forall pd: FrameNo, di: Index, ti: Index | IsDirectory(own, pd) && di < TMP_SLOT
      ensures Pte(m2, pd, di, ti) == Pte(m, pd, di, ti) && m2[pd][di] == m[pd][di]
    {
      assert IsDirectory(own1, pd);
      assert Pte(m1, pd, di, ti) == Pte(m, pd, di, ti) && m1[pd][di] == m[pd][di];
    }
    forall f: FrameNo | (f in own && own[f] == Page) || f !in own2 ensures m2[f] == m[f] {
      assert m1[f] == m[f];
    }
  }

  lemma QuietRefl(m: Memory, own: Roles)
    requires Sound(m, own)
    ensures Quiet(m, own, m, own)
  {
  }

  lemma QuietSlotSet(m: Memory, own: Roles, cr3: FrameNo, w: Word)
    requires Sound(m, own) && IsDirectory(own, cr3)
    ensures Quiet(m, own, SlotSet(m, cr3, w), own)
  {
    SlotSetKeepsSound(m, own, cr3, w);
    forall pd: FrameNo, di: Index, ti: Index | IsDirectory(own, pd) && di < TMP_SLOT
      ensures Pte(SlotSet(m, cr3, w), pd, di, ti) == Pte(m, pd, di, ti) && SlotSet(m, cr3, w)[pd][di] == m[pd][di]
    {
      SlotSetEntry(m, own, cr3, w, pd, di, ti);
    }
  }

  lemma QuietMap(m: Memory, own: Roles, cr3: FrameNo, paddr: Word, ti: Index, flags: Flags, spare: FrameNo)
    requires Sound(m, own) && IsDirectory(own, cr3) && (Present(m[cr3][TMP_SLOT]) || spare !in own)
    ensures Quiet(m, own, Mapped(m, cr3, paddr, TMP_SLOT, ti, flags, spare, 3), OwnAfter(m, own, cr3, TMP_SLOT, spare))
  {
    MappedKeepsSound(m, own, cr3, paddr, TMP_SLOT, ti, flags, spare, 3);
    assert SlotOk(m, own, cr3, TMP_SLOT);
    forall pd: FrameNo, di2: Index, ti2: Index | IsDirectory(own, pd) && di2 < TMP_SLOT
      ensures Pte(Mapped(m, cr3, paddr, TMP_SLOT, ti, flags, spare, 3), pd, di2, ti2) == Pte(m, pd, di2, ti2)
    {
      MappedEntry(m, own, cr3, paddr, TMP_SLOT, ti, flags, spare, 3, pd, di2, ti2);
    }
  }

  lemma UnmappedKeeps(m: Memory, own: Roles, pd: FrameNo, di: Index, ti: Index)
    requires Sound(m, own) && IsDirectory(own, pd) && OwnSlot(di)
    ensures Sound(Unmapped(m, pd, di, ti), own)
    ensures forall pd2: FrameNo, di2: Index, ti2: Index {:trigger Pte(Unmapped(m, pd, di, ti), pd2, di2, ti2)} ::
      IsDirectory(own, pd2) && di2 < EX_SLOT && !(pd == pd2 && di == di2 && ti == ti2) ==>
        Pte(Unmapped(m, pd, di, ti), pd2, di2, ti2) == Pte(m, pd2, di2, ti2)
    ensures !Present(Pte(Unmapped(m, pd, di, ti), pd, di, ti))
    ensures forall pd2: FrameNo {:trigger Unmapped(m, pd, di, ti)[pd2]} :: IsDirectory(own, pd2) ==> Unmapped(m, pd, di, ti)[pd2] == m[pd2]
  {
    var m' := Unmapped(m, pd, di, ti);
    UnmappedKeepsSound(m, own, pd, di, ti);
    assert SlotOk(m, own, pd, di);
    forall pd2: FrameNo, di2: Index, ti2: Index
      | IsDirectory(own, pd2) && di2 < EX_SLOT && !(pd == pd2 && di == di2 && ti == ti2)
      ensures Pte(m', pd2, di2, ti2) == Pte(m, pd2, di2, ti2)
    {
      assert SlotOk(m, own, pd2, di2);
    }
  }

  /** A page unmapped anywhere below the windows is gone from all address spaces that share
      its table. */
  lemma UnmappedSeenFrom(m: Memory, own: Roles, pd: FrameNo, di: Index, ti: Index, pd2: FrameNo, di2: Index, ti2: Index)
    requires Sound(m, own) && IsDirectory(own, pd) && IsDirectory(own, pd2) && di < EX_SLOT && di2 < EX_SLOT
    ensures Pte(Unmapped(m, pd, di, ti), pd2, di2, ti2) ==
      if di == di2 && ti == ti2 && SameTable(m, pd, pd2, di) && Present(Pte(m, pd, di, ti)) then ZERO else Pte(m, pd2, di2, ti2)
  {
    assert SlotOk(m, own, pd, di) && SlotOk(m, own, pd2, di2);
  }

  lemma UnmappedKeepsSound(m: Memory, own: Roles, pd: FrameNo, di: Index, ti: Index)
    requires Sound(m, own) && IsDirectory(own, pd) && di < EX_SLOT
    ensures Sound(Unmapped(m, pd, di, ti), own)
    ensures forall pd2: FrameNo {:trigger Unmapped(m, pd, di, ti)[pd2]} :: IsDirectory(own, pd2) ==> Unmapped(m, pd, di, ti)[pd2] == m[pd2]
  {
    var m' := Unmapped(m, pd, di, ti);
    assert SlotOk(m, own, pd, di);
    forall pd2: FrameNo, i: Index | IsDirectory(own, pd2) && i < EX_SLOT ensures SlotOk(m', own, pd2, i) {
      assert IsDirectory(own, pd2) && SlotOk(m, own, pd2, i);
    }
  }

  lemma QuietUnmap(m: Memory, own: Roles, cr3: FrameNo, ti: Index)
    requires Sound(m, own) && IsDirectory(own, cr3)
    ensures Quiet(m, own, Unmapped(m, cr3, TMP_SLOT, ti), own)
  {
    UnmappedKeeps(m, own, cr3, TMP_SLOT, ti);
    assert SlotOk(m, own, cr3, TMP_SLOT);
  }

  /** Writing into a page that was not in use before is quiet for everybody else. */
  lemma QuietNewPage(m: Memory, own: Roles, f: FrameNo, page: Frame)
    requires Sound(m, own) && f !in own && |page| == ENTRIES
    ensures Quiet(m, own, m[f := page], own[f := Page])
  {
    var m', own' := m[f := page], own[f := Page];
    assert IsMemory(m');
    forall pd: FrameNo | IsDirectory(own', pd) ensures SelfMapped(m', pd) {
      assert IsDirectory(own, pd);
    }
    forall pd: FrameNo, i: Index | IsDirectory(own', pd) && i < EX_SLOT ensures SlotOk(m', own', pd, i) {
      assert IsDirectory(own, pd) && SlotOk(m, own, pd, i);
    }
    forall pd: FrameNo, di: Index, ti: Index | IsDirectory(own, pd) && di < TMP_SLOT
      ensures Pte(m', pd, di, ti) == Pte(m, pd, di, ti)
    {
      assert SlotOk(m, own, pd, di);
    }
  }

  /** The page is absent, or it is backed by a frame of data. */
  ghost predicate DataPage(m: Memory, own: Roles, pd: FrameNo, di: Index, ti: Index)
    requires IsMemory(m)
  {
    var e := Pte(m, pd, di, ti);
    Present(e) ==> e.frame in own && own[e.frame] == Page
  }

  /** An empty directory that maps itself and shares the kernel's tables. */
  function DirectoryPage(m: Memory, pd: FrameNo, kernPd: FrameNo): (page: Frame)
    requires IsMemory(m)
    ensures |page| == ENTRIES
  {
    seq(ENTRIES, (j: nat) requires j < ENTRIES =>
      if j == SELF_SLOT then Word(pd, 3) else if KERN_SLOT <= j < KERN_END_SLOT then m[kernPd][j] else ZERO)
  }

  lemma SamePages(m: Memory, m': Memory, pd: FrameNo, kernPd: FrameNo)
    requires IsMemory(m) && IsMemory(m')
    requires forall j: Index :: j < TMP_SLOT ==> m'[kernPd][j] == m[kernPd][j]
    ensures DirectoryPage(m', pd, kernPd) == DirectoryPage(m, pd, kernPd)
  {
  }

  lemma QuietNewDirectory(m: Memory, own: Roles, pd: FrameNo, kernPd: FrameNo)
    requires Sound(m, own) && pd !in own && IsDirectory(own, kernPd)
    ensures Quiet(m, own, m[pd := DirectoryPage(m, pd, kernPd)], own[pd := Directory])
  {
    var m', own' := m[pd := DirectoryPage(m, pd, kernPd)], own[pd := Directory];
    assert IsMemory(m');
    forall pd2: FrameNo | IsDirectory(own', pd2) ensures SelfMapped(m', pd2) {
      if pd2 != pd { assert IsDirectory(own, pd2); }
    }
    forall pd2: FrameNo, i: Index | IsDirectory(own', pd2) && i < EX_SLOT ensures SlotOk(m', own', pd2, i) {
      if pd2 != pd {
        assert IsDirectory(own, pd2) && SlotOk(m, own, pd2, i);
      } else {
        assert SlotOk(m, own, kernPd, i);
      }
    }
    forall pd2: FrameNo, di: Index, ti: Index | IsDirectory(own, pd2) && di < TMP_SLOT
      ensures Pte(m', pd2, di, ti) == Pte(m, pd2, di, ti)
    {
      assert SlotOk(m, own, pd2, di);
    }
  }

  // -------------------------------------------------------------------- bytes

  /** Byte k of a word, in little-endian order. */
  function ByteAt(w: Word, k: nat): Byte
    requires k < 4
  {
    if k == 0 then w.flags % 256
    else if k == 1 then w.flags / 256 + 16 * (w.frame % 16)
    else if k == 2 then w.frame / 16 % 256
    else w.frame / 4096
  }

  function SetByte(w: Word, k: nat, b: Byte): Word
    requires k < 4
  {
    if k == 0 then Word(w.frame, w.flags / 256 * 256 + b)
    else if k == 1 then Word(w.frame / 16 * 16 + b / 16, w.flags % 256 + 256 * (b % 16))
    else if k == 2 then Word(w.frame / 4096 * 4096 + 16 * b + w.frame % 16, w.flags)
    else Word(4096 * b + w.frame % 4096, w.flags)
  }

  lemma Digits(f: nat, h: nat, m: nat, l: nat)
    requires m < 256 && l < 16 && f == 4096 * h + 16 * m + l
    ensures f / 4096 == h && f / 16 % 256 == m && f % 16 == l && f / 16 == 256 * h + m && f % 4096 == 16 * m + l
  {
    assert f / 16 == 256 * h + m;
  }

  lemma SetByte0(w: Word, b: Byte, j: nat)
    requires j < 4
    ensures ByteAt(SetByte(w, 0, b), j) == if j == 0 then b else ByteAt(w, j)
  {
    var q := w.flags / 256;
    assert q < 16 && (256 * q + b) / 256 == q && (256 * q + b) % 256 == b;
  }

  lemma SetByte1(w: Word, b: Byte, j: nat)
    requires j < 4
    ensures ByteAt(SetByte(w, 1, b), j) == if j == 1 then b else ByteAt(w, j)
  {
    var h, m, l, q, r := w.frame / 4096, w.frame / 16 % 256, w.frame % 16, b / 16, b % 16;
    assert w.frame == 4096 * h + 16 * m + l;
    Digits(w.frame, h, m, l);
    Digits(4096 * h + 16 * m + q, h, m, q);
    var low := w.flags % 256;
    assert (low + 256 * r) / 256 == r && (low + 256 * r) % 256 == low;
  }

  lemma SetByte2(w: Word, b: Byte, j: nat)
    requires j < 4
    ensures ByteAt(SetByte(w, 2, b), j) == if j == 2 then b else ByteAt(w, j)
  {
    var h, m, l := w.frame / 4096, w.frame / 16 % 256, w.frame % 16;
    assert w.frame == 4096 * h + 16 * m + l;
    Digits(w.frame, h, m, l);
    Digits(4096 * h + 16 * b + l, h, b, l);
  }

  lemma SetByte3(w: Word, b: Byte, j: nat)
    requires j < 4
    ensures ByteAt(SetByte(w, 3, b), j) == if j == 3 then b else ByteAt(w, j)
  {
    var h, m, l := w.frame / 4096, w.frame / 16 % 256, w.frame % 16;
    assert w.frame == 4096 * h + 16 * m + l;
    Digits(w.frame, h, m, l);
    Digits(4096 * b + 16 * m + l, b, m, l);
  }

  lemma SetByteSets(w: Word, k: nat, b: Byte, j: nat)
    requires k < 4 && j < 4
    ensures ByteAt(SetByte(w, k, b), j) == if j == k then b else ByteAt(w, j)
  {
    hide ByteAt, SetByte;
    match k
    case 0 => SetByte0(w, b, j);
    case 1 => SetByte1(w, b, j);
    case 2 => SetByte2(w, b, j);
    case 3 => SetByte3(w, b, j);
  }

  lemma BytesDetermineWord(w: Word, w': Word)
    requires forall k :: 0 <= k < 4 ==> ByteAt(w, k) == ByteAt(w', k)
    ensures w == w'
  {
    assert ByteAt(w, 0) == ByteAt(w', 0) && ByteAt(w, 1) == ByteAt(w', 1) && ByteAt(w, 2) == ByteAt(w', 2) && ByteAt(w, 3) == ByteAt(w', 3);
    assert w.flags == 256 * (w.flags / 256) + w.flags % 256;
    assert w.frame == 4096 * (w.frame / 4096) + 16 * (w.frame / 16 % 256) + w.frame % 16;
    assert w'.frame == 4096 * (w'.frame / 4096) + 16 * (w'.frame / 16 % 256) + w'.frame % 16;
  }

  function PageByte(page: Frame, o: nat): Byte
    requires |page| == ENTRIES && o < PAGE_SIZE
  {
    ByteAt(page[o / 4], o % 4)
  }

  function SetPageByte(page: Frame, o: nat, b: Byte): (page': Frame)
    requires |page| == ENTRIES && o < PAGE_SIZE
    ensures |page'| == ENTRIES
    ensures forall j {:trigger PageByte(page', j)} :: 0 <= j < PAGE_SIZE ==> PageByte(page', j) == if j == o then b else PageByte(page, j)
  {
    assert forall j :: 0 <= j < 4 ==> ByteAt(SetByte(page[o / 4], o % 4, b), j) == if j == o % 4 then b else ByteAt(page[o / 4], j) by {
      forall j | 0 <= j < 4
        ensures ByteAt(SetByte(page[o / 4], o % 4, b), j) == if j == o % 4 then b else ByteAt(page[o / 4], j)
      {
        SetByteSets(page[o / 4], o % 4, b, j);
      }
    }
    page[o / 4 := SetByte(page[o / 4], o % 4, b)]
  }

  lemma BytesDeterminePage(page: Frame, page': Frame)
    requires |page| == |page'| == ENTRIES
    requires forall o {:trigger PageByte(page, o)} :: 0 <= o < PAGE_SIZE ==> PageByte(page, o) == PageByte(page', o)
    ensures page == page'
  {
    forall i | 0 <= i < ENTRIES ensures page[i] == page'[i] {
      forall k | 0 <= k < 4 ensures ByteAt(page[i], k) == ByteAt(page'[i], k) {
        assert PageByte(page, 4 * i + k) == PageByte(page', 4 * i + k);
      }
      BytesDetermineWord(page[i], page'[i]);
    }
  }

  // --------------------------------------------------------- what programs see

  /** The byte a program reads at `va`, if the page is present. */
  function Seen(m: Memory, pd: FrameNo, va: nat): Option<Byte>
    requires IsMemory(m) && va < ADDRESS_SPACE
  {
    var e := Pte(m, pd, DirIndex(va), TableIndex(va));
    if Present(e) then Some(PageByte(m[e.frame], va % PAGE_SIZE)) else None
  }

  /** Memory after a program stored something in frame f. */
  function Stored(m: Memory, f: FrameNo, page: Frame): (m': Memory)
    requires IsMemory(m) && |page| == ENTRIES
    ensures IsMemory(m')
  {
    m[f := page]
  }

  lemma StoreMovesNoPage(m: Memory, own: Roles, f: FrameNo, page: Frame, pd: FrameNo, di: Index, ti: Index)
    requires Sound(m, own) && f in own && own[f] == Page && |page| == ENTRIES
    requires IsDirectory(own, pd) && di < TMP_SLOT
    ensures Pte(Stored(m, f, page), pd, di, ti) == Pte(m, pd, di, ti)
  {
    assert SlotOk(m, own, pd, di);
  }

  // ----------------------------------------------------------------- the code

  class Machine {
    var phys: Memory
    /** The frame of the current page directory. */
    var cr3: FrameNo
    /** The frames pmm_get_frame is going to hand out, in order. */
    var supply: seq<FrameNo>
    ghost var own: Roles

    ghost predicate Valid()
      reads this
    {
      && Sound(phys, own) && IsDirectory(own, cr3)
      && (forall i {:trigger supply[i]} :: 0 <= i < |supply| ==> supply[i] != 0 && supply[i] !in own)
      && (forall i, j {:trigger supply[i], supply[j]} :: 0 <= i < j < |supply| ==> supply[i] != supply[j])
    }

    /** The frame pmm_get_frame would hand out next. */
    ghost function Spare(): FrameNo
      reads this
    {
      if supply == [] then 0 else supply[0]
    }

    /** A word read through the current address space. */
    method ReadWord(va: nat, ghost f: FrameNo, ghost i: Index) returns (w: Word)
      requires IsMemory(phys) && Reaches(phys, cr3, va, f, i)
      ensures w == phys[f][i]
    {
      w := phys[Translate(phys, cr3, va).value][va % PAGE_SIZE / 4];
    }

    /** A word written through the current address space. */
    method WriteWord(va: nat, w: Word, ghost f: FrameNo, ghost i: Index)
      requires IsMemory(phys) && Reaches(phys, cr3, va, f, i)
      modifies this`phys
      ensures phys == SetWord(old(phys), f, i, w)
    {
      phys := SetWord(phys, Translate(phys, cr3, va).value, va % PAGE_SIZE / 4, w);
    }

    method PmmGetFrame() returns (paddr: Word)
      requires supply != []
      modifies this`supply
      ensures paddr == Word(old(supply[0]), 0) && supply == old(supply[1..])
    {
      paddr := Word(supply[0], 0);
      supply := supply[1..];
    }

    method SetExpd(pd: Word) returns (oldPd: Word)
      requires IsMemory(phys) && SelfMapped(phys, cr3)
      modifies this`phys
      ensures oldPd == old(phys)[cr3][EX_SLOT]
      ensures phys == SlotSet(old(phys), cr3, pd)
    {
      CurrentDirWindow(phys, cr3, EX_SLOT);
      assert DirIndex(VM_EXPAGE_DIR) == EX_SLOT;
      oldPd := ReadWord(VM_PAGE_DIR + 4 * DirIndex(VM_EXPAGE_DIR), cr3, EX_SLOT);
      WriteWord(VM_PAGE_DIR + 4 * DirIndex(VM_EXPAGE_DIR), OrPresentRw(pd), cr3, EX_SLOT);
    }

    /** `_get_page`: the entry of va in the current address space, 0 if not present. */
    method GetPage(va: nat) returns (w: Word)
      requires IsMemory(phys) && SelfMapped(phys, cr3) && va < ADDRESS_SPACE
      ensures var e := Pte(phys, cr3, DirIndex(va), TableIndex(va)); w == if Present(e) then e else ZERO
    {
      CurrentDirWindow(phys, cr3, DirIndex(va));
      var e := ReadWord(VM_PAGE_DIR + 4 * DirIndex(va), cr3, DirIndex(va));
      if Present(e) {
        CurrentTablesWindow(phys, cr3, va);
        w := ReadWord(VM_PAGE_TABLES + 4 * (va / PAGE_SIZE), e.frame, TableIndex(va));
        if Present(w) {
          return w;
        }
      }
      return ZERO;
    }

    /** `_get_expage`: the same in the address space whose directory is in the external slot. */
    method GetExpage(va: nat, ghost pd: FrameNo) returns (w: Word)
      requires IsMemory(phys) && ExternalIs(phys, cr3, pd) && va < ADDRESS_SPACE
      ensures var e := Pte(phys, pd, DirIndex(va), TableIndex(va)); w == if Present(e) then e else ZERO
    {
      ExternalDirWindow(phys, cr3, pd, DirIndex(va));
      var e := ReadWord(VM_EXPAGE_DIR + 4 * DirIndex(va), pd, DirIndex(va));
      if Present(e) {
        ExternalTablesWindow(phys, cr3, pd, va);
        w := ReadWord(VM_EXPAGE_TABLES + 4 * (va / PAGE_SIZE), e.frame, TableIndex(va));
        if Present(w) {
          return w;
        }
      }
      return ZERO;
    }

    /** pg_map: in the current address space, at any address below the windows. */
    method PgMap(paddr: Word, va: nat, flags: Flags)
      requires Valid() && va < VM_EXPAGE_TABLES
      requires Present(phys[cr3][DirIndex(va)]) || supply != []
      modifies this`phys, this`supply, this`own
      ensures Valid()
      ensures phys == Mapped(old(phys), cr3, paddr, DirIndex(va), TableIndex(va), flags, old(Spare()), 3)
      ensures own == OwnAfter(old(phys), old(own), cr3, DirIndex(va), old(Spare()))
      ensures supply == (if Present(old(phys)[cr3][DirIndex(va)]) then old(supply) else old(supply)[1..])
    {
      var di: nat, ti: nat := DirIndex(va), TableIndex(va);
      assert SlotOk(phys, own, cr3, di);
      CurrentDirWindow(phys, cr3, di);
      var e := ReadWord(VM_PAGE_DIR + 4 * di, cr3, di);
      if !Present(e) {
        var f := PmmGetFrame();
        WriteWord(VM_PAGE_DIR + 4 * di, Entry(f, 3), cr3, di);
      }
      CurrentTablesWindow(phys, cr3, va);
      WriteWord(VM_PAGE_TABLES + 4 * (va / PAGE_SIZE), Entry(paddr, flags), phys[cr3][di].frame, ti);
      own := OwnAfter(old(phys), own, cr3, di, old(Spare()));
      MappedKeepsSound(old(phys), old(own), cr3, paddr, di, ti, flags, old(Spare()), 3);
    }

    /** pg_map_to while the external slot is borrowed. */
    method MapExternal(pd: FrameNo, paddr: Word, va: nat, flags: Flags)
      requires Sound(phys, own) && IsDirectory(own, cr3) && IsDirectory(own, pd) && ExternalIs(phys, cr3, pd)
      requires va < ADDRESS_SPACE && OwnSlot(DirIndex(va))
      requires Present(phys[pd][DirIndex(va)]) || (supply != [] && supply[0] !in own)
      modifies this`phys, this`supply
      ensures phys == Mapped(old(phys), pd, paddr, DirIndex(va), TableIndex(va), flags, old(Spare()), UserTableFlags(flags))
      ensures supply == (if Present(old(phys)[pd][DirIndex(va)]) then old(supply) else old(supply)[1..])
    {
      var di: nat, ti: nat := DirIndex(va), TableIndex(va);
      assert SlotOk(phys, own, pd, di);
      ExternalDirWindow(phys, cr3, pd, di);
      var e := ReadWord(VM_EXPAGE_DIR + 4 * di, pd, di);
      if !Present(e) {
        var f := PmmGetFrame();
        if flags / 4 % 2 == 1 {
          WriteWord(VM_EXPAGE_DIR + 4 * di, Entry(f, 7), pd, di);
        } else {
          WriteWord(VM_EXPAGE_DIR + 4 * di, Entry(f, 3), pd, di);
        }
      }
      ExternalTablesWindow(phys, cr3, pd, va);
      WriteWord(VM_EXPAGE_TABLES + 4 * (va / PAGE_SIZE), Entry(paddr, flags), phys[pd][di].frame, ti);
    }

    /** pg_map_to: in the address space of any directory. */
    method PgMapTo(pd: FrameNo, paddr: Word, va: nat, flags: Flags)
      requires Valid() && IsDirectory(own, pd) && va < ADDRESS_SPACE && OwnSlot(DirIndex(va))
      requires Present(phys[pd][DirIndex(va)]) || supply != []
      modifies this`phys, this`supply, this`own
      ensures Valid()
      ensures phys == MappedTo(old(phys), cr3, pd, paddr, DirIndex(va), TableIndex(va), flags, old(Spare()))
      ensures own == OwnAfter(old(phys), old(own), pd, DirIndex(va), old(Spare()))
      ensures supply == (if Present(old(phys)[pd][DirIndex(va)]) then old(supply) else old(supply)[1..])
      ensures SlotWrittenBack(old(phys)[cr3][EX_SLOT], phys[cr3][EX_SLOT])
    {
      hide Mapped;
      ghost var m, own0, supply0, spare := phys, own, supply, Spare();
      ghost var di: Index, ti: Index := DirIndex(va), TableIndex(va);
      var oldPd := SetExpd(Word(pd, 0));
      SlotBorrowed(m, own0, cr3, pd, di);
      ghost var m1 := phys;
      MapExternal(pd, paddr, va, flags);
      MappedKeepsSound(m1, own0, pd, paddr, di, ti, flags, spare, UserTableFlags(flags));
      own := OwnAfter(m, own0, pd, di, spare);
      assert IsDirectory(own, cr3);
      var unused := SetExpd(oldPd);
      MappedToKeepsSound(m, own0, cr3, pd, paddr, di, ti, flags, spare);
      SupplyLeft(m, own0, supply0, pd, di);
    }

    lemma SlotBorrowed(m: Memory, own0: Roles, cr3: FrameNo, pd: FrameNo, di: Index)
      requires Sound(m, own0) && IsDirectory(own0, cr3) && IsDirectory(own0, pd) && OwnSlot(di)
      ensures var m1 := SlotSet(m, cr3, Word(pd, 0));
        Sound(m1, own0) && ExternalIs(m1, cr3, pd) && m1[pd][di] == m[pd][di]
    {
      SlotSetKeepsSound(m, own0, cr3, Word(pd, 0));
      SlotSetEntry(m, own0, cr3, Word(pd, 0), pd, di, 0);
    }

    /** The frames still to be handed out are fresh after the first one became a table. */
    lemma SupplyLeft(m: Memory, own0: Roles, supply0: seq<FrameNo>, pd: FrameNo, di: Index)
      requires IsMemory(m) && (Present(m[pd][di]) || supply0 != [])
      requires forall i {:trigger supply0[i]} :: 0 <= i < |supply0| ==> supply0[i] != 0 && supply0[i] !in own0
      requires forall i, j {:trigger supply0[i], supply0[j]} :: 0 <= i < j < |supply0| ==> supply0[i] != supply0[j]
      ensures var own1 := OwnAfter(m, own0, pd, di, if supply0 == [] then 0 else supply0[0]);
        var left := if Present(m[pd][di]) then supply0 else supply0[1..];
        && (forall i {:trigger left[i]} :: 0 <= i < |left| ==> left[i] != 0 && left[i] !in own1)
        && (forall i, j {:trigger left[i], left[j]} :: 0 <= i < j < |left| ==> left[i] != left[j])
    {
    }

    /** pg_unmap: in the current address space, at any address below the windows. */
    method PgUnmap(va: nat) returns (paddr: Word)
      requires Valid() && va < VM_EXPAGE_TABLES
      modifies this`phys
      ensures Valid()
      ensures phys == Unmapped(old(phys), cr3, DirIndex(va), TableIndex(va))
      ensures paddr == UnmapResult(Pte(old(phys), cr3, DirIndex(va), TableIndex(va)))
      ensures paddr == Word(0, 0) <==> !Present(Pte(old(phys), cr3, DirIndex(va), TableIndex(va)))
      ensures Present(Pte(old(phys), cr3, DirIndex(va), TableIndex(va))) ==>
        paddr.flags == Pte(old(phys), cr3, DirIndex(va), TableIndex(va)).flags
    {
      UnmappedKeepsSound(phys, own, cr3, DirIndex(va), TableIndex(va));
      paddr := GetPage(va);
      if paddr != ZERO {
        CurrentTablesWindow(phys, cr3, va);
        WriteWord(VM_PAGE_TABLES + 4 * (va / PAGE_SIZE), ZERO, phys[cr3][DirIndex(va)].frame, TableIndex(va));
      } else {
        return ZERO;
      }
      return Word(FRAMES - 1, paddr.flags);
    }

    /** pg_unmap_from: in any address space.  If the page is absent the borrowed external
        slot is not written back. */
    method PgUnmapFrom(pd: FrameNo, va: nat) returns (paddr: Word)
      requires Valid() && IsDirectory(own, pd) && va < ADDRESS_SPACE && OwnSlot(DirIndex(va))
      modifies this`phys
      ensures Valid()
      ensures paddr == UnmapResult(Pte(old(phys), pd, DirIndex(va), TableIndex(va)))
      ensures paddr == Word(0, 0) <==> !Present(Pte(old(phys), pd, DirIndex(va), TableIndex(va)))
      ensures Present(Pte(old(phys), pd, DirIndex(va), TableIndex(va))) ==>
        paddr.flags == Pte(old(phys), pd, DirIndex(va), TableIndex(va)).flags
      ensures forall pd2: FrameNo, di2: Index, ti2: Index {:trigger Pte(phys, pd2, di2, ti2)} ::
        IsDirectory(own, pd2) && di2 < EX_SLOT ==>
          Pte(phys, pd2, di2, ti2) == if pd == pd2 && di2 == DirIndex(va) && ti2 == TableIndex(va) && Present(Pte(old(phys), pd2, di2, ti2))
                                      then ZERO else Pte(old(phys), pd2, di2, ti2)
      ensures if Present(Pte(old(phys), pd, DirIndex(va), TableIndex(va)))
              then SlotWrittenBack(old(phys)[cr3][EX_SLOT], phys[cr3][EX_SLOT]) else phys[cr3][EX_SLOT] == Word(pd, 3)
    {
      hide SlotWrittenBack, OrPresentRw;
      PresentRwBits(phys[cr3][EX_SLOT]);
      PresentRwBits(Word(pd, 0));
      var oldPd := SetExpd(Word(pd, 0));
      ghost var m1 := phys;
      SlotSetKeepsSound(old(phys), own, cr3, Word(pd, 0));
      SlotSetKeepsEntries(old(phys), own, cr3, Word(pd, 0));
      paddr := GetExpage(va, pd);
      if paddr != ZERO {
        ExternalTablesWindow(phys, cr3, pd, va);
        WriteWord(VM_EXPAGE_TABLES + 4 * (va / PAGE_SIZE), ZERO, phys[pd][DirIndex(va)].frame, TableIndex(va));
        assert phys == Unmapped(m1, pd, DirIndex(va), TableIndex(va));
        UnmappedKeeps(m1, own, pd, DirIndex(va), TableIndex(va));
      } else {
        return ZERO;
      }
      SlotSetKeepsSound(phys, own, cr3, oldPd);
      SlotSetKeepsEntries(phys, own, cr3, oldPd);
      var unused := SetExpd(oldPd);
      return Word(FRAMES - 1, paddr.flags);
    }

    method ReadByte(va: nat, ghost f: FrameNo) returns (b: Byte)
      requires IsMemory(phys) && va < ADDRESS_SPACE && Translate(phys, cr3, va) == Some(f)
      ensures b == PageByte(phys[f], va % PAGE_SIZE)
    {
      b := PageByte(phys[Translate(phys, cr3, va).value], va % PAGE_SIZE);
    }

    method WriteByte(va: nat, b: Byte, ghost f: FrameNo)
      requires IsMemory(phys) && va < ADDRESS_SPACE && Translate(phys, cr3, va) == Some(f)
      modifies this`phys
      ensures phys == old(phys)[f := SetPageByte(old(phys)[f], va % PAGE_SIZE, b)]
    {
      var g := Translate(phys, cr3, va).value;
      phys := phys[g := SetPageByte(phys[g], va % PAGE_SIZE, b)];
    }

    /** The copy loop of pg_duplicate_page, through the two temporary maps. */
    method CopyTmpPage(ghost src: FrameNo, ghost dst: FrameNo)
      requires Valid() && (dst in own ==> own[dst] == Page) && src != dst
      requires Mappings(src, dst)
      modifies this`phys
      ensures phys == old(phys)[dst := old(phys)[src]]
    {
      var i := 0;
      ghost var m := phys;
      assert IsDirectory(own, cr3) && SlotOk(phys, own, cr3, TMP_SLOT);
      while i < PAGE_SIZE
        invariant 0 <= i <= PAGE_SIZE
        invariant IsMemory(phys) && phys == m[dst := phys[dst]]
        invariant forall o {:trigger PageByte(phys[dst], o)} :: 0 <= o < i ==> PageByte(phys[dst], o) == PageByte(m[src], o)
      {
        TmpAddress(VM_TMP_MAP, ENTRIES - 2, i);
        TmpAddress(VM_TMP2_MAP, ENTRIES - 1, i);
        var b := ReadByte(VM_TMP_MAP + i, src);
        WriteByte(VM_TMP2_MAP + i, b, dst);
        i := i + 1;
      }
      BytesDeterminePage(phys[dst], m[src]);
    }

    /** The temporary maps lead to these two frames. */
    ghost predicate Mappings(src: FrameNo, dst: FrameNo)
      requires IsMemory(phys)
      reads this
    {
      && Present(Pte(phys, cr3, TMP_SLOT, ENTRIES - 2)) && Pte(phys, cr3, TMP_SLOT, ENTRIES - 2).frame == src
      && Present(Pte(phys, cr3, TMP_SLOT, ENTRIES - 1)) && Pte(phys, cr3, TMP_SLOT, ENTRIES - 1).frame == dst
    }

    /** Maps a frame at one of the temporary addresses. */
    method MapTmp(paddr: Word, va: nat, ghost ti: Index)
      requires Valid() && va == TMP_SLOT * LARGE_PAGE + ti * PAGE_SIZE
      requires Present(phys[cr3][TMP_SLOT]) || supply != []
      modifies this`phys, this`supply, this`own
      ensures Valid() && Present(phys[cr3][TMP_SLOT])
      ensures Pte(phys, cr3, TMP_SLOT, ti) == Entry(paddr, 3)
      ensures Present(old(phys)[cr3][TMP_SLOT]) ==> supply == old(supply) && forall i: Index :: i != ti ==>
        Pte(phys, cr3, TMP_SLOT, i) == Pte(old(phys), cr3, TMP_SLOT, i)
      ensures !Present(old(phys)[cr3][TMP_SLOT]) ==> supply == old(supply)[1..]
      ensures Quiet(old(phys), old(own), phys, own)
      ensures forall f: FrameNo :: f in own ==> f in old(own) || f in old(supply)
    {
      hide Mapped, Quiet;
      TmpAddress(va, ti, 0);
      ghost var m, own0, spare := phys, own, Spare();
      PgMap(paddr, va, 3);
      QuietMap(m, own0, cr3, paddr, ti, 3, spare);
      TmpEntries(m, own0, cr3, paddr, ti, spare);
    }

    /** What the temporary maps hold after one of them was set. */
    lemma TmpEntries(m: Memory, own0: Roles, cr3: FrameNo, paddr: Word, ti: Index, spare: FrameNo)
      requires Sound(m, own0) && IsDirectory(own0, cr3) && (Present(m[cr3][TMP_SLOT]) || spare !in own0)
      ensures var m' := Mapped(m, cr3, paddr, TMP_SLOT, ti, 3, spare, 3);
        && Present(m'[cr3][TMP_SLOT])
        && forall i: Index {:trigger Pte(m', cr3, TMP_SLOT, i)} ::
             && (i == ti ==> Pte(m', cr3, TMP_SLOT, i) == Entry(paddr, 3))
             && (i != ti && Present(m[cr3][TMP_SLOT]) ==> Pte(m', cr3, TMP_SLOT, i) == Pte(m, cr3, TMP_SLOT, i))
    {
      assert SlotOk(m, own0, cr3, TMP_SLOT);
      forall i: Index | true
        ensures i == ti ==> Pte(Mapped(m, cr3, paddr, TMP_SLOT, ti, 3, spare, 3), cr3, TMP_SLOT, i) == Entry(paddr, 3)
        ensures i != ti && Present(m[cr3][TMP_SLOT]) ==> Pte(Mapped(m, cr3, paddr, TMP_SLOT, ti, 3, spare, 3), cr3, TMP_SLOT, i) == Pte(m, cr3, TMP_SLOT, i)
      {
        MappedEntry(m, own0, cr3, paddr, TMP_SLOT, ti, 3, spare, 3, cr3, TMP_SLOT, i);
      }
    }

    method UnmapTmp(va: nat, ghost ti: Index) returns (paddr: Word)
      requires Valid() && va == TMP_SLOT * LARGE_PAGE + ti * PAGE_SIZE
      modifies this`phys
      ensures Valid() && phys[cr3] == old(phys)[cr3]
      ensures paddr == UnmapResult(Pte(old(phys), cr3, TMP_SLOT, ti))
      ensures Quiet(old(phys), own, phys, own)
    {
      TmpAddress(va, ti, 0);
      paddr := PgUnmap(va);
      QuietUnmap(old(phys), own, cr3, ti);
      UnmappedKeeps(old(phys), own, cr3, TMP_SLOT, ti);
    }

    method MapBothTmp(paddr: Word, paddr2: Word)
      requires Valid()
      requires Present(phys[cr3][TMP_SLOT]) || supply != []
      modifies this`phys, this`supply, this`own
      ensures Valid() && Present(phys[cr3][TMP_SLOT])
      ensures Pte(phys, cr3, TMP_SLOT, ENTRIES - 2) == Entry(paddr, 3)
      ensures Pte(phys, cr3, TMP_SLOT, ENTRIES - 1) == Entry(paddr2, 3)
      ensures supply == (if Present(old(phys)[cr3][TMP_SLOT]) then old(supply) else old(supply)[1..])
      ensures Quiet(old(phys), old(own), phys, own)
      ensures forall f: FrameNo :: f in own ==> f in old(own) || f in old(supply)
    {
      MapTmp(paddr, VM_TMP_MAP, ENTRIES - 2);
      ghost var m, o := phys, own;
      MapTmp(paddr2, VM_TMP2_MAP, ENTRIES - 1);
      QuietTrans(old(phys), old(own), m, o, phys, own);
    }

    method UnmapBothTmp() returns (paddr: Word, paddr2: Word)
      requires Valid()
      modifies this`phys
      ensures Valid() && phys[cr3] == old(phys)[cr3]
      ensures Quiet(old(phys), own, phys, own)
    {
      paddr := UnmapTmp(VM_TMP_MAP, ENTRIES - 2);
      ghost var m := phys;
      paddr2 := UnmapTmp(VM_TMP2_MAP, ENTRIES - 1);
      QuietTrans(old(phys), own, m, own, phys, own);
    }

    /** The middle part of pg_duplicate_page: copies a frame through the temporary maps. */
    method CopyFrame(src: Word, dst: Word)
      requires Valid() && src.frame in own && own[src.frame] == Page
      requires Present(phys[cr3][TMP_SLOT]) || supply != []
      requires dst.frame !in own && dst.frame !in supply
      modifies this`phys, this`supply, this`own
      ensures Valid() && Quiet(old(phys), old(own), phys, own)
      ensures dst.frame in own && own[dst.frame] == Page && phys[dst.frame] == old(phys)[src.frame]
      ensures Present(phys[cr3][TMP_SLOT])
      ensures supply == (if Present(old(phys)[cr3][TMP_SLOT]) then old(supply) else old(supply)[1..])
      ensures forall f: FrameNo :: f in own ==> f in old(own) || f in old(supply) || f == dst.frame
    {
      hide Quiet, Sound;
      ghost var m, own0 := phys, own;
      var oldTmp, oldTmp2 := UnmapBothTmp();
      ghost var m1 := phys;
      CopyThroughTmp(src, dst);
      QuietTrans(m, own0, m1, own0, phys, own);
      ghost var m2, own2 := phys, own;
      PutTmpBack(oldTmp, oldTmp2);
      QuietTrans(m, own0, m2, own2, phys, own);
    }

    /** The frame is copied while both temporary maps are borrowed. */
    method CopyThroughTmp(src: Word, dst: Word)
      requires Valid() && src.frame in own && own[src.frame] == Page
      requires Present(phys[cr3][TMP_SLOT]) || supply != []
      requires dst.frame !in own && dst.frame !in supply
      modifies this`phys, this`supply, this`own
      ensures Valid() && Quiet(old(phys), old(own), phys, own)
      ensures dst.frame in own && own[dst.frame] == Page && phys[dst.frame] == old(phys)[src.frame]
      ensures Present(phys[cr3][TMP_SLOT])
      ensures supply == (if Present(old(phys)[cr3][TMP_SLOT]) then old(supply) else old(supply)[1..])
      ensures forall f: FrameNo :: f in own ==> f in old(own) || f in old(supply) || f == dst.frame
    {
      ghost var m, own0 := phys, own;
      MapBothTmp(src, dst);
      ghost var m2, own2 := phys, own;
      CopyTmpPage(src.frame, dst.frame);
      QuietNewPage(m2, own2, dst.frame, phys[dst.frame]);
      own := own[dst.frame := Page];
      QuietTrans(m, own0, m2, own2, phys, own);
    }

    method PutTmpBack(oldTmp: Word, oldTmp2: Word)
      requires Valid() && Present(phys[cr3][TMP_SLOT])
      modifies this`phys, this`supply, this`own
      ensures Valid() && Present(phys[cr3][TMP_SLOT]) && supply == old(supply) && Quiet(old(phys), old(own), phys, own)
      ensures forall f: FrameNo {:trigger f in own} :: f in own ==> f in old(own) || f in old(supply)
      ensures forall f: FrameNo {:trigger phys[f]} :: f in old(own) && old(own)[f] == Page ==> f in own && own[f] == Page && phys[f] == old(phys)[f]
    {
      ghost var m, own0 := phys, own;
      var unused, unused2 := UnmapBothTmp();
      ghost var m1 := phys;
      MapBothTmp(oldTmp, oldTmp2);
      QuietTrans(m, own0, m1, own0, phys, own);
    }

    /** pg_duplicate_page: a new frame with the bytes of the page, or zero if the page is absent. */
    method PgDuplicatePage(pd: FrameNo, va: nat) returns (paddr: Word)
      requires Valid() && IsDirectory(own, pd) && va < ADDRESS_SPACE && DirIndex(va) < KERN_SLOT
      requires DataPage(phys, own, pd, DirIndex(va), TableIndex(va))
      requires Present(Pte(phys, pd, DirIndex(va), TableIndex(va))) ==> |supply| >= 2
      modifies this`phys, this`supply, this`own
      ensures Valid() && Quiet(old(phys), old(own), phys, own)
      ensures var e := Pte(old(phys), pd, DirIndex(va), TableIndex(va));
        if Present(e) then
          && paddr == Word(old(supply[0]), 0) && paddr.frame in own && own[paddr.frame] == Page
          && phys[paddr.frame] == old(phys)[e.frame]
          && supply == old(supply)[if Present(old(phys)[cr3][TMP_SLOT]) then 1 else 2..]
          && Present(phys[cr3][TMP_SLOT])
        else
          paddr == ZERO && supply == old(supply) && own == old(own) && phys[cr3][TMP_SLOT] == old(phys)[cr3][TMP_SLOT]
    {
      var oldPd := SetExpd(Word(pd, 0));
      QuietSlotSet(old(phys), own, cr3, Word(pd, 0));
      var oldFrame := GetExpage(va, pd);
      if oldFrame == ZERO {
        ghost var m := phys;
        QuietSlotSet(m, own, cr3, oldPd);
        var unused := SetExpd(oldPd);
        QuietTrans(old(phys), own, m, own, phys, own);
        return ZERO;
      }
      var newFrame := PmmGetFrame();
      ghost var m1, own1 := phys, own;
      CopyFrame(oldFrame, newFrame);
      ghost var m2, own2 := phys, own;
      QuietTrans(old(phys), old(own), m1, own1, m2, own2);
      QuietSlotSet(m2, own2, cr3, oldPd);
      var unused := SetExpd(oldPd);
      QuietTrans(old(phys), old(own), m2, own2, phys, own);
      return newFrame;
    }

    /** memset of the page at the first temporary map. */
    method ClearTmpPage(ghost dst: FrameNo)
      requires Valid() && dst !in own
      requires Pte(phys, cr3, TMP_SLOT, ENTRIES - 2) == Word(dst, 3)
      modifies this`phys
      ensures IsMemory(phys) && phys == old(phys)[dst := phys[dst]]
      ensures forall i: Index :: phys[dst][i] == ZERO
    {
      var i := 0;
      ghost var m := phys;
      assert IsDirectory(own, cr3) && SlotOk(phys, own, cr3, TMP_SLOT);
      while i < PAGE_SIZE
        invariant 0 <= i <= PAGE_SIZE
        invariant IsMemory(phys) && phys == m[dst := phys[dst]]
        invariant forall o {:trigger PageByte(phys[dst], o)} :: 0 <= o < i ==> PageByte(phys[dst], o) == 0
      {
        TmpAddress(VM_TMP_MAP, ENTRIES - 2, i);
        WriteByte(VM_TMP_MAP + i, 0, dst);
        i := i + 1;
      }
      BytesDeterminePage(phys[dst], seq(ENTRIES, _ => ZERO));
    }

    /** pg_create_directory: an empty directory that maps itself and shares the kernel's tables.
        `kernPd` is the directory the kernel was started with. */
    method PgCreateDirectory(kernPd: FrameNo) returns (newPd: Word)
      requires Valid() && IsDirectory(own, kernPd) && |supply| >= 2
      modifies this`phys, this`supply, this`own
      ensures Valid() && Quiet(old(phys), old(own), phys, own)
      ensures newPd == Word(old(supply[0]), 0) && newPd.frame !in old(own)
      ensures IsDirectory(own, newPd.frame)
      ensures forall di: Index :: di < KERN_SLOT ==> phys[newPd.frame][di] == ZERO
      ensures forall di: Index :: KERN_SLOT <= di < KERN_END_SLOT ==> phys[newPd.frame][di] == phys[kernPd][di]
      ensures forall di: Index :: KERN_END_SLOT <= di < TMP_SLOT ==> phys[newPd.frame][di] == ZERO
      ensures supply == old(supply)[if Present(old(phys)[cr3][TMP_SLOT]) then 1 else 2..]
    {
      hide Quiet, Sound;
      ghost var m, own0 := phys, own;
      var oldTmp := UnmapTmp(VM_TMP_MAP, ENTRIES - 2);
      ghost var m1 := phys;
      QuietDirectory(m, own0, m1, own0, kernPd);
      newPd := PmmGetFrame();
      BuildDirectory(newPd, kernPd);
      ghost var m2, own2 := phys, own;
      QuietTrans(m, own0, m1, own0, m2, own2);
      MapTmp(oldTmp, VM_TMP_MAP, ENTRIES - 2);
      QuietDirectory(m2, own2, phys, own, newPd.frame);
      QuietTrans(m, own0, m2, own2, phys, own);
    }

    lemma QuietDirectory(m: Memory, own: Roles, m': Memory, own': Roles, d: FrameNo)
      requires Quiet(m, own, m', own') && IsDirectory(own, d)
      ensures IsMemory(m) && IsMemory(m') && IsDirectory(own', d) && forall di: Index {:trigger m'[d][di]} :: di < TMP_SLOT ==> m'[d][di] == m[d][di]
    {
    }

    method BuildDirectory(newPd: Word, kernPd: FrameNo)
      requires Valid() && IsDirectory(own, kernPd) && newPd.frame !in own && newPd.frame !in supply && newPd.flags == 0
      requires Present(phys[cr3][TMP_SLOT]) || supply != []
      modifies this`phys, this`supply, this`own
      ensures Valid() && Quiet(old(phys), old(own), phys, own)
      ensures IsDirectory(own, newPd.frame) && Present(phys[cr3][TMP_SLOT])
      ensures phys[newPd.frame] == DirectoryPage(old(phys), newPd.frame, kernPd)
      ensures supply == (if Present(old(phys)[cr3][TMP_SLOT]) then old(supply) else old(supply)[1..])
    {
      MapTmp(newPd, VM_TMP_MAP, ENTRIES - 2);
      ghost var m2, own2 := phys, own;
      FillDirectory(newPd, kernPd);
      QuietTrans(old(phys), old(own), m2, own2, phys, own);
      SamePages(old(phys), m2, newPd.frame, kernPd);
    }

    /** Writes the new directory through the temporary map. */
    method FillDirectory(newPd: Word, kernPd: FrameNo)
      requires Valid() && IsDirectory(own, kernPd) && newPd.frame !in own && newPd.frame !in supply
      requires Pte(phys, cr3, TMP_SLOT, ENTRIES - 2) == Word(newPd.frame, 3)
      modifies this`phys, this`own
      ensures Valid() && Quiet(old(phys), old(own), phys, own)
      ensures own == old(own)[newPd.frame := Directory]
      ensures phys[cr3] == old(phys)[cr3]
      ensures phys[newPd.frame] == DirectoryPage(old(phys), newPd.frame, kernPd)
    {
      ghost var dst := newPd.frame;
      ghost var m := phys;
      assert IsDirectory(own, cr3) && SlotOk(m, own, cr3, TMP_SLOT);
      ClearTmpPage(dst);
      WindowArithmetic(VM_TMP_MAP, TMP_SLOT, ENTRIES - 2, SELF_SLOT);
      WriteWord(VM_TMP_MAP + 4 * SELF_SLOT, Entry(newPd, 3), dst, SELF_SLOT);
      var i := KERN_SLOT;
      while i < KERN_END_SLOT
        invariant KERN_SLOT <= i <= KERN_END_SLOT
        invariant IsMemory(phys) && phys == m[dst := phys[dst]] && own == old(own)
        invariant forall j: Index {:trigger phys[dst][j]} ::
          phys[dst][j] == (if j == SELF_SLOT then Word(dst, 3) else if KERN_SLOT <= j < i then m[kernPd][j] else ZERO)
      {
        WindowArithmetic(VM_TMP_MAP, TMP_SLOT, ENTRIES - 2, i);
        WriteWord(VM_TMP_MAP + 4 * i, phys[kernPd][i], dst, i);
        i := i + 1;
      }
      assert phys[dst] == DirectoryPage(m, dst, kernPd);
      QuietNewDirectory(m, own, dst, kernPd);
      own := own[dst := Directory];
    }

    /** pg_get_frame_from: the present entry of a page in any address space, else zero. */
    method PgGetFrameFrom(pd: FrameNo, va: nat) returns (w: Word)
      requires Valid() && IsDirectory(own, pd) && va < ADDRESS_SPACE && DirIndex(va) < EX_SLOT
      modifies this`phys
      ensures Valid()
      ensures var e := Pte(old(phys), pd, DirIndex(va), TableIndex(va)); w == if Present(e) then e else ZERO
      ensures phys == SlotSet(SlotSet(old(phys), cr3, Word(pd, 0)), cr3, old(phys)[cr3][EX_SLOT])
    {
      var oldPd := SetExpd(Word(pd, 0));
      SlotSetKeepsSound(old(phys), own, cr3, Word(pd, 0));
      SlotSetEntry(old(phys), own, cr3, Word(pd, 0), pd, DirIndex(va), TableIndex(va));
      w := GetExpage(va, pd);
      SlotSetKeepsSound(phys, own, cr3, oldPd);
      var unused := SetExpd(oldPd);
    }
  }
}
