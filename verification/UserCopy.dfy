/** Copying between the kernel and the memory of a program, page by page through a temporary
    map. */
module UserCopy {

  import opened Paging

  const USER_END: nat := 0xc000_0000

  function PageOf(va: nat): nat { va / PAGE_SIZE }

  function FrameAt(m: Memory, pd: FrameNo, va: nat): FrameNo
    requires IsMemory(m) && va < USER_END
  {
    Pte(m, pd, DirIndex(va), TableIndex(va)).frame
  }

  predicate Backed(m: Memory, pd: FrameNo, va: nat)
    requires IsMemory(m) && va < USER_END
  {
    Present(Pte(m, pd, DirIndex(va), TableIndex(va)))
  }

  /** The pages of the range are absent or backed by frames of data. */
  ghost predicate RangeOk(m: Memory, own: Roles, pd: FrameNo, va: nat, n: nat) {
    && Sound(m, own) && IsDirectory(own, pd) && va + n <= USER_END
    && forall a: nat {:trigger DataPage(m, own, pd, DirIndex(a), TableIndex(a))} :: va <= a < va + n ==>
         DataPage(m, own, pd, DirIndex(a), TableIndex(a))
  }

  lemma SamePage(va: nat, vb: nat)
    requires va < USER_END && vb < USER_END && PageOf(va) == PageOf(vb)
    ensures DirIndex(va) == DirIndex(vb) && TableIndex(va) == TableIndex(vb)
  {
    PageNumberSplit(va);
    PageNumberSplit(vb);
  }

  // -------------------------------------------------------------- one byte at a time

  /** Memory after the program's byte at va was set. */
  function Poke(m: Memory, pd: FrameNo, va: nat, b: Byte): (m': Memory)
    requires IsMemory(m) && va < USER_END
    ensures IsMemory(m')
  {
    var f := FrameAt(m, pd, va);
    Stored(m, f, SetPageByte(m[f], va % PAGE_SIZE, b))
  }

  /** Memory after the bytes were set in order. */
  function Poked(m: Memory, pd: FrameNo, va: nat, data: seq<Byte>): (m': Memory)
    requires IsMemory(m) && va + |data| <= USER_END
    ensures IsMemory(m')
  {
    if data == [] then m
    else Poke(Poked(m, pd, va, data[..|data| - 1]), pd, va + |data| - 1, data[|data| - 1])
  }

  /** Setting a byte of a data page moves no page and spoils no table. */
  lemma PokeKeeps(m: Memory, own: Roles, pd: FrameNo, va: nat, b: Byte)
    requires Sound(m, own) && IsDirectory(own, pd) && va < USER_END
    requires Backed(m, pd, va) && DataPage(m, own, pd, DirIndex(va), TableIndex(va))
    ensures Sound(Poke(m, pd, va, b), own)
    ensures forall d: FrameNo, di: Index, ti: Index {:trigger Pte(Poke(m, pd, va, b), d, di, ti)} :: IsDirectory(own, d) && di < TMP_SLOT ==>
      Pte(Poke(m, pd, va, b), d, di, ti) == Pte(m, d, di, ti)
  {
    var f := FrameAt(m, pd, va);
    var page := SetPageByte(m[f], va % PAGE_SIZE, b);
    var m' := Poke(m, pd, va, b);
    forall d: FrameNo | IsDirectory(own, d) ensures SelfMapped(m', d) {
    }
    forall d: FrameNo, i: Index | IsDirectory(own, d) && i < EX_SLOT ensures SlotOk(m', own, d, i) {
      assert SlotOk(m, own, d, i);
    }
    forall d: FrameNo, di: Index, ti: Index | IsDirectory(own, d) && di < TMP_SLOT ensures Pte(m', d, di, ti) == Pte(m, d, di, ti) {
      StoreMovesNoPage(m, own, f, page, d, di, ti);
    }
  }

  ghost predicate AllBacked(m: Memory, pd: FrameNo, va: nat, n: nat)
    requires IsMemory(m) && va + n <= USER_END
  {
    forall a: nat {:trigger Backed(m, pd, a)} :: va <= a < va + n ==> Backed(m, pd, a)
  }

  lemma {:induction false} PokedKeeps(m: Memory, own: Roles, pd: FrameNo, va: nat, data: seq<Byte>)
    requires RangeOk(m, own, pd, va, |data|) && AllBacked(m, pd, va, |data|)
    ensures Sound(Poked(m, pd, va, data), own)
    ensures forall d: FrameNo, di: Index, ti: Index {:trigger Pte(Poked(m, pd, va, data), d, di, ti)} :: IsDirectory(own, d) && di < TMP_SLOT ==>
      Pte(Poked(m, pd, va, data), d, di, ti) == Pte(m, d, di, ti)
  {
    hide Poke;
    if data != [] {
      var init, a := data[..|data| - 1], va + |data| - 1;
      PokedKeeps(m, own, pd, va, init);
      var m1 := Poked(m, pd, va, init);
      assert Backed(m, pd, a) && DataPage(m, own, pd, DirIndex(a), TableIndex(a));
      assert Pte(m1, pd, DirIndex(a), TableIndex(a)) == Pte(m, pd, DirIndex(a), TableIndex(a));
      PokeKeeps(m1, own, pd, a, data[|data| - 1]);
    }
  }

  predicate Hits(m: Memory, pd: FrameNo, a: nat, f: FrameNo, o: nat)
    requires IsMemory(m) && a < USER_END
  {
    FrameAt(m, pd, a) == f && a % PAGE_SIZE == o
  }

  /** The last of the n addresses from va on that is byte o of frame f; -1 for none. */
  function LastHit(m: Memory, pd: FrameNo, va: nat, n: nat, f: FrameNo, o: nat): (k: int)
    requires IsMemory(m) && va + n <= USER_END
    ensures k == -1 || (va <= k < va + n && Hits(m, pd, k, f, o))
    ensures forall a: nat {:trigger Hits(m, pd, a, f, o)} :: k < a && va <= a < va + n ==> !Hits(m, pd, a, f, o)
  {
    if n == 0 then -1
    else if Hits(m, pd, va + n - 1, f, o) then va + n - 1
    else LastHit(m, pd, va, n - 1, f, o)
  }

  /** What every byte of memory holds afterwards, whatever pages share a frame. */
  lemma {:induction false} PokedCell(m: Memory, own: Roles, pd: FrameNo, va: nat, data: seq<Byte>, f: FrameNo, o: nat)
    requires RangeOk(m, own, pd, va, |data|) && AllBacked(m, pd, va, |data|) && o < PAGE_SIZE
    ensures var k := LastHit(m, pd, va, |data|, f, o);
      PageByte(Poked(m, pd, va, data)[f], o) == if k < 0 then PageByte(m[f], o) else data[k - va]
  {
    hide Poke;
    if data != [] {
      var init, a := data[..|data| - 1], va + |data| - 1;
      PokedCell(m, own, pd, va, init, f, o);
      PokedKeeps(m, own, pd, va, init);
      var m1 := Poked(m, pd, va, init);
      assert Pte(m1, pd, DirIndex(a), TableIndex(a)) == Pte(m, pd, DirIndex(a), TableIndex(a));
      PokeCell(m1, pd, a, data[|data| - 1], f, o);
    }
  }

  lemma PokeCell(m: Memory, pd: FrameNo, a: nat, b: Byte, f: FrameNo, o: nat)
    requires IsMemory(m) && a < USER_END && o < PAGE_SIZE
    ensures PageByte(Poke(m, pd, a, b)[f], o) == if Hits(m, pd, a, f, o) then b else PageByte(m[f], o)
  {
  }

  /** The pages of the range have frames of their own. */
  ghost predicate OwnFrames(m: Memory, pd: FrameNo, va: nat, n: nat)
    requires IsMemory(m) && va + n <= USER_END
  {
    forall a: nat, b: nat {:trigger FrameAt(m, pd, a), FrameAt(m, pd, b)} ::
      va <= a < va + n && va <= b < va + n && PageOf(a) != PageOf(b) ==> FrameAt(m, pd, a) != FrameAt(m, pd, b)
  }

  /** The program reads the copied bytes ... */
  lemma {:induction false} CopiedBytesAreSeen(m: Memory, own: Roles, pd: FrameNo, va: nat, data: seq<Byte>, i: nat)
    requires RangeOk(m, own, pd, va, |data|) && AllBacked(m, pd, va, |data|) && OwnFrames(m, pd, va, |data|) && i < |data|
    ensures Seen(Poked(m, pd, va, data), pd, va + i) == Some(data[i])
  {
    hide Poked;
    var a := va + i;
    var f, o := FrameAt(m, pd, a), a % PAGE_SIZE;
    PokedKeeps(m, own, pd, va, data);
    PokedCell(m, own, pd, va, data, f, o);
    assert Backed(m, pd, a) && Hits(m, pd, a, f, o);
    OnlyHit(m, pd, va, |data|, a);
  }

  lemma {:induction false} OnlyHit(m: Memory, pd: FrameNo, va: nat, n: nat, a: nat)
    requires IsMemory(m) && va + n <= USER_END && OwnFrames(m, pd, va, n) && va <= a < va + n
    ensures LastHit(m, pd, va, n, FrameAt(m, pd, a), a % PAGE_SIZE) == a
  {
    var f, o := FrameAt(m, pd, a), a % PAGE_SIZE;
    assert Hits(m, pd, a, f, o);
    var k: nat := LastHit(m, pd, va, n, f, o);
    assert FrameAt(m, pd, k) == FrameAt(m, pd, a);
    assert k == PAGE_SIZE * PageOf(k) + o && a == PAGE_SIZE * PageOf(a) + o;
  }

  /** ... and every byte of every address space that is not one of them stays as it was. */
  lemma {:induction false} OtherBytesStay(m: Memory, own: Roles, pd: FrameNo, va: nat, data: seq<Byte>, d: FrameNo, b: nat)
    requires RangeOk(m, own, pd, va, |data|) && AllBacked(m, pd, va, |data|) && IsDirectory(own, d) && b < USER_END
    requires forall a: nat {:trigger Hits(m, pd, a, FrameAt(m, d, b), b % PAGE_SIZE)} :: va <= a < va + |data| ==> !Hits(m, pd, a, FrameAt(m, d, b), b % PAGE_SIZE)
    ensures Seen(Poked(m, pd, va, data), d, b) == Seen(m, d, b)
  {
    PokedKeeps(m, own, pd, va, data);
    PokedCell(m, own, pd, va, data, FrameAt(m, d, b), b % PAGE_SIZE);
  }

  // ------------------------------------------------------- working on the machine

  /** The machine is as if its memory were m, but for temporary maps and windows. */
  ghost predicate Like(mach: Machine, m: Memory, own: Roles)
    reads mach
  {
    mach.Valid() && Quiet(m, own, mach.phys, mach.own) && IsDirectory(own, mach.cr3)
  }

  const TMP: Index := ENTRIES - 2
  const TMP2: Index := ENTRIES - 1

  /** The address of a temporary map: `VM_TMP_MAP` or `VM_TMP2_MAP`. */
  function TmpAt(ti: Index): nat { TMP_SLOT * LARGE_PAGE + ti * PAGE_SIZE }

  /** The temporary map leads to frame f. */
  ghost predicate TmpIs(mach: Machine, ti: Index, f: FrameNo)
    reads mach
  {
    && IsMemory(mach.phys) && Present(mach.phys[mach.cr3][TMP_SLOT])
    && Present(Pte(mach.phys, mach.cr3, TMP_SLOT, ti)) && Pte(mach.phys, mach.cr3, TMP_SLOT, ti).frame == f
  }

  /** A temporary map can be set: the table for it is there, or there is a frame for one. */
  ghost predicate TmpReady(mach: Machine)
    reads mach
  {
    IsMemory(mach.phys) && (Present(mach.phys[mach.cr3][TMP_SLOT]) || mach.supply != [])
  }

  /** pg_get_frame_from. */
  method Fetch(mach: Machine, pd: FrameNo, va: nat, ghost m: Memory, ghost own: Roles) returns (paddr: Word)
    requires Like(mach, m, own) && IsDirectory(own, pd) && va < USER_END
    modifies mach`phys
    ensures Like(mach, m, own)
    ensures paddr == if Backed(m, pd, va) then Pte(m, pd, DirIndex(va), TableIndex(va)) else ZERO
    ensures mach.phys[mach.cr3][TMP_SLOT] == old(mach.phys[mach.cr3][TMP_SLOT])
  {
    ghost var m1, own1, cr3 := mach.phys, mach.own, mach.cr3;
    assert IsDirectory(own1, pd) && IsDirectory(own1, cr3);
    assert Pte(m1, pd, DirIndex(va), TableIndex(va)) == Pte(m, pd, DirIndex(va), TableIndex(va));
    QuietSlotSet(m1, own1, cr3, Word(pd, 0));
    ghost var m2 := SlotSet(m1, cr3, Word(pd, 0));
    QuietSlotSet(m2, own1, cr3, m1[cr3][EX_SLOT]);
    paddr := mach.PgGetFrameFrom(pd, va);
    QuietTrans(m1, own1, m2, own1, mach.phys, mach.own);
    QuietTrans(m, own, m1, own1, mach.phys, mach.own);
  }

  method MapTmpAt(mach: Machine, paddr: Word, ghost ti: Index, va: nat, ghost m: Memory, ghost own: Roles)
    requires Like(mach, m, own) && va == TmpAt(ti) && (Present(mach.phys[mach.cr3][TMP_SLOT]) || mach.supply != [])
    modifies mach`phys, mach`supply, mach`own
    ensures Like(mach, m, own) && TmpIs(mach, ti, paddr.frame)
    ensures mach.supply == if Present(old(mach.phys)[mach.cr3][TMP_SLOT]) then old(mach.supply) else old(mach.supply)[1..]
    ensures forall f: FrameNo {:trigger f in mach.own} :: f in mach.own ==> f in old(mach.own) || f in old(mach.supply)
  {
    ghost var m1, own1 := mach.phys, mach.own;
    mach.MapTmp(paddr, va, ti);
    QuietTrans(m, own, m1, own1, mach.phys, mach.own);
  }

  method UnmapTmpAt(mach: Machine, ghost ti: Index, va: nat, ghost m: Memory, ghost own: Roles) returns (paddr: Word)
    requires Like(mach, m, own) && va == TmpAt(ti)
    modifies mach`phys
    ensures Like(mach, m, own) && mach.phys[mach.cr3] == old(mach.phys)[mach.cr3]
  {
    ghost var m1, own1 := mach.phys, mach.own;
    paddr := mach.UnmapTmp(va, ti);
    QuietTrans(m, own, m1, own1, mach.phys, mach.own);
  }

  /** Writing the same page into both memories keeps them alike. */
  lemma QuietStored(m: Memory, own: Roles, m1: Memory, own1: Roles, f: FrameNo, page: Frame)
    requires Quiet(m, own, m1, own1) && f in own && own[f] == Page && |page| == ENTRIES
    ensures Quiet(Stored(m, f, page), own, Stored(m1, f, page), own1)
  {
    var a, b := Stored(m, f, page), Stored(m1, f, page);
    StoredSound(m, own, f, page);
    StoredSound(m1, own1, f, page);
    forall pd: FrameNo, di: Index, ti: Index | IsDirectory(own, pd) && di < TMP_SLOT
      ensures Pte(b, pd, di, ti) == Pte(a, pd, di, ti) && b[pd][di] == a[pd][di]
    {
      assert IsDirectory(own1, pd);
      assert Pte(m1, pd, di, ti) == Pte(m, pd, di, ti) && m1[pd][di] == m[pd][di];
      StoreMovesNoPage(m, own, f, page, pd, di, ti);
      StoreMovesNoPage(m1, own1, f, page, pd, di, ti);
    }
  }

  lemma StoredSound(m: Memory, own: Roles, f: FrameNo, page: Frame)
    requires Sound(m, own) && f in own && own[f] == Page && |page| == ENTRIES
    ensures Sound(Stored(m, f, page), own)
  {
    var a := Stored(m, f, page);
    forall d: FrameNo, i: Index | IsDirectory(own, d) && i < EX_SLOT ensures SlotOk(a, own, d, i) {
      assert SlotOk(m, own, d, i);
    }
  }

  /** One byte through the temporary map. */
  method StoreByte(mach: Machine, ghost ti: Index, base: nat, off: nat, b: Byte, ghost f: FrameNo, ghost m: Memory, ghost own: Roles)
    requires Like(mach, m, own) && TmpIs(mach, ti, f) && base == TmpAt(ti) && off < PAGE_SIZE && f in own && own[f] == Page
    modifies mach`phys
    ensures Like(mach, Stored(m, f, SetPageByte(m[f], off, b)), own) && TmpIs(mach, ti, f)
    ensures mach.phys == Stored(old(mach.phys), f, SetPageByte(old(mach.phys)[f], off, b))
  {
    ghost var m1, own1 := mach.phys, mach.own;
    assert m1[f] == m[f] && f in own1;
    ghost var page := SetPageByte(m[f], off, b);
    TmpAddress(base, ti, off);
    mach.WriteByte(base + off, b, f);
    QuietStored(m, own, m1, own1, f, page);
    TmpStays(m1, own1, mach.cr3, ti, f, page);
  }

  lemma TmpStays(m: Memory, own: Roles, cr3: FrameNo, ti: Index, f: FrameNo, page: Frame)
    requires Sound(m, own) && IsDirectory(own, cr3) && f in own && own[f] == Page && |page| == ENTRIES
    ensures Stored(m, f, page)[cr3] == m[cr3]
    ensures Pte(Stored(m, f, page), cr3, TMP_SLOT, ti) == Pte(m, cr3, TMP_SLOT, ti)
  {
    assert SlotOk(m, own, cr3, TMP_SLOT);
  }

  method LoadByte(mach: Machine, off: nat, ghost f: FrameNo, ghost m: Memory, ghost own: Roles) returns (b: Byte)
    requires Like(mach, m, own) && TmpIs(mach, TMP, f) && off < PAGE_SIZE && f in own && own[f] == Page
    ensures b == PageByte(m[f], off)
  {
    TmpAddress(VM_TMP_MAP, TMP, off);
    assert mach.phys[f] == m[f];
    b := mach.ReadByte(VM_TMP_MAP + off, f);
  }

  // ------------------------------------------------------------------- copying out

  /** How many of the n bytes from va on come before the first page that is absent. */
  function Held(m: Memory, pd: FrameNo, va: nat, n: nat): (k: nat)
    requires IsMemory(m) && va + n <= USER_END
    ensures k <= n && (k < n ==> !Backed(m, pd, va + k))
    ensures AllBacked(m, pd, va, k)
  {
    if n == 0 then 0
    else var k := Held(m, pd, va, n - 1); if k < n - 1 || !Backed(m, pd, va + n - 1) then k else n
  }

  /** The temporary map leads to the page at `page`, and byte i of the range is `off` bytes in. */
  ghost predicate OnPage(mach: Machine, m0: Memory, own0: Roles, pd: FrameNo, va: nat, i: nat, page: nat, off: nat)
    reads mach
  {
    && page % PAGE_SIZE == 0 && page + off == va + i && off <= PAGE_SIZE && page < USER_END
    && IsMemory(m0) && Backed(m0, pd, page) && TmpIs(mach, TMP, FrameAt(m0, pd, page))
  }

  lemma SameFrame(m: Memory, pd: FrameNo, page: nat, off: nat)
    requires IsMemory(m) && page % PAGE_SIZE == 0 && off < PAGE_SIZE && page + off < USER_END
    ensures PageOf(page + off) == PageOf(page) && (page + off) % PAGE_SIZE == off
    ensures FrameAt(m, pd, page + off) == FrameAt(m, pd, page) && (Backed(m, pd, page + off) <==> Backed(m, pd, page))
    ensures Pte(m, pd, DirIndex(page + off), TableIndex(page + off)) == Pte(m, pd, DirIndex(page), TableIndex(page))
  {
    SamePage(page + off, page);
  }

  /** How both copies begin: the first page is mapped, unless it is absent. */
  method OpenPage(mach: Machine, pd: FrameNo, va: nat, ghost m: Memory, ghost own: Roles) returns (ok: bool, oldTmp: Word)
    requires Like(mach, m, own) && IsDirectory(own, pd) && IsMemory(m) && va < USER_END
    requires TmpReady(mach)
    modifies mach`phys, mach`supply, mach`own
    ensures Like(mach, m, own) && (ok <==> Backed(m, pd, va))
    ensures ok ==> OnPage(mach, m, own, pd, va, 0, va - va % PAGE_SIZE, va % PAGE_SIZE)
    ensures TmpReady(mach)
  {
    var paddr := Fetch(mach, pd, va, m, own);
    if paddr == ZERO {
      return false, ZERO;
    }
    oldTmp := UnmapTmpAt(mach, TMP, VM_TMP_MAP, m, own);
    MapTmpAt(mach, paddr, TMP, VM_TMP_MAP, m, own);
    FirstPage(mach, m, own, pd, va);
    ok := true;
  }

  /** How both copies end: the temporary map goes back to what unmapping it returned. */
  method ClosePage(mach: Machine, oldTmp: Word, ghost m: Memory, ghost own: Roles)
    requires Like(mach, m, own) && Present(mach.phys[mach.cr3][TMP_SLOT])
    modifies mach`phys, mach`supply, mach`own
    ensures Like(mach, m, own) && TmpReady(mach)
  {
    var unused := UnmapTmpAt(mach, TMP, VM_TMP_MAP, m, own);
    MapTmpAt(mach, oldTmp, TMP, VM_TMP_MAP, m, own);
  }

  /** The page switch inside both loops: at the start of a page the next one is mapped. */
  method NextPage(mach: Machine, pd: FrameNo, va: nat, oldTmp: Word, ghost m: Memory, ghost own: Roles) returns (ok: bool)
    requires Like(mach, m, own) && IsDirectory(own, pd) && va < USER_END && Present(mach.phys[mach.cr3][TMP_SLOT])
    modifies mach`phys, mach`supply, mach`own
    ensures Like(mach, m, own) && (ok <==> Backed(m, pd, va))
    ensures ok ==> TmpIs(mach, TMP, FrameAt(m, pd, va))
    ensures TmpReady(mach)
  {
    var unused := UnmapTmpAt(mach, TMP, VM_TMP_MAP, m, own);
    var paddr := Fetch(mach, pd, va, m, own);
    ok := paddr != ZERO;
    if ok {
      MapTmpAt(mach, paddr, TMP, VM_TMP_MAP, m, own);
    } else {
      MapTmpAt(mach, oldTmp, TMP, VM_TMP_MAP, m, own);
    }
  }

  /** One byte of the copy, once its page is mapped. */
  method PutByte(mach: Machine, pd: FrameNo, va: nat, buff: seq<Byte>, i: nat, off: nat, ghost page: nat, ghost m0: Memory, ghost own0: Roles)
    requires RangeOk(m0, own0, pd, va, |buff|) && i < |buff| && AllBacked(m0, pd, va, i)
    requires Like(mach, Poked(m0, pd, va, buff[..i]), own0) && off < PAGE_SIZE && OnPage(mach, m0, own0, pd, va, i, page, off)
    modifies mach`phys
    ensures AllBacked(m0, pd, va, i + 1)
    ensures Like(mach, Poked(m0, pd, va, buff[..i + 1]), own0) && OnPage(mach, m0, own0, pd, va, i + 1, page, off + 1)
  {
    hide Poke, Quiet;
    ghost var f, m := FrameAt(m0, pd, page), Poked(m0, pd, va, buff[..i]);
    SameFrame(m0, pd, page, off);
    assert DataPage(m0, own0, pd, DirIndex(va + i), TableIndex(va + i));
    PokedKeeps(m0, own0, pd, va, buff[..i]);
    assert Pte(m, pd, DirIndex(va + i), TableIndex(va + i)) == Pte(m0, pd, DirIndex(va + i), TableIndex(va + i));
    StoreByte(mach, TMP, VM_TMP_MAP, off, buff[i], f, m, own0);
    PokedNext(m0, pd, va, buff, i);
  }

  lemma {:induction false} PokedNext(m: Memory, pd: FrameNo, va: nat, buff: seq<Byte>, i: nat)
    requires IsMemory(m) && va + |buff| <= USER_END && i < |buff|
    ensures Poked(m, pd, va, buff[..i + 1]) == Poke(Poked(m, pd, va, buff[..i]), pd, va + i, buff[i])
    ensures var m1 := Poked(m, pd, va, buff[..i]); var f := FrameAt(m1, pd, va + i);
      Poke(m1, pd, va + i, buff[i]) == Stored(m1, f, SetPageByte(m1[f], (va + i) % PAGE_SIZE, buff[i]))
  {
    assert buff[..i + 1][..i] == buff[..i];
  }

  /** `vmm_copy_data_to`: it goes well exactly if the first page and all pages of the range
      are present, and then memory is as if the program's bytes had been set one by one; on
      a fault it stops at the first page that is absent. */
  method CopyDataTo(mach: Machine, pd: FrameNo, vaddr: nat, buff: seq<Byte>) returns (r: int)
    requires mach.Valid() && RangeOk(mach.phys, mach.own, pd, vaddr, |buff|) && vaddr < USER_END
    requires TmpReady(mach)
    modifies mach`phys, mach`supply, mach`own
    ensures TmpReady(mach)
    ensures r == if Backed(old(mach.phys), pd, vaddr) && AllBacked(old(mach.phys), pd, vaddr, |buff|) then |buff| else -1
    ensures Like(mach, Poked(old(mach.phys), pd, vaddr, buff[..Held(old(mach.phys), pd, vaddr, |buff|)]), old(mach.own))
  {
    hide Poked, Quiet, Sound, RangeOk, AllBacked, Held, TmpIs, OnPage, Like, TmpReady;
    ghost var m0, own0 := mach.phys, mach.own;
    CopyStart(mach, pd, vaddr, buff);
    var there, oldTmp := OpenPage(mach, pd, vaddr, m0, own0);
    if !there {
      NothingHeld(m0, pd, vaddr, buff);
      return -1;
    }
    ghost var page: nat := vaddr - vaddr % PAGE_SIZE;
    var i, iAfter, dst := 0, 0, VM_TMP_MAP + vaddr % PAGE_SIZE;
    while i < |buff|
      invariant i <= |buff| && iAfter <= i && AllBacked(m0, pd, vaddr, i) && dst + i - iAfter >= VM_TMP_MAP
      invariant Like(mach, Poked(m0, pd, vaddr, buff[..i]), own0)
      invariant OnPage(mach, m0, own0, pd, vaddr, i, page, dst + i - iAfter - VM_TMP_MAP)
    {
      if (dst + i - iAfter) % PAGE_SIZE == 0 {
        AtPageStart(mach, m0, own0, pd, vaddr, buff, i, page, dst + i - iAfter - VM_TMP_MAP);
        var ok := NextPage(mach, pd, vaddr + i, oldTmp, Poked(m0, pd, vaddr, buff[..i]), own0);
        HeldIs(m0, pd, vaddr, |buff|, i);
        if !ok {
          return -1;
        }
        dst := VM_TMP_MAP;
        iAfter := i;
        page := vaddr + i;
        OnNextPage(mach, m0, own0, pd, vaddr, buff, i);
      }
      WithinPage(mach, m0, own0, pd, vaddr, i, page, dst + i - iAfter - VM_TMP_MAP);
      PutByte(mach, pd, vaddr, buff, i, dst + i - iAfter - VM_TMP_MAP, page, m0, own0);
      i := i + 1;
    }
    HeldIs(m0, pd, vaddr, |buff|, |buff|);
    TmpThere(mach, m0, own0, pd, vaddr, i, page, dst + i - iAfter - VM_TMP_MAP);
    ClosePage(mach, oldTmp, Poked(m0, pd, vaddr, buff[..i]), own0);
    r := i;
  }

  lemma {:induction false} CopyStart(mach: Machine, pd: FrameNo, vaddr: nat, buff: seq<Byte>)
    requires mach.Valid() && RangeOk(mach.phys, mach.own, pd, vaddr, |buff|) && vaddr < USER_END
    ensures Like(mach, mach.phys, mach.own) && IsDirectory(mach.own, pd) && IsMemory(mach.phys) && vaddr + |buff| <= USER_END
    ensures Poked(mach.phys, pd, vaddr, buff[..0]) == mach.phys && AllBacked(mach.phys, pd, vaddr, 0)
  {
    assert buff[..0] == [];
  }

  lemma {:induction false} NothingHeld(m: Memory, pd: FrameNo, va: nat, buff: seq<Byte>)
    requires IsMemory(m) && va + |buff| <= USER_END && va < USER_END && !Backed(m, pd, va)
    ensures Held(m, pd, va, |buff|) == 0
  {
  }

  lemma FirstPage(mach: Machine, m0: Memory, own0: Roles, pd: FrameNo, va: nat)
    requires IsMemory(m0) && va < USER_END && Backed(m0, pd, va) && TmpIs(mach, TMP, Pte(m0, pd, DirIndex(va), TableIndex(va)).frame)
    ensures OnPage(mach, m0, own0, pd, va, 0, va - va % PAGE_SIZE, va % PAGE_SIZE)
  {
    SameFrame(m0, pd, va - va % PAGE_SIZE, va % PAGE_SIZE);
  }

  /** The number of bytes before the first page that is absent, told from both sides. */
  lemma {:induction false} HeldIs(m: Memory, pd: FrameNo, va: nat, n: nat, i: nat)
    requires IsMemory(m) && va + n <= USER_END && i <= n && AllBacked(m, pd, va, i) && (i < n ==> va + i < USER_END)
    ensures i < n && !Backed(m, pd, va + i) ==> Held(m, pd, va, n) == i && !AllBacked(m, pd, va, n)
    ensures i == n ==> Held(m, pd, va, n) == n && (n > 0 ==> Backed(m, pd, va))
  {
    var k := Held(m, pd, va, n);
    if i == n > 0 { assert Backed(m, pd, va); }
    if i < n && AllBacked(m, pd, va, n) { assert Backed(m, pd, va + i); }
  }

  lemma {:induction false} OnNextPage(mach: Machine, m0: Memory, own0: Roles, pd: FrameNo, va: nat, buff: seq<Byte>, i: nat)
    requires RangeOk(m0, own0, pd, va, |buff|) && i < |buff| && AllBacked(m0, pd, va, i) && (va + i) % PAGE_SIZE == 0
    requires Backed(Poked(m0, pd, va, buff[..i]), pd, va + i) && TmpIs(mach, TMP, FrameAt(Poked(m0, pd, va, buff[..i]), pd, va + i))
    ensures OnPage(mach, m0, own0, pd, va, i, va + i, 0)
  {
    SameEntry(m0, own0, pd, va, buff, i);
  }

  lemma WithinPage(mach: Machine, m0: Memory, own0: Roles, pd: FrameNo, va: nat, i: nat, page: nat, off: nat)
    requires OnPage(mach, m0, own0, pd, va, i, page, off) && ((VM_TMP_MAP + off) % PAGE_SIZE == 0 ==> off == 0)
    ensures off < PAGE_SIZE
  {
    assert VM_TMP_MAP % PAGE_SIZE == 0;
  }

  lemma TmpThere(mach: Machine, m0: Memory, own0: Roles, pd: FrameNo, va: nat, i: nat, page: nat, off: nat)
    requires OnPage(mach, m0, own0, pd, va, i, page, off)
    ensures IsMemory(mach.phys) && Present(mach.phys[mach.cr3][TMP_SLOT])
  {
  }

  lemma PageStart(page: nat, off: nat)
    requires page % PAGE_SIZE == 0 && off <= PAGE_SIZE && (VM_TMP_MAP + off) % PAGE_SIZE == 0
    ensures (page + off) % PAGE_SIZE == 0
  {
  }

  lemma {:induction false} AtPageStart(mach: Machine, m0: Memory, own0: Roles, pd: FrameNo, va: nat, buff: seq<Byte>, i: nat, page: nat, off: nat)
    requires OnPage(mach, m0, own0, pd, va, i, page, off) && (VM_TMP_MAP + off) % PAGE_SIZE == 0
    requires RangeOk(m0, own0, pd, va, |buff|) && i < |buff| && AllBacked(m0, pd, va, i)
    ensures (va + i) % PAGE_SIZE == 0 && IsDirectory(own0, pd) && va + i < USER_END
    ensures IsMemory(mach.phys) && Present(mach.phys[mach.cr3][TMP_SLOT])
    ensures Backed(Poked(m0, pd, va, buff[..i]), pd, va + i) <==> Backed(m0, pd, va + i)
  {
    hide Poked, Sound;
    PageStart(page, off);
    SameEntry(m0, own0, pd, va, buff, i);
  }

  lemma {:induction false} SameEntry(m0: Memory, own0: Roles, pd: FrameNo, va: nat, buff: seq<Byte>, i: nat)
    requires RangeOk(m0, own0, pd, va, |buff|) && i < |buff| && AllBacked(m0, pd, va, i)
    ensures Pte(Poked(m0, pd, va, buff[..i]), pd, DirIndex(va + i), TableIndex(va + i)) == Pte(m0, pd, DirIndex(va + i), TableIndex(va + i))
  {
    PokedKeeps(m0, own0, pd, va, buff[..i]);
  }

  // -------------------------------------------------------------------- strings in

  datatype Copied = Fault | TooBig | Str(text: seq<Byte>)

  function Prepend(t: seq<Byte>, r: Copied): Copied {
    if r.Str? then Str(t + r.text) else r
  }

  /** The bytes from va on as the program sees them. */
  function Bytes(m: Memory, pd: FrameNo, va: nat, n: nat): (view: seq<Option<Byte>>)
    requires IsMemory(m) && va + n <= USER_END
    ensures |view| == n && forall i {:trigger view[i]} :: 0 <= i < n ==> view[i] == Seen(m, pd, va + i)
  {
    seq(n, i requires 0 <= i < n => Seen(m, pd, va + i))
  }

  /** What reading a string shorter than the view should give, from byte i on. */
  function Scan(view: seq<Option<Byte>>, i: nat): Copied
    requires i <= |view|
    decreases |view| - i
  {
    if i == |view| then TooBig
    else match view[i]
      case None => Fault
      case Some(b) => if b == 0 then Str([]) else Prepend([b], Scan(view, i + 1))
  }

  /** A byte of the string proper. */
  predicate Inside(x: Option<Byte>) { x.Some? && x.value != 0 }

  /** The three outcomes exclude each other: the string up to the first NUL, no NUL at all,
      or an absent page before either. */
  lemma {:induction false} ScanMeans(view: seq<Option<Byte>>, i: nat)
    requires i <= |view|
    ensures var r := Scan(view, i);
      match r
      case TooBig => forall j {:trigger view[j]} :: i <= j < |view| ==> Inside(view[j])
      case Fault => exists j {:trigger view[j]} :: i <= j < |view| && view[j].None? && (forall k {:trigger view[k]} :: i <= k < j ==> Inside(view[k]))
      case Str(t) => i + |t| < |view| && view[i + |t|] == Some(0)
                      && (forall k {:trigger view[k]} :: i <= k < i + |t| ==> Inside(view[k]) && view[k].value == t[k - i])
    decreases |view| - i
  {
    if i < |view| && Inside(view[i]) {
      var r := Scan(view, i + 1);
      ScanMeans(view, i + 1);
      if r.Fault? {
        var j :| i + 1 <= j < |view| && view[j].None? && (forall k {:trigger view[k]} :: i + 1 <= k < j ==> Inside(view[k]));
        assert forall k {:trigger view[k]} :: i <= k < j ==> Inside(view[k]);
      }
    }
  }

  /** Where the string goes on, the scan does not end. */
  lemma {:induction false} ScanGoesOn(view: seq<Option<Byte>>, i: nat, text: seq<Byte>)
    requires i + |text| < |view| && forall k {:trigger view[k]} :: i <= k < i + |text| ==> view[k] == Some(text[k - i]) && text[k - i] != 0
    ensures Scan(view, i) == Prepend(text, Scan(view, i + |text|))
    decreases |text|
  {
    if text == [] {
      PrependNothing(Scan(view, i));
    } else {
      assert view[i] == Some(text[0]);
      ScanGoesOn(view, i + 1, text[1..]);
      if Scan(view, i + |text|).Str? { assert [text[0]] + (text[1..] + Scan(view, i + |text|).text) == text + Scan(view, i + |text|).text; }
    }
  }

  lemma SeenIffBacked(m: Memory, pd: FrameNo, a: nat)
    requires IsMemory(m) && a < USER_END
    ensures Seen(m, pd, a).Some? <==> Backed(m, pd, a)
  {
  }

  /** What was copied out as a string is read back as that string. */
  lemma {:induction false} ScanOfCopied(m: Memory, own: Roles, pd: FrameNo, va: nat, text: seq<Byte>, max: nat)
    requires var data := text + [0];
      && RangeOk(m, own, pd, va, |data|) && AllBacked(m, pd, va, |data|) && OwnFrames(m, pd, va, |data|)
    requires 0 !in text && |text| < max && va + max <= USER_END
    ensures Scan(Bytes(Poked(m, pd, va, text + [0]), pd, va, max), 0) == Str(text)
  {
    hide Poked, Seen;
    var data := text + [0];
    var view := Bytes(Poked(m, pd, va, data), pd, va, max);
    forall k | 0 <= k < |data| ensures view[k] == Some(data[k]) {
      CopiedBytesAreSeen(m, own, pd, va, data, k);
    }
    ScanGoesOn(view, 0, text);
    assert view[|text|] == Some(0) && text + [] == text;
  }

  // ------------------------------------------- the address the string loop counts on

  /** Bytes up to the first page boundary. */
  function FirstStep(va: nat): (c: nat)
    ensures 0 < c <= PAGE_SIZE && (va + c) % PAGE_SIZE == 0
  {
    PAGE_SIZE - va % PAGE_SIZE
  }

  /** The loop's address after n boundaries: at each it adds the whole count of bytes read. */
  function Counted(va: nat, n: nat): nat {
    if n == 0 then va else Counted(va, n - 1) + FirstStep(va) + (n - 1) * PAGE_SIZE
  }

  /** How many boundaries lie before byte i. */
  function Boundaries(va: nat, i: nat): nat {
    if i < FirstStep(va) then 0 else 1 + (i - FirstStep(va)) / PAGE_SIZE
  }

  /** The address the loop really reads byte i from: its place in the page counted. */
  function ReadFrom(va: nat, i: nat): nat {
    PAGE_SIZE * PageOf(Counted(va, Boundaries(va, i))) + (va + i) % PAGE_SIZE
  }

  /** It still names the right page after one boundary, after two only if the string did not
      start on one, and never after more. */
  lemma {:induction false} CountedRightIff(va: nat, n: nat)
    ensures PageOf(Counted(va, n)) == PageOf(va) + n <==> n <= 1 || (n == 2 && va % PAGE_SIZE != 0)
    ensures PageOf(Counted(va, n)) >= PageOf(va) + n
  {
    var c, k := FirstStep(va), PageOf(va) + 1;
    assert va + c == PAGE_SIZE * k;
    assert Counted(va, 1) == PAGE_SIZE * k;
    assert Counted(va, 2) == PAGE_SIZE * (k + 1) + c;
    if n >= 3 {
      CountedFarAhead(va, n);
    }
  }

  lemma {:induction false} CountedFarAhead(va: nat, n: nat)
    requires n >= 3
    ensures PageOf(Counted(va, n)) > PageOf(va) + n
    decreases n
  {
    if n == 3 {
      var c, k := FirstStep(va), PageOf(va) + 1;
      assert va + c == PAGE_SIZE * k && Counted(va, 1) == PAGE_SIZE * k && Counted(va, 2) == PAGE_SIZE * (k + 1) + c;
      assert Counted(va, 3) == PAGE_SIZE * (k + 3) + 2 * c;
    } else {
      CountedFarAhead(va, n - 1);
      assert Counted(va, n) >= Counted(va, n - 1) + PAGE_SIZE;
    }
  }

  /** So many bytes are read from the right place. */
  function Reach(va: nat): nat {
    if va % PAGE_SIZE == 0 then 2 * PAGE_SIZE else FirstStep(va) + 2 * PAGE_SIZE
  }

  /** Callers ask for a page at most. */
  lemma APageIsWithinReach(va: nat)
    ensures PAGE_SIZE <= Reach(va)
  {
  }

  /** Byte i lies on the page that many pages behind the first. */
  lemma BoundariesArePages(va: nat, i: nat)
    ensures PageOf(va + i) == PageOf(va) + Boundaries(va, i)
  {
    var c, k := FirstStep(va), PageOf(va) + 1;
    assert va + c == PAGE_SIZE * k;
    if i >= c {
      var q, o := (i - c) / PAGE_SIZE, (i - c) % PAGE_SIZE;
      assert va + i == PAGE_SIZE * (k + q) + o;
    }
  }

  /** Byte i is read from where it is exactly within reach. */
  lemma ReadRightIff(va: nat, i: nat)
    ensures ReadFrom(va, i) == va + i <==> i < Reach(va)
    ensures ReadFrom(va, i) >= va + i
  {
    var n := Boundaries(va, i);
    hide Counted, Boundaries;
    BoundariesArePages(va, i);
    CountedRightIff(va, n);
    BoundariesWithinReach(va, i);
  }

  lemma BoundariesWithinReach(va: nat, i: nat)
    ensures i < Reach(va) <==> Boundaries(va, i) <= if va % PAGE_SIZE == 0 then 1 else 2
  {
  }

  /** The pages the loop counts on lie in user space and hold data, if they are there. */
  ghost predicate CountedOk(m: Memory, own: Roles, pd: FrameNo, va: nat, max: nat) {
    && Sound(m, own) && IsDirectory(own, pd) && va < USER_END
    && forall i: nat {:trigger ReadFrom(va, i)} :: i < max ==>
         ReadFrom(va, i) < USER_END && DataPage(m, own, pd, DirIndex(ReadFrom(va, i)), TableIndex(ReadFrom(va, i)))
  }

  /** The bytes the loop really reads. */
  function CountedBytes(m: Memory, pd: FrameNo, va: nat, n: nat): (view: seq<Option<Byte>>)
    requires IsMemory(m) && forall i: nat {:trigger ReadFrom(va, i)} :: i < n ==> ReadFrom(va, i) < USER_END
    ensures |view| == n && forall i {:trigger view[i]} :: 0 <= i < n ==> view[i] == Seen(m, pd, ReadFrom(va, i))
  {
    seq(n, i requires 0 <= i < n => Seen(m, pd, ReadFrom(va, i)))
  }

  /** Within reach they are the bytes of the string. */
  lemma CountedWithinReach(m: Memory, own: Roles, pd: FrameNo, va: nat, max: nat)
    requires RangeOk(m, own, pd, va, max) && va < USER_END && max <= Reach(va)
    ensures CountedOk(m, own, pd, va, max) && CountedBytes(m, pd, va, max) == Bytes(m, pd, va, max)
  {
    hide ReadFrom, Reach, Seen;
    forall i: nat | i < max ensures ReadFrom(va, i) == va + i && DataPage(m, own, pd, DirIndex(va + i), TableIndex(va + i)) {
      ReadRightIff(va, i);
    }
  }

  /** A memory in which one page holds zeros and all others ones. */
  function Striped(page: nat): (m: Memory)
    ensures IsMemory(m)
  {
    var zeros, ones := seq(ENTRIES, _ => Word(0, 0)), seq(ENTRIES, _ => Word(0x1010, 0x101));
    var most := seq(ENTRIES, _ => Word(4, 1));
    var one := seq(ENTRIES, i => if i == page % ENTRIES then Word(5, 1) else Word(4, 1));
    var dir := seq(ENTRIES, i => if i == page / ENTRIES then Word(3, 1) else Word(2, 1));
    seq(FRAMES, f => if f == 1 then dir else if f == 2 then most else if f == 3 then one else if f == 5 then zeros else ones)
  }

  lemma StripedBytes(page: nat, a: nat)
    requires a < USER_END
    ensures Seen(Striped(page), 1, a) == Some(if PageOf(a) == page then 0 else 1)
  {
    var m := Striped(page);
    PageNumberSplit(a);
    OnesAreOnes(a % PAGE_SIZE % 4);
    assert PageOf(a) == page <==> DirIndex(a) == page / ENTRIES && TableIndex(a) == page % ENTRIES;
  }

  lemma OnesAreOnes(k: nat)
    requires k < 4
    ensures ByteAt(Word(0x1010, 0x101), k) == 1 && ByteAt(Word(0, 0), k) == 0
  {
  }

  /** The loop gives what is there, whatever memory holds, if and only if the length asked for
      is within reach. */
  lemma ReadsRightIff(va: nat, max: nat)
    requires va + max <= USER_END && forall i: nat {:trigger ReadFrom(va, i)} :: i < max ==> ReadFrom(va, i) < USER_END
    ensures (forall m: Memory, pd: FrameNo {:trigger Bytes(m, pd, va, max)} :: IsMemory(m) ==>
               Scan(CountedBytes(m, pd, va, max), 0) == Scan(Bytes(m, pd, va, max), 0))
       <==> max <= Reach(va)
  {
    hide ReadFrom, Reach, Seen, Scan;
    if max <= Reach(va) {
      forall m: Memory, pd: FrameNo | IsMemory(m) ensures CountedBytes(m, pd, va, max) == Bytes(m, pd, va, max) {
        forall i: nat | i < max ensures ReadFrom(va, i) == va + i { ReadRightIff(va, i); }
      }
    } else {
      BeyondReach(va, max);
      var m := Striped(PageOf(va + Reach(va)));
      assert Scan(CountedBytes(m, 1, va, max), 0) != Scan(Bytes(m, 1, va, max), 0);
    }
  }

  /** With zeros on the page just beyond reach the string ends there, but the loop misses it. */
  lemma BeyondReach(va: nat, max: nat)
    requires va + max <= USER_END && forall i: nat {:trigger ReadFrom(va, i)} :: i < max ==> ReadFrom(va, i) < USER_END
    requires max > Reach(va)
    ensures var m := Striped(PageOf(va + Reach(va)));
      Scan(Bytes(m, 1, va, max), 0) == Str(seq(Reach(va), _ => 1)) != Scan(CountedBytes(m, 1, va, max), 0)
  {
    hide ReadFrom, Seen, Striped;
    var n, page, ones := Reach(va), PageOf(va + Reach(va)), seq(Reach(va), _ => 1 as Byte);
    var m := Striped(page);
    var view, counted := Bytes(m, 1, va, max), CountedBytes(m, 1, va, max);
    ReachIsBoundary(va);
    forall k | 0 <= k < n ensures view[k] == Some(1) {
      StripedBytes(page, va + k);
    }
    StripedBytes(page, va + n);
    ScanGoesOn(view, 0, ones);
    assert ones + [] == ones;
    ReadRightIff(va, n);
    ReadFromOffset(va, n);
    StripedBytes(page, ReadFrom(va, n));
    ScanMeans(counted, 0);
  }

  lemma ReachIsBoundary(va: nat)
    ensures (va + Reach(va)) % PAGE_SIZE == 0
    ensures forall a: nat {:trigger PageOf(a)} :: a < va + Reach(va) ==> PageOf(a) < PageOf(va + Reach(va))
  {
    var last := va + Reach(va);
    assert last % PAGE_SIZE == 0;
    assert last == PAGE_SIZE * PageOf(last);
    forall a: nat | a < last ensures PageOf(a) < PageOf(last) {
      BelowBoundary(a, PageOf(last));
    }
  }

  lemma BelowBoundary(a: nat, page: nat)
    requires a < PAGE_SIZE * page
    ensures PageOf(a) < page
  {
  }

  lemma ReadFromOffset(va: nat, i: nat)
    ensures ReadFrom(va, i) % PAGE_SIZE == (va + i) % PAGE_SIZE
  {
  }

  // -------------------------------------------------------------------- the loop

  /** Byte i is `off` bytes into the page after n boundaries. */
  predicate InPage(va: nat, i: nat, n: nat, off: nat) {
    && off <= PAGE_SIZE
    && if n == 0 then off == va % PAGE_SIZE + i else i == FirstStep(va) + (n - 1) * PAGE_SIZE + off
  }

  lemma WithinCounted(va: nat, i: nat, n: nat, off: nat)
    requires InPage(va, i, n, off) && off < PAGE_SIZE
    ensures Boundaries(va, i) == n && (va + i) % PAGE_SIZE == off && InPage(va, i + 1, n, off + 1)
  {
    var c, k := FirstStep(va), PageOf(va) + 1;
    assert va + c == PAGE_SIZE * k;
    if n == 0 {
      assert va + i == PAGE_SIZE * (k - 1) + off;
    } else {
      assert va + i == PAGE_SIZE * (k + (n - 1)) + off;
      assert (i - c) == PAGE_SIZE * (n - 1) + off;
    }
  }

  lemma NextBoundary(va: nat, i: nat, n: nat)
    requires InPage(va, i, n, PAGE_SIZE)
    ensures InPage(va, i, n + 1, 0) && Counted(va, n) + i == Counted(va, n + 1)
  {
  }

  /** The temporary map leads to the page counted after n boundaries. */
  ghost predicate OnCounted(mach: Machine, m: Memory, pd: FrameNo, va: nat, n: nat, cur: nat)
    reads mach
  {
    && cur == Counted(va, n) && cur < USER_END && IsMemory(m) && Backed(m, pd, cur) && TmpIs(mach, TMP, FrameAt(m, pd, cur))
  }

  /** The loop switches pages: it has read a whole page, or starts on a boundary. */
  lemma {:induction false} AtBoundary(mach: Machine, m: Memory, own: Roles, pd: FrameNo, va: nat, i: nat, n: nat, off: nat, cur: nat, max: nat)
    requires OnCounted(mach, m, pd, va, n, cur) && InPage(va, i, n, off) && (VM_TMP_MAP + off) % PAGE_SIZE == 0 && (i > 0 ==> off > 0)
    requires CountedOk(m, own, pd, va, max) && i < max
    ensures IsMemory(mach.phys) && Present(mach.phys[mach.cr3][TMP_SLOT])
    ensures var n' := if i == 0 && off == 0 then n else n + 1;
      && cur + i == Counted(va, n') < USER_END && InPage(va, i, n', 0)
      && Seen(m, pd, ReadFrom(va, i)) == if Backed(m, pd, cur + i) then Some(PageByte(m[FrameAt(m, pd, cur + i)], 0)) else None
  {
    hide Counted, PageByte;
    OffIsWhole(off);
    var n' := if i == 0 && off == 0 then n else n + 1;
    if off == PAGE_SIZE { NextBoundary(va, i, n); }
    assert InPage(va, i, n', 0) && cur + i == Counted(va, n');
    CountedByte(m, own, pd, va, i, n', 0, max);
  }

  lemma OffIsWhole(off: nat)
    requires (VM_TMP_MAP + off) % PAGE_SIZE == 0 && off <= PAGE_SIZE
    ensures off == 0 || off == PAGE_SIZE
  {
  }

  /** Byte i, read from the page counted. */
  lemma {:induction false} CountedByte(m: Memory, own: Roles, pd: FrameNo, va: nat, i: nat, n: nat, off: nat, max: nat)
    requires CountedOk(m, own, pd, va, max) && i < max && InPage(va, i, n, off) && off < PAGE_SIZE
    ensures var cur := Counted(va, n);
      && cur < USER_END && IsMemory(m) && DataPage(m, own, pd, DirIndex(cur), TableIndex(cur))
      && Seen(m, pd, ReadFrom(va, i)) == if Backed(m, pd, cur) then Some(PageByte(m[FrameAt(m, pd, cur)], off)) else None
  {
    hide Counted, PageByte;
    var cur, a := Counted(va, n), ReadFrom(va, i);
    WithinCounted(va, i, n, off);
    assert a == PAGE_SIZE * PageOf(cur) + off;
    InThePage(a, PageOf(cur), off);
    SamePageSeen(m, pd, cur, a);
  }

  lemma InThePage(a: nat, page: nat, off: nat)
    requires a == PAGE_SIZE * page + off && off < PAGE_SIZE
    ensures PageOf(a) == page && a % PAGE_SIZE == off
  {
  }

  lemma SamePageSeen(m: Memory, pd: FrameNo, va: nat, vb: nat)
    requires IsMemory(m) && PageOf(va) == PageOf(vb) && vb < USER_END
    ensures va < USER_END && DirIndex(va) == DirIndex(vb) && TableIndex(va) == TableIndex(vb)
    ensures FrameAt(m, pd, va) == FrameAt(m, pd, vb) && (Backed(m, pd, va) <==> Backed(m, pd, vb))
  {
    assert va < USER_END;
    SamePage(va, vb);
  }

  /** `vmm_copy_string_from`: it scans the bytes on the pages it counts, and leaves memory as
      it was. */
  method CopyStringFrom(mach: Machine, pd: FrameNo, vaddr: nat, maxLen: nat) returns (r: Copied)
    requires mach.Valid() && CountedOk(mach.phys, mach.own, pd, vaddr, maxLen)
    requires TmpReady(mach)
    modifies mach`phys, mach`supply, mach`own
    ensures TmpReady(mach)
    ensures r == if Backed(old(mach.phys), pd, vaddr) then Scan(CountedBytes(old(mach.phys), pd, vaddr, maxLen), 0) else Fault
    ensures Like(mach, old(mach.phys), old(mach.own))
  {
    hide Quiet, Sound, CountedOk, TmpIs, OnCounted, Like, TmpReady, Scan, Counted, InPage, Seen;
    ghost var m0, own0 := mach.phys, mach.own;
    StringStart(mach, pd, vaddr, maxLen);
    ghost var view := CountedBytes(m0, pd, vaddr, maxLen);
    var there, oldTmp := OpenPage(mach, pd, vaddr, m0, own0);
    if !there {
      return Fault;
    }
    OnFirst(mach, m0, own0, pd, vaddr);
    ghost var n := 0;
    var i, iAfter, src, buff := 0, 0, VM_TMP_MAP + vaddr % PAGE_SIZE, [];
    var cur: nat := vaddr;
    PrependNothing(Scan(view, 0));
    while i < maxLen
      invariant i <= maxLen && iAfter <= i && |buff| == i && src + i - iAfter >= VM_TMP_MAP && (i > 0 ==> src + i - iAfter > VM_TMP_MAP)
      invariant Like(mach, m0, own0) && OnCounted(mach, m0, pd, vaddr, n, cur)
      invariant InPage(vaddr, i, n, src + i - iAfter - VM_TMP_MAP)
      invariant Scan(view, 0) == Prepend(buff, Scan(view, i))
    {
      if (src + i - iAfter) % PAGE_SIZE == 0 {
        AtBoundary(mach, m0, own0, pd, vaddr, i, n, src + i - iAfter - VM_TMP_MAP, cur, maxLen);
        n := if i == 0 && src + i - iAfter == VM_TMP_MAP then n else n + 1;
        cur := cur + i;
        var ok := NextPage(mach, pd, cur, oldTmp, m0, own0);
        if !ok {
          AbsentEnds(view, i);
          return Fault;
        }
        src := VM_TMP_MAP;
        iAfter := i;
        OnNext(mach, m0, pd, vaddr, n, cur);
      }
      InPageWhole(vaddr, i, n, src + i - iAfter - VM_TMP_MAP);
      var b := GetByte(mach, pd, vaddr, maxLen, i, src + i - iAfter - VM_TMP_MAP, n, cur, m0, own0);
      ScanStep(view, i, b, buff);
      if b == 0 {
        break;
      }
      buff := buff + [b];
      i := i + 1;
    }
    OnCountedReady(mach, m0, pd, vaddr, n, cur);
    ClosePage(mach, oldTmp, m0, own0);
    ScanEnd(view);
    r := if i == maxLen then TooBig else Str(buff);
  }

  lemma StringStart(mach: Machine, pd: FrameNo, vaddr: nat, maxLen: nat)
    requires mach.Valid() && CountedOk(mach.phys, mach.own, pd, vaddr, maxLen)
    ensures Like(mach, mach.phys, mach.own) && IsDirectory(mach.own, pd) && IsMemory(mach.phys) && vaddr < USER_END
    ensures forall i: nat {:trigger ReadFrom(vaddr, i)} :: i < maxLen ==> ReadFrom(vaddr, i) < USER_END
  {
  }

  lemma OnFirst(mach: Machine, m: Memory, own: Roles, pd: FrameNo, va: nat)
    requires IsMemory(m) && va < USER_END && OnPage(mach, m, own, pd, va, 0, va - va % PAGE_SIZE, va % PAGE_SIZE)
    ensures OnCounted(mach, m, pd, va, 0, va) && InPage(va, 0, 0, va % PAGE_SIZE)
  {
    SameFrame(m, pd, va - va % PAGE_SIZE, va % PAGE_SIZE);
  }

  lemma {:induction false} OnNext(mach: Machine, m: Memory, pd: FrameNo, va: nat, n: nat, cur: nat)
    requires IsMemory(m) && cur == Counted(va, n) < USER_END && Backed(m, pd, cur) && TmpIs(mach, TMP, FrameAt(m, pd, cur))
    ensures OnCounted(mach, m, pd, va, n, cur)
  {
  }

  lemma OnCountedReady(mach: Machine, m: Memory, pd: FrameNo, va: nat, n: nat, cur: nat)
    requires OnCounted(mach, m, pd, va, n, cur)
    ensures IsMemory(mach.phys) && Present(mach.phys[mach.cr3][TMP_SLOT])
  {
  }

  lemma InPageWhole(va: nat, i: nat, n: nat, off: nat)
    requires InPage(va, i, n, off) && (off == 0 || (VM_TMP_MAP + off) % PAGE_SIZE != 0)
    ensures off < PAGE_SIZE && InPage(va, i + 1, n, off + 1)
  {
  }

  lemma PrependNothing(r: Copied)
    ensures Prepend([], r) == r
  {
    if r.Str? { assert [] + r.text == r.text; }
  }

  lemma {:induction false} AbsentEnds(view: seq<Option<Byte>>, i: nat)
    requires i < |view| && view[i].None?
    ensures Scan(view, i) == Fault
  {
  }

  /** One byte of the string, once its page is mapped. */
  method GetByte(mach: Machine, pd: FrameNo, va: nat, max: nat, i: nat, off: nat, ghost n: nat, ghost cur: nat, ghost m0: Memory, ghost own0: Roles) returns (b: Byte)
    requires CountedOk(m0, own0, pd, va, max) && i < max && Like(mach, m0, own0) && off < PAGE_SIZE
    requires OnCounted(mach, m0, pd, va, n, cur) && InPage(va, i, n, off)
    ensures ReadFrom(va, i) < USER_END && IsMemory(m0) && Seen(m0, pd, ReadFrom(va, i)) == Some(b)
  {
    hide Quiet, Seen, InPage, Counted;
    CountedByte(m0, own0, pd, va, i, n, off, max);
    b := LoadByte(mach, off, FrameAt(m0, pd, cur), m0, own0);
  }

  lemma ScanStep(view: seq<Option<Byte>>, i: nat, b: Byte, buff: seq<Byte>)
    requires i < |view| && view[i] == Some(b)
    ensures b == 0 ==> Prepend(buff, Scan(view, i)) == Str(buff)
    ensures b != 0 ==> Prepend(buff, Scan(view, i)) == Prepend(buff + [b], Scan(view, i + 1))
  {
    if b == 0 {
      assert buff + [] == buff;
    } else if Scan(view, i + 1).Str? {
      assert buff + ([b] + Scan(view, i + 1).text) == buff + [b] + Scan(view, i + 1).text;
    }
  }

  lemma {:induction false} ScanEnd(view: seq<Option<Byte>>)
    ensures Scan(view, |view|) == TooBig
  {
  }

  // ---------------------------------------------------------------- there and back

  /** Work on the temporary maps changes nothing that a program can read. */
  lemma QuietRange(m: Memory, own: Roles, m': Memory, own': Roles, pd: FrameNo, va: nat, n: nat)
    requires RangeOk(m, own, pd, va, n) && Quiet(m, own, m', own')
    ensures IsMemory(m) && IsMemory(m') && RangeOk(m', own', pd, va, n)
    ensures forall a: nat {:trigger Seen(m', pd, a)} :: va <= a < va + n ==> Seen(m', pd, a) == Seen(m, pd, a)
  {
    forall a: nat | va <= a < va + n ensures DataPage(m', own', pd, DirIndex(a), TableIndex(a)) && Seen(m', pd, a) == Seen(m, pd, a) {
      assert DataPage(m, own, pd, DirIndex(a), TableIndex(a));
      assert Pte(m', pd, DirIndex(a), TableIndex(a)) == Pte(m, pd, DirIndex(a), TableIndex(a));
      assert Backed(m, pd, a) ==> m'[FrameAt(m, pd, a)] == m[FrameAt(m, pd, a)];
    }
  }

  /** Copying bytes that are present keeps the range in order. */
  lemma {:induction false} PokedRange(m: Memory, own: Roles, pd: FrameNo, va: nat, data: seq<Byte>, n: nat)
    requires RangeOk(m, own, pd, va, n) && |data| <= n && AllBacked(m, pd, va, |data|)
    ensures RangeOk(Poked(m, pd, va, data), own, pd, va, n)
    ensures forall a: nat {:trigger Backed(Poked(m, pd, va, data), pd, a)} :: va <= a < va + n ==> (Backed(Poked(m, pd, va, data), pd, a) <==> Backed(m, pd, a))
  {
    hide Poked;
    assert forall a: nat :: va <= a < va + |data| ==> DataPage(m, own, pd, DirIndex(a), TableIndex(a));
    PokedKeeps(m, own, pd, va, data);
    var m' := Poked(m, pd, va, data);
    forall a: nat | va <= a < va + n ensures DataPage(m', own, pd, DirIndex(a), TableIndex(a)) && (Backed(m', pd, a) <==> Backed(m, pd, a)) {
      assert DataPage(m, own, pd, DirIndex(a), TableIndex(a));
      assert Pte(m', pd, DirIndex(a), TableIndex(a)) == Pte(m, pd, DirIndex(a), TableIndex(a));
    }
  }

  /** The two copies undo each other: a string copied to present pages with frames of their
      own is read back as it was. */
  method CopyThereAndBack(mach: Machine, pd: FrameNo, vaddr: nat, text: seq<Byte>, maxLen: nat) returns (r: Copied)
    requires mach.Valid() && TmpReady(mach) && 0 !in text && |text| < maxLen <= Reach(vaddr)
    requires RangeOk(mach.phys, mach.own, pd, vaddr, maxLen)
    requires AllBacked(mach.phys, pd, vaddr, |text| + 1) && OwnFrames(mach.phys, pd, vaddr, |text| + 1)
    modifies mach`phys, mach`supply, mach`own
    ensures r == Str(text)
  {
    hide Quiet, Sound, RangeOk, Poked, Scan, TmpReady, Reach, Seen, OwnFrames, AllBacked;
    ghost var m0, own0, data := mach.phys, mach.own, text + [0];
    BothRanges(m0, own0, pd, vaddr, |data|, maxLen);
    var n := CopyDataTo(mach, pd, vaddr, text + [0]);
    ReadBack(mach, m0, own0, pd, vaddr, text, maxLen);
    CountedWithinReach(mach.phys, mach.own, pd, vaddr, maxLen);
    r := CopyStringFrom(mach, pd, vaddr, maxLen);
  }

  lemma {:induction false} BothRanges(m: Memory, own: Roles, pd: FrameNo, va: nat, k: nat, n: nat)
    requires RangeOk(m, own, pd, va, n) && 0 < k <= n && AllBacked(m, pd, va, k)
    ensures RangeOk(m, own, pd, va, k) && va < USER_END && Backed(m, pd, va) && Held(m, pd, va, k) == k
  {
    HeldIs(m, pd, va, k, k);
  }

  lemma {:induction false} ReadBack(mach: Machine, m: Memory, own: Roles, pd: FrameNo, va: nat, text: seq<Byte>, max: nat)
    requires RangeOk(m, own, pd, va, max) && |text| < max && 0 !in text
    requires AllBacked(m, pd, va, |text| + 1) && OwnFrames(m, pd, va, |text| + 1)
    requires Like(mach, Poked(m, pd, va, (text + [0])[..|text| + 1]), own)
    ensures IsMemory(mach.phys) && RangeOk(mach.phys, mach.own, pd, va, max)
    ensures va < USER_END && Backed(mach.phys, pd, va) && Scan(Bytes(mach.phys, pd, va, max), 0) == Str(text)
  {
    hide Quiet, Scan, OwnFrames, AllBacked, Poked;
    var data := text + [0];
    assert data[..|text| + 1] == data;
    var m1 := Poked(m, pd, va, data);
    BothRanges(m, own, pd, va, |data|, max);
    PokedRange(m, own, pd, va, data, max);
    ScanOfCopied(m, own, pd, va, text, max);
    QuietRange(m1, own, mach.phys, mach.own, pd, va, max);
    assert Bytes(mach.phys, pd, va, max) == Bytes(m1, pd, va, max);
    SeenIffBacked(m1, pd, va);
    SeenIffBacked(mach.phys, pd, va);
  }
}
