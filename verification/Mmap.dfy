/** Mapping a file into an address space: its bytes are copied page by page into frames that
    are then mapped. */
module Mmap {

  import opened Lists
  import opened Paging
  import opened UserCopy
  import Regions

  // ------------------------------------------------------------ the size recorded

  /** The size vmm_mmap_at records for the region. */
  function AlignedSize(vaddr: nat, size: nat, align: nat): (aligned: nat)
    requires align > 0
    ensures size > 0 ==> aligned > 0
  {
    if size % align != 0 then size - size % align + align - vaddr % align else size
  }

  /** A size that is no whole number of units is rounded up so that the region ends where
      as many whole units end that start where vaddr is counted from: past the size, seen from
      the start of the unit, by less than a unit. */
  ghost predicate IsRounded(s: int, vaddr: nat, size: nat, unit: nat)
    requires unit > 0
  {
    if size % unit == 0 then s == size
    else (s + vaddr % unit) % unit == 0 && size < s + vaddr % unit < size + unit
  }

  /** The size recorded is the one size of that kind. */
  lemma AlignedSizeIff(vaddr: nat, size: nat, unit: nat, s: int)
    requires unit > 0
    ensures s == AlignedSize(vaddr, size, unit) <==> IsRounded(s, vaddr, size, unit)
  {
    if size % unit != 0 {
      var t := size - size % unit + unit;
      NextMultiple(size, unit, s + vaddr % unit);
      assert s == AlignedSize(vaddr, size, unit) <==> s + vaddr % unit == t;
    }
  }

  lemma NextMultiple(size: nat, unit: nat, t: int)
    requires unit > 0 && size % unit != 0
    ensures t == size - size % unit + unit <==> t % unit == 0 && size < t < size + unit
  {
    var q := size / unit;
    assert size == unit * q + size % unit && size - size % unit + unit == unit * (q + 1);
    MultipleIs(unit, q + 1);
    if t % unit == 0 && size < t < size + unit {
      var d := t / unit - (q + 1);
      assert t == unit * (t / unit) == unit * (q + 1) + unit * d;
      SmallMultiple(unit, d);
    }
  }

  lemma MultipleIs(unit: nat, k: nat)
    requires unit > 0
    ensures (unit * k) % unit == 0
  {
    var d := k - unit * k / unit;
    assert unit * k == unit * (unit * k / unit) + unit * k % unit;
    assert unit * k % unit == unit * d;
    SmallMultiple(unit, d);
  }

  lemma SmallMultiple(unit: int, d: int)
    requires unit > 0 && -unit < unit * d < unit
    ensures d == 0
  {
    MultipleGrows(unit, d);
  }

  lemma MultipleGrows(unit: int, d: int)
    requires unit >= 0
    ensures (d >= 1 ==> unit * d >= unit) && (d <= -1 ==> unit * d <= -unit)
  {
  }

  /** The region recorded covers every byte that was mapped exactly if the remainders of
      address and size fit into one unit together, or the size is a whole number of units. */
  lemma RecordedCoversIff(vaddr: nat, size: nat, align: nat, flags: nat)
    requires align > 0
    ensures (forall a: nat {:trigger Regions.Contains(Recorded(vaddr, size, align, flags), a)} :: vaddr <= a < vaddr + size ==>
               Regions.Contains(Recorded(vaddr, size, align, flags), a))
       <==> size % align == 0 || vaddr % align + size % align <= align
  {
    if size % align != 0 && vaddr % align + size % align > align {
      assert !Regions.Contains(Recorded(vaddr, size, align, flags), vaddr + size - 1);
    }
  }

  /** The region vmm_mmap_at creates. */
  function Recorded(vaddr: nat, size: nat, align: nat, flags: nat): Regions.Area
    requires align > 0
  {
    Regions.Area(vaddr, AlignedSize(vaddr, size, align), flags)
  }

  // ----------------------------------------------------------- filling part of a page

  function FillPage(page: Frame, off: nat, bytes: seq<Byte>): (page': Frame)
    requires |page| == ENTRIES && off + |bytes| <= PAGE_SIZE
    ensures |page'| == ENTRIES
  {
    if bytes == [] then page
    else SetPageByte(FillPage(page, off, bytes[..|bytes| - 1]), off + |bytes| - 1, bytes[|bytes| - 1])
  }

  lemma {:induction false} FilledByte(page: Frame, off: nat, bytes: seq<Byte>, o: nat)
    requires |page| == ENTRIES && off + |bytes| <= PAGE_SIZE && o < PAGE_SIZE
    ensures PageByte(FillPage(page, off, bytes), o) == if off <= o < off + |bytes| then bytes[o - off] else PageByte(page, o)
  {
    if bytes != [] {
      FilledByte(page, off, bytes[..|bytes| - 1], o);
    }
  }

  // ------------------------------------------------------ what is mapped after k bytes

  /** The page with these two indices holds some of the first k bytes from va on. */
  predicate Touched(va: nat, k: nat, di: Index, ti: Index) {
    k > 0 && PageOf(va) <= ENTRIES * di + ti <= PageOf(va + k - 1)
  }

  lemma TouchedMeans(va: nat, k: nat, a: nat)
    requires va + k <= USER_END && a < USER_END
    ensures va <= a < va + k ==> Touched(va, k, DirIndex(a), TableIndex(a))
    ensures k > 0 && (va + k) % PAGE_SIZE == 0 && va + k <= a ==> !Touched(va, k, DirIndex(a), TableIndex(a))
  {
    PageNumberSplit(a);
  }

  /** Everything but the entries of the pages touched is as it was. */
  ghost predicate EntriesKept(m0: Memory, own0: Roles, m: Memory, pd: FrameNo, va: nat, k: nat)
    requires IsMemory(m0) && IsMemory(m)
  {
    forall d: FrameNo, di: Index, ti: Index {:trigger Pte(m, d, di, ti)} ::
      IsDirectory(own0, d) && di < TMP_SLOT && !(d == pd && Touched(va, k, di, ti)) ==> Pte(m, d, di, ti) == Pte(m0, d, di, ti)
  }

  /** The page of address a is mapped with these flags to its own frame: the one it had, or one nobody used before. */
  ghost predicate Placed(m0: Memory, own0: Roles, m: Memory, own: Roles, pd: FrameNo, a: nat, fl: Flags)
    requires IsMemory(m0) && IsMemory(m) && a < USER_END
  {
    && Backed(m, pd, a) && FrameAt(m, pd, a) in own && own[FrameAt(m, pd, a)] == Page
    && Pte(m, pd, DirIndex(a), TableIndex(a)).flags == fl
    && if Backed(m0, pd, a) then FrameAt(m, pd, a) == FrameAt(m0, pd, a) else FrameAt(m, pd, a) !in own0
  }

  /** No address below k whose page was present is byte o of frame f. */
  ghost predicate Unhit(m0: Memory, pd: FrameNo, va: nat, k: nat, f: FrameNo, o: nat)
    requires IsMemory(m0) && va + k <= USER_END
  {
    forall a: nat {:trigger Hits(m0, pd, a, f, o)} :: va <= a < va + k && Backed(m0, pd, a) ==> !Hits(m0, pd, a, f, o)
  }

  /** The mapping after the first k bytes of the data. */
  ghost predicate Mapping(m0: Memory, own0: Roles, m: Memory, own: Roles, pd: FrameNo, va: nat, data: seq<Byte>, fl: Flags, k: nat) {
    && Sound(m0, own0) && Sound(m, own) && IsDirectory(own0, pd) && k <= |data| && va + |data| <= USER_END
    && (forall f: FrameNo {:trigger f in own} {:trigger f in own0} :: f in own0 ==> f in own && own[f] == own0[f])
    && EntriesKept(m0, own0, m, pd, va, k)
    && (forall a: nat {:trigger Placed(m0, own0, m, own, pd, a, fl)} :: va <= a < va + k ==> Placed(m0, own0, m, own, pd, a, fl))
    && OwnFrames(m, pd, va, k)
    && (forall a: nat {:trigger Seen(m, pd, a)} :: va <= a < va + k ==> Seen(m, pd, a) == Some(data[a - va]))
    && (forall f: FrameNo, o: nat {:trigger PageByte(m[f], o)} :: f in own0 && own0[f] == Page && o < PAGE_SIZE && Unhit(m0, pd, va, k, f, o) ==>
          PageByte(m[f], o) == PageByte(m0[f], o))
  }

  /** Pages of the range that are present have frames of their own. */
  ghost predicate PresentApart(m: Memory, pd: FrameNo, va: nat, n: nat)
    requires IsMemory(m) && va + n <= USER_END
  {
    forall a: nat, b: nat {:trigger FrameAt(m, pd, a), FrameAt(m, pd, b)} ::
      va <= a < va + n && va <= b < va + n && PageOf(a) != PageOf(b) && Backed(m, pd, a) && Backed(m, pd, b) ==> FrameAt(m, pd, a) != FrameAt(m, pd, b)
  }

  /** Every byte that could be read before, anywhere, and is not one of those mapped, can be
      read as before. */
  lemma OthersStillRead(m0: Memory, own0: Roles, m: Memory, own: Roles, pd: FrameNo, va: nat, data: seq<Byte>, fl: Flags, d: FrameNo, b: nat)
    requires Mapping(m0, own0, m, own, pd, va, data, fl, |data|) && IsDirectory(own0, d) && b < USER_END
    requires DataPage(m0, own0, d, DirIndex(b), TableIndex(b)) && Backed(m0, d, b)
    requires Unhit(m0, pd, va, |data|, FrameAt(m0, d, b), b % PAGE_SIZE)
    ensures Seen(m, d, b) == Seen(m0, d, b)
  {
    var di, ti := DirIndex(b), TableIndex(b);
    if d == pd && Touched(va, |data|, di, ti) {
      var a := TouchedBy(va, |data|, b);
      SamePage(a, b);
      assert Placed(m0, own0, m, own, pd, a, fl);
    } else {
      assert Pte(m, d, di, ti) == Pte(m0, d, di, ti);
    }
    assert PageByte(m[FrameAt(m0, d, b)], b % PAGE_SIZE) == PageByte(m0[FrameAt(m0, d, b)], b % PAGE_SIZE);
  }

  /** An address among the first k that lies on the page of b. */
  lemma TouchedBy(va: nat, k: nat, b: nat) returns (a: nat)
    requires va + k <= USER_END && b < USER_END && Touched(va, k, DirIndex(b), TableIndex(b))
    ensures va <= a < va + k && PageOf(a) == PageOf(b)
  {
    PageNumberSplit(b);
    a := if va <= b < va + k then b else if b < va then va else va + k - 1;
  }

  // ------------------------------------------------------------------ one turn of the loop

  /** Bytes k to k' lie on one page, of which nothing was mapped before. */
  predicate Chunk(va: nat, k: nat, k': nat) {
    k < k' && (k == 0 || (va + k) % PAGE_SIZE == 0) && PageOf(va + k) == PageOf(va + k' - 1)
  }

  /** The frame for the next chunk is the one the page had, or a new one. */
  ghost predicate FrameFor(m0: Memory, own0: Roles, own: Roles, pd: FrameNo, a: nat, f: FrameNo)
    requires IsMemory(m0) && a < USER_END
  {
    f in own && own[f] == Page && if Backed(m0, pd, a) then f == FrameAt(m0, pd, a) else f !in own0
  }

  /** The bytes of a chunk are in frame f, which is not mapped yet. */
  ghost predicate Midway(m0: Memory, own0: Roles, m: Memory, own: Roles, pd: FrameNo, va: nat, data: seq<Byte>, fl: Flags, k: nat, k': nat, f: FrameNo) {
    && Sound(m0, own0) && Sound(m, own) && IsDirectory(own0, pd) && k' <= |data| && va + |data| <= USER_END && Chunk(va, k, k')
    && (forall g: FrameNo {:trigger g in own} {:trigger g in own0} :: g in own0 ==> g in own && own[g] == own0[g])
    && EntriesKept(m0, own0, m, pd, va, k)
    && (forall a: nat {:trigger Placed(m0, own0, m, own, pd, a, fl)} :: va <= a < va + k ==> Placed(m0, own0, m, own, pd, a, fl) && FrameAt(m, pd, a) != f)
    && OwnFrames(m, pd, va, k)
    && (forall a: nat {:trigger Seen(m, pd, a)} :: va <= a < va + k ==> Seen(m, pd, a) == Some(data[a - va]))
    && (forall g: FrameNo, o: nat {:trigger PageByte(m[g], o)} :: g in own0 && own0[g] == Page && o < PAGE_SIZE && Unhit(m0, pd, va, k', g, o) ==>
          PageByte(m[g], o) == PageByte(m0[g], o))
    && FrameFor(m0, own0, own, pd, va + k, f)
    && (forall a: nat {:trigger PageByte(m[f], a % PAGE_SIZE)} :: va + k <= a < va + k' ==> PageByte(m[f], a % PAGE_SIZE) == data[a - va])
  }

  /** Quiet work on the temporary maps does not spoil it. */
  lemma MidwayQuiet(m0: Memory, own0: Roles, m: Memory, own: Roles, m2: Memory, own2: Roles, pd: FrameNo, va: nat, data: seq<Byte>, fl: Flags, k: nat, k': nat, f: FrameNo)
    requires Midway(m0, own0, m, own, pd, va, data, fl, k, k', f) && Quiet(m, own, m2, own2)
    ensures Midway(m0, own0, m2, own2, pd, va, data, fl, k, k', f)
  {
    assert IsDirectory(own, pd);
    forall d: FrameNo, di: Index, ti: Index | IsDirectory(own0, d) && di < TMP_SLOT ensures Pte(m2, d, di, ti) == Pte(m, d, di, ti) {
      assert IsDirectory(own, d);
    }
    forall a: nat | va <= a < va + k
      ensures Placed(m0, own0, m2, own2, pd, a, fl) && FrameAt(m2, pd, a) == FrameAt(m, pd, a) != f && Seen(m2, pd, a) == Seen(m, pd, a)
    {
      assert Placed(m0, own0, m, own, pd, a, fl);
      assert m2[FrameAt(m, pd, a)] == m[FrameAt(m, pd, a)];
    }
    assert m2[f] == m[f];
    forall g: FrameNo | g in own0 && own0[g] == Page ensures m2[g] == m[g] {
      assert g in own;
    }
  }

  /** The frame of the next chunk is none of those mapped so far. */
  lemma FrameIsOther(m0: Memory, own0: Roles, m: Memory, own: Roles, pd: FrameNo, va: nat, data: seq<Byte>, fl: Flags, k: nat, k': nat, f: FrameNo)
    requires Mapping(m0, own0, m, own, pd, va, data, fl, k) && Chunk(va, k, k') && k' <= |data| && PresentApart(m0, pd, va, |data|)
    requires RangeOk(m0, own0, pd, va, |data|)
    requires if Backed(m0, pd, va + k) then f == FrameAt(m0, pd, va + k) else f !in own
    ensures forall a: nat {:trigger FrameAt(m, pd, a)} :: va <= a < va + k ==> FrameAt(m, pd, a) != f
  {
    assert DataPage(m0, own0, pd, DirIndex(va + k), TableIndex(va + k));
    forall a: nat | va <= a < va + k ensures FrameAt(m, pd, a) != f {
      assert Placed(m0, own0, m, own, pd, a, fl);
      assert PageOf(a) != PageOf(va + k);
    }
  }

  /** Filling the chunk into its frame, which may be a new one. */
  lemma {:induction false} ChunkFilled(m0: Memory, own0: Roles, m: Memory, own: Roles, pd: FrameNo, va: nat, data: seq<Byte>, fl: Flags, k: nat, k': nat, f: FrameNo)
    requires Mapping(m0, own0, m, own, pd, va, data, fl, k) && Chunk(va, k, k') && k' <= |data| && PresentApart(m0, pd, va, |data|)
    requires RangeOk(m0, own0, pd, va, |data|)
    requires if Backed(m0, pd, va + k) then f == FrameAt(m0, pd, va + k) else f !in own
    requires (va + k) % PAGE_SIZE + (k' - k) <= PAGE_SIZE
    ensures Midway(m0, own0, Stored(m, f, FillPage(m[f], (va + k) % PAGE_SIZE, data[k..k'])), own[f := Page], pd, va, data, fl, k, k', f)
  {
    hide PageByte, FillPage, PresentApart, EntriesKept, OwnFrames;
    var page := FillPage(m[f], (va + k) % PAGE_SIZE, data[k..k']);
    var m', own' := Stored(m, f, page), own[f := Page];
    FrameIsOther(m0, own0, m, own, pd, va, data, fl, k, k', f);
    assert DataPage(m0, own0, pd, DirIndex(va + k), TableIndex(va + k));
    PagesStay(m0, own0, m, own, pd, va, data, fl, k, f, page);
    ChunkBytes(m0, own0, m, own, m', pd, va, data, fl, k, k', f);
  }

  /** Storing into another frame changes none of the pages mapped so far. */
  lemma {:induction false} PagesStay(m0: Memory, own0: Roles, m: Memory, own: Roles, pd: FrameNo, va: nat, data: seq<Byte>, fl: Flags, k: nat, f: FrameNo, page: Frame)
    requires Mapping(m0, own0, m, own, pd, va, data, fl, k) && |page| == ENTRIES && (f in own ==> own[f] == Page)
    requires forall a: nat {:trigger FrameAt(m, pd, a)} :: va <= a < va + k ==> FrameAt(m, pd, a) != f
    ensures Sound(Stored(m, f, page), own[f := Page]) && EntriesKept(m0, own0, Stored(m, f, page), pd, va, k) && OwnFrames(Stored(m, f, page), pd, va, k)
    ensures forall a: nat
      {:trigger Placed(m0, own0, Stored(m, f, page), own[f := Page], pd, a, fl)} {:trigger FrameAt(Stored(m, f, page), pd, a)} {:trigger Seen(Stored(m, f, page), pd, a)} ::
      va <= a < va + k ==>
        && Placed(m0, own0, Stored(m, f, page), own[f := Page], pd, a, fl) && FrameAt(Stored(m, f, page), pd, a) == FrameAt(m, pd, a) != f
        && Seen(Stored(m, f, page), pd, a) == Some(data[a - va])
  {
    hide PageByte;
    var m', own' := Stored(m, f, page), own[f := Page];
    ChunkKeepsEntries(m0, own0, m, own, pd, va, k, f, page, data, fl);
    forall a: nat | va <= a < va + k
      ensures Placed(m0, own0, m', own', pd, a, fl) && FrameAt(m', pd, a) == FrameAt(m, pd, a) != f && Seen(m', pd, a) == Some(data[a - va])
    {
      assert Placed(m0, own0, m, own, pd, a, fl) && Seen(m, pd, a) == Some(data[a - va]);
    }
  }

  /** What the bytes of the frames hold after the chunk was filled in. */
  lemma {:induction false} ChunkBytes(m0: Memory, own0: Roles, m: Memory, own: Roles, m': Memory, pd: FrameNo, va: nat, data: seq<Byte>, fl: Flags, k: nat, k': nat, f: FrameNo)
    requires Mapping(m0, own0, m, own, pd, va, data, fl, k) && Chunk(va, k, k') && k' <= |data|
    requires if Backed(m0, pd, va + k) then f == FrameAt(m0, pd, va + k) else f !in own
    requires (va + k) % PAGE_SIZE + (k' - k) <= PAGE_SIZE
    requires m' == Stored(m, f, FillPage(m[f], (va + k) % PAGE_SIZE, data[k..k']))
    ensures forall g: FrameNo, o: nat {:trigger PageByte(m'[g], o)} ::
      g in own0 && own0[g] == Page && o < PAGE_SIZE && Unhit(m0, pd, va, k', g, o) ==> PageByte(m'[g], o) == PageByte(m0[g], o)
    ensures forall a: nat {:trigger PageByte(m'[f], a % PAGE_SIZE)} :: va + k <= a < va + k' ==> PageByte(m'[f], a % PAGE_SIZE) == data[a - va]
  {
    hide FillPage, PageByte;
    var off, bytes := (va + k) % PAGE_SIZE, data[k..k'];
    forall g: FrameNo, o: nat | g in own0 && own0[g] == Page && o < PAGE_SIZE && Unhit(m0, pd, va, k', g, o)
      ensures PageByte(m'[g], o) == PageByte(m0[g], o)
    {
      FilledByte(m[f], off, bytes, o);
      UnhitOutside(m0, own0, pd, va, k, k', g, o);
    }
    forall a: nat | va + k <= a < va + k' ensures PageByte(m'[f], a % PAGE_SIZE) == data[a - va] {
      WithinChunk(va, k, k', a);
      FilledByte(m[f], off, bytes, a % PAGE_SIZE);
    }
  }

  lemma WithinChunk(va: nat, k: nat, k': nat, a: nat)
    requires Chunk(va, k, k') && va + k <= a < va + k'
    ensures PageOf(a) == PageOf(va + k) && a % PAGE_SIZE == (va + k) % PAGE_SIZE + (a - va - k)
  {
  }

  /** Storing into the frame moves no page. */
  lemma ChunkKeepsEntries(m0: Memory, own0: Roles, m: Memory, own: Roles, pd: FrameNo, va: nat, k: nat, f: FrameNo, page: Frame, data: seq<Byte>, fl: Flags)
    requires Mapping(m0, own0, m, own, pd, va, data, fl, k) && |page| == ENTRIES && (f in own ==> own[f] == Page)
    ensures Sound(Stored(m, f, page), own[f := Page])
    ensures forall d: FrameNo, di: Index, ti: Index {:trigger Pte(Stored(m, f, page), d, di, ti)} :: IsDirectory(own, d) && di < TMP_SLOT ==>
      Pte(Stored(m, f, page), d, di, ti) == Pte(m, d, di, ti)
  {
    if f in own {
      StoredSound(m, own, f, page);
      assert own[f := Page] == own;
      forall d: FrameNo, di: Index, ti: Index | IsDirectory(own, d) && di < TMP_SLOT ensures Pte(Stored(m, f, page), d, di, ti) == Pte(m, d, di, ti) {
        StoreMovesNoPage(m, own, f, page, d, di, ti);
      }
    } else {
      QuietNewPage(m, own, f, page);
    }
  }

  /** A byte that no address up to k' hits lies outside the chunk, and was not hit before. */
  lemma UnhitOutside(m0: Memory, own0: Roles, pd: FrameNo, va: nat, k: nat, k': nat, g: FrameNo, o: nat)
    requires IsMemory(m0) && va + k' <= USER_END && Chunk(va, k, k') && o < PAGE_SIZE && Unhit(m0, pd, va, k', g, o)
    ensures Unhit(m0, pd, va, k, g, o)
    ensures Backed(m0, pd, va + k) && g == FrameAt(m0, pd, va + k) && (va + k) % PAGE_SIZE + (k' - k) <= PAGE_SIZE ==>
      !((va + k) % PAGE_SIZE <= o < (va + k) % PAGE_SIZE + (k' - k))
  {
    var off := (va + k) % PAGE_SIZE;
    if Backed(m0, pd, va + k) && g == FrameAt(m0, pd, va + k) && off <= o < off + (k' - k) {
      var a := va + k + (o - off);
      WithinChunk(va, k, k', a);
      SamePage(a, va + k);
      assert Backed(m0, pd, a) && Hits(m0, pd, a, g, o);
    }
  }

  /** The table that the page needs is there, or the frame for it is clean. */
  ghost predicate TableReady(m: Memory, pd: FrameNo, di: Index, spare: FrameNo)
    requires IsMemory(m)
  {
    Present(m[pd][di]) || forall i: Index {:trigger m[spare][i]} :: m[spare][i] == ZERO
  }

  /** Memory after the page of a was mapped to frame f. */
  function AfterMap(m: Memory, cr3: FrameNo, pd: FrameNo, a: nat, paddr: Word, flags: Flags, spare: FrameNo): (m': Memory)
    requires IsMemory(m) && a < USER_END
    ensures IsMemory(m')
  {
    MappedTo(m, cr3, pd, paddr, DirIndex(a), TableIndex(a), flags, spare)
  }

  ghost predicate CanMap(m: Memory, own: Roles, cr3: FrameNo, pd: FrameNo, a: nat, spare: FrameNo) {
    a < USER_END && CanMapTo(m, own, cr3, pd, DirIndex(a), spare) && TableReady(m, pd, DirIndex(a), spare)
  }

  /** Mapping one page with a clean table changes the entry of that page alone. */
  lemma MapEntries(m: Memory, own: Roles, cr3: FrameNo, pd: FrameNo, a: nat, paddr: Word, flags: Flags, spare: FrameNo, d: FrameNo, di: Index, ti: Index)
    requires CanMap(m, own, cr3, pd, a, spare) && IsDirectory(own, d) && di < TMP_SLOT
    ensures Pte(AfterMap(m, cr3, pd, a, paddr, flags, spare), d, di, ti) ==
      if d == pd && di == DirIndex(a) && ti == TableIndex(a) then Entry(paddr, flags) else Pte(m, d, di, ti)
  {
    MappedToEntry(m, own, cr3, pd, paddr, DirIndex(a), TableIndex(a), flags, spare, d, di, ti);
  }

  /** Mapping the frame that was filled completes the chunk. */
  lemma ChunkMapped(m0: Memory, own0: Roles, m: Memory, own: Roles, pd: FrameNo, va: nat, data: seq<Byte>, fl: Flags, k: nat, k': nat,
                    cr3: FrameNo, paddr: Word, flags: Flags, spare: FrameNo)
    requires Midway(m0, own0, m, own, pd, va, data, fl, k, k', paddr.frame) && CanMap(m, own, cr3, pd, va + k, spare) && flags % 2 == 1 && fl == flags
    ensures Mapping(m0, own0, AfterMap(m, cr3, pd, va + k, paddr, flags, spare), OwnAfter(m, own, pd, DirIndex(va + k), spare), pd, va, data, fl, k')
  {
    hide MappedTo, PageByte;
    var a0, f := va + k, paddr.frame;
    var m', own' := AfterMap(m, cr3, pd, a0, paddr, flags, spare), OwnAfter(m, own, pd, DirIndex(a0), spare);
    MappedToKeepsSound(m, own, cr3, pd, paddr, DirIndex(a0), TableIndex(a0), flags, spare);
    forall d: FrameNo, di: Index, ti: Index | IsDirectory(own0, d) && di < TMP_SLOT && !(d == pd && Touched(va, k', di, ti))
      ensures Pte(m', d, di, ti) == Pte(m0, d, di, ti)
    {
      assert IsDirectory(own, d);
      MapEntries(m, own, cr3, pd, a0, paddr, flags, spare, d, di, ti);
      TouchedMeans(va, k', a0);
      TouchedGrows(va, k, k', di, ti);
    }
    forall g: FrameNo | g in own && own[g] == Page ensures m'[g] == m[g] && g in own' && own'[g] == Page {
      MappedToKeepsData(m, own, cr3, pd, paddr, DirIndex(a0), TableIndex(a0), flags, spare, g);
    }
    forall a: nat | va <= a < va + k' ensures Pte(m', pd, DirIndex(a), TableIndex(a)) == if a < a0 then Pte(m, pd, DirIndex(a), TableIndex(a)) else Entry(paddr, flags) {
      MapEntries(m, own, cr3, pd, a0, paddr, flags, spare, pd, DirIndex(a), TableIndex(a));
      ChunkPages(va, k, k', a);
    }
    MappedChunk(m0, own0, m, own, m', own', pd, va, data, fl, k, k', Entry(paddr, flags));
  }

  lemma TouchedGrows(va: nat, k: nat, k': nat, di: Index, ti: Index)
    requires k <= k'
    ensures Touched(va, k, di, ti) ==> Touched(va, k', di, ti)
  {
    if k > 0 { assert va + k - 1 <= va + k' - 1; }
  }

  /** The addresses of the chunk are those with its page's indices. */
  lemma ChunkPages(va: nat, k: nat, k': nat, a: nat)
    requires Chunk(va, k, k') && va <= a < va + k' && va + k' <= USER_END
    ensures DirIndex(a) == DirIndex(va + k) && TableIndex(a) == TableIndex(va + k) <==> a >= va + k
  {
    PageNumberSplit(a);
    PageNumberSplit(va + k);
    if a >= va + k { WithinChunk(va, k, k', a); }
  }

  /** The facts about the range, once the entries and the frames are known. */
  lemma MappedChunk(m0: Memory, own0: Roles, m: Memory, own: Roles, m': Memory, own': Roles, pd: FrameNo, va: nat, data: seq<Byte>, fl: Flags, k: nat, k': nat, e: Word)
    requires Midway(m0, own0, m, own, pd, va, data, fl, k, k', e.frame) && Present(e) && e.flags == fl && Sound(m', own')
    requires forall g: FrameNo {:trigger g in own'} {:trigger g in own} :: g in own ==> g in own' && own'[g] == own[g]
    requires forall g: FrameNo {:trigger m'[g]} :: g in own && own[g] == Page ==> m'[g] == m[g]
    requires EntriesKept(m0, own0, m', pd, va, k')
    requires forall a: nat {:trigger Pte(m', pd, DirIndex(a), TableIndex(a))} :: va <= a < va + k' ==>
      Pte(m', pd, DirIndex(a), TableIndex(a)) == if a < va + k then Pte(m, pd, DirIndex(a), TableIndex(a)) else e
    ensures Mapping(m0, own0, m', own', pd, va, data, fl, k')
  {
    forall a: nat | va <= a < va + k'
      ensures Placed(m0, own0, m', own', pd, a, fl) && Seen(m', pd, a) == Some(data[a - va])
      ensures FrameAt(m', pd, a) == if a < va + k then FrameAt(m, pd, a) else e.frame
      ensures a < va + k ==> FrameAt(m', pd, a) != e.frame
    {
      if a < va + k {
        assert Placed(m0, own0, m, own, pd, a, fl) && Seen(m, pd, a) == Some(data[a - va]);
      } else {
        WithinChunk(va, k, k', a);
        SamePage(a, va + k);
        assert PageByte(m[e.frame], a % PAGE_SIZE) == data[a - va];
      }
    }
    forall a: nat, b: nat | va <= a < va + k' && va <= b < va + k' && PageOf(a) != PageOf(b) ensures FrameAt(m', pd, a) != FrameAt(m', pd, b) {
      if a >= va + k { WithinChunk(va, k, k', a); }
      if b >= va + k { WithinChunk(va, k, k', b); }
    }
    forall g: FrameNo | g in own0 && own0[g] == Page ensures m'[g] == m[g] {
      assert g in own;
    }
  }

  // ------------------------------------------------------------------------- the code

  /** Quiet work does not spoil what is mapped. */
  lemma MappingQuiet(m0: Memory, own0: Roles, m: Memory, own: Roles, m2: Memory, own2: Roles, pd: FrameNo, va: nat, data: seq<Byte>, fl: Flags, k: nat)
    requires Mapping(m0, own0, m, own, pd, va, data, fl, k) && Quiet(m, own, m2, own2)
    ensures IsMemory(m2) && Mapping(m0, own0, m2, own2, pd, va, data, fl, k)
  {
    assert IsDirectory(own, pd);
    forall d: FrameNo, di: Index, ti: Index | IsDirectory(own0, d) && di < TMP_SLOT ensures Pte(m2, d, di, ti) == Pte(m, d, di, ti) {
      assert IsDirectory(own, d);
    }
    forall a: nat | va <= a < va + k
      ensures Placed(m0, own0, m2, own2, pd, a, fl) && FrameAt(m2, pd, a) == FrameAt(m, pd, a) && Seen(m2, pd, a) == Seen(m, pd, a)
    {
      assert Placed(m0, own0, m, own, pd, a, fl);
      assert m2[FrameAt(m, pd, a)] == m[FrameAt(m, pd, a)];
    }
    forall g: FrameNo | g in own0 && own0[g] == Page ensures m2[g] == m[g] {
      assert g in own;
    }
  }

  /** The driver's part: it writes the bytes through the second temporary map. */
  method FillTmp(mach: Machine, off: nat, bytes: seq<Byte>, ghost f: FrameNo, ghost m: Memory, ghost own: Roles)
    requires IsMemory(m) && Like(mach, m, own) && TmpIs(mach, TMP2, f) && off + |bytes| <= PAGE_SIZE && f in own && own[f] == Page
    modifies mach`phys
    ensures Like(mach, Stored(m, f, FillPage(m[f], off, bytes)), own) && TmpIs(mach, TMP2, f)
  {
    hide Quiet, Sound;
    var i := 0;
    StoredSame(m, f, off);
    assert bytes[..0] == [];
    while i < |bytes|
      invariant i <= |bytes| && TmpIs(mach, TMP2, f)
      invariant IsMemory(m) && Like(mach, Stored(m, f, FillPage(m[f], off, bytes[..i])), own)
    {
      ghost var m1 := Stored(m, f, FillPage(m[f], off, bytes[..i]));
      assert bytes[..i + 1][..i] == bytes[..i];
      StoreByte(mach, TMP2, VM_TMP2_MAP, off + i, bytes[i], f, m1, own);
      StoredTwice(m, f, FillPage(m[f], off, bytes[..i]), SetPageByte(m1[f], off + i, bytes[i]));
      i := i + 1;
    }
    assert bytes[..i] == bytes;
  }

  lemma {:induction false} StoredSame(m: Memory, f: FrameNo, off: nat)
    requires IsMemory(m) && off <= PAGE_SIZE
    ensures Stored(m, f, FillPage(m[f], off, [])) == m
  {
    assert m[f := m[f]] == m;
  }

  lemma StoredTwice(m: Memory, f: FrameNo, page: Frame, page': Frame)
    requires IsMemory(m) && |page| == |page'| == ENTRIES
    ensures Stored(Stored(m, f, page), f, page') == Stored(m, f, page') && Stored(m, f, page)[f] == page
  {
  }

  /** Frames nobody uses are not touched by quiet work. */
  lemma CleanLike(mach: Machine, m: Memory, own: Roles)
    requires Like(mach, m, own)
    ensures Clean(mach.phys, mach.supply) <==> Clean(m, mach.supply)
  {
    forall i | 0 <= i < |mach.supply| ensures mach.phys[mach.supply[i]] == m[mach.supply[i]] {
    }
  }

  lemma CleanLater(m: Memory, supply: seq<FrameNo>, later: seq<FrameNo>)
    requires IsMemory(m) && Clean(m, supply) && (later == supply || (supply != [] && later == supply[1..]))
    ensures Clean(m, later)
  {
    forall i | 0 <= i < |later| ensures later[i] in supply && forall j: Index :: m[later[i]][j] == ZERO {
      assert later[i] == supply[if later == supply then i else i + 1];
    }
  }

  /** Mapping a page leaves the frames alone that nobody uses. */
  lemma MapLeavesUnused(m: Memory, own: Roles, cr3: FrameNo, pd: FrameNo, a: nat, paddr: Word, flags: Flags, spare: FrameNo, g: FrameNo)
    requires a < USER_END && CanMapTo(m, own, cr3, pd, DirIndex(a), spare) && g !in own && (g != spare || Present(m[pd][DirIndex(a)]))
    ensures AfterMap(m, cr3, pd, a, paddr, flags, spare)[g] == m[g]
  {
    assert SlotOk(m, own, pd, DirIndex(a));
  }

  /** The frame for a chunk: the page's own, or a new one. */
  method ChunkFrame(mach: Machine, pd: FrameNo, a: nat) returns (paddr: Word, newPage: bool)
    requires mach.Valid() && IsDirectory(mach.own, pd) && a < USER_END && mach.supply != []
    requires DataPage(mach.phys, mach.own, pd, DirIndex(a), TableIndex(a))
    modifies mach`phys, mach`supply, mach`own
    ensures Like(mach, old(mach.phys), old(mach.own)[paddr.frame := Page])
    ensures if Backed(old(mach.phys), pd, a) then paddr.frame == FrameAt(old(mach.phys), pd, a) && mach.supply == old(mach.supply)
            else paddr.frame !in old(mach.own) && mach.supply == old(mach.supply)[1..]
    ensures newPage == !Backed(old(mach.phys), pd, a)
  {
    ghost var m, own := mach.phys, mach.own;
    QuietRefl(m, own);
    paddr := Fetch(mach, pd, a, m, own);
    newPage := paddr == ZERO;
    if newPage {
      ghost var f := mach.supply[0];
      NewPageQuiet(m, own, mach.phys, mach.own, f);
      paddr := mach.PmmGetFrame();
      mach.own := mach.own[f := Page];
    } else {
      assert own[paddr.frame := Page] == own;
    }
  }

  /** A frame that nobody used can be taken for a page as it is. */
  lemma NewPageQuiet(m: Memory, own: Roles, m2: Memory, own2: Roles, f: FrameNo)
    requires Quiet(m, own, m2, own2) && f !in own2
    ensures Quiet(m, own[f := Page], m2, own2[f := Page])
  {
    assert m2[f] == m[f] && f !in own;
    QuietNewPage(m, own, f, m[f]);
    QuietNewPage(m2, own2, f, m2[f]);
    assert m[f := m[f]] == m && m2[f := m2[f]] == m2;
  }

  /** The frame for a chunk, reached through the second temporary map. */
  method OpenChunk(mach: Machine, pd: FrameNo, a: nat) returns (paddr: Word, newPage: bool)
    requires mach.Valid() && IsDirectory(mach.own, pd) && a < USER_END && |mach.supply| >= 3 && Clean(mach.phys, mach.supply)
    requires DataPage(mach.phys, mach.own, pd, DirIndex(a), TableIndex(a))
    modifies mach`phys, mach`supply, mach`own
    ensures Like(mach, old(mach.phys), old(mach.own)[paddr.frame := Page]) && TmpIs(mach, TMP2, paddr.frame)
    ensures Clean(old(mach.phys), mach.supply) && |mach.supply| + 2 >= |old(mach.supply)|
    ensures if Backed(old(mach.phys), pd, a) then paddr.frame == FrameAt(old(mach.phys), pd, a) else paddr.frame !in old(mach.own)
    ensures newPage == !Backed(old(mach.phys), pd, a)
  {
    hide Quiet;
    ghost var m1, own1, supply1 := mach.phys, mach.own, mach.supply;
    paddr, newPage := ChunkFrame(mach, pd, a);
    CleanLater(m1, supply1, mach.supply);
    ghost var supply2 := mach.supply;
    MapTmpAt(mach, paddr, TMP2, VM_TMP2_MAP, m1, own1[paddr.frame := Page]);
    CleanLater(m1, supply2, mach.supply);
  }

  /** What is left when a read fails: the temporary map is dropped, a new frame stays unused. */
  method GiveUp(mach: Machine, ghost f: FrameNo, ghost m0: Memory, ghost own0: Roles, ghost m: Memory, ghost own: Roles,
                pd: FrameNo, ghost va: nat, ghost data: seq<Byte>, ghost fl: Flags, ghost k: nat)
    requires Like(mach, m, own[f := Page]) && (f in own ==> own[f] == Page)
    requires Mapping(m0, own0, m, own, pd, va, data, fl, k)
    modifies mach`phys
    ensures mach.Valid() && IsMemory(mach.phys) && Mapping(m0, own0, mach.phys, mach.own, pd, va, data, fl, k)
  {
    hide Quiet, Mapping;
    var unused := UnmapTmpAt(mach, TMP2, VM_TMP2_MAP, m, own[f := Page]);
    FrameTaken(m0, own0, m, own, pd, va, data, fl, k, f);
    QuietTrans(m, own, m, own[f := Page], mach.phys, mach.own);
    MappingQuiet(m0, own0, m, own, mach.phys, mach.own, pd, va, data, fl, k);
  }

  lemma FrameTaken(m0: Memory, own0: Roles, m: Memory, own: Roles, pd: FrameNo, va: nat, data: seq<Byte>, fl: Flags, k: nat, f: FrameNo)
    requires Mapping(m0, own0, m, own, pd, va, data, fl, k) && (f in own ==> own[f] == Page)
    ensures Quiet(m, own, m, own[f := Page])
  {
    assert m[f := m[f]] == m;
    if f in own {
      assert own[f := Page] == own;
      QuietRefl(m, own);
    } else {
      QuietNewPage(m, own, f, m[f]);
    }
  }

  /** The bytes are read into the frame, and the page is mapped to it. */
  method FillChunk(mach: Machine, pd: FrameNo, cur: nat, paddr: Word, bytes: seq<Byte>, flags: Flags,
                   ghost m0: Memory, ghost own0: Roles, ghost m: Memory, ghost own: Roles, ghost va: nat, ghost data: seq<Byte>, ghost k: nat)
    requires IsMemory(m) && IsMemory(m0) && cur < USER_END
    requires Like(mach, m, own[paddr.frame := Page]) && TmpIs(mach, TMP2, paddr.frame) && Clean(m, mach.supply) && mach.supply != []
    requires Mapping(m0, own0, m, own, pd, va, data, OrPresent(flags), k) && RangeOk(m0, own0, pd, va, |data|) && PresentApart(m0, pd, va, |data|)
    requires cur == va + k && k + |bytes| <= |data| && bytes == data[k..k + |bytes|] && Chunk(va, k, k + |bytes|)
    requires cur % PAGE_SIZE + |bytes| <= PAGE_SIZE
    requires if Backed(m0, pd, cur) then paddr.frame == FrameAt(m0, pd, cur) else paddr.frame !in own
    modifies mach`phys, mach`supply, mach`own
    ensures mach.Valid() && IsMemory(mach.phys) && Clean(mach.phys, mach.supply) && |mach.supply| + 1 >= |old(mach.supply)|
    ensures Mapping(m0, own0, mach.phys, mach.own, pd, va, data, OrPresent(flags), k + |bytes|)
  {
    hide Quiet, Sound, Mapping, RangeOk, PresentApart, Midway, FillPage;
    ghost var f, own' := paddr.frame, own[paddr.frame := Page];
    ghost var page := FillPage(m[f], cur % PAGE_SIZE, bytes);
    FillTmp(mach, cur % PAGE_SIZE, bytes, f, m, own');
    ChunkFilled(m0, own0, m, own, pd, va, data, OrPresent(flags), k, k + |bytes|, f);
    CleanStored(mach, m, own', f, page);
    FinishChunk(mach, pd, cur, paddr, flags, m0, own0, Stored(m, f, page), own', va, data, k, k + |bytes|);
  }

  /** One turn of the loop: a chunk of the file is copied into its frame and mapped.  If the
      driver cannot read it, the temporary map is dropped and nothing more is mapped. */
  method MapChunk(mach: Machine, pd: FrameNo, cur: nat, bytes: seq<Byte>, readOk: bool, flags: Flags,
                  ghost m0: Memory, ghost own0: Roles, ghost va: nat, ghost data: seq<Byte>, ghost k: nat)
    returns (newPage: bool)
    requires mach.Valid() && Clean(mach.phys, mach.supply) && |mach.supply| >= 3
    requires Mapping(m0, own0, mach.phys, mach.own, pd, va, data, OrPresent(flags), k) && RangeOk(m0, own0, pd, va, |data|) && PresentApart(m0, pd, va, |data|)
    requires cur == va + k && k + |bytes| <= |data| && bytes == data[k..k + |bytes|] && Chunk(va, k, k + |bytes|)
    requires cur % PAGE_SIZE + |bytes| <= PAGE_SIZE
    modifies mach`phys, mach`supply, mach`own
    ensures mach.Valid() && IsMemory(mach.phys) && (readOk ==> Clean(mach.phys, mach.supply)) && |mach.supply| + 3 >= |old(mach.supply)|
    ensures Mapping(m0, own0, mach.phys, mach.own, pd, va, data, OrPresent(flags), if readOk then k + |bytes| else k)
    ensures newPage == !Backed(m0, pd, cur)
  {
    hide Quiet, Sound, Mapping, RangeOk, PresentApart, Midway;
    ghost var m1, own1 := mach.phys, mach.own;
    ChunkPage(m0, own0, m1, own1, pd, va, data, OrPresent(flags), k, k + |bytes|);
    var paddr;
    paddr, newPage := OpenChunk(mach, pd, cur);
    if !readOk {
      GiveUp(mach, paddr.frame, m0, own0, m1, own1, pd, va, data, OrPresent(flags), k);
    } else {
      FillChunk(mach, pd, cur, paddr, bytes, flags, m0, own0, m1, own1, va, data, k);
    }
  }

  lemma CleanStored(mach: Machine, m: Memory, own: Roles, f: FrameNo, page: Frame)
    requires IsMemory(m) && |page| == ENTRIES && f in own && Clean(m, mach.supply) && Like(mach, Stored(m, f, page), own)
    ensures Clean(mach.phys, mach.supply)
  {
    forall i | 0 <= i < |mach.supply| ensures Stored(m, f, page)[mach.supply[i]] == m[mach.supply[i]] {
      assert f in mach.own;
    }
    CleanLike(mach, Stored(m, f, page), own);
  }

  lemma ChunkPage(m0: Memory, own0: Roles, m: Memory, own: Roles, pd: FrameNo, va: nat, data: seq<Byte>, fl: Flags, k: nat, k': nat)
    requires Mapping(m0, own0, m, own, pd, va, data, fl, k) && RangeOk(m0, own0, pd, va, |data|) && Chunk(va, k, k') && k' <= |data|
    ensures IsMemory(m) && IsMemory(m0) && IsDirectory(own, pd) && va + k < USER_END
    ensures Pte(m, pd, DirIndex(va + k), TableIndex(va + k)) == Pte(m0, pd, DirIndex(va + k), TableIndex(va + k))
    ensures DataPage(m, own, pd, DirIndex(va + k), TableIndex(va + k))
    ensures Backed(m, pd, va + k) ==> FrameAt(m, pd, va + k) in own && own[FrameAt(m, pd, va + k)] == Page
  {
    TouchedMeans(va, k, va + k);
    assert DataPage(m0, own0, pd, DirIndex(va + k), TableIndex(va + k));
    assert k == 0 ==> !Touched(va, k, DirIndex(va + k), TableIndex(va + k));
  }

  /** The page is mapped to the frame that was filled. */
  method MapFrame(mach: Machine, pd: FrameNo, cur: nat, paddr: Word, flags: Flags,
                  ghost m0: Memory, ghost own0: Roles, ghost va: nat, ghost data: seq<Byte>, ghost k: nat, ghost k': nat)
    requires mach.Valid() && Clean(mach.phys, mach.supply) && mach.supply != [] && cur == va + k && flags % 2 == 1
    requires Midway(m0, own0, mach.phys, mach.own, pd, va, data, flags, k, k', paddr.frame)
    modifies mach`phys, mach`supply, mach`own
    ensures mach.Valid() && Clean(mach.phys, mach.supply) && |mach.supply| + 1 >= |old(mach.supply)|
    ensures Mapping(m0, own0, mach.phys, mach.own, pd, va, data, flags, k')
  {
    hide Midway, Mapping, Quiet, Sound, MappedTo, OwnAfter;
    ghost var m2, own2, supply2, spare := mach.phys, mach.own, mach.supply, mach.Spare();
    CanMapNow(mach, m0, own0, pd, va, data, flags, k, k', paddr.frame);
    mach.PgMapTo(pd, paddr, cur, flags);
    ChunkMapped(m0, own0, m2, own2, pd, va, data, flags, k, k', mach.cr3, paddr, flags, spare);
    CleanMapped(mach, m2, own2, supply2, pd, cur, paddr, flags);
  }

  /** The end of the turn: the page is mapped, the temporary map is dropped. */
  method FinishChunk(mach: Machine, pd: FrameNo, cur: nat, paddr: Word, flags: Flags,
                     ghost m0: Memory, ghost own0: Roles, ghost m: Memory, ghost own: Roles, ghost va: nat, ghost data: seq<Byte>, ghost k: nat, ghost k': nat)
    requires mach.Valid() && Clean(mach.phys, mach.supply) && mach.supply != [] && Like(mach, m, own) && cur == va + k
    requires Midway(m0, own0, m, own, pd, va, data, OrPresent(flags), k, k', paddr.frame)
    modifies mach`phys, mach`supply, mach`own
    ensures mach.Valid() && IsMemory(mach.phys) && Clean(mach.phys, mach.supply) && |mach.supply| + 1 >= |old(mach.supply)|
    ensures Mapping(m0, own0, mach.phys, mach.own, pd, va, data, OrPresent(flags), k')
  {
    hide Midway, Mapping, Quiet, Sound;
    MidwayQuiet(m0, own0, m, own, mach.phys, mach.own, pd, va, data, OrPresent(flags), k, k', paddr.frame);
    MapFrame(mach, pd, cur, paddr, OrPresent(flags), m0, own0, va, data, k, k');
    DropTmp(mach, m0, own0, pd, va, data, OrPresent(flags), k');
  }

  /** The temporary map is dropped. */
  method DropTmp(mach: Machine, ghost m0: Memory, ghost own0: Roles, pd: FrameNo, ghost va: nat, ghost data: seq<Byte>, ghost fl: Flags, ghost k: nat)
    requires mach.Valid() && Clean(mach.phys, mach.supply) && Mapping(m0, own0, mach.phys, mach.own, pd, va, data, fl, k)
    modifies mach`phys
    ensures mach.Valid() && IsMemory(mach.phys) && Clean(mach.phys, mach.supply) && Mapping(m0, own0, mach.phys, mach.own, pd, va, data, fl, k)
  {
    hide Mapping, Quiet;
    ghost var m, own := mach.phys, mach.own;
    LikeItself(mach);
    var unused := UnmapTmpAt(mach, TMP2, VM_TMP2_MAP, m, own);
    CleanLike(mach, m, own);
    MappingQuiet(m0, own0, m, own, mach.phys, mach.own, pd, va, data, fl, k);
  }

  lemma LikeItself(mach: Machine)
    requires mach.Valid()
    ensures Like(mach, mach.phys, mach.own)
  {
    QuietRefl(mach.phys, mach.own);
  }

  lemma CanMapNow(mach: Machine, m0: Memory, own0: Roles, pd: FrameNo, va: nat, data: seq<Byte>, fl: Flags, k: nat, k': nat, f: FrameNo)
    requires mach.Valid() && Clean(mach.phys, mach.supply) && mach.supply != [] && Midway(m0, own0, mach.phys, mach.own, pd, va, data, fl, k, k', f)
    ensures CanMap(mach.phys, mach.own, mach.cr3, pd, va + k, mach.Spare()) && va + k < USER_END && OwnSlot(DirIndex(va + k))
    ensures IsDirectory(mach.own, pd)
  {
  }

  lemma CleanMapped(mach: Machine, m: Memory, own: Roles, supply: seq<FrameNo>, pd: FrameNo, a: nat, paddr: Word, flags: Flags)
    requires mach.Valid() && supply != [] && a < USER_END && CanMapTo(m, own, mach.cr3, pd, DirIndex(a), supply[0]) && Clean(m, supply)
    requires forall i {:trigger supply[i]} :: 0 <= i < |supply| ==> supply[i] !in own && (i > 0 ==> supply[i] != supply[0])
    requires mach.phys == AfterMap(m, mach.cr3, pd, a, paddr, flags, supply[0]) && mach.own == OwnAfter(m, own, pd, DirIndex(a), supply[0])
    requires mach.supply == if Present(m[pd][DirIndex(a)]) then supply else supply[1..]
    ensures Clean(mach.phys, mach.supply)
  {
    CleanLater(m, supply, mach.supply);
    forall i | 0 <= i < |mach.supply| ensures mach.phys[mach.supply[i]] == m[mach.supply[i]] {
      assert mach.supply[i] == supply[if mach.supply == supply then i else i + 1];
      MapLeavesUnused(m, own, mach.cr3, pd, a, paddr, flags, supply[0], mach.supply[i]);
    }
  }

  // ------------------------------------------------------------------------- the loop

  /** The file is read where the range starts and where a page starts. */
  predicate ChunkStart(va: nat, k: nat) { k == 0 || (va + k) % PAGE_SIZE == 0 }

  /** The driver answers every read of the first k bytes; `readable` is its answer at an offset. */
  ghost predicate AllRead(readable: nat -> bool, va: nat, offset: nat, k: nat) {
    forall j: nat {:trigger ChunkStart(va, j)} :: j < k && ChunkStart(va, j) ==> readable(offset + j)
  }

  /** How many pages of the first k bytes were absent. */
  function NewPages(m: Memory, pd: FrameNo, va: nat, k: nat): nat
    requires IsMemory(m) && va + k <= USER_END
  {
    if k == 0 then 0
    else NewPages(m, pd, va, k - 1) + if ChunkStart(va, k - 1) && !Backed(m, pd, va + k - 1) then 1 else 0
  }

  /** The pages, by number, that hold one of the first k bytes and are absent. */
  ghost function AbsentPages(m: Memory, pd: FrameNo, va: nat, k: nat): set<nat>
    requires IsMemory(m) && va + k <= USER_END
  {
    set a: nat | va <= a < va + k && !Backed(m, pd, a) :: PageOf(a)
  }

  /** Counting them where a page starts counts each once. */
  lemma {:induction false} NewPagesAreAbsent(m: Memory, pd: FrameNo, va: nat, k: nat)
    requires IsMemory(m) && va + k <= USER_END
    ensures NewPages(m, pd, va, k) == |AbsentPages(m, pd, va, k)|
  {
    if k > 0 {
      NewPagesAreAbsent(m, pd, va, k - 1);
      OneMoreByte(m, pd, va, k - 1);
    }
  }

  /** The next byte adds its page if that is absent and starts there. */
  lemma {:induction false} OneMoreByte(m: Memory, pd: FrameNo, va: nat, k: nat)
    requires IsMemory(m) && va + k + 1 <= USER_END
    ensures |AbsentPages(m, pd, va, k + 1)| == |AbsentPages(m, pd, va, k)| + if ChunkStart(va, k) && !Backed(m, pd, va + k) then 1 else 0
  {
    hide Backed, PageOf;
    var b := va + k;
    var before, now := AbsentPages(m, pd, va, k), AbsentPages(m, pd, va, k + 1);
    assert now == if Backed(m, pd, b) then before else before + {PageOf(b)};
    if !Backed(m, pd, b) {
      PageIsNew(m, pd, va, k);
      assert PageOf(b) in before ==> now == before;
    }
  }

  lemma {:induction false} PageIsNew(m: Memory, pd: FrameNo, va: nat, k: nat)
    requires IsMemory(m) && va + k + 1 <= USER_END && !Backed(m, pd, va + k)
    ensures PageOf(va + k) in AbsentPages(m, pd, va, k) <==> !ChunkStart(va, k)
  {
    var b := va + k;
    if ChunkStart(va, k) {
      assert forall a: nat {:trigger PageOf(a)} :: va <= a < b ==> PageOf(a) != PageOf(b);
    } else {
      SamePage(b - 1, b);
      assert PageOf(b - 1) == PageOf(b) && PageOf(b - 1) in AbsentPages(m, pd, va, k);
    }
  }

  lemma {:induction false} NewPagesChunk(m: Memory, pd: FrameNo, va: nat, k: nat, k': nat)
    requires IsMemory(m) && va + k' <= USER_END && Chunk(va, k, k')
    ensures NewPages(m, pd, va, k') == NewPages(m, pd, va, k) + if Backed(m, pd, va + k) then 0 else 1
  {
    if k' > k + 1 {
      WithinChunk(va, k, k', va + k' - 1);
      NewPagesChunk(m, pd, va, k, k' - 1);
    }
  }

  /** The pages that n bytes from a on lie on. */
  function PagesOf(a: nat, n: nat): nat {
    if n == 0 then 0 else (a % PAGE_SIZE + n + PAGE_SIZE - 1) / PAGE_SIZE
  }

  /** The length of the next chunk. */
  method NextChunk(cur: nat, rem: nat) returns (cpy: nat)
    requires rem > 0
    ensures 0 < cpy <= rem && cur % PAGE_SIZE + cpy <= PAGE_SIZE && PageOf(cur) == PageOf(cur + cpy - 1)
    ensures cpy == rem || (cur + cpy) % PAGE_SIZE == 0
    ensures PagesOf(cur + cpy, rem - cpy) + 1 == PagesOf(cur, rem)
  {
    if cur % PAGE_SIZE + rem > PAGE_SIZE {
      cpy := PAGE_SIZE - cur % PAGE_SIZE;
    } else {
      cpy := rem;
    }
  }

  lemma ReadOn(readable: nat -> bool, va: nat, offset: nat, k: nat, k': nat)
    requires Chunk(va, k, k') && AllRead(readable, va, offset, k)
    ensures AllRead(readable, va, offset, k') <==> readable(offset + k)
  {
    assert ChunkStart(va, k);
    forall j: nat | k < j < k' ensures !ChunkStart(va, j) {
      WithinChunk(va, k, k', va + j);
    }
  }

  lemma SliceOfSlice(file: seq<Byte>, offset: nat, size: nat, k: nat, n: nat)
    requires offset + size <= |file| && k + n <= size
    ensures file[offset + k..offset + k + n] == file[offset..offset + size][k..k + n]
  {
    var a, b := file[offset + k..offset + k + n], file[offset..offset + size][k..k + n];
    forall i | 0 <= i < n ensures a[i] == b[i] { }
  }

  /** What one turn adds: the read, the page and the bytes. */
  lemma TurnFacts(m: Memory, pd: FrameNo, va: nat, file: seq<Byte>, readable: nat -> bool, offset: nat, size: nat, k: nat, n: nat)
    requires IsMemory(m) && va + size <= USER_END && offset + size <= |file| && k + n <= size && Chunk(va, k, k + n)
    requires AllRead(readable, va, offset, k)
    ensures AllRead(readable, va, offset, k + n) <==> readable(offset + k)
    ensures !readable(offset + k) ==> !AllRead(readable, va, offset, size)
    ensures NewPages(m, pd, va, k + n) == NewPages(m, pd, va, k) + if Backed(m, pd, va + k) then 0 else 1
    ensures file[offset + k..offset + k + n] == file[offset..offset + size][k..k + n]
  {
    ReadOn(readable, va, offset, k, k + n);
    NewPagesChunk(m, pd, va, k, k + n);
    SliceOfSlice(file, offset, size, k, n);
  }

  lemma {:induction false} CopyStart(m: Memory, own: Roles, pd: FrameNo, va: nat, n: nat, readable: nat -> bool, offset: nat)
    requires RangeOk(m, own, pd, va, n)
    ensures IsMemory(m) && IsDirectory(own, pd) && va + n <= USER_END
    ensures AllRead(readable, va, offset, 0) && NewPages(m, pd, va, 0) == 0
  {
  }

  lemma NothingMapped(m: Memory, own: Roles, pd: FrameNo, va: nat, data: seq<Byte>, fl: Flags)
    requires Sound(m, own) && IsDirectory(own, pd) && va + |data| <= USER_END
    ensures Mapping(m, own, m, own, pd, va, data, fl, 0)
  {
  }

  /** The copy loop of vmm_mmap_at.  `k` is how many bytes were mapped in the end. */
  method CopyFile(mach: Machine, pd: FrameNo, vaddr: nat, file: seq<Byte>, readable: nat -> bool, offset: nat, size: nat, flags: Flags)
    returns (ok: bool, pageCtr: nat, ghost k: nat)
    requires mach.Valid() && RangeOk(mach.phys, mach.own, pd, vaddr, size) && PresentApart(mach.phys, pd, vaddr, size)
    requires offset + size <= |file| && Clean(mach.phys, mach.supply) && |mach.supply| >= 3 * PagesOf(vaddr, size) + 1
    modifies mach`phys, mach`supply, mach`own
    ensures mach.Valid() && k <= size
    ensures Mapping(old(mach.phys), old(mach.own), mach.phys, mach.own, pd, vaddr, file[offset..offset + size], OrPresent(flags), k)
    ensures ok <==> AllRead(readable, vaddr, offset, size)
    ensures if ok then k == size && pageCtr == NewPages(old(mach.phys), pd, vaddr, size) else ChunkStart(vaddr, k) && !readable(offset + k)
  {
    hide Quiet, Sound, Mapping, RangeOk, PresentApart, AllRead, NewPages, PagesOf, PageOf, Backed;
    ghost var m0, own0, data := mach.phys, mach.own, file[offset..offset + size];
    CopyStart(m0, own0, pd, vaddr, size, readable, offset);
    var tmp := OpenFile(mach, pd, vaddr, data, OrPresent(flags));
    var rem: nat, cur: nat, off: nat := size, vaddr, offset;
    k, ok, pageCtr := 0, true, 0;
    while rem > 0
      invariant k + rem == size && cur == vaddr + k && off == offset + k && mach.Valid() && IsMemory(mach.phys) && Clean(mach.phys, mach.supply)
      invariant k == 0 || (vaddr + k) % PAGE_SIZE == 0 || rem == 0
      invariant |mach.supply| >= 3 * PagesOf(cur, rem) + 1
      invariant Mapping(m0, own0, mach.phys, mach.own, pd, vaddr, data, OrPresent(flags), k)
      invariant ok && AllRead(readable, vaddr, offset, k) && pageCtr == NewPages(m0, pd, vaddr, k)
    {
      var cpy := NextChunk(cur, rem);
      assert Chunk(vaddr, k, k + cpy);
      TurnFacts(m0, pd, vaddr, file, readable, offset, size, k, cpy);
      var newPage := MapChunk(mach, pd, cur, file[off..off + cpy], readable(off), flags, m0, own0, vaddr, data, k);
      if !readable(off) {
        RestoreTmp(mach, tmp, m0, own0, pd, vaddr, data, OrPresent(flags), k);
        return false, pageCtr, k;
      }
      if newPage { pageCtr := pageCtr + 1; }
      rem, cur, off := rem - cpy, cur + cpy, off + cpy;
      k := k + cpy;
    }
    RestoreTmp(mach, tmp, m0, own0, pd, vaddr, data, OrPresent(flags), k);
  }

  /** The second temporary map is put aside. */
  method OpenFile(mach: Machine, pd: FrameNo, vaddr: nat, ghost data: seq<Byte>, ghost fl: Flags) returns (tmp: Word)
    requires mach.Valid() && IsDirectory(mach.own, pd) && vaddr + |data| <= USER_END && Clean(mach.phys, mach.supply)
    modifies mach`phys
    ensures mach.Valid() && IsMemory(mach.phys) && Clean(mach.phys, mach.supply)
    ensures Mapping(old(mach.phys), mach.own, mach.phys, mach.own, pd, vaddr, data, fl, 0)
  {
    hide Quiet, Mapping;
    ghost var m, own := mach.phys, mach.own;
    LikeItself(mach);
    tmp := UnmapTmpAt(mach, TMP2, VM_TMP2_MAP, m, own);
    CleanLike(mach, m, own);
    NothingMapped(m, own, pd, vaddr, data, fl);
    MappingQuiet(m, own, m, own, mach.phys, mach.own, pd, vaddr, data, fl, 0);
  }

  /** ... and put back. */
  method RestoreTmp(mach: Machine, tmp: Word, ghost m0: Memory, ghost own0: Roles, pd: FrameNo, ghost va: nat, ghost data: seq<Byte>, ghost fl: Flags, ghost k: nat)
    requires mach.Valid() && mach.supply != [] && Mapping(m0, own0, mach.phys, mach.own, pd, va, data, fl, k)
    modifies mach`phys, mach`supply, mach`own
    ensures mach.Valid() && Mapping(m0, own0, mach.phys, mach.own, pd, va, data, fl, k)
  {
    hide Quiet, Mapping;
    ghost var m, own := mach.phys, mach.own;
    LikeItself(mach);
    MapTmpAt(mach, tmp, TMP2, VM_TMP2_MAP, m, own);
    MappingQuiet(m0, own0, m, own, mach.phys, mach.own, pd, va, data, fl, k);
  }

  // ------------------------------------------------------------------------- the call

  /** `_create_region`, `_insert_region` and the page counter. */
  method Record(asp: Regions.AddressSpace, vaddr: nat, size: nat, flags: nat, pages: nat) returns (ghost at: int)
    requires asp.Valid() && size > 0 && vaddr + size <= USER_END
    modifies asp, asp.regs`next, asp.regs`prev
    ensures asp.Valid() && asp.pd == old(asp.pd) && asp.pageCounter == old(asp.pageCounter) + pages
    ensures at < 0 <==> Regions.Overlaps(old(asp.areas), Regions.Area(vaddr, size, flags))
    ensures at < 0 ==> asp.areas == old(asp.areas)
    ensures at >= 0 ==> at <= |old(asp.areas)| && asp.areas == InsertedAt(old(asp.areas), at, Regions.Area(vaddr, size, flags))
  {
    hide Regions.Ordered, Regions.Overlaps;
    var region := new Regions.Region(vaddr, size, flags);
    asp.pageCounter := asp.pageCounter + pages;
    at := asp.InsertRegion(region);
  }

  const DEFAULT_ALIGN: nat := 0x1000

  function Unit(align: nat): (unit: nat)
    ensures unit > 0
  {
    if align == 0 then DEFAULT_ALIGN else align
  }

  /** `_is_area_free` says yes, and there is something to map. */
  predicate Granted(areas: seq<Regions.Area>, vaddr: nat, size: nat, align: nat) {
    size > 0 && Regions.AreaFreeAnswer(areas, vaddr, AlignedSize(vaddr, size, Unit(align)))
  }

  /** What the code takes for granted when it starts to copy: nothing wraps around or leaves
      user space, pages that are present have frames of their own, memory does not run out. */
  ghost predicate CanCopy(asp: Regions.AddressSpace, mach: Machine, vaddr: nat, size: nat, align: nat)
    reads asp`areas, asp`pd, mach
  {
    var end := vaddr + AlignedSize(vaddr, size, Unit(align));
    && end < Regions.ADDRESS_SPACE && (asp.areas == [] ==> end <= USER_END)
    && asp.pd < FRAMES && RangeOk(mach.phys, mach.own, asp.pd, vaddr, size) && PresentApart(mach.phys, asp.pd, vaddr, size)
    && Clean(mach.phys, mach.supply) && |mach.supply| >= 3 * PagesOf(vaddr, size) + 1
  }

  /** vmm_mmap_at at a given address.  It succeeds exactly if the area is called free, there is
      something to map, and the file can be read; then the bytes are mapped, but the region is
      recorded only if it does not start inside another one. */
  method VmmMmapAt(asp: Regions.AddressSpace, mach: Machine, vaddr: nat, file: seq<Byte>, readable: nat -> bool,
                   offset: nat, size: nat, align: nat, flags: Flags)
    returns (r: nat, ghost k: nat, ghost at: int)
    requires asp.Valid() && mach.Valid() && vaddr > 0 && offset + size <= |file|
    requires Granted(asp.areas, vaddr, size, align) ==> CanCopy(asp, mach, vaddr, size, align)
    modifies asp, asp.regs`next, asp.regs`prev, mach`phys, mach`supply, mach`own
    ensures asp.Valid() && mach.Valid() && asp.pd == old(asp.pd)
    ensures r == if Granted(old(asp.areas), vaddr, size, align) && AllRead(readable, vaddr, offset, size) then vaddr else 0
    ensures r == 0 ==> asp.areas == old(asp.areas) && asp.pageCounter == old(asp.pageCounter)
    ensures !Granted(old(asp.areas), vaddr, size, align) ==> mach.phys == old(mach.phys) && mach.own == old(mach.own)
    ensures Granted(old(asp.areas), vaddr, size, align) ==>
      k <= size && asp.pd < FRAMES && Mapping(old(mach.phys), old(mach.own), mach.phys, mach.own, asp.pd, vaddr, file[offset..offset + size], OrPresent(flags), k)
    ensures r != 0 ==> k == size && asp.pageCounter == old(asp.pageCounter) + NewPages(old(mach.phys), asp.pd, vaddr, size)
    ensures r != 0 ==> if Regions.StrictlyInside(old(asp.areas), vaddr) then asp.areas == old(asp.areas)
                       else 0 <= at <= |old(asp.areas)| && asp.areas == InsertedAt(old(asp.areas), at, Recorded(vaddr, size, Unit(align), flags))
    ensures r != 0 && !Regions.StrictlyInside(old(asp.areas), vaddr) ==>
      asp.areas[at].addr == vaddr && IsRounded(asp.areas[at].size, vaddr, size, if align == 0 then 4096 else align)
  {
    hide Quiet, Sound, Mapping, RangeOk, PresentApart, AllRead, NewPages, PagesOf, Regions.Ordered, Regions.Overlaps, Regions.StrictlyInside, AlignedSize;
    var aligned := AlignedSize(vaddr, size, Unit(align));
    r, k, at := 0, 0, -1;
    var free := asp.IsAreaFree(vaddr, aligned);
    if !free {
      return;
    }
    if size == 0 {
      return;
    }
    CopyStart(mach.phys, mach.own, asp.pd, vaddr, size, readable, offset);
    Regions.CalledFreeOverlapsIff(asp.areas, Regions.Area(vaddr, aligned, flags));
    var ok, pageCtr;
    ok, pageCtr, k := CopyFile(mach, asp.pd, vaddr, file, readable, offset, size, flags);
    if ok {
      AlignedSizeIff(vaddr, size, Unit(align), aligned);
      at := Record(asp, vaddr, aligned, flags, pageCtr);
      r := vaddr;
    }
  }

  /** Success does not mean that the region was recorded: in an address space with regions at
      0x1000-0x3000 and 0x8000, a page asked for at 0x2000 is mapped over the first region. */
  lemma MappedButNotRecorded()
    ensures var areas := [Regions.Area(0x1000, 0x2000, 0), Regions.Area(0x8000, 0x1000, 0)];
      Regions.Ordered(areas) && Granted(areas, 0x2000, 0x1000, 0) && Regions.StrictlyInside(areas, 0x2000)
  {
    var areas := [Regions.Area(0x1000, 0x2000, 0), Regions.Area(0x8000, 0x1000, 0)];
    Regions.AreaFreeMisjudges();
    assert areas[0].addr < 0x2000 < areas[0].End();
  }
}
