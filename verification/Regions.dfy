/** The region list of a user address space: a sorted doubly linked list. */
module Regions {

  import opened Lists

  const VM_USER_END: nat := 0xc000_0000
  const ADDRESS_SPACE: nat := 0x1_0000_0000
  const PAGE_SIZE: nat := 4096

  /** Addresses are 32 bits wide; sums wrap around. */
  function Wrap(a: nat): nat {
    if a < ADDRESS_SPACE then a else a % ADDRESS_SPACE
  }

  datatype Area = Area(addr: nat, size: nat, flags: nat) {
    function End(): nat { addr + size }
  }

  predicate Apart(a: Area, b: Area) {
    a.End() <= b.addr || b.End() <= a.addr
  }

  /** Non-empty areas in ascending order, without overlap, below the end of user space. */
  ghost predicate Ordered(areas: seq<Area>) {
    && (forall i {:trigger areas[i]} :: 0 <= i < |areas| ==> 0 < areas[i].size && areas[i].End() <= VM_USER_END)
    && (forall i, j {:trigger areas[i], areas[j]} :: 0 <= i < j < |areas| ==> areas[i].End() <= areas[j].addr)
  }

  // ------------------------------------------------------------ is an area free?

  /** The area can be used: it overlaps nothing and ends within user space. */
  ghost predicate AreaIsFree(areas: seq<Area>, addr: nat, size: nat) {
    && addr + size <= VM_USER_END
    && forall i {:trigger areas[i]} :: 0 <= i < |areas| ==> Apart(areas[i], Area(addr, size, 0))
  }

  predicate StrictlyInside(areas: seq<Area>, addr: nat) {
    exists i {:trigger areas[i]} :: 0 <= i < |areas| && areas[i].addr < addr < areas[i].End()
  }

  /** The address `_is_area_free` measures against: where the next region starts. */
  function Limit(areas: seq<Area>, addr: nat): (limit: int)
    ensures limit <= VM_USER_END || exists i :: 0 <= i < |areas| && limit == areas[i].addr
  {
    if areas == [] || addr >= areas[|areas| - 1].End() then VM_USER_END
    else FirstFrom(areas, addr)
  }

  /** The start of the first area that does not start below addr, -1 if there is none. */
  function FirstFrom(areas: seq<Area>, addr: nat): (start: int)
    ensures start == -1 || exists i :: 0 <= i < |areas| && start == areas[i].addr
  {
    if areas == [] then -1
    else if addr <= areas[0].addr then areas[0].addr
    else
      var rest := FirstFrom(areas[1..], addr);
      assert rest != -1 ==> exists i :: 0 <= i < |areas[1..]| && rest == areas[1..][i].addr && areas[1..][i] == areas[i + 1];
      rest
  }

  lemma {:induction false} FirstFromIs(areas: seq<Area>, addr: nat, k: nat)
    requires k <= |areas| && forall i {:trigger areas[i]} :: 0 <= i < k ==> areas[i].addr < addr
    ensures FirstFrom(areas, addr) == FirstFrom(areas[k..], addr)
  {
    if k > 0 {
      FirstFromIs(areas[1..], addr, k - 1);
      assert areas[1..][k - 1..] == areas[k..];
    } else {
      assert areas[0..] == areas;
    }
  }

  /** The answer of `_is_area_free`. */
  predicate AreaFreeAnswer(areas: seq<Area>, addr: nat, size: nat) {
    areas == [] || Wrap(addr + size) <= Limit(areas, addr)
  }

  lemma {:induction false} LimitSeparates(areas: seq<Area>, addr: nat, size: nat)
    requires Ordered(areas) && areas != [] && size > 0
    ensures AreaIsFree(areas, addr, size) <==> !StrictlyInside(areas, addr) && addr + size <= Limit(areas, addr)
  {
    var n := |areas|;
    if addr >= areas[n - 1].End() {
      forall i | 0 <= i < n ensures areas[i].End() <= addr { }
    } else {
      var k := CountBelow(areas, addr);
      FirstFromIs(areas, addr, k);
      if k == n {
        assert areas[n - 1].addr < addr;
      } else {
        assert areas[k..][0] == areas[k];
        assert Limit(areas, addr) == areas[k].addr;
        forall i | 0 <= i < n
          ensures addr + size <= areas[k].addr && !StrictlyInside(areas, addr) ==> Apart(areas[i], Area(addr, size, 0))
        { }
      }
    }
  }

  ghost function CountBelow(areas: seq<Area>, addr: nat): (k: nat)
    requires Ordered(areas)
    ensures k <= |areas|
    ensures forall i {:trigger areas[i]} :: 0 <= i < k ==> areas[i].addr < addr
    ensures forall i {:trigger areas[i]} :: k <= i < |areas| ==> addr <= areas[i].addr
  {
    if areas == [] then 0
    else if areas[|areas| - 1].addr < addr then |areas|
    else CountBelow(areas[..|areas| - 1], addr)
  }

  /** The answer is right exactly when the request does not start strictly inside a region
      and does not wrap around, or is refused anyway; an empty list is never checked
      against the end of user space. */
  lemma AreaFreeExactly(areas: seq<Area>, addr: nat, size: nat)
    requires Ordered(areas) && 0 < size < ADDRESS_SPACE && addr < ADDRESS_SPACE
    ensures (AreaFreeAnswer(areas, addr, size) <==> AreaIsFree(areas, addr, size)) <==>
      if areas == [] then addr + size <= VM_USER_END
      else (!StrictlyInside(areas, addr) && addr + size < ADDRESS_SPACE) || Wrap(addr + size) > Limit(areas, addr)
  {
    if areas != [] {
      LimitSeparates(areas, addr, size);
    }
  }

  /** Of the areas called free, exactly those that start strictly inside a region overlap one;
      `_insert_region` drops them without a word. */
  lemma CalledFreeOverlapsIff(areas: seq<Area>, a: Area)
    requires Ordered(areas) && 0 < a.size && a.End() < ADDRESS_SPACE && AreaFreeAnswer(areas, a.addr, a.size)
    ensures Overlaps(areas, a) <==> StrictlyInside(areas, a.addr)
    ensures areas != [] ==> a.End() <= VM_USER_END
  {
    if areas != [] {
      LimitSeparates(areas, a.addr, a.size);
      assert forall i {:trigger areas[i]} :: 0 <= i < |areas| ==> (Apart(areas[i], a) <==> Apart(areas[i], Area(a.addr, a.size, 0)));
    }
  }

  /** The misjudged case is real: the new area starts in the middle of the first region. */
  lemma AreaFreeMisjudges()
    ensures var areas := [Area(0x1000, 0x2000, 0), Area(0x8000, 0x1000, 0)];
      Ordered(areas) && AreaFreeAnswer(areas, 0x2000, 0x1000) && !AreaIsFree(areas, 0x2000, 0x1000)
  {
    var areas := [Area(0x1000, 0x2000, 0), Area(0x8000, 0x1000, 0)];
    assert FirstFrom(areas, 0x2000) == 0x8000 by {
      assert areas[1..] == [Area(0x8000, 0x1000, 0)];
    }
    assert !Apart(areas[0], Area(0x2000, 0x1000, 0));
  }

  // ---------------------------------------------------------- insert and remove

  /** The place in the order where an area fits. */
  predicate FitsAt(areas: seq<Area>, k: nat, a: Area)
    requires k <= |areas|
  {
    && (k > 0 ==> areas[k - 1].End() <= a.addr)
    && (k < |areas| ==> a.End() <= areas[k].addr)
  }

  /** Where an area fits, all regions before it end before it, and all behind it start behind it. */
  lemma FitsBetween(areas: seq<Area>, k: nat, a: Area)
    requires Ordered(areas) && k <= |areas| && FitsAt(areas, k, a)
    ensures forall i {:trigger areas[i]} :: 0 <= i < k ==> areas[i].End() <= a.addr
    ensures forall i {:trigger areas[i]} :: k <= i < |areas| ==> a.End() <= areas[i].addr
    ensures !Overlaps(areas, a)
  {
    forall i | 0 <= i < |areas| ensures if i < k then areas[i].End() <= a.addr else a.End() <= areas[i].addr {
      if i + 1 < k { assert areas[i].End() <= areas[k - 1].addr; } else if i > k { assert areas[k].End() <= areas[i].addr; }
    }
  }

  lemma InsertKeepsOrder(areas: seq<Area>, k: nat, a: Area)
    requires Ordered(areas) && k <= |areas| && 0 < a.size && a.End() <= VM_USER_END && FitsAt(areas, k, a)
    ensures Ordered(InsertedAt(areas, k, a))
    ensures !Overlaps(areas, a)
  {
    hide FitsAt, Overlaps;
    FitsBetween(areas, k, a);
    var all := InsertedAt(areas, k, a);
    assert forall i {:trigger all[i]} :: 0 <= i < |all| ==> all[i] == if i < k then areas[i] else if i == k then a else areas[i - 1];
  }

  /** An area fits somewhere exactly when it overlaps nothing; then the place is unique. */
  lemma FitsUniquely(areas: seq<Area>, k: nat, j: nat, a: Area)
    requires Ordered(areas) && k <= |areas| && j <= |areas| && 0 < a.size
    requires FitsAt(areas, k, a) && FitsAt(areas, j, a)
    ensures k == j
  {
    EndsAscend(areas);
  }

  lemma EndsAscend(areas: seq<Area>)
    requires Ordered(areas)
    ensures forall i, j {:trigger areas[i], areas[j]} :: 0 <= i <= j < |areas| ==> areas[i].End() <= areas[j].End()
  {
    forall i, j | 0 <= i <= j < |areas| ensures areas[i].End() <= areas[j].End() {
      if i < j { assert areas[i].End() <= areas[j].addr; }
    }
  }

  lemma ApartMeansFits(areas: seq<Area>, a: Area) returns (k: nat)
    requires Ordered(areas) && 0 < a.size
    requires forall i {:trigger areas[i]} :: 0 <= i < |areas| ==> Apart(areas[i], a)
    ensures k <= |areas| && FitsAt(areas, k, a)
  {
    k := CountBelow(areas, a.addr);
  }

  ghost predicate Overlaps(areas: seq<Area>, a: Area) {
    exists i {:trigger areas[i]} :: 0 <= i < |areas| && !Apart(areas[i], a)
  }

  lemma NoPlaceMeansOverlap(areas: seq<Area>, a: Area)
    requires Ordered(areas) && 0 < a.size
    requires forall k :: 0 <= k <= |areas| ==> !FitsAt(areas, k, a)
    ensures Overlaps(areas, a)
  {
    if !Overlaps(areas, a) {
      var k := ApartMeansFits(areas, a);
    }
  }

  lemma RemoveKeepsOrder(areas: seq<Area>, k: nat)
    requires Ordered(areas) && k < |areas|
    ensures Ordered(RemovedAt(areas, k))
    ensures FitsAt(RemovedAt(areas, k), k, areas[k])
    ensures InsertedAt(RemovedAt(areas, k), k, areas[k]) == areas
  {
    InsertUndoesRemove(areas, k);
    RestOrdered(areas, k);
    hide Ordered;
    if k > 0 { assert RemovedAt(areas, k)[k - 1] == areas[k - 1]; }
    if k + 1 < |areas| { assert RemovedAt(areas, k)[k] == areas[k + 1]; }
  }

  lemma RestOrdered(areas: seq<Area>, k: nat)
    requires Ordered(areas) && k < |areas|
    ensures Ordered(RemovedAt(areas, k))
    ensures k > 0 ==> areas[k - 1].End() <= areas[k].addr
    ensures k + 1 < |areas| ==> areas[k].End() <= areas[k + 1].addr
  {
    var rest := RemovedAt(areas, k);
    assert forall i {:trigger rest[i]} :: 0 <= i < |rest| ==> rest[i] == areas[if i < k then i else i + 1];
  }

  /** `_find_region` takes a region whose end equals the address for a hit. */
  predicate Touches(a: Area, vaddr: nat) {
    a.addr <= vaddr <= a.End()
  }

  predicate Contains(a: Area, vaddr: nat) {
    a.addr <= vaddr < a.End()
  }

  /** The region found is the one that contains the address, unless an earlier region ends there. */
  lemma FoundIsContaining(areas: seq<Area>, k: nat, vaddr: nat)
    requires Ordered(areas) && k < |areas| && Touches(areas[k], vaddr)
    requires forall i {:trigger areas[i]} :: 0 <= i < k ==> !Touches(areas[i], vaddr)
    ensures Contains(areas[k], vaddr) <==> vaddr != areas[k].End()
    ensures vaddr == areas[k].End() && k + 1 < |areas| && areas[k + 1].addr == vaddr ==> Contains(areas[k + 1], vaddr)
    ensures forall i {:trigger areas[i]} :: 0 <= i < |areas| && i != k && Contains(areas[i], vaddr) ==> i == k + 1 && vaddr == areas[k].End()
  {
    EndsAscend(areas);
    forall i | 0 <= i < |areas| && i != k && Contains(areas[i], vaddr)
      ensures i == k + 1 && vaddr == areas[k].End()
    {
      assert k < i;
      assert areas[k + 1].End() > areas[k].End();
    }
  }

  lemma ResizeKeepsOrder(areas: seq<Area>, d: nat, size: nat)
    requires Ordered(areas) && d + 1 < |areas| && 0 < size && areas[d].addr + size <= areas[d + 1].addr
    ensures Ordered(areas[d := areas[d].(size := size)])
  {
    var areas' := areas[d := areas[d].(size := size)];
    forall i, j | 0 <= i < j < |areas'| ensures areas'[i].End() <= areas'[j].addr {
      if i == d && d + 1 < j { assert areas[d + 1].End() <= areas[j].addr; }
    }
  }

  /** The addresses the shrinking break unmaps: it starts at the end of the region. */
  function BrkUnmaps(end: nat, pages: nat): (s: seq<nat>)
    requires PAGE_SIZE * pages <= end
    ensures |s| == pages
    ensures forall i {:trigger s[i]} :: 0 <= i < pages ==> s[i] == end - PAGE_SIZE * i
  {
    seq(pages, i requires 0 <= i < pages => end - PAGE_SIZE * i)
  }

  function PageOf(a: nat): nat { a / PAGE_SIZE }

  /** The loop of the shrinking break unmaps this page. */
  ghost predicate IsUnmapped(end: nat, pages: nat, page: nat)
    requires PAGE_SIZE * pages <= end
  {
    exists a {:trigger a in BrkUnmaps(end, pages)} :: a in BrkUnmaps(end, pages) && PageOf(a) == page
  }

  /** Of the bytes from `from` to `to` some lie on this page. */
  ghost predicate HoldsSome(from: nat, to: nat, page: nat) {
    exists a {:trigger PageOf(a)} :: from <= a < to && PageOf(a) == page
  }

  /** The page holds a byte the segment gives up and none that it keeps. */
  ghost predicate GivenUp(start: nat, end: nat, pages: nat, page: nat)
    requires PAGE_SIZE * pages <= end
  {
    HoldsSome(end - PAGE_SIZE * pages, end, page) && !HoldsSome(start, end - PAGE_SIZE * pages, page)
  }

  /** The pages unmapped are numbered down from that of the segment's end. */
  lemma UnmappedPages(end: nat, pages: nat, page: nat)
    requires PAGE_SIZE * pages <= end
    ensures IsUnmapped(end, pages, page) <==> page <= PageOf(end) < page + pages
  {
    var unmapped := BrkUnmaps(end, pages);
    if page <= PageOf(end) < page + pages {
      var i := PageOf(end) - page;
      PagesBelow(end, i);
      assert unmapped[i] in unmapped && PageOf(unmapped[i]) == page;
    }
    if a :| a in unmapped && PageOf(a) == page {
      var i :| 0 <= i < pages && unmapped[i] == a;
      PagesBelow(end, i);
    }
  }

  lemma PagesBelow(a: nat, i: nat)
    requires PAGE_SIZE * i <= a
    ensures PageOf(a - PAGE_SIZE * i) == PageOf(a) - i && (a - PAGE_SIZE * i) % PAGE_SIZE == a % PAGE_SIZE
  {
  }

  /** A stretch of bytes lies on the pages from that of its first byte to that of its last. */
  lemma PagesOfStretch(from: nat, to: nat, page: nat)
    requires from < to
    ensures HoldsSome(from, to, page) <==> PageOf(from) <= page <= PageOf(to - 1)
  {
    if PageOf(from) <= page <= PageOf(to - 1) {
      var a := if page == PageOf(from) then from else PAGE_SIZE * page;
      assert PageOf(a) == page && from <= a < to;
    }
  }

  /** The pages to be given up, by number. */
  lemma GivenUpPages(start: nat, end: nat, pages: nat, page: nat)
    requires pages > 0 && start + PAGE_SIZE * pages < end
    ensures GivenUp(start, end, pages, page) <==>
      if end % PAGE_SIZE != 0 then page <= PageOf(end) < page + pages else page < PageOf(end) <= page + pages
  {
    var cut := end - PAGE_SIZE * pages;
    PagesBelow(end, pages);
    PagesOfStretch(cut, end, page);
    PagesOfStretch(start, cut, page);
  }

  /** What is unmapped is exactly what is given up if and only if the segment does not end
      at a page boundary. */
  lemma ShrinkUnmapsRightIff(start: nat, end: nat, pages: nat)
    requires pages > 0 && start + PAGE_SIZE * pages < end
    ensures (forall page: nat {:trigger IsUnmapped(end, pages, page)} :: IsUnmapped(end, pages, page) <==> GivenUp(start, end, pages, page))
       <==> end % PAGE_SIZE != 0
  {
    forall page: nat
      ensures IsUnmapped(end, pages, page) <==> page <= PageOf(end) < page + pages
      ensures GivenUp(start, end, pages, page) <==>
        if end % PAGE_SIZE != 0 then page <= PageOf(end) < page + pages else page < PageOf(end) <= page + pages
    {
      UnmappedPages(end, pages, page);
      GivenUpPages(start, end, pages, page);
    }
    assert IsUnmapped(end, pages, PageOf(end));
  }

  /** At a page boundary the loop is one page too high: it unmaps the page behind the
      segment, which holds no byte of it, and leaves mapped the lowest page given up. */
  lemma ShrinkIsOnePageHigh(start: nat, end: nat, pages: nat, page: nat)
    requires pages > 0 && start + PAGE_SIZE * pages < end && end % PAGE_SIZE == 0
    ensures IsUnmapped(end, pages, PageOf(end)) && !HoldsSome(start, end, PageOf(end))
    ensures GivenUp(start, end, pages, PageOf(end) - pages) && !IsUnmapped(end, pages, PageOf(end) - pages)
    ensures page != PageOf(end) && page != PageOf(end) - pages ==> (IsUnmapped(end, pages, page) <==> GivenUp(start, end, pages, page))
  {
    PagesBelow(end, pages);
    PagesOfStretch(start, end, PageOf(end));
    UnmappedPages(end, pages, PageOf(end));
    UnmappedPages(end, pages, PageOf(end) - pages);
    GivenUpPages(start, end, pages, PageOf(end) - pages);
    UnmappedPages(end, pages, page);
    GivenUpPages(start, end, pages, page);
  }

  datatype BrkResult = Moved(oldBrk: nat) | NoMemory | NoDataSegment

  /** A size rounded up to whole pages. */
  function PageRound(size: nat): (r: nat)
    ensures size <= r < size + PAGE_SIZE
  {
    if size == 0 then 0
    else if size <= PAGE_SIZE then PAGE_SIZE
    else PAGE_SIZE + PageRound(size - PAGE_SIZE)
  }

  lemma {:induction false} PageRoundAsWritten(size: nat)
    ensures PageRound(size) == if size % PAGE_SIZE != 0 then size - size % PAGE_SIZE + PAGE_SIZE else size
  {
    if size > PAGE_SIZE {
      PageRoundAsWritten(size - PAGE_SIZE);
      assert (size - PAGE_SIZE) % PAGE_SIZE == size % PAGE_SIZE;
    }
  }

  method RoundToPages(size: nat) returns (newSize: nat)
    ensures newSize == PageRound(size)
  {
    newSize := size;
    if newSize % PAGE_SIZE != 0 {
      newSize := newSize - newSize % PAGE_SIZE + PAGE_SIZE;
    }
    PageRoundAsWritten(size);
  }

  /** An address that lies in no region, with region e the next one above it. */
  ghost predicate GapBefore(areas: seq<Area>, e: nat, addr: nat) {
    && e < |areas| && addr <= areas[e].addr
    && (e > 0 ==> areas[e - 1].End() <= addr)
  }

  lemma GapIsOutside(areas: seq<Area>, addr: nat)
    requires Ordered(areas)
    ensures (exists e: nat :: GapBefore(areas, e, addr)) <==>
      areas != [] && addr <= areas[|areas| - 1].addr && !StrictlyInside(areas, addr)
  {
    if areas != [] && addr <= areas[|areas| - 1].addr && !StrictlyInside(areas, addr) {
      var e := CountBelow(areas, addr);
      assert GapBefore(areas, e, addr);
    }
    if e: nat :| GapBefore(areas, e, addr) {
      EndsAscend(areas);
      forall i | 0 <= i < |areas| ensures !(areas[i].addr < addr < areas[i].End()) {
        if i > e { assert areas[e].End() <= areas[i].addr; }
      }
      if e + 1 < |areas| { assert areas[e].End() <= areas[|areas| - 1].addr; }
    }
  }

  /** Before a gap `_is_area_free` asks exactly whether the area ends before the next region. */
  lemma GapIsFree(areas: seq<Area>, e: nat, addr: nat, size: nat)
    requires Ordered(areas) && GapBefore(areas, e, addr) && 0 < size && addr + size < ADDRESS_SPACE
    ensures AreaFreeAnswer(areas, addr, size) <==> addr + size <= areas[e].addr
    ensures AreaIsFree(areas, addr, size) <==> addr + size <= areas[e].addr
    ensures addr + size <= areas[e].addr ==> FitsAt(areas, e, Area(addr, size, 6)) && addr + size <= VM_USER_END
  {
    GapIsOutside(areas, addr);
    AreaFreeExactly(areas, addr, size);
    if addr + size <= areas[e].addr {
      EndsAscend(areas);
      forall i | 0 <= i < |areas| ensures Apart(areas[i], Area(addr, size, 0)) {
        if i < e { assert areas[i].End() <= areas[e - 1].End(); } else if i > e { assert areas[e].End() <= areas[i].addr; }
      }
    } else {
      assert !Apart(areas[e], Area(addr, size, 0));
    }
  }

  /** Where the break may go: `rounded` is the page-rounded growth.  Before the first growth
      region d is the next one above the program, afterwards it is the data segment. */
  predicate MoveAllowed(areas: seq<Area>, d: nat, grown: bool, elfEnd: nat, dataEnd: nat, vaddr: nat, rounded: nat) {
    && elfEnd < vaddr
    && if !grown then d < |areas| && elfEnd + rounded <= areas[d].addr
       else d + 1 < |areas|
            && (vaddr <= areas[d].End() || (vaddr > dataEnd && areas[d].End() + rounded <= areas[d + 1].addr))
  }

  /** A program's first segment may be made if and only if it overlaps no region. */
  lemma FirstGrowthIff(areas: seq<Area>, d: nat, elfEnd: nat, vaddr: nat, rounded: nat)
    requires Ordered(areas) && GapBefore(areas, d, elfEnd) && rounded > 0
    ensures MoveAllowed(areas, d, false, elfEnd, elfEnd, vaddr, rounded)
       <==> vaddr > elfEnd && !Overlaps(areas, Area(elfEnd, rounded, 0))
  {
    if elfEnd + rounded <= areas[d].addr {
      FitsBetween(areas, d, Area(elfEnd, rounded, 0));
    } else {
      assert !Apart(areas[d], Area(elfEnd, rounded, 0));
    }
  }

  /** The break may move if and only if it stays behind the program, and the segment, if it has
      to grow for it, overlaps none of the other regions. */
  lemma MoveAllowedIff(areas: seq<Area>, d: nat, elfEnd: nat, dataEnd: nat, vaddr: nat, rounded: nat)
    requires Ordered(areas) && d + 1 < |areas| && areas[d].addr == elfEnd < dataEnd <= areas[d].End() && rounded > 0
    ensures MoveAllowed(areas, d, true, elfEnd, dataEnd, vaddr, rounded)
       <==> vaddr > elfEnd && (vaddr <= areas[d].End() || !Overlaps(RemovedAt(areas, d), Area(elfEnd, areas[d].size + rounded, 0)))
  {
    var others, grown := RemovedAt(areas, d), Area(elfEnd, areas[d].size + rounded, 0);
    assert forall i {:trigger others[i]} :: 0 <= i < |others| ==> others[i] == areas[if i < d then i else i + 1];
    if areas[d].End() + rounded <= areas[d + 1].addr {
      forall i | 0 <= i < |others| ensures Apart(others[i], grown) {
        if i < d { assert areas[i].End() <= areas[d].addr; } else if i > d { assert areas[d + 1].End() <= areas[i + 1].addr; }
      }
    } else {
      assert others[d] == areas[d + 1] && !Apart(others[d], grown);
    }
  }

  // ------------------------------------------------------------------ the code

  class Region {
    var addr: nat
    var size: nat
    var flags: nat
    var prev: Region?
    var next: Region?

    constructor (addr: nat, size: nat, flags: nat)
      ensures this.addr == addr && this.size == size && this.flags == flags && prev == null && next == null
    {
      this.addr, this.size, this.flags := addr, size, flags;
      prev, next := null, null;
    }
  }

  function AreaOf(r: Region): Area
    reads r`addr, r`size, r`flags
  {
    Area(r.addr, r.size, r.flags)
  }

  class AddressSpace {
    var pd: nat
    var codeEntry: nat
    var elfEnd: nat
    var dataEnd: nat
    var stackEnd: nat
    var stackSize: nat
    var pageCounter: nat
    var first: Region?
    var last: Region?
    ghost var regs: seq<Region>
    ghost var areas: seq<Area>

    /** The pointers spell the sequence `regs`, forwards and backwards. */
    ghost predicate Linked()
      reads this`first, this`last, this`regs, regs`next, regs`prev
    {
      && first == (if regs == [] then null else regs[0])
      && last == (if regs == [] then null else regs[|regs| - 1])
      && (forall i {:trigger regs[i].next} :: 0 <= i < |regs| ==> regs[i].next == if i + 1 < |regs| then regs[i + 1] else null)
      && (forall i {:trigger regs[i].prev} :: 0 <= i < |regs| ==> regs[i].prev == if i > 0 then regs[i - 1] else null)
      && (forall i, j {:trigger regs[i], regs[j]} :: 0 <= i < j < |regs| ==> regs[i] != regs[j])
    }

    ghost predicate Described()
      reads this`regs, this`areas, regs`addr, regs`size, regs`flags
    {
      && |areas| == |regs|
      && (forall i {:trigger regs[i]} :: 0 <= i < |regs| ==> areas[i] == AreaOf(regs[i]))
    }

    ghost predicate Valid()
      reads this`first, this`last, this`regs, this`areas, regs
    {
      Linked() && Described() && Ordered(areas)
    }

    constructor (pd: nat)
      ensures Valid() && regs == [] && areas == [] && this.pd == pd
    {
      this.pd := pd;
      codeEntry, elfEnd, dataEnd, stackEnd, stackSize, pageCounter := 0, 0, 0, 0, 0, 0;
      first, last := null, null;
      regs, areas := [], [];
    }

    method IsAreaFree(addr: nat, size: nat) returns (free: bool)
      requires Valid()
      ensures free == AreaFreeAnswer(areas, addr, size)
    {
      if first == null {
        return true;
      }
      assert areas[|areas| - 1] == AreaOf(last);
      if addr >= last.addr + last.size {
        return Wrap(addr + size) <= VM_USER_END;
      }
      var tmp := first;
      ghost var k := 0;
      while tmp != null
        invariant k <= |regs| && tmp == (if k < |regs| then regs[k] else null)
        invariant forall i {:trigger areas[i]} :: 0 <= i < k ==> areas[i].addr < addr
        decreases |regs| - k
      {
        assert areas[k] == AreaOf(tmp);
        if addr <= tmp.addr {
          FirstFromIs(areas, addr, k);
          assert areas[k..][0] == areas[k];
          return Wrap(addr + size) <= tmp.addr;
        }
        assert regs[k].next == if k + 1 < |regs| then regs[k + 1] else null;
        tmp := tmp.next;
        k := k + 1;
      }
      FirstFromIs(areas, addr, k);
      return false;
    }

    /** The first region that contains the address or ends there. */
    method FindRegion(vaddr: nat) returns (found: Region?, ghost k: nat)
      requires Valid()
      ensures found == null ==> forall i {:trigger areas[i]} :: 0 <= i < |areas| ==> !Touches(areas[i], vaddr)
      ensures found != null ==>
        && k < |regs| && found == regs[k] && Touches(areas[k], vaddr)
        && forall i {:trigger areas[i]} :: 0 <= i < k ==> !Touches(areas[i], vaddr)
    {
      var tmp := first;
      k := 0;
      while tmp != null
        invariant k <= |regs| && tmp == (if k < |regs| then regs[k] else null)
        invariant forall i {:trigger areas[i]} :: 0 <= i < k ==> !Touches(areas[i], vaddr)
        decreases |regs| - k
      {
        assert areas[k] == AreaOf(tmp);
        if vaddr >= tmp.addr && vaddr <= tmp.addr + tmp.size {
          return tmp, k;
        }
        assert regs[k].next == if k + 1 < |regs| then regs[k + 1] else null;
        tmp := tmp.next;
        k := k + 1;
      }
      return null, k;
    }

    /** Links a region in front of all others. */
    method LinkFirst(reg: Region)
      requires Linked() && reg !in regs
      modifies this`first, this`last, this`regs, reg`next, reg`prev, regs`prev
      ensures Linked() && regs == old(regs)[..0] + [reg] + old(regs)[0..]
    {
      reg.next := first;
      first := reg;
      if reg.next != null {
        reg.next.prev := reg;
      }
      reg.prev := null;
      if last == null {
        last := reg;
      }
      regs := [reg] + regs;
    }

    method LinkLast(reg: Region)
      requires Linked() && reg !in regs && regs != []
      modifies this`last, this`regs, reg`next, reg`prev, regs`next
      ensures Linked() && regs == old(regs)[..|old(regs)|] + [reg] + old(regs)[|old(regs)|..]
    {
      reg.next := null;
      reg.prev := last;
      last := reg;
      reg.prev.next := reg;
      regs := regs + [reg];
    }

    method LinkAfter(tmp: Region, reg: Region, ghost k: nat)
      requires Linked() && reg !in regs && 0 < k < |regs| && tmp == regs[k - 1]
      modifies this`regs, reg`next, reg`prev, regs`next, regs`prev
      ensures Linked() && regs == old(regs)[..k] + [reg] + old(regs)[k..]
    {
      assert regs[k - 1].next == regs[k];
      reg.next := tmp.next;
      tmp.next.prev := reg;
      reg.prev := tmp;
      tmp.next := reg;
      regs := regs[..k] + [reg] + regs[k..];
    }

    method UnlinkFirst()
      requires Linked() && regs != []
      modifies this`first, this`last, this`regs, regs`prev
      ensures Linked() && regs == old(regs)[..0] + old(regs)[1..]
    {
      assert regs[0].next == if 1 < |regs| then regs[1] else null;
      first := first.next;
      if first != null {
        first.prev := null;
      } else {
        last := null;
      }
      regs := regs[1..];
    }

    method UnlinkLast()
      requires Linked() && |regs| > 1
      modifies this`last, this`regs, regs`next
      ensures Linked() && regs == old(regs)[..|old(regs)| - 1] + old(regs)[|old(regs)|..]
    {
      assert regs[|regs| - 1].prev == regs[|regs| - 2];
      last := last.prev;
      last.next := null;
      regs := regs[..|regs| - 1];
    }

    method UnlinkInner(reg: Region, ghost k: nat)
      requires Linked() && 0 < k < |regs| - 1 && reg == regs[k]
      modifies this`regs, regs`next, regs`prev
      ensures Linked() && regs == old(regs)[..k] + old(regs)[k + 1..]
    {
      assert regs[k].prev == regs[k - 1] && regs[k].next == regs[k + 1];
      reg.prev.next := reg.next;
      reg.next.prev := reg.prev;
      regs := regs[..k] + regs[k + 1..];
    }

    /** The list after the region at position k was taken out. */
    twostate predicate Removed(k: nat)
      reads this
    {
      && k < |old(regs)| && k < |old(areas)|
      && regs == old(regs)[..k] + old(regs)[k + 1..]
      && areas == RemovedAt(old(areas), k)
    }

    ghost method Undescribe(k: nat)
      requires k < |areas| && |areas| == |regs| + 1 && Ordered(areas)
      requires forall i {:trigger regs[i]} :: 0 <= i < |regs| ==> AreaOf(regs[i]) == areas[if i < k then i else i + 1]
      modifies this`areas
      ensures areas == RemovedAt(old(areas), k) && Described() && Ordered(areas)
    {
      hide Ordered, InsertedAt;
      RestOrdered(areas, k);
      ghost var rest := RemovedAt(areas, k);
      assert forall i {:trigger rest[i]} :: 0 <= i < |rest| ==> rest[i] == areas[if i < k then i else i + 1];
      areas := rest;
    }

    method RemoveFirst()
      requires Valid() && regs != []
      modifies this`first, this`last, this`regs, this`areas, regs`prev
      ensures Valid() && Removed(0)
    {
      UnlinkFirst();
      Undescribe(0);
    }

    method RemoveLast()
      requires Valid() && |regs| > 1
      modifies this`first, this`last, this`regs, this`areas, regs`next
      ensures Valid() && Removed(|old(regs)| - 1)
    {
      UnlinkLast();
      Undescribe(|areas| - 1);
    }

    method RemoveInner(reg: Region, ghost k: nat)
      requires Valid() && 0 < k < |regs| - 1 && reg == regs[k]
      modifies this`first, this`last, this`regs, this`areas, regs`next, regs`prev
      ensures Valid() && Removed(k)
    {
      UnlinkInner(reg, k);
      Undescribe(k);
    }

    /** `_remove_region`: the ends of the list are recognised by their addresses. */
    method RemoveRegion(reg: Region, ghost k: nat)
      requires Valid() && k < |regs| && reg == regs[k]
      modifies this`first, this`last, this`regs, this`areas, regs`next, regs`prev
      ensures Valid() && Removed(k)
    {
      AddressesDiffer();
      if first.addr == reg.addr {
        RemoveFirst();
      } else if last.addr == reg.addr {
        RemoveLast();
      } else {
        RemoveInner(reg, k);
      }
    }

    lemma AddressesDiffer()
      requires Valid()
      ensures forall i, j {:trigger regs[i], regs[j]} :: 0 <= i < j < |regs| ==> regs[i].addr < regs[j].addr
    {
      forall i, j | 0 <= i < j < |regs| ensures regs[i].addr < regs[j].addr {
        assert areas[i].End() <= areas[j].addr;
      }
    }

    /** The search loop of `_insert_region`: the region to insert behind, if there is one. */
    method FindGap(reg: Region) returns (found: Region?, ghost k: nat)
      requires Valid() && regs != [] && reg.size > 0
      requires !FitsAt(areas, 0, AreaOf(reg)) && !FitsAt(areas, |areas|, AreaOf(reg))
      ensures found != null ==> k + 1 < |regs| && found == regs[k] && FitsAt(areas, k + 1, AreaOf(reg))
      ensures found == null ==> forall p :: 0 <= p <= |areas| ==> !FitsAt(areas, p, AreaOf(reg))
    {
      var tmp := first;
      k := 0;
      while tmp.next != null
        invariant k < |regs| && tmp == regs[k]
        invariant forall p :: 0 <= p <= k ==> !FitsAt(areas, p, AreaOf(reg))
        decreases |regs| - k
      {
        assert regs[k].next == if k + 1 < |regs| then regs[k + 1] else null;
        assert areas[k] == AreaOf(regs[k]) && areas[k + 1] == AreaOf(regs[k + 1]);
        if reg.addr >= tmp.addr + tmp.size && reg.addr + reg.size <= tmp.next.addr {
          return tmp, k;
        }
        tmp := tmp.next;
        k := k + 1;
      }
      assert regs[k].next == null;
      return null, k;
    }

    /** The list after a region was put at position k. */
    twostate predicate Inserted(k: nat, reg: Region)
      reads this, regs, reg
    {
      && k <= |old(regs)| && k <= |old(areas)| && FitsAt(old(areas), k, AreaOf(reg))
      && areas == InsertedAt(old(areas), k, AreaOf(reg))
      && regs == old(regs)[..k] + [reg] + old(regs)[k..]
      && !Overlaps(old(areas), AreaOf(reg))
    }

    method InsertFirst(reg: Region)
      requires Valid() && reg !in regs && reg.size > 0 && reg.addr + reg.size <= VM_USER_END
      requires FitsAt(areas, 0, AreaOf(reg))
      modifies this`first, this`last, this`regs, this`areas, reg`next, reg`prev, regs`prev
      ensures Valid() && Inserted(0, reg)
    {
      hide Ordered, Linked;
      LinkFirst(reg);
      Describe(reg, 0);
    }

    method InsertLast(reg: Region)
      requires Valid() && reg !in regs && reg.size > 0 && reg.addr + reg.size <= VM_USER_END
      requires regs != [] && FitsAt(areas, |areas|, AreaOf(reg))
      modifies this`first, this`last, this`regs, this`areas, reg`next, reg`prev, regs`next
      ensures Valid() && Inserted(|old(regs)|, reg)
    {
      hide Ordered, Linked;
      LinkLast(reg);
      Describe(reg, |regs| - 1);
    }

    method InsertAfter(tmp: Region, reg: Region, ghost k: nat)
      requires Valid() && reg !in regs && reg.size > 0 && reg.addr + reg.size <= VM_USER_END
      requires 0 < k < |regs| && tmp == regs[k - 1] && FitsAt(areas, k, AreaOf(reg))
      modifies this`first, this`last, this`regs, this`areas, reg`next, reg`prev, regs`next, regs`prev
      ensures Valid() && Inserted(k, reg)
    {
      hide Ordered, Linked;
      LinkAfter(tmp, reg, k);
      Describe(reg, k);
    }

    /** `_insert_region`: inserts a region where it fits; one that overlaps another is left
        out without a word. */
    method InsertRegion(reg: Region) returns (ghost k: int)
      requires Valid() && reg !in regs && reg.size > 0 && reg.addr + reg.size <= VM_USER_END
      modifies this`first, this`last, this`regs, this`areas, reg`next, reg`prev, regs`next, regs`prev
      ensures Valid()
      ensures k < 0 <==> Overlaps(old(areas), AreaOf(reg))
      ensures k < 0 ==> areas == old(areas) && regs == old(regs)
      ensures k >= 0 ==> Inserted(k, reg)
    {
      assert regs != [] ==> areas[0] == AreaOf(first) && areas[|areas| - 1] == AreaOf(last);
      if first == null || first.addr >= reg.addr + reg.size {
        k := 0;
        InsertFirst(reg);
      } else if last.addr + last.size <= reg.addr {
        k := |regs|;
        InsertLast(reg);
      } else {
        ghost var j;
        var tmp;
        tmp, j := FindGap(reg);
        if tmp == null {
          k := -1;
          NoPlaceMeansOverlap(areas, AreaOf(reg));
        } else {
          k := j + 1;
          InsertAfter(tmp, reg, k);
        }
      }
    }

    /** The ghost description of the list after a region was linked in at position k. */
    ghost method Describe(reg: Region, k: nat)
      requires k < |regs| && regs[k] == reg && |areas| + 1 == |regs|
      requires forall i {:trigger regs[i]} :: 0 <= i < |regs| && i != k ==> AreaOf(regs[i]) == areas[if i < k then i else i - 1]
      requires Ordered(areas) && FitsAt(areas, k, AreaOf(reg)) && reg.size > 0 && reg.addr + reg.size <= VM_USER_END
      modifies this`areas
      ensures areas == InsertedAt(old(areas), k, AreaOf(reg))
      ensures Described() && Ordered(areas)
      ensures !Overlaps(old(areas), AreaOf(reg))
    {
      InsertKeepsOrder(areas, k, AreaOf(reg));
      areas := InsertedAt(areas, k, AreaOf(reg));
    }

    // ---------------------------------------------------------- the program break

    /** The break has been moved up at least once. */
    predicate Grown()
      reads this
    {
      dataEnd != elfEnd
    }

    /** Once the break has grown, region d is the data segment: it starts at the end of the
        loaded program, holds the break and has a region behind it. */
    ghost predicate DataSegment(d: nat)
      reads this
    {
      && d + 1 < |areas| && areas[d].addr == elfEnd && elfEnd < dataEnd <= areas[d].End()
    }

    ghost predicate BrkValid(d: nat)
      reads this, regs
    {
      Valid() && if Grown() then DataSegment(d) else elfEnd == dataEnd && GapBefore(areas, d, elfEnd)
    }

    ghost predicate CanMove(d: nat, vaddr: nat)
      reads this
    {
      MoveAllowed(areas, d, Grown(), elfEnd, dataEnd, vaddr, if vaddr > dataEnd then PageRound(vaddr - dataEnd) else 0)
    }

    /** The first growth creates the region of the data segment. */
    method CreateDataSegment(vaddr: nat, ghost d: nat) returns (r: BrkResult)
      requires BrkValid(d) && !Grown() && elfEnd < vaddr && dataEnd + PageRound(vaddr - dataEnd) < ADDRESS_SPACE
      modifies this`first, this`last, this`regs, this`areas, this`dataEnd, regs`next, regs`prev
      ensures BrkValid(d)
      ensures r.Moved? <==> old(CanMove(d, vaddr))
      ensures r.Moved? ==> r.oldBrk == old(dataEnd) && dataEnd == vaddr
      ensures r.Moved? ==> areas == InsertedAt(old(areas), d, Area(elfEnd, PageRound(vaddr - elfEnd), 6))
      ensures !r.Moved? ==> r == NoMemory && dataEnd == old(dataEnd) && regs == old(regs) && areas == old(areas)
    {
      hide Ordered, Linked, PageRound;
      var newSize := RoundToPages(vaddr - dataEnd);
      var free := IsFreeAboveElf(newSize, d);
      if free {
        r := Moved(dataEnd);
        dataEnd := vaddr;
        InsertNew(elfEnd, newSize, 6, d);
      } else {
        r := NoMemory;
      }
    }

    /** Where the program ends outside all regions, `_is_area_free` is right. */
    method IsFreeAboveElf(size: nat, ghost d: nat) returns (free: bool)
      requires Valid() && GapBefore(areas, d, dataEnd) && 0 < size && dataEnd + size < ADDRESS_SPACE
      ensures free <==> dataEnd + size <= areas[d].addr
      ensures free ==> FitsAt(areas, d, Area(dataEnd, size, 6)) && dataEnd + size <= VM_USER_END
    {
      free := IsAreaFree(dataEnd, size);
      GapIsFree(areas, d, dataEnd, size);
    }

    /** `_create_region` and `_insert_region` for an area that fits at a known place. */
    method InsertNew(addr: nat, size: nat, flags: nat, ghost at: nat)
      requires Valid() && size > 0 && addr + size <= VM_USER_END
      requires at <= |areas| && FitsAt(areas, at, Area(addr, size, flags))
      modifies this`first, this`last, this`regs, this`areas, regs`next, regs`prev
      ensures Valid()
      ensures areas == InsertedAt(old(areas), at, Area(addr, size, flags))
      ensures forall r {:trigger r in regs} :: r in regs ==> r in old(regs) || fresh(r)
    {
      hide Ordered, Linked, Described;
      var reg := new Region(addr, size, flags);
      InsertKeepsOrder(areas, at, AreaOf(reg));
      ghost var k := InsertRegion(reg);
      FitsUniquely(old(areas), k, at, AreaOf(reg));
    }

    method Resize(reg: Region, ghost d: nat, size: nat)
      requires Valid() && d + 1 < |regs| && reg == regs[d]
      requires 0 < size && reg.addr + size <= areas[d + 1].addr
      modifies reg`size, this`areas
      ensures Valid() && areas == old(areas)[d := old(areas)[d].(size := size)]
    {
      hide Ordered;
      reg.size := size;
      ResizeKeepsOrder(areas, d, size);
      areas := areas[d := areas[d].(size := size)];
    }

    method Expand(vaddr: nat, reg: Region, ghost d: nat) returns (r: BrkResult)
      requires BrkValid(d) && Grown() && vaddr > dataEnd && reg == regs[d]
      modifies reg`size, this`areas, this`dataEnd
      ensures BrkValid(d) && Grown()
      ensures r.Moved? <==> old(CanMove(d, vaddr))
      ensures r.Moved? ==> r.oldBrk == old(dataEnd) && dataEnd == vaddr
      ensures !r.Moved? ==> r == NoMemory && dataEnd == old(dataEnd) && areas == old(areas)
      ensures |areas| == |old(areas)| && forall i {:trigger areas[i]} :: 0 <= i < |areas| && i != d ==> areas[i] == old(areas)[i]
      ensures r.Moved? ==>
        areas[d] == (if vaddr <= old(areas)[d].End() then old(areas)[d] else old(areas)[d].(size := old(areas)[d].size + PageRound(vaddr - old(dataEnd))))
    {
      hide Ordered, PageRound;
      var progSize := vaddr - dataEnd;
      assert areas[d] == AreaOf(reg) && areas[d + 1] == AreaOf(regs[d + 1]) && reg.next == regs[d + 1];
      r := Moved(dataEnd);
      if vaddr <= reg.addr + reg.size {
        dataEnd := dataEnd + progSize;
      } else {
        var newSize := RoundToPages(progSize);
        if reg.addr + reg.size + newSize <= reg.next.addr {
          dataEnd := dataEnd + progSize;
          Resize(reg, d, reg.size + newSize);
        } else {
          r := NoMemory;
        }
      }
    }

    /** The loop that unmaps the pages of a shrinking break. */
    method UnmapDown(end: nat, ctr: nat) returns (unmapped: seq<nat>)
      requires PAGE_SIZE * ctr <= end
      ensures unmapped == BrkUnmaps(end, ctr)
    {
      unmapped := [];
      var tmpVaddr := end;
      for i := 0 to ctr
        invariant tmpVaddr == end - PAGE_SIZE * i
        invariant unmapped == BrkUnmaps(end, i)
      {
        unmapped := unmapped + [tmpVaddr];
        tmpVaddr := tmpVaddr - PAGE_SIZE;
      }
    }

    method Shrink(vaddr: nat, reg: Region, ghost d: nat) returns (r: BrkResult, unmapped: seq<nat>)
      requires BrkValid(d) && Grown() && elfEnd <= vaddr <= dataEnd && reg == regs[d]
      modifies reg`size, this`areas, this`dataEnd
      ensures BrkValid(d) && Grown()
      ensures r.Moved? <==> old(CanMove(d, vaddr))
      ensures r.Moved? ==> r.oldBrk == old(dataEnd) && dataEnd == vaddr
      ensures var n := (old(dataEnd) - vaddr) / PAGE_SIZE;
        r.Moved? ==> PAGE_SIZE * n <= old(areas)[d].size && unmapped == BrkUnmaps(old(areas)[d].End(), n)
                     && areas[d] == old(areas)[d].(size := old(areas)[d].size - PAGE_SIZE * n)
      ensures !r.Moved? ==> r == NoMemory && dataEnd == old(dataEnd) && areas == old(areas) && unmapped == []
      ensures |areas| == |old(areas)| && forall i {:trigger areas[i]} :: 0 <= i < |areas| && i != d ==> areas[i] == old(areas)[i]
    {
      hide Linked, Ordered, PageRound, BrkUnmaps;
      var newSize := dataEnd - vaddr;
      assert areas[d] == AreaOf(reg);
      unmapped := [];
      r := NoMemory;
      if dataEnd - newSize > elfEnd {
        r := Moved(dataEnd);
        dataEnd := dataEnd - newSize;
        if newSize >= PAGE_SIZE {
          unmapped := ReleasePages(reg, newSize, d);
        }
      }
    }

    /** The part of shrinking that gives up whole pages. */
    method ReleasePages(reg: Region, newSize: nat, ghost d: nat) returns (unmapped: seq<nat>)
      requires Valid() && d + 1 < |areas| && reg == regs[d] && newSize < areas[d].size
      modifies reg`size, this`areas
      ensures Valid()
      ensures unmapped == BrkUnmaps(old(areas)[d].End(), newSize / PAGE_SIZE)
      ensures areas == old(areas)[d := old(areas)[d].(size := old(areas)[d].size - PAGE_SIZE * |unmapped|)]
      ensures PAGE_SIZE * |unmapped| <= newSize
    {
      var ctr := newSize / PAGE_SIZE;
      assert areas[d] == AreaOf(reg);
      unmapped := UnmapDown(reg.addr + reg.size, ctr);
      Resize(reg, d, reg.size - ctr * PAGE_SIZE);
    }

    /** vmm_set_brk.  `unmapped` lists the pages it gives to vmm_unmap_from, in order. */
    method SetBrk(vaddr: nat, ghost d: nat) returns (r: BrkResult, unmapped: seq<nat>)
      requires BrkValid(d) && vaddr < ADDRESS_SPACE
      requires !Grown() ==> vaddr != elfEnd
      requires vaddr > dataEnd ==> (if Grown() then areas[d].End() else dataEnd) + PageRound(vaddr - dataEnd) < ADDRESS_SPACE
      modifies this`first, this`last, this`regs, this`areas, this`dataEnd, regs`next, regs`prev, regs`size
      ensures BrkValid(d)
      ensures r.Moved? <==> old(CanMove(d, vaddr))
      ensures r.Moved? ==> r.oldBrk == old(dataEnd) && dataEnd == vaddr && Grown()
      ensures !r.Moved? ==> r == NoMemory && dataEnd == old(dataEnd) && regs == old(regs) && areas == old(areas)
      ensures old(Grown()) ==> regs == old(regs) && |areas| == |old(areas)|
      ensures r.Moved? && !old(Grown()) ==> areas == InsertedAt(old(areas), d, Area(elfEnd, PageRound(vaddr - elfEnd), 6))
      ensures old(Grown()) ==> forall i {:trigger areas[i]} :: 0 <= i < |areas| && i != d ==> areas[i] == old(areas)[i]
      ensures r.Moved? && old(Grown()) && vaddr > old(dataEnd) ==>
        areas[d] == (if vaddr <= old(areas)[d].End() then old(areas)[d] else old(areas)[d].(size := old(areas)[d].size + PageRound(vaddr - old(dataEnd))))
      ensures r.Moved? && old(Grown()) && vaddr <= old(dataEnd) ==> var n := (old(dataEnd) - vaddr) / PAGE_SIZE;
        && PAGE_SIZE * n <= old(areas)[d].size && areas[d] == old(areas)[d].(size := old(areas)[d].size - PAGE_SIZE * n)
        && unmapped == BrkUnmaps(old(areas)[d].End(), n)
      ensures !(r.Moved? && old(Grown()) && vaddr <= old(dataEnd)) ==> unmapped == []
    {
      hide Linked;
      unmapped := [];
      if vaddr < elfEnd {
        return NoMemory, [];
      }
      if dataEnd == elfEnd && vaddr >= dataEnd {
        r := CreateDataSegment(vaddr, d);
        return;
      }
      ghost var k;
      var reg;
      reg, k := FindRegion(elfEnd + 1);
      assert Touches(areas[d], elfEnd + 1);
      if reg == null {
        return NoDataSegment, [];
      }
      if vaddr > dataEnd {
        r := Expand(vaddr, reg, d);
      } else {
        r, unmapped := Shrink(vaddr, reg, d);
      }
    }
  }
}
