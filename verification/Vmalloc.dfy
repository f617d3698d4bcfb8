/** Kernel virtual memory in whole pages: first fit into the lowest hole of a sorted list of
    used regions. */
module Vmalloc {

  import opened Lists

  const WINDOW_START: nat := 0xd000_0000
  const WINDOW_END: nat := 0xdfff_f000
  const WINDOW_SIZE: nat := WINDOW_END - WINDOW_START
  const PAGE_SIZE: nat := 4096
  const WORD: nat := 0x1_0000_0000

  datatype Area = Area(addr: nat, size: nat) {
    function End(): nat { addr + size }
  }

  datatype Result = At(vaddr: nat) | Panic

  ghost predicate AreaOk(a: Area) {
    && WINDOW_START <= a.addr && a.End() <= WINDOW_END && a.size > 0
    && a.addr % PAGE_SIZE == 0 && a.size % PAGE_SIZE == 0
  }

  /** Regions are whole pages inside the window, sorted and disjoint. */
  ghost predicate Ordered(areas: seq<Area>) {
    && (forall i {:trigger areas[i]} :: 0 <= i < |areas| ==> AreaOk(areas[i]))
    && (forall i, j {:trigger areas[i], areas[j]} :: 0 <= i < j < |areas| ==> areas[i].End() <= areas[j].addr)
  }

  function Pages(areas: seq<Area>): nat {
    if areas == [] then 0 else Pages(areas[..|areas| - 1]) + areas[|areas| - 1].size / PAGE_SIZE
  }

  // ------------------------------------------------------------------------ holes

  /** The hole before region k starts here ... */
  function HoleStart(areas: seq<Area>, k: nat): nat
    requires k <= |areas|
  {
    if k == 0 then WINDOW_START else areas[k - 1].End()
  }

  /** ... and ends here. */
  function HoleEnd(areas: seq<Area>, k: nat): nat
    requires k <= |areas|
  {
    if k == |areas| then WINDOW_END else areas[k].addr
  }

  predicate Fits(areas: seq<Area>, k: nat, size: nat)
    requires k <= |areas|
  {
    HoleStart(areas, k) + size <= HoleEnd(areas, k)
  }

  /** The first hole from k on with room for `size`, or one more than there are holes. */
  function FirstFit(areas: seq<Area>, k: nat, size: nat): (f: nat)
    requires k <= |areas|
    ensures k <= f <= |areas| + 1 && (f <= |areas| ==> Fits(areas, f, size))
    ensures forall j {:trigger Fits(areas, j, size)} :: k <= j < f ==> !Fits(areas, j, size)
    decreases |areas| - k
  {
    if Fits(areas, k, size) then k
    else if k == |areas| then k + 1
    else FirstFit(areas, k + 1, size)
  }

  /** `size` bytes from a on are in the window and in no region. */
  ghost predicate IsFree(areas: seq<Area>, a: nat, size: nat) {
    && WINDOW_START <= a && a + size <= WINDOW_END
    && forall i {:trigger areas[i]} :: 0 <= i < |areas| ==> a + size <= areas[i].addr || areas[i].End() <= a
  }

  /** An address is free exactly when it lies in a hole with room behind it. */
  lemma {:induction false} FreeIsInHole(areas: seq<Area>, a: nat, size: nat)
    requires Ordered(areas) && size > 0
    ensures IsFree(areas, a, size) <==>
      exists k {:trigger HoleStart(areas, k)} :: 0 <= k <= |areas| && HoleStart(areas, k) <= a && a + size <= HoleEnd(areas, k)
  {
    if IsFree(areas, a, size) {
      var k := Behind(areas, a, |areas|);
      assert HoleStart(areas, k) <= a && a + size <= HoleEnd(areas, k);
    }
    forall k | 0 <= k <= |areas| && HoleStart(areas, k) <= a && a + size <= HoleEnd(areas, k)
      ensures IsFree(areas, a, size)
    {
      forall i | 0 <= i < |areas| ensures a + size <= areas[i].addr || areas[i].End() <= a {
        if i + 1 < k { assert areas[i].End() <= areas[k - 1].addr; } else if i > k { assert areas[k].End() <= areas[i].addr; }
      }
    }
  }

  /** How many of the first k regions end at a or before. */
  function Behind(areas: seq<Area>, a: nat, k: nat): (n: nat)
    requires k <= |areas|
    ensures n <= k && (n > 0 ==> areas[n - 1].End() <= a)
    ensures forall i {:trigger areas[i]} :: n <= i < k ==> a < areas[i].End()
  {
    if k > 0 && areas[k - 1].End() > a then Behind(areas, a, k - 1) else k
  }

  lemma {:induction false} StartsAscend(areas: seq<Area>, j: nat, k: nat)
    requires Ordered(areas) && j <= k <= |areas|
    ensures HoleStart(areas, j) <= HoleStart(areas, k)
  {
    if 0 < j < k { assert areas[j - 1].End() <= areas[k - 1].addr; }
  }

  /** First fit finds the lowest free address, and fails exactly if there is none. */
  lemma {:induction false} LowestHole(areas: seq<Area>, size: nat)
    requires Ordered(areas) && size > 0
    ensures var f := FirstFit(areas, 0, size);
      if f <= |areas|
      then IsFree(areas, HoleStart(areas, f), size) && forall a: nat {:trigger IsFree(areas, a, size)} :: IsFree(areas, a, size) ==> HoleStart(areas, f) <= a
      else forall a: nat {:trigger IsFree(areas, a, size)} :: !IsFree(areas, a, size)
  {
    var f := FirstFit(areas, 0, size);
    if f <= |areas| { FreeIsInHole(areas, HoleStart(areas, f), size); }
    forall a: nat | IsFree(areas, a, size) ensures f <= |areas| && HoleStart(areas, f) <= a {
      FreeIsInHole(areas, a, size);
      var k :| 0 <= k <= |areas| && HoleStart(areas, k) <= a && a + size <= HoleEnd(areas, k);
      assert Fits(areas, k, size);
      StartsAscend(areas, f, k);
    }
  }

  // -------------------------------------------------------------- lists of regions

  lemma HoleIsAligned(areas: seq<Area>, k: nat)
    requires Ordered(areas) && k <= |areas|
    ensures HoleStart(areas, k) % PAGE_SIZE == 0 && WINDOW_START <= HoleStart(areas, k) && HoleEnd(areas, k) <= WINDOW_END
  {
    if k > 0 { assert AreaOk(areas[k - 1]); }
    if k < |areas| { assert AreaOk(areas[k]); }
  }

  /** Everything before the hole ends before it, everything behind it starts behind it. */
  lemma HoleSeparates(areas: seq<Area>, k: nat)
    requires Ordered(areas) && k <= |areas|
    ensures forall i {:trigger areas[i]} :: 0 <= i < k ==> areas[i].End() <= HoleStart(areas, k)
    ensures forall i {:trigger areas[i]} :: k <= i < |areas| ==> HoleEnd(areas, k) <= areas[i].addr
  {
    forall i | 0 <= i < |areas| ensures if i < k then areas[i].End() <= HoleStart(areas, k) else HoleEnd(areas, k) <= areas[i].addr {
      assert AreaOk(areas[i]);
      if i < k - 1 { assert areas[i].End() <= areas[k - 1].addr; } else if i > k { assert areas[k].End() <= areas[i].addr; }
    }
  }

  lemma InsertKeepsOrder(areas: seq<Area>, k: nat, size: nat)
    requires Ordered(areas) && k <= |areas| && Fits(areas, k, size) && size > 0 && size % PAGE_SIZE == 0
    ensures Ordered(InsertedAt(areas, k, Area(HoleStart(areas, k), size)))
  {
    hide HoleStart, HoleEnd;
    HoleIsAligned(areas, k);
    HoleSeparates(areas, k);
    var all := InsertedAt(areas, k, Area(HoleStart(areas, k), size));
    assert forall i {:trigger all[i]} :: 0 <= i < |all| ==> all[i] == if i < k then areas[i] else if i == k then Area(HoleStart(areas, k), size) else areas[i - 1];
  }

  /** A region put where its hole is too small overlaps the next one, or leaves the window. */
  lemma InsertBreaksOrder(areas: seq<Area>, k: nat, size: nat)
    requires k <= |areas| && !Fits(areas, k, size)
    ensures !Ordered(InsertedAt(areas, k, Area(HoleStart(areas, k), size)))
  {
    var all := InsertedAt(areas, k, Area(HoleStart(areas, k), size));
    assert all[k] == Area(HoleStart(areas, k), size);
    if k < |areas| { assert all[k + 1] == areas[k]; } else { assert !AreaOk(all[k]); }
  }

  lemma RemoveKeepsOrder(areas: seq<Area>, k: nat)
    requires Ordered(areas) && k < |areas|
    ensures Ordered(RemovedAt(areas, k))
  {
    var rest := RemovedAt(areas, k);
    assert forall i {:trigger rest[i]} :: 0 <= i < |rest| ==> rest[i] == areas[if i < k then i else i + 1];
  }

  lemma {:induction false} PagesInserted(areas: seq<Area>, k: nat, a: Area)
    requires k <= |areas|
    ensures Pages(InsertedAt(areas, k, a)) == Pages(areas) + a.size / PAGE_SIZE
  {
    var all := InsertedAt(areas, k, a);
    if k == |areas| {
      assert all[..|all| - 1] == areas;
    } else {
      var init := areas[..|areas| - 1];
      PagesInserted(init, k, a);
      assert all[..|all| - 1] == InsertedAt(init, k, a) && all[|all| - 1] == areas[|areas| - 1];
    }
  }

  lemma {:induction false} PagesRemoved(areas: seq<Area>, k: nat)
    requires k < |areas|
    ensures Pages(RemovedAt(areas, k)) == Pages(areas) - areas[k].size / PAGE_SIZE
  {
    hide Pages;
    var rest := RemovedAt(areas, k);
    assert rest[..k] == areas[..k] && rest[k..] == areas[k + 1..];
    PagesInserted(rest, k, areas[k]);
    assert areas[..k] + [areas[k]] + areas[k + 1..] == areas;
  }

  /** Rounding up to pages, in 32-bit arithmetic. */
  function Rounded(size: nat): nat {
    if size % PAGE_SIZE > 0 then (size - size % PAGE_SIZE + PAGE_SIZE) % WORD else size
  }

  /** The rounded size holds the request exactly if the request is not within a page of the
      word limit. */
  lemma RoundedHolds(size: nat)
    requires size < WORD
    ensures Rounded(size) % PAGE_SIZE == 0
    ensures size <= Rounded(size) < size + PAGE_SIZE <==> size <= WORD - PAGE_SIZE
    ensures size > WORD - PAGE_SIZE ==> Rounded(size) == 0
  {
  }

  // ------------------------------------------------------------------------- code

  class Region {
    var vaddr: nat
    var size: nat
    var prev: Region?
    var next: Region?

    constructor (vaddr: nat, size: nat)
      ensures this.vaddr == vaddr && this.size == size
    {
      this.vaddr, this.size, prev, next := vaddr, size, null, null;
    }
  }

  function AreaOf(r: Region): Area
    reads r`vaddr, r`size
  {
    Area(r.vaddr, r.size)
  }

  class UsedRegions {
    var first: Region?
    var last: Region?
    var usedPages: nat
    ghost var regs: seq<Region>
    ghost var areas: seq<Area>

    ghost predicate Linked()
      reads this`first, this`last, this`regs, regs`next, regs`prev
    {
      && first == (if regs == [] then null else regs[0])
      && last == (if regs == [] then null else regs[|regs| - 1])
      && (forall i {:trigger regs[i].next} :: 0 <= i < |regs| ==> regs[i].next == if i + 1 < |regs| then regs[i + 1] else null)
      && (forall i {:trigger regs[i].prev} :: 0 <= i < |regs| ==> regs[i].prev == if i > 0 then regs[i - 1] else null)
      && (forall i, j {:trigger regs[i], regs[j]} :: 0 <= i < j < |regs| ==> regs[i] != regs[j])
    }

    ghost predicate Described()
      reads this`regs, this`areas, regs`vaddr, regs`size
    {
      |areas| == |regs| && forall i {:trigger regs[i]} :: 0 <= i < |regs| ==> areas[i] == AreaOf(regs[i])
    }

    ghost predicate Valid()
      reads this, regs
    {
      Linked() && Described() && Ordered(areas) && usedPages == Pages(areas)
    }

    constructor ()
      ensures Valid() && areas == []
    {
      first, last, usedPages, regs, areas := null, null, 0, [], [];
    }

    /** `_find_hole_in_as`, for a list that is not empty. */
    method FindHole(size: nat) returns (vaddr: nat, prev: Region?, ghost k: nat)
      requires Valid() && regs != [] && size > 0
      ensures k == FirstFit(areas, 0, size)
      ensures if k <= |areas| then vaddr == HoleStart(areas, k) && prev == (if k == 0 then null else regs[k - 1]) else vaddr == 0
    {
      hide Pages;
      assert areas[0] == AreaOf(regs[0]) && areas[|areas| - 1] == AreaOf(regs[|regs| - 1]);
      assert WINDOW_START <= areas[0].addr;
      if first.vaddr > WINDOW_START && first.vaddr - WINDOW_START >= size {
        return WINDOW_START, null, 0;
      }
      assert !Fits(areas, 0, size);
      var tmp, next := first, first.next;
      k := 0;
      assert regs[0].next == if 1 < |regs| then regs[1] else null;
      while next != null
        invariant k < |regs| && tmp == regs[k] && next == (if k + 1 < |regs| then regs[k + 1] else null)
        invariant FirstFit(areas, 0, size) == FirstFit(areas, k + 1, size)
        decreases |regs| - k
      {
        assert areas[k] == AreaOf(regs[k]) && areas[k + 1] == AreaOf(regs[k + 1]) && areas[k].End() <= areas[k + 1].addr;
        if next.vaddr - tmp.vaddr - tmp.size >= size {
          return tmp.vaddr + tmp.size, tmp, k + 1;
        }
        assert regs[k].next == regs[k + 1];
        assert regs[k + 1].next == if k + 2 < |regs| then regs[k + 2] else null;
        tmp := tmp.next;
        next := tmp.next;
        k := k + 1;
      }
      if last.vaddr + last.size < WINDOW_END && WINDOW_END - last.vaddr - last.size >= size {
        return last.vaddr + last.size, last, |areas|;
      }
      return 0, null, |areas| + 1;
    }

    /** The list after a region was linked in before position k. */
    twostate predicate LinkedIn(k: nat, new r: Region)
      reads this`regs, this`first, this`last, regs`next, regs`prev
    {
      && k <= |old(regs)| && regs == old(regs)[..k] + [r] + old(regs)[k..] && Linked()
    }

    method LinkOnly(reg: Region)
      requires Linked() && regs == []
      modifies this`first, this`last, this`regs, reg`next, reg`prev
      ensures LinkedIn(0, reg)
    {
      first := reg;
      last := reg;
      reg.prev := null;
      reg.next := null;
      regs := [reg];
    }

    method LinkFirst(reg: Region)
      requires Linked() && regs != [] && reg !in regs
      modifies this`first, this`regs, reg`next, reg`prev, regs`prev
      ensures LinkedIn(0, reg)
    {
      reg.prev := null;
      reg.next := first;
      first.prev := reg;
      first := reg;
      regs := [reg] + regs;
    }

    method LinkLast(reg: Region)
      requires Linked() && regs != [] && reg !in regs
      modifies this`last, this`regs, reg`next, reg`prev, regs`next
      ensures LinkedIn(|old(regs)|, reg)
    {
      reg.next := null;
      reg.prev := last;
      last.next := reg;
      last := reg;
      regs := regs + [reg];
    }

    method LinkBetween(prev: Region, reg: Region, ghost k: nat)
      requires Linked() && 0 < k < |regs| && prev == regs[k - 1] && reg !in regs
      modifies this`regs, reg`next, reg`prev, regs`next, regs`prev
      ensures LinkedIn(k, reg)
    {
      assert regs[k - 1].next == regs[k];
      reg.prev := prev;
      reg.next := prev.next;
      reg.next.prev := reg;
      prev.next := reg;
      regs := regs[..k] + [reg] + regs[k..];
    }

    /** `_insert_region` */
    method InsertRegion(prev: Region?, reg: Region, ghost k: nat)
      requires Valid() && k <= |regs| && reg !in regs && prev == (if k == 0 then null else regs[k - 1])
      requires reg.vaddr == HoleStart(areas, k) && reg.size > 0 && reg.size % PAGE_SIZE == 0
      modifies this, reg`next, reg`prev, regs`next, regs`prev
      ensures Valid() <==> old(Fits(areas, k, reg.size))
      ensures areas == InsertedAt(old(areas), k, AreaOf(reg))
      ensures regs == old(regs)[..k] + [reg] + old(regs)[k..]
    {
      hide Ordered, Pages, Linked, HoleStart, HoleEnd, Fits;
      if Fits(areas, k, reg.size) { InsertKeepsOrder(areas, k, reg.size); } else { InsertBreaksOrder(areas, k, reg.size); }
      PagesInserted(areas, k, AreaOf(reg));
      Link(prev, reg, k);
      Describe(reg, k);
      usedPages := usedPages + reg.size / PAGE_SIZE;
    }

    ghost method Describe(reg: Region, k: nat)
      requires k < |regs| && regs[k] == reg && |areas| + 1 == |regs|
      requires forall i {:trigger regs[i]} :: 0 <= i < |regs| && i != k ==> AreaOf(regs[i]) == areas[if i < k then i else i - 1]
      modifies this`areas
      ensures areas == InsertedAt(old(areas), k, AreaOf(reg)) && Described()
    {
      areas := InsertedAt(areas, k, AreaOf(reg));
    }

    method Link(prev: Region?, reg: Region, ghost k: nat)
      requires Linked() && k <= |regs| && reg !in regs && prev == (if k == 0 then null else regs[k - 1])
      modifies this`first, this`last, this`regs, reg`next, reg`prev, regs`next, regs`prev
      ensures LinkedIn(k, reg)
    {
      if first == null {
        LinkOnly(reg);
      } else if prev == null {
        LinkFirst(reg);
      } else if last == prev {
        LinkLast(reg);
      } else {
        LinkBetween(prev, reg, k);
      }
    }

    /** `vmalloc`, but for the physical pages: it takes the lowest address that is free, and
        panics exactly if there is none, with one exception: the first request of all is
        granted unchecked, and one larger than the window spoils the list.  A request for
        nothing is not one. */
    method Vmalloc(request: nat) returns (r: Result)
      requires Valid() && 0 < request && Rounded(request) > 0
      modifies this, regs`next, regs`prev
      ensures Valid() <==> old(areas) != [] || Rounded(request) <= WINDOW_SIZE
      ensures Valid() ==> (r == Panic <==> forall a: nat {:trigger IsFree(old(areas), a, Rounded(request))} :: !IsFree(old(areas), a, Rounded(request)))
      ensures r == Panic ==> areas == old(areas)
      ensures !Valid() ==> r == At(WINDOW_START) && areas == [Area(WINDOW_START, Rounded(request))]
      ensures Valid() && r != Panic ==> IsFree(old(areas), r.vaddr, Rounded(request))
      ensures r != Panic ==> forall a: nat {:trigger IsFree(old(areas), a, Rounded(request))} :: IsFree(old(areas), a, Rounded(request)) ==> r.vaddr <= a
      ensures r != Panic ==> exists k {:trigger InsertedAt(old(areas), k, Area(r.vaddr, Rounded(request)))} ::
        0 <= k <= |old(areas)| && areas == InsertedAt(old(areas), k, Area(r.vaddr, Rounded(request)))
    {
      hide Ordered, Pages, Linked, Described, FirstFit, IsFree, Fits, HoleStart, HoleEnd;
      var size := if request % PAGE_SIZE > 0 then (request - request % PAGE_SIZE + PAGE_SIZE) % WORD else request;
      AlignedRequest(request);
      LowestHole(areas, size);
      StartsEmpty(size);
      r := Take(size);
    }

    /** vmalloc, once the size is rounded. */
    method Take(size: nat) returns (r: Result)
      requires Valid() && 0 < size && size % PAGE_SIZE == 0
      modifies this, regs`next, regs`prev
      ensures Valid() <==> old(areas) != [] || size <= WINDOW_SIZE
      ensures var k := if old(areas) == [] then 0 else FirstFit(old(areas), 0, size);
        if k <= |old(areas)| then r == At(HoleStart(old(areas), k)) && areas == InsertedAt(old(areas), k, Area(r.vaddr, size))
        else r == Panic && areas == old(areas)
    {
      hide Ordered, Pages, Linked, Described, FirstFit, Fits, HoleStart, HoleEnd;
      StartsEmpty(size);
      var vaddr, prev := WINDOW_START, null;
      ghost var k := 0;
      if first != null {
        vaddr, prev, k := FindHole(size);
        if vaddr == 0 {
          return Panic;
        }
      }
      var region := new Region(vaddr, size);
      InsertRegion(prev, region, k);
      return At(vaddr);
    }

    lemma {:induction false} StartsEmpty(size: nat)
      requires Valid()
      ensures (first == null <==> areas == []) && (first == null <==> regs == []) && |regs| == |areas|
      ensures areas == [] ==> (size <= WINDOW_SIZE <==> Fits(areas, 0, size)) && (size <= WINDOW_SIZE ==> FirstFit(areas, 0, size) == 0)
      ensures areas == [] ==> HoleStart(areas, 0) == WINDOW_START
      ensures FirstFit(areas, 0, size) <= |areas| ==> Fits(areas, FirstFit(areas, 0, size), size) && HoleStart(areas, FirstFit(areas, 0, size)) > 0
    {
      if FirstFit(areas, 0, size) > 0 && FirstFit(areas, 0, size) <= |areas| {
        assert AreaOk(areas[FirstFit(areas, 0, size) - 1]);
      }
    }

    lemma AlignedRequest(request: nat)
      ensures Rounded(request) % PAGE_SIZE == 0
    {
    }

    /** The list after region k was unlinked. */
    twostate predicate Unlinked(k: nat)
      reads this`regs, this`first, this`last, regs`next, regs`prev
    {
      k < |old(regs)| && regs == old(regs)[..k] + old(regs)[k + 1..] && Linked()
    }

    method UnlinkFirst()
      requires Linked() && regs != []
      modifies this`first, this`last, this`regs, regs`prev
      ensures Unlinked(0)
    {
      assert regs[0].next == if 1 < |regs| then regs[1] else null;
      first := first.next;
      if first != null {
        first.prev := null;
      } else {
        last := null;
      }
      regs := regs[1..];
    }

    method UnlinkLast()
      requires Linked() && |regs| > 1
      modifies this`last, this`regs, regs`next
      ensures Unlinked(|old(regs)| - 1)
    {
      assert regs[|regs| - 1].prev == regs[|regs| - 2];
      last := last.prev;
      last.next := null;
      regs := regs[..|regs| - 1];
    }

    method UnlinkInner(region: Region, ghost k: nat)
      requires Linked() && 0 < k < |regs| - 1 && region == regs[k]
      modifies this`regs, regs`next, regs`prev
      ensures Unlinked(k)
    {
      assert region.prev == regs[k - 1] && region.next == regs[k + 1];
      region.prev.next := region.next;
      region.next.prev := region.prev;
      regs := regs[..k] + regs[k + 1..];
    }

    method Unlink(region: Region, ghost k: nat)
      requires Linked() && k < |regs| && region == regs[k]
      modifies this`first, this`last, this`regs, regs`next, regs`prev
      ensures Unlinked(k)
    {
      if region == first {
        UnlinkFirst();
      } else if region == last {
        UnlinkLast();
      } else {
        UnlinkInner(region, k);
      }
    }

    ghost method Undescribe(k: nat)
      requires k < |areas| && |areas| == |regs| + 1
      requires forall i {:trigger regs[i]} :: 0 <= i < |regs| ==> AreaOf(regs[i]) == areas[if i < k then i else i + 1]
      modifies this`areas
      ensures areas == RemovedAt(old(areas), k) && Described()
    {
      areas := RemovedAt(areas, k);
    }

    /** The search of `_remove_region`. */
    method FindRegion(vaddr: nat) returns (region: Region?, ghost k: nat)
      requires Valid()
      ensures region != null ==> k < |regs| && region == regs[k] && areas[k].addr == vaddr && areas[k] == AreaOf(region)
      ensures region == null <==> forall i {:trigger areas[i]} :: 0 <= i < |areas| ==> areas[i].addr != vaddr
    {
      region := first;
      k := 0;
      while region != null
        invariant k <= |regs| && region == (if k < |regs| then regs[k] else null)
        invariant forall i {:trigger areas[i]} :: 0 <= i < k ==> areas[i].addr != vaddr
        decreases |regs| - k
      {
        assert areas[k] == AreaOf(regs[k]) && regs[k].next == if k + 1 < |regs| then regs[k + 1] else null;
        if region.vaddr == vaddr {
          return;
        }
        region := region.next;
        k := k + 1;
      }
    }

    /** `vfree`: it gives back the region that starts here, and panics exactly if there is none. */
    method Vfree(vaddr: nat) returns (ok: bool)
      requires Valid()
      modifies this, regs`next, regs`prev
      ensures Valid()
      ensures !ok <==> forall i {:trigger old(areas)[i]} :: 0 <= i < |old(areas)| ==> old(areas)[i].addr != vaddr
      ensures !ok ==> areas == old(areas)
      ensures ok ==> exists k {:trigger old(areas)[k]} :: 0 <= k < |old(areas)| && old(areas)[k].addr == vaddr && areas == RemovedAt(old(areas), k)
    {
      hide Ordered, Pages, Linked;
      var region;
      ghost var k;
      region, k := FindRegion(vaddr);
      if region == null {
        return false;
      }
      ghost var areas0 := areas;
      PagesRemoved(areas, k);
      RemoveKeepsOrder(areas, k);
      Unlink(region, k);
      Undescribe(k);
      usedPages := usedPages - region.size / PAGE_SIZE;
      ok := true;
    }
  }

  lemma AddressesAscend(areas: seq<Area>)
    requires Ordered(areas)
    ensures forall i, j {:trigger areas[i], areas[j]} :: 0 <= i < j < |areas| ==> areas[i].addr < areas[j].addr
  {
    forall i, j | 0 <= i < j < |areas| ensures areas[i].addr < areas[j].addr {
      assert AreaOk(areas[i]);
    }
  }

  /** What vmalloc took, vfree gives back: the list is as before. */
  lemma FreeUndoesTake(areas: seq<Area>, k: nat, a: Area, j: nat)
    requires k <= |areas| && Ordered(InsertedAt(areas, k, a))
    requires j < |InsertedAt(areas, k, a)| && InsertedAt(areas, k, a)[j].addr == a.addr
    ensures RemovedAt(InsertedAt(areas, k, a), j) == areas
  {
    var all := InsertedAt(areas, k, a);
    AddressesAscend(all);
    assert all[k] == a;
    RemoveUndoesInsert(areas, k, a);
  }
}
