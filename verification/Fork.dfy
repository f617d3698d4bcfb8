/** Duplication of an address space: every page of every region is copied into a
    frame of its own and mapped in the child. */
module Fork {

  import opened Paging
  import Regions

  const USER_END: nat := Regions.VM_USER_END

  /** One turn of the copy loop: the page of `va` is duplicated with these flags. */
  datatype Step = Step(va: nat, flags: Flags)

  function Di(s: Step): Index
    requires s.va < USER_END
  {
    DirIndex(s.va)
  }

  function Ti(s: Step): Index { TableIndex(s.va) }

  predicate SamePage(s: Step, t: Step)
    requires s.va < USER_END && t.va < USER_END
  {
    Di(s) == Di(t) && Ti(s) == Ti(t)
  }

  ghost predicate UserSteps(steps: seq<Step>) {
    forall j {:trigger steps[j]} :: 0 <= j < |steps| ==> steps[j].va < USER_END
  }

  /** Every page to be copied is absent or backed by a frame of data. */
  ghost predicate Copyable(m: Memory, own: Roles, src: FrameNo, steps: seq<Step>)
    requires IsMemory(m) && UserSteps(steps)
  {
    forall j {:trigger steps[j]} :: 0 <= j < |steps| ==> DataPage(m, own, src, Di(steps[j]), Ti(steps[j]))
  }

  /** All address spaces but the child's, and all frames of data that were in use, are
      as they were. */
  ghost predicate OthersSame(m: Memory, own: Roles, m': Memory, own': Roles, child: FrameNo) {
    && Sound(m, own) && Sound(m', own')
    && (forall f: FrameNo {:trigger f in own'} {:trigger f in own} :: f in own ==> f in own' && own'[f] == own[f])
    && (forall pd: FrameNo, di: Index, ti: Index {:trigger Pte(m', pd, di, ti)} :: IsDirectory(own, pd) && pd != child && di < TMP_SLOT ==>
          Pte(m', pd, di, ti) == Pte(m, pd, di, ti))
    && (forall f: FrameNo {:trigger m'[f]} :: f in own && own[f] == Page ==> m'[f] == m[f])
  }

  /** The child's page holds what the parent's page held when the copy began, in a frame
      that nobody used then; where the parent has no page the child gets frame 0. */
  ghost predicate PageForked(m0: Memory, own0: Roles, src: FrameNo, m: Memory, own: Roles, dst: FrameNo, di: Index, ti: Index)
    requires IsMemory(m0) && IsMemory(m)
  {
    var e0, e := Pte(m0, src, di, ti), Pte(m, dst, di, ti);
    && Present(e)
    && (if Present(e0)
        then e.frame != 0 && e.frame !in own0 && e.frame in own && own[e.frame] == Page && m[e.frame] == m0[e0.frame]
        else e.frame == 0)
  }

  /** Entries of two different pages the parent has: the child's frames differ. */
  ghost predicate Separate(m0: Memory, src: FrameNo, m: Memory, dst: FrameNo, s: Step, t: Step)
    requires IsMemory(m0) && IsMemory(m) && s.va < USER_END && t.va < USER_END
  {
    !SamePage(s, t) && Present(Pte(m0, src, Di(s), Ti(s))) && Present(Pte(m0, src, Di(t), Ti(t))) ==>
      Pte(m, dst, Di(s), Ti(s)).frame != Pte(m, dst, Di(t), Ti(t)).frame
  }

  /** No later step visits the page of step j again. */
  ghost predicate LastVisit(steps: seq<Step>, j: nat)
    requires UserSteps(steps) && j < |steps|
  {
    forall k {:trigger steps[k]} :: j < k < |steps| ==> !SamePage(steps[j], steps[k])
  }

  ghost predicate Forked(m0: Memory, own0: Roles, src: FrameNo, m: Memory, own: Roles, dst: FrameNo, steps: seq<Step>)
    requires IsMemory(m0) && IsMemory(m) && UserSteps(steps)
  {
    && (forall j {:trigger steps[j]} :: 0 <= j < |steps| ==> PageForked(m0, own0, src, m, own, dst, Di(steps[j]), Ti(steps[j])))
    && (forall j, k {:trigger steps[j], steps[k]} :: 0 <= j < k < |steps| ==> Separate(m0, src, m, dst, steps[j], steps[k]))
    && (forall j {:trigger LastVisit(steps, j)} :: 0 <= j < |steps| && LastVisit(steps, j) ==>
          Pte(m, dst, Di(steps[j]), Ti(steps[j])).flags == OrPresent(steps[j].flags))
  }

  /** Some turn of the loop has set this entry of the child. */
  ghost predicate Turned(steps: seq<Step>, di: Index, ti: Index)
    requires UserSteps(steps)
  {
    exists j {:trigger steps[j]} :: 0 <= j < |steps| && Di(steps[j]) == di && Ti(steps[j]) == ti
  }

  /** The child's pages that no turn came to are as they were. */
  ghost predicate RestKept(m0: Memory, m: Memory, dst: FrameNo, steps: seq<Step>)
    requires IsMemory(m0) && IsMemory(m) && UserSteps(steps)
  {
    forall di: Index, ti: Index {:trigger Pte(m, dst, di, ti)} ::
      di < KERN_SLOT && !Turned(steps, di, ti) ==> Pte(m, dst, di, ti) == Pte(m0, dst, di, ti)
  }

  /** If the frames at hand were clean when the copying began. */
  ghost predicate RestClean(m0: Memory, s0: seq<FrameNo>, m: Memory, supply: seq<FrameNo>, dst: FrameNo, steps: seq<Step>)
    requires IsMemory(m0) && IsMemory(m) && UserSteps(steps)
  {
    Clean(m0, s0) ==> Clean(m, supply) && RestKept(m0, m, dst, steps)
  }

  /** One step: what pg_duplicate_page and pg_map_to did together to the entry of any page. */
  lemma StepEntry(m1: Memory, own1: Roles, m2: Memory, own2: Roles, cr3: FrameNo, dst: FrameNo, paddr: Word, s: Step, flags: Flags, spare: FrameNo,
                  di: Index, ti: Index)
    requires Quiet(m1, own1, m2, own2) && IsDirectory(own1, dst) && s.va < USER_END
    requires CanMapTo(m2, own2, cr3, dst, Di(s), spare)
    requires di < KERN_SLOT && Present(Pte(m1, dst, di, ti))
    ensures Pte(MappedTo(m2, cr3, dst, paddr, Di(s), Ti(s), flags, spare), dst, di, ti)
         == if di == Di(s) && ti == Ti(s) then Entry(paddr, flags) else Pte(m1, dst, di, ti)
  {
    assert Pte(m2, dst, di, ti) == Pte(m1, dst, di, ti);
    MappedToEntry(m2, own2, cr3, dst, paddr, Di(s), Ti(s), flags, spare, dst, di, ti);
  }

  lemma StepOthers(m0: Memory, own0: Roles, m1: Memory, own1: Roles, m2: Memory, own2: Roles, cr3: FrameNo, dst: FrameNo, paddr: Word, s: Step, flags: Flags, spare: FrameNo)
    requires OthersSame(m0, own0, m1, own1, dst) && Quiet(m1, own1, m2, own2) && s.va < USER_END
    requires CanMapTo(m2, own2, cr3, dst, Di(s), spare)
    ensures OthersSame(m0, own0, MappedTo(m2, cr3, dst, paddr, Di(s), Ti(s), flags, spare), OwnAfter(m2, own2, dst, Di(s), spare), dst)
  {
    var m3, own3 := MappedTo(m2, cr3, dst, paddr, Di(s), Ti(s), flags, spare), OwnAfter(m2, own2, dst, Di(s), spare);
    MappedToKeepsSound(m2, own2, cr3, dst, paddr, Di(s), Ti(s), flags, spare);
    forall pd: FrameNo, di: Index, ti: Index | IsDirectory(own0, pd) && pd != dst && di < TMP_SLOT
      ensures Pte(m3, pd, di, ti) == Pte(m0, pd, di, ti)
    {
      assert IsDirectory(own1, pd) && IsDirectory(own2, pd);
      assert Pte(m1, pd, di, ti) == Pte(m0, pd, di, ti) && Pte(m2, pd, di, ti) == Pte(m1, pd, di, ti);
      MappedToEntry(m2, own2, cr3, dst, paddr, Di(s), Ti(s), flags, spare, pd, di, ti);
    }
    forall f: FrameNo | f in own0 && own0[f] == Page ensures m3[f] == m0[f] {
      assert f in own1 && f in own2;
      assert m2[f] == m1[f] == m0[f];
      MappedToKeepsData(m2, own2, cr3, dst, paddr, Di(s), Ti(s), flags, spare, f);
    }
  }

  /** The outcome of one turn: pg_duplicate_page returned `paddr` and pg_map_to mapped it. */
  ghost predicate Turn(m0: Memory, own0: Roles, src: FrameNo, m1: Memory, own1: Roles, m2: Memory, own2: Roles,
                       cr3: FrameNo, dst: FrameNo, paddr: Word, s: Step, spare: FrameNo) {
    && OthersSame(m0, own0, m1, own1, dst) && Quiet(m1, own1, m2, own2)
    && IsDirectory(own0, src) && IsDirectory(own0, dst) && src != dst && s.va < USER_END
    && CanMapTo(m2, own2, cr3, dst, Di(s), spare)
    && DataPage(m0, own0, src, Di(s), Ti(s))
    && (var e0 := Pte(m0, src, Di(s), Ti(s));
        if Present(e0)
        then paddr.frame != 0 && paddr.frame !in own1 && paddr.frame != spare
             && paddr.frame in own2 && own2[paddr.frame] == Page && m2[paddr.frame] == m1[e0.frame]
        else paddr == ZERO)
  }

  lemma TurnKeepsPage(m0: Memory, own0: Roles, src: FrameNo, m1: Memory, own1: Roles, m2: Memory, own2: Roles,
                      cr3: FrameNo, dst: FrameNo, paddr: Word, s: Step, spare: FrameNo, t: Step)
    requires Turn(m0, own0, src, m1, own1, m2, own2, cr3, dst, paddr, s, spare)
    requires t.va < USER_END && (SamePage(s, t) || PageForked(m0, own0, src, m1, own1, dst, Di(t), Ti(t)))
    ensures PageForked(m0, own0, src, AfterTurn(m2, cr3, dst, paddr, s, spare), OwnAfter(m2, own2, dst, Di(s), spare), dst, Di(t), Ti(t))
    ensures Pte(AfterTurn(m2, cr3, dst, paddr, s, spare), dst, Di(t), Ti(t))
         == if SamePage(s, t) then Entry(paddr, OrPresent(s.flags)) else Pte(m1, dst, Di(t), Ti(t))
  {
    hide MappedTo;
    var flags := OrPresent(s.flags);
    assert IsDirectory(own1, dst) && IsDirectory(own1, src);
    if SamePage(s, t) {
      MappedToEntry(m2, own2, cr3, dst, paddr, Di(s), Ti(s), flags, spare, dst, Di(t), Ti(t));
      var e0 := Pte(m0, src, Di(s), Ti(s));
      if Present(e0) {
        assert m1[e0.frame] == m0[e0.frame];
        MappedToKeepsData(m2, own2, cr3, dst, paddr, Di(s), Ti(s), flags, spare, paddr.frame);
      }
    } else {
      StepEntry(m1, own1, m2, own2, cr3, dst, paddr, s, flags, spare, Di(t), Ti(t));
      var e := Pte(m1, dst, Di(t), Ti(t));
      if Present(Pte(m0, src, Di(t), Ti(t))) {
        assert e.frame in own2 && own2[e.frame] == Page && m2[e.frame] == m1[e.frame];
        MappedToKeepsData(m2, own2, cr3, dst, paddr, Di(s), Ti(s), flags, spare, e.frame);
      }
    }
  }

  function AfterTurn(m2: Memory, cr3: FrameNo, dst: FrameNo, paddr: Word, s: Step, spare: FrameNo): (m: Memory)
    requires IsMemory(m2) && s.va < USER_END
    ensures IsMemory(m)
  {
    MappedTo(m2, cr3, dst, paddr, Di(s), Ti(s), OrPresent(s.flags), spare)
  }

  /** One turn extends the forked pages by one and spoils none of the earlier ones. */
  lemma TurnForks(m0: Memory, own0: Roles, src: FrameNo, m1: Memory, own1: Roles, m2: Memory, own2: Roles,
                  cr3: FrameNo, dst: FrameNo, paddr: Word, s: Step, spare: FrameNo, steps: seq<Step>)
    requires Turn(m0, own0, src, m1, own1, m2, own2, cr3, dst, paddr, s, spare)
    requires UserSteps(steps) && Forked(m0, own0, src, m1, own1, dst, steps)
    ensures UserSteps(steps + [s])
    ensures Forked(m0, own0, src, AfterTurn(m2, cr3, dst, paddr, s, spare), OwnAfter(m2, own2, dst, Di(s), spare), dst, steps + [s])
  {
    hide MappedTo;
    var m3, own3 := AfterTurn(m2, cr3, dst, paddr, s, spare), OwnAfter(m2, own2, dst, Di(s), spare);
    var steps' := steps + [s];
    forall j | 0 <= j < |steps'|
      ensures PageForked(m0, own0, src, m3, own3, dst, Di(steps'[j]), Ti(steps'[j]))
      ensures Pte(m3, dst, Di(steps'[j]), Ti(steps'[j]))
        == if SamePage(s, steps'[j]) then Entry(paddr, OrPresent(s.flags)) else Pte(m1, dst, Di(steps'[j]), Ti(steps'[j]))
    {
      if j < |steps| { assert steps'[j] == steps[j]; }
      TurnKeepsPage(m0, own0, src, m1, own1, m2, own2, cr3, dst, paddr, s, spare, steps'[j]);
    }
    forall j, k | 0 <= j < k < |steps'| ensures Separate(m0, src, m3, dst, steps'[j], steps'[k]) {
      assert steps'[j] == steps[j];
      assert k < |steps| ==> Separate(m0, src, m1, dst, steps[j], steps[k]);
      assert PageForked(m0, own0, src, m1, own1, dst, Di(steps[j]), Ti(steps[j]));
    }
    forall j | 0 <= j < |steps'| && LastVisit(steps', j)
      ensures Pte(m3, dst, Di(steps'[j]), Ti(steps'[j])).flags == OrPresent(steps'[j].flags)
    {
      if j < |steps| {
        assert steps'[|steps|] == s && steps'[j] == steps[j];
        assert forall k :: 0 <= k < |steps| ==> steps'[k] == steps[k];
        assert LastVisit(steps, j);
      }
    }
  }

  lemma TurnKeepsRest(m0: Memory, m1: Memory, own1: Roles, m2: Memory, own2: Roles,
                      cr3: FrameNo, dst: FrameNo, paddr: Word, s: Step, spare: FrameNo, steps: seq<Step>)
    requires IsMemory(m0) && Quiet(m1, own1, m2, own2) && IsDirectory(own1, dst) && s.va < USER_END
    requires CanMapTo(m2, own2, cr3, dst, Di(s), spare)
    requires Present(m2[dst][Di(s)]) || forall j: Index :: m2[spare][j] == ZERO
    requires UserSteps(steps) && RestKept(m0, m1, dst, steps)
    ensures RestKept(m0, AfterTurn(m2, cr3, dst, paddr, s, spare), dst, steps + [s])
  {
    hide MappedTo;
    var m3 := AfterTurn(m2, cr3, dst, paddr, s, spare);
    forall di: Index, ti: Index | di < KERN_SLOT && !Turned(steps + [s], di, ti)
      ensures Pte(m3, dst, di, ti) == Pte(m0, dst, di, ti)
    {
      assert (steps + [s])[|steps|] == s;
      assert forall j :: 0 <= j < |steps| ==> (steps + [s])[j] == steps[j];
      assert Pte(m2, dst, di, ti) == Pte(m1, dst, di, ti) == Pte(m0, dst, di, ti);
      MappedToEntry(m2, own2, cr3, dst, paddr, Di(s), Ti(s), OrPresent(s.flags), spare, dst, di, ti);
    }
  }

  /** The frames left in the supply after a turn are as they were. */
  lemma TurnKeepsClean(m1: Memory, own1: Roles, s1: seq<FrameNo>, m2: Memory, own2: Roles, s2: seq<FrameNo>,
                       cr3: FrameNo, dst: FrameNo, paddr: Word, s: Step, spare: FrameNo, s3: seq<FrameNo>, n: nat)
    requires Quiet(m1, own1, m2, own2) && s.va < USER_END && CanMapTo(m2, own2, cr3, dst, Di(s), spare)
    requires n <= |s1| && s2 == s1[n..] && Clean(m1, s1)
    requires forall i {:trigger s2[i]} :: 0 <= i < |s2| ==> s2[i] !in own2 && (i > 0 ==> s2[i] != spare)
    requires if Present(m2[dst][Di(s)]) then s3 == s2 else s2 != [] && spare == s2[0] && s3 == s2[1..]
    ensures Clean(AfterTurn(m2, cr3, dst, paddr, s, spare), s3)
    ensures Present(m2[dst][Di(s)]) || forall j: Index :: m2[spare][j] == ZERO
  {
    hide MappedTo;
    CleanKept(m1, s1, m2, s2, n);
    var k := if Present(m2[dst][Di(s)]) then 0 else 1;
    forall i | 0 <= i < |s3| ensures AfterTurn(m2, cr3, dst, paddr, s, spare)[s3[i]] == m2[s3[i]] {
      assert s3[i] == s2[k + i];
      MappedToKeepsData(m2, own2, cr3, dst, paddr, Di(s), Ti(s), OrPresent(s.flags), spare, s3[i]);
    }
    CleanKept(m2, s2, AfterTurn(m2, cr3, dst, paddr, s, spare), s3, k);
  }

  // ------------------------------------------------------------------ the code

  /** The steps the copy loop takes for one region. */
  function RegionSteps(addr: nat, flags: Flags, n: nat): (steps: seq<Step>)
    ensures |steps| == n
    ensures forall i {:trigger steps[i]} :: 0 <= i < n ==> steps[i] == Step(addr + PAGE_SIZE * i, flags)
  {
    seq(n, i requires 0 <= i < n => Step(addr + PAGE_SIZE * i, flags))
  }

  /** How often the loop runs: once for every started page counted from the region's start. */
  function PagesOf(size: nat): nat { (size + PAGE_SIZE - 1) / PAGE_SIZE }

  lemma PagesBound(size: nat, i: nat)
    ensures i < PagesOf(size) <==> PAGE_SIZE * i < size
  {
  }

  function AreaSteps(a: Regions.Area): (steps: seq<Step>)
    requires a.flags < PAGE_SIZE
    ensures a.End() <= USER_END ==> UserSteps(steps)
  {
    PagesInside(a.size);
    RegionSteps(a.addr, a.flags, PagesOf(a.size))
  }

  lemma PagesInside(size: nat)
    ensures forall i: nat {:trigger PAGE_SIZE * i} :: i < PagesOf(size) ==> PAGE_SIZE * i < size
  {
  }

  predicate FlagsFit(areas: seq<Regions.Area>) {
    forall i {:trigger areas[i]} :: 0 <= i < |areas| ==> areas[i].flags < PAGE_SIZE
  }

  function AllSteps(areas: seq<Regions.Area>): seq<Step>
    requires FlagsFit(areas)
  {
    if areas == [] then [] else AllSteps(areas[..|areas| - 1]) + AreaSteps(areas[|areas| - 1])
  }

  /** The duplication so far. */
  ghost predicate Progress(m0: Memory, own0: Roles, s0: seq<FrameNo>, mach: Machine, src: FrameNo, dst: FrameNo, steps: seq<Step>)
    reads mach
  {
    && mach.Valid() && UserSteps(steps)
    && IsDirectory(own0, src) && IsDirectory(own0, dst) && src != dst
    && OthersSame(m0, own0, mach.phys, mach.own, dst)
    && Forked(m0, own0, src, mach.phys, mach.own, dst, steps)
    && RestClean(m0, s0, mach.phys, mach.supply, dst, steps)
  }

  /** One turn of the loop. */
  method ForkPage(mach: Machine, src: FrameNo, dst: FrameNo, va: nat, flags: Flags, ghost m0: Memory, ghost own0: Roles, ghost s0: seq<FrameNo>, ghost steps: seq<Step>)
    requires Progress(m0, own0, s0, mach, src, dst, steps)
    requires va < USER_END && DataPage(m0, own0, src, DirIndex(va), TableIndex(va))
    requires |mach.supply| >= 3
    modifies mach`phys, mach`supply, mach`own
    ensures Progress(m0, own0, s0, mach, src, dst, steps + [Step(va, flags)])
    ensures |mach.supply| + 3 >= |old(mach.supply)|
  {
    hide Forked, MappedTo, RestKept;
    ghost var m1, own1 := mach.phys, mach.own;
    ghost var s := Step(va, flags);
    assert IsDirectory(own1, src) && IsDirectory(own1, dst);
    assert Pte(m1, src, Di(s), Ti(s)) == Pte(m0, src, Di(s), Ti(s));
    var paddr := mach.PgDuplicatePage(src, va);
    ghost var m2, own2, spare := mach.phys, mach.own, mach.Spare();
    assert Turn(m0, own0, src, m1, own1, m2, own2, mach.cr3, dst, paddr, s, spare);
    ghost var s1, s2 := old(mach.supply), mach.supply;
    mach.PgMapTo(dst, paddr, va, OrPresent(flags));
    if Clean(m0, s0) {
      TurnKeepsClean(m1, own1, s1, m2, own2, s2, mach.cr3, dst, paddr, s, spare, mach.supply, |s1| - |s2|);
      TurnKeepsRest(m0, m1, own1, m2, own2, mach.cr3, dst, paddr, s, spare, steps);
    }
    TurnForks(m0, own0, src, m1, own1, m2, own2, mach.cr3, dst, paddr, s, spare, steps);
    StepOthers(m0, own0, m1, own1, m2, own2, mach.cr3, dst, paddr, s, OrPresent(flags), spare);
  }

  lemma OneCopyable(m: Memory, own: Roles, src: FrameNo, steps: seq<Step>, i: nat)
    requires IsMemory(m) && UserSteps(steps) && Copyable(m, own, src, steps) && i < |steps|
    ensures steps[i].va < USER_END && DataPage(m, own, src, Di(steps[i]), Ti(steps[i]))
  {
  }

  method ForkRegion(mach: Machine, src: FrameNo, dst: FrameNo, reg: Regions.Region, ghost m0: Memory, ghost own0: Roles, ghost s0: seq<FrameNo>, ghost steps: seq<Step>)
    requires IsMemory(m0) && Progress(m0, own0, s0, mach, src, dst, steps)
    requires reg.addr + reg.size <= USER_END && reg.flags < PAGE_SIZE
    requires UserSteps(AreaSteps(Regions.AreaOf(reg))) && Copyable(m0, own0, src, AreaSteps(Regions.AreaOf(reg)))
    requires |mach.supply| >= 3 * PagesOf(reg.size)
    modifies mach`phys, mach`supply, mach`own
    ensures Progress(m0, own0, s0, mach, src, dst, steps + AreaSteps(Regions.AreaOf(reg)))
    ensures |mach.supply| + 3 * PagesOf(reg.size) >= |old(mach.supply)|
  {
    hide Progress, Copyable, UserSteps, DataPage;
    var vaddr := reg.addr;
    ghost var i := 0;
    ghost var all := AreaSteps(Regions.AreaOf(reg));
    assert steps + all[..0] == steps;
    while vaddr < reg.addr + reg.size
      invariant i <= PagesOf(reg.size) && vaddr == reg.addr + PAGE_SIZE * i
      invariant Progress(m0, own0, s0, mach, src, dst, steps + all[..i])
      invariant |mach.supply| + 3 * i >= |old(mach.supply)|
      decreases PagesOf(reg.size) - i
    {
      PagesBound(reg.size, i);
      assert all[i] == Step(vaddr, reg.flags);
      OneCopyable(m0, own0, src, all, i);
      ForkPage(mach, src, dst, vaddr, reg.flags, m0, own0, s0, steps + all[..i]);
      assert steps + all[..i] + [all[i]] == steps + all[..i + 1];
      vaddr := vaddr + PAGE_SIZE;
      i := i + 1;
    }
    PagesBound(reg.size, i);
    assert all[..i] == all;
  }

  function TotalPages(areas: seq<Regions.Area>): nat {
    if areas == [] then 0 else TotalPages(areas[..|areas| - 1]) + PagesOf(areas[|areas| - 1].size)
  }

  lemma {:induction false} TotalPagesMono(areas: seq<Regions.Area>, k: nat)
    requires k <= |areas|
    ensures TotalPages(areas[..k]) <= TotalPages(areas)
    ensures k < |areas| ==> TotalPages(areas[..k]) + PagesOf(areas[k].size) <= TotalPages(areas)
  {
    if k == |areas| {
      assert areas[..k] == areas;
    } else {
      var init := areas[..|areas| - 1];
      TotalPagesMono(init, k);
      assert init[..k] == areas[..k];
      if k == |init| { assert areas[..k] == init; }
    }
  }

  /** Every page of every region is absent or a page of data. */
  ghost predicate AreasCopyable(m: Memory, own: Roles, src: FrameNo, areas: seq<Regions.Area>)
    requires IsMemory(m) && FlagsFit(areas) && Regions.Ordered(areas)
  {
    forall k {:trigger areas[k]} :: 0 <= k < |areas| ==> Copyable(m, own, src, AreaSteps(areas[k]))
  }

  function RegionAt(regs: seq<Regions.Region>, k: nat): Regions.Region? {
    if k < |regs| then regs[k] else null
  }

  /** The two region lists after the first k regions, when the walk has come to `tmp`. */
  ghost predicate ListsHalfway(src: Regions.AddressSpace, dst: Regions.AddressSpace, areas: seq<Regions.Area>, k: nat, tmp: Regions.Region?)
    reads src`first, src`last, src`regs, src`areas, src.regs
    reads dst`first, dst`last, dst`regs, dst`areas, dst.regs
  {
    && k <= |areas| && src != dst && src.Valid() && dst.Valid()
    && src.areas == areas && dst.areas == areas[..k] && tmp == RegionAt(src.regs, k)
    && (tmp == null <==> k == |areas|)
    && (forall i {:trigger src.regs[i]} :: 0 <= i < |src.regs| ==> src.regs[i] !in dst.regs)
  }

  /** The pages of the first k regions are duplicated, and there is memory for the rest. */
  ghost predicate PagesHalfway(m0: Memory, own0: Roles, s0: seq<FrameNo>, mach: Machine, src: FrameNo, dst: FrameNo, areas: seq<Regions.Area>, k: nat)
    requires FlagsFit(areas) && k <= |areas|
    reads mach
  {
    && Progress(m0, own0, s0, mach, src, dst, AllSteps(areas[..k]))
    && |mach.supply| + 3 * TotalPages(areas[..k]) >= 3 * TotalPages(areas)
  }

  /** Duplicates the pages of one region. */
  method ForkNext(src: FrameNo, dst: FrameNo, mach: Machine, tmp: Regions.Region,
                  ghost m0: Memory, ghost own0: Roles, ghost s0: seq<FrameNo>, ghost areas: seq<Regions.Area>, ghost k: nat)
    requires FlagsFit(areas) && Regions.Ordered(areas) && k < |areas| && Regions.AreaOf(tmp) == areas[k]
    requires PagesHalfway(m0, own0, s0, mach, src, dst, areas, k) && AreasCopyable(m0, own0, src, areas)
    modifies mach`phys, mach`supply, mach`own
    ensures PagesHalfway(m0, own0, s0, mach, src, dst, areas, k + 1)
  {
    assert areas[..k + 1][..k] == areas[..k] && areas[..k + 1][k] == areas[k];
    TotalPagesMono(areas, k);
    ForkRegion(mach, src, dst, tmp, m0, own0, s0, AllSteps(areas[..k]));
  }

  method ForkOne(src: Regions.AddressSpace, dst: Regions.AddressSpace, srcPd: FrameNo, dstPd: FrameNo, mach: Machine, tmp: Regions.Region,
                 ghost m0: Memory, ghost own0: Roles, ghost s0: seq<FrameNo>, ghost areas: seq<Regions.Area>, ghost k: nat)
    returns (next: Regions.Region?)
    requires IsMemory(m0) && FlagsFit(areas) && Regions.Ordered(areas) && k < |areas| && AreasCopyable(m0, own0, srcPd, areas)
    requires ListsHalfway(src, dst, areas, k, tmp)
    requires PagesHalfway(m0, own0, s0, mach, srcPd, dstPd, areas, k)
    modifies mach`phys, mach`supply, mach`own
    modifies dst`first, dst`last, dst`regs, dst`areas, dst.regs`next, dst.regs`prev
    ensures ListsHalfway(src, dst, areas, k + 1, next)
    ensures PagesHalfway(m0, own0, s0, mach, srcPd, dstPd, areas, k + 1)
    ensures forall r {:trigger r in dst.regs} :: r in dst.regs ==> r in old(dst.regs) || fresh(r)
  {
    hide PagesHalfway, AreasCopyable;
    assert Regions.AreaOf(src.regs[k]) == areas[k];
    ForkNext(srcPd, dstPd, mach, tmp, m0, own0, s0, areas, k);
    next := AppendArea(src, dst, tmp, areas, k);
  }

  /** All that ForkAspace leaves behind, without the objects. */
  ghost predicate AfterFork(m0: Memory, own0: Roles, m: Memory, own: Roles, src: FrameNo, dst: FrameNo, steps: seq<Step>) {
    && UserSteps(steps) && IsDirectory(own0, src) && IsDirectory(own0, dst) && src != dst
    && OthersSame(m0, own0, m, own, dst) && Forked(m0, own0, src, m, own, dst, steps)
    && Copyable(m0, own0, src, steps)
  }

  lemma {:induction false} AllCopyable(m: Memory, own: Roles, src: FrameNo, areas: seq<Regions.Area>)
    requires IsMemory(m) && FlagsFit(areas) && Regions.Ordered(areas) && AreasCopyable(m, own, src, areas)
    ensures UserSteps(AllSteps(areas)) && Copyable(m, own, src, AllSteps(areas))
  {
    if areas != [] {
      var init, last := areas[..|areas| - 1], areas[|areas| - 1];
      assert forall k :: 0 <= k < |init| ==> init[k] == areas[k];
      AllCopyable(m, own, src, init);
      assert UserSteps(AreaSteps(last)) && Copyable(m, own, src, AreaSteps(last));
    }
  }

  /** `_fork_aspace`: the child gets the parent's region list, and for every page of every
      region a copy of its own.  The bound on the supply stands for pmm_get_frame not
      running out of memory. */
  method ForkAspace(src: Regions.AddressSpace, dst: Regions.AddressSpace, mach: Machine)
    requires src.Valid() && dst.Valid() && src != dst && dst.regs == []
    requires mach.Valid() && src.pd < FRAMES && dst.pd < FRAMES && src.pd != dst.pd
    requires IsDirectory(mach.own, src.pd) && IsDirectory(mach.own, dst.pd)
    requires FlagsFit(src.areas) && AreasCopyable(mach.phys, mach.own, src.pd, src.areas)
    requires |mach.supply| >= 3 * TotalPages(src.areas)
    modifies mach`phys, mach`supply, mach`own, dst
    ensures src.Valid() && dst.Valid() && src.areas == old(src.areas) && dst.areas == src.areas && dst.pd == old(dst.pd)
    ensures mach.Valid() && AfterFork(old(mach.phys), old(mach.own), mach.phys, mach.own, src.pd, dst.pd, AllSteps(src.areas))
    ensures Clean(old(mach.phys), old(mach.supply)) ==> RestKept(old(mach.phys), mach.phys, dst.pd, AllSteps(src.areas))
    ensures dst.codeEntry == src.codeEntry && dst.elfEnd == src.elfEnd && dst.dataEnd == src.dataEnd
    ensures dst.stackEnd == src.stackEnd && dst.stackSize == src.stackSize && dst.pageCounter == src.pageCounter
  {
    hide Progress, AreasCopyable, AfterFork, Regions.Ordered;
    ghost var m0, own0, s0 := mach.phys, mach.own, mach.supply;
    NothingForked(mach, src.pd, dst.pd, src.areas);
    ForkRegions(src, dst, src.pd, dst.pd, mach, m0, own0, s0, src.areas);
    CopyFields(src, dst);
    ForkDone(mach, m0, own0, s0, src.pd, dst.pd, src.areas);
  }

  method CopyFields(src: Regions.AddressSpace, dst: Regions.AddressSpace)
    modifies dst`codeEntry, dst`elfEnd, dst`dataEnd, dst`stackEnd, dst`stackSize, dst`pageCounter
    ensures dst.codeEntry == src.codeEntry && dst.elfEnd == src.elfEnd && dst.dataEnd == src.dataEnd
    ensures dst.stackEnd == src.stackEnd && dst.stackSize == src.stackSize && dst.pageCounter == src.pageCounter
  {
    dst.codeEntry := src.codeEntry;
    dst.elfEnd := src.elfEnd;
    dst.dataEnd := src.dataEnd;
    dst.stackEnd := src.stackEnd;
    dst.stackSize := src.stackSize;
    dst.pageCounter := src.pageCounter;
  }

  lemma {:induction false} ForkDone(mach: Machine, m0: Memory, own0: Roles, s0: seq<FrameNo>, src: FrameNo, dst: FrameNo, areas: seq<Regions.Area>)
    requires IsMemory(m0) && FlagsFit(areas) && Regions.Ordered(areas) && AreasCopyable(m0, own0, src, areas)
    requires Progress(m0, own0, s0, mach, src, dst, AllSteps(areas))
    ensures mach.Valid() && AfterFork(m0, own0, mach.phys, mach.own, src, dst, AllSteps(areas))
    ensures RestClean(m0, s0, mach.phys, mach.supply, dst, AllSteps(areas))
  {
    AllCopyable(m0, own0, src, areas);
  }

  lemma {:induction false} NothingForked(mach: Machine, src: FrameNo, dst: FrameNo, areas: seq<Regions.Area>)
    requires mach.Valid() && IsDirectory(mach.own, src) && IsDirectory(mach.own, dst) && src != dst
    requires FlagsFit(areas) && |mach.supply| >= 3 * TotalPages(areas)
    ensures PagesHalfway(mach.phys, mach.own, mach.supply, mach, src, dst, areas, 0)
  {
    assert areas[..0] == [];
  }

  /** The loop over the regions. */
  method ForkRegions(src: Regions.AddressSpace, dst: Regions.AddressSpace, srcPd: FrameNo, dstPd: FrameNo, mach: Machine,
                     ghost m0: Memory, ghost own0: Roles, ghost s0: seq<FrameNo>, ghost areas: seq<Regions.Area>)
    requires IsMemory(m0) && FlagsFit(areas) && Regions.Ordered(areas) && AreasCopyable(m0, own0, srcPd, areas)
    requires src.Valid() && dst.Valid() && src != dst && src.areas == areas && dst.regs == []
    requires PagesHalfway(m0, own0, s0, mach, srcPd, dstPd, areas, 0)
    modifies mach`phys, mach`supply, mach`own, dst`first, dst`last, dst`regs, dst`areas
    ensures src.Valid() && dst.Valid() && src.areas == areas && dst.areas == areas
    ensures Progress(m0, own0, s0, mach, srcPd, dstPd, AllSteps(areas))
  {
    hide Progress, AreasCopyable, Regions.Ordered;
    var tmp := src.first;
    ghost var k := 0;
    while tmp != null
      invariant k <= |areas| && ListsHalfway(src, dst, areas, k, tmp)
      invariant PagesHalfway(m0, own0, s0, mach, srcPd, dstPd, areas, k)
      invariant forall r {:trigger r in dst.regs} :: r in dst.regs ==> fresh(r)
      decreases |areas| - k
    {
      assert forall i {:trigger dst.regs[i]} :: 0 <= i < |dst.regs| ==> dst.regs[i] in dst.regs;
      tmp := ForkOne(src, dst, srcPd, dstPd, mach, tmp, m0, own0, s0, areas, k);
      k := k + 1;
    }
    assert areas[..k] == areas;
  }

  /** The child's list grows at its end, and the walk moves on. */
  method AppendArea(src: Regions.AddressSpace, dst: Regions.AddressSpace, tmp: Regions.Region, ghost areas: seq<Regions.Area>, ghost k: nat)
    returns (next: Regions.Region?)
    requires ListsHalfway(src, dst, areas, k, tmp) && k < |areas|
    modifies dst`first, dst`last, dst`regs, dst`areas, dst.regs`next, dst.regs`prev
    ensures ListsHalfway(src, dst, areas, k + 1, next)
    ensures forall r {:trigger r in dst.regs} :: r in dst.regs ==> r in old(dst.regs) || fresh(r)
  {
    assert areas[k] == Regions.AreaOf(tmp);
    assert src.regs[k].next == if k + 1 < |src.regs| then src.regs[k + 1] else null;
    next := tmp.next;
    InsertAtEnd(dst, tmp.addr, tmp.size, tmp.flags, areas, k);
  }

  method InsertAtEnd(dst: Regions.AddressSpace, addr: nat, size: nat, flags: nat, ghost areas: seq<Regions.Area>, ghost k: nat)
    requires dst.Valid() && Regions.Ordered(areas) && k < |areas| && dst.areas == areas[..k]
    requires areas[k] == Regions.Area(addr, size, flags)
    modifies dst`first, dst`last, dst`regs, dst`areas, dst.regs`next, dst.regs`prev
    ensures dst.Valid() && dst.areas == areas[..k + 1]
    ensures forall r {:trigger r in dst.regs} :: r in dst.regs ==> r in old(dst.regs) || fresh(r)
  {
    assert k > 0 ==> dst.areas[k - 1] == areas[k - 1] && areas[k - 1].End() <= areas[k].addr;
    dst.InsertNew(addr, size, flags, k);
    assert areas[..k + 1] == areas[..k] + [areas[k]];
  }

  // --------------------------------------------------------- what a fork means

  /** Some turn of the loop copied the page of `va`. */
  ghost predicate Visited(steps: seq<Step>, va: nat) {
    exists j {:trigger steps[j]} :: 0 <= j < |steps| && steps[j].va / PAGE_SIZE == va / PAGE_SIZE
  }

  lemma SamePageNumber(va: nat, vb: nat)
    requires va < USER_END && vb < USER_END && va / PAGE_SIZE == vb / PAGE_SIZE
    ensures DirIndex(va) == DirIndex(vb) && TableIndex(va) == TableIndex(vb)
  {
    PageNumberSplit(va);
    PageNumberSplit(vb);
  }

  lemma StepNumber(addr: nat, i: nat)
    ensures (addr + PAGE_SIZE * i) / PAGE_SIZE == addr / PAGE_SIZE + i
  {
  }

  /** The loop goes from the region's start in steps of a page, so it misses the last page
      of a region that is not aligned, unless the first step is long enough. */
  lemma EveryByteVisitedIff(a: Regions.Area)
    requires a.flags < PAGE_SIZE && a.size > 0
    ensures (forall va: nat {:trigger Visited(AreaSteps(a), va)} :: a.addr <= va < a.End() ==> Visited(AreaSteps(a), va))
       <==> a.addr % PAGE_SIZE + (a.size - 1) % PAGE_SIZE < PAGE_SIZE
  {
    var steps, n := AreaSteps(a), (a.size - 1) / PAGE_SIZE;
    var last := a.End() - 1;
    assert |steps| == n + 1;
    if a.addr % PAGE_SIZE + (a.size - 1) % PAGE_SIZE < PAGE_SIZE {
      assert last / PAGE_SIZE == a.addr / PAGE_SIZE + n;
      forall va: nat | a.addr <= va < a.End() ensures Visited(steps, va) {
        assert a.addr / PAGE_SIZE <= va / PAGE_SIZE <= last / PAGE_SIZE;
        var i := va / PAGE_SIZE - a.addr / PAGE_SIZE;
        StepNumber(a.addr, i);
        assert steps[i].va / PAGE_SIZE == va / PAGE_SIZE;
      }
    } else {
      assert last / PAGE_SIZE == a.addr / PAGE_SIZE + n + 1;
      forall j | 0 <= j < |steps| ensures steps[j].va / PAGE_SIZE != last / PAGE_SIZE {
        StepNumber(a.addr, j);
      }
      assert !Visited(steps, last);
    }
  }

  lemma {:induction false} AreaVisited(areas: seq<Regions.Area>, k: nat, va: nat)
    requires FlagsFit(areas) && k < |areas| && Visited(AreaSteps(areas[k]), va)
    ensures Visited(AllSteps(areas), va)
  {
    var init, all := areas[..|areas| - 1], AllSteps(areas);
    if k < |init| {
      AreaVisited(init, k, va);
      var j :| 0 <= j < |AllSteps(init)| && AllSteps(init)[j].va / PAGE_SIZE == va / PAGE_SIZE;
      assert all[j] == AllSteps(init)[j];
    } else {
      var last := AreaSteps(areas[k]);
      var j :| 0 <= j < |last| && last[j].va / PAGE_SIZE == va / PAGE_SIZE;
      assert all[|AllSteps(init)| + j] == last[j];
    }
  }

  /** The pages the loop comes to for one region: as many as the size has started pages,
      counted from the page of the region's start. */
  predicate InStride(a: Regions.Area, va: nat) {
    a.addr / PAGE_SIZE <= va / PAGE_SIZE < a.addr / PAGE_SIZE + PagesOf(a.size)
  }

  lemma StrideVisited(a: Regions.Area, va: nat)
    requires a.flags < PAGE_SIZE
    ensures Visited(AreaSteps(a), va) <==> InStride(a, va)
  {
    var steps := AreaSteps(a);
    if InStride(a, va) {
      var i := va / PAGE_SIZE - a.addr / PAGE_SIZE;
      StepNumber(a.addr, i);
      assert steps[i].va / PAGE_SIZE == va / PAGE_SIZE;
    }
    forall j | 0 <= j < |steps| ensures steps[j].va / PAGE_SIZE == a.addr / PAGE_SIZE + j {
      StepNumber(a.addr, j);
    }
  }

  lemma {:induction false} VisitedIff(areas: seq<Regions.Area>, va: nat)
    requires FlagsFit(areas)
    ensures Visited(AllSteps(areas), va) <==> exists k {:trigger areas[k]} :: 0 <= k < |areas| && InStride(areas[k], va)
  {
    if k :| 0 <= k < |areas| && InStride(areas[k], va) {
      StrideVisited(areas[k], va);
      AreaVisited(areas, k, va);
    } else if areas != [] {
      var init, last := areas[..|areas| - 1], areas[|areas| - 1];
      assert forall k :: 0 <= k < |init| ==> init[k] == areas[k];
      VisitedIff(init, va);
      StrideVisited(last, va);
    }
  }

  /** The last turn that came to the page of va is one of the last region whose stride holds it. */
  lemma {:induction false} LastTurn(areas: seq<Regions.Area>, k: nat, va: nat) returns (j: nat)
    requires FlagsFit(areas) && k < |areas| && InStride(areas[k], va)
    requires forall l {:trigger areas[l]} :: k < l < |areas| ==> !InStride(areas[l], va)
    ensures j < |AllSteps(areas)| && AllSteps(areas)[j].va / PAGE_SIZE == va / PAGE_SIZE && AllSteps(areas)[j].flags == areas[k].flags
    ensures forall l {:trigger AllSteps(areas)[l]} :: j < l < |AllSteps(areas)| ==> AllSteps(areas)[l].va / PAGE_SIZE != va / PAGE_SIZE
  {
    var init, last, all := areas[..|areas| - 1], areas[|areas| - 1], AllSteps(areas);
    var before, steps := AllSteps(init), AreaSteps(last);
    StrideTurns(last);
    if k < |init| {
      j := LastTurn(init, k, va);
    } else {
      j := |before| + (va / PAGE_SIZE - last.addr / PAGE_SIZE);
    }
    forall l | j < l < |all| ensures all[l].va / PAGE_SIZE != va / PAGE_SIZE {
      assert all[l] == if l < |before| then before[l] else steps[l - |before|];
    }
  }

  lemma StrideTurns(a: Regions.Area)
    requires a.flags < PAGE_SIZE
    ensures forall i {:trigger AreaSteps(a)[i]} :: 0 <= i < |AreaSteps(a)| ==>
      AreaSteps(a)[i].va / PAGE_SIZE == a.addr / PAGE_SIZE + i && AreaSteps(a)[i].flags == a.flags
    ensures |AreaSteps(a)| == PagesOf(a.size)
  {
    forall i: nat | i < |AreaSteps(a)| ensures AreaSteps(a)[i].va / PAGE_SIZE == a.addr / PAGE_SIZE + i {
      StepNumber(a.addr, i);
    }
  }

  lemma {:induction false} LaterPagesDiffer(steps: seq<Step>, j: nat, va: nat)
    requires UserSteps(steps) && j < |steps| && va < USER_END && steps[j].va / PAGE_SIZE == va / PAGE_SIZE
    requires forall l {:trigger steps[l]} :: j < l < |steps| ==> steps[l].va / PAGE_SIZE != va / PAGE_SIZE
    ensures LastVisit(steps, j)
  {
    PageNumberSplit(steps[j].va);
    forall l | j < l < |steps| ensures !SamePage(steps[j], steps[l]) {
      PageNumberSplit(steps[l].va);
    }
  }

  /** The child's page gets the rights of the last region that comes to it, and is present. */
  lemma {:induction false} RightsAreTheRegions(m0: Memory, own0: Roles, m: Memory, own: Roles, src: FrameNo, dst: FrameNo, areas: seq<Regions.Area>, k: nat, va: nat)
    requires FlagsFit(areas) && AfterFork(m0, own0, m, own, src, dst, AllSteps(areas))
    requires k < |areas| && InStride(areas[k], va) && va < USER_END
    requires forall l {:trigger areas[l]} :: k < l < |areas| ==> !InStride(areas[l], va)
    ensures Pte(m, dst, DirIndex(va), TableIndex(va)).flags == if areas[k].flags % 2 == 1 then areas[k].flags else areas[k].flags + 1
  {
    var j := LastTurn(areas, k, va);
    LaterPagesDiffer(AllSteps(areas), j, va);
    SamePageNumber(AllSteps(areas)[j].va, va);
    PresentBit(areas[k].flags);
  }

  /** At every address whose page the loop came to, the child reads what the parent read
      exactly if the parent's page was present, and the parent still reads it.  Where the
      parent had no page the child reads physical frame 0. */
  lemma ChildReadsWhatParentRead(m0: Memory, own0: Roles, m: Memory, own: Roles, src: FrameNo, dst: FrameNo, steps: seq<Step>, va: nat)
    requires AfterFork(m0, own0, m, own, src, dst, steps) && va < USER_END && Visited(steps, va)
    ensures Seen(m, src, va) == Seen(m0, src, va)
    ensures Seen(m, dst, va) == Seen(m0, src, va) <==> Seen(m0, src, va).Some?
    ensures Seen(m0, src, va).None? ==> Seen(m, dst, va) == Some(PageByte(m[0], va % PAGE_SIZE))
  {
    var j :| 0 <= j < |steps| && steps[j].va / PAGE_SIZE == va / PAGE_SIZE;
    SamePageNumber(steps[j].va, va);
    assert PageForked(m0, own0, src, m, own, dst, Di(steps[j]), Ti(steps[j]));
    assert DataPage(m0, own0, src, Di(steps[j]), Ti(steps[j]));
  }

  /** The frame that backs a page of an address space. */
  function FrameOf(m: Memory, dst: FrameNo, va: nat): FrameNo
    requires IsMemory(m) && va < USER_END
  {
    Pte(m, dst, DirIndex(va), TableIndex(va)).frame
  }

  /** Whatever the child stores in one of its copied pages, no other address space sees it:
      neither its parent nor anybody else. */
  lemma ChildStoresAreInvisible(m0: Memory, own0: Roles, m: Memory, own: Roles, src: FrameNo, dst: FrameNo, steps: seq<Step>,
                                va: nat, page: Frame, pd: FrameNo, vb: nat)
    requires AfterFork(m0, own0, m, own, src, dst, steps) && va < USER_END && Visited(steps, va) && Seen(m0, src, va).Some?
    requires |page| == ENTRIES && IsDirectory(own0, pd) && pd != dst
    requires vb < USER_END && DataPage(m0, own0, pd, DirIndex(vb), TableIndex(vb))
    ensures Seen(Stored(m, FrameOf(m, dst, va), page), pd, vb) == Seen(m0, pd, vb)
  {
    var j :| 0 <= j < |steps| && steps[j].va / PAGE_SIZE == va / PAGE_SIZE;
    SamePageNumber(steps[j].va, va);
    var f := FrameOf(m, dst, va);
    assert PageForked(m0, own0, src, m, own, dst, Di(steps[j]), Ti(steps[j]));
    assert Pte(m, pd, DirIndex(vb), TableIndex(vb)) == Pte(m0, pd, DirIndex(vb), TableIndex(vb));
    assert pd in own;
    StoreMovesNoPage(m, own, f, page, pd, DirIndex(vb), TableIndex(vb));
  }

  /** Whatever is stored in a frame that was in use before the fork, the parent's pages
      among them, the child does not see it. */
  lemma ParentStoresAreInvisible(m0: Memory, own0: Roles, m: Memory, own: Roles, src: FrameNo, dst: FrameNo, steps: seq<Step>,
                                 f: FrameNo, page: Frame, va: nat)
    requires AfterFork(m0, own0, m, own, src, dst, steps) && va < USER_END && Visited(steps, va) && Seen(m0, src, va).Some?
    requires |page| == ENTRIES && f in own0 && own0[f] == Page
    ensures Seen(Stored(m, f, page), dst, va) == Seen(m0, src, va)
  {
    ChildReadsWhatParentRead(m0, own0, m, own, src, dst, steps, va);
    var j :| 0 <= j < |steps| && steps[j].va / PAGE_SIZE == va / PAGE_SIZE;
    SamePageNumber(steps[j].va, va);
    assert PageForked(m0, own0, src, m, own, dst, Di(steps[j]), Ti(steps[j]));
    assert f in own && dst in own;
    StoreMovesNoPage(m, own, f, page, dst, DirIndex(va), TableIndex(va));
  }

  /** Inside the child too: storing in one copied page leaves every other one alone. */
  lemma ChildPagesAreSeparate(m0: Memory, own0: Roles, m: Memory, own: Roles, src: FrameNo, dst: FrameNo, steps: seq<Step>,
                              va: nat, page: Frame, vb: nat)
    requires AfterFork(m0, own0, m, own, src, dst, steps) && va < USER_END && vb < USER_END && va / PAGE_SIZE != vb / PAGE_SIZE
    requires Visited(steps, va) && Visited(steps, vb) && Seen(m0, src, va).Some? && Seen(m0, src, vb).Some?
    requires |page| == ENTRIES
    ensures Seen(Stored(m, FrameOf(m, dst, va), page), dst, vb) == Seen(m0, src, vb)
  {
    hide PageByte;
    ChildReadsWhatParentRead(m0, own0, m, own, src, dst, steps, vb);
    var j :| 0 <= j < |steps| && steps[j].va / PAGE_SIZE == va / PAGE_SIZE;
    var k :| 0 <= k < |steps| && steps[k].va / PAGE_SIZE == vb / PAGE_SIZE;
    SamePageNumber(steps[j].va, va);
    SamePageNumber(steps[k].va, vb);
    PageNumberSplit(va);
    PageNumberSplit(vb);
    assert PageForked(m0, own0, src, m, own, dst, Di(steps[j]), Ti(steps[j]));
    assert j < k ==> Separate(m0, src, m, dst, steps[j], steps[k]);
    assert k < j ==> Separate(m0, src, m, dst, steps[k], steps[j]);
    assert dst in own;
    StoreMovesNoPage(m, own, FrameOf(m, dst, va), page, dst, DirIndex(vb), TableIndex(vb));
  }

  /** The loop over all regions comes to every page of an area it does not miss the end of;
      an area that starts at a page is one. */
  lemma {:induction false} RegionVisited(areas: seq<Regions.Area>, k: nat, va: nat)
    requires FlagsFit(areas) && k < |areas| && areas[k].addr <= va < areas[k].End()
    requires areas[k].addr % PAGE_SIZE + (areas[k].size - 1) % PAGE_SIZE < PAGE_SIZE
    ensures Visited(AllSteps(areas), va)
  {
    EveryByteVisitedIff(areas[k]);
    AreaVisited(areas, k, va);
  }

  /** After a fork, at every address of such a region the child reads the byte the parent
      read exactly if the parent had one there, and the parent still reads it. */
  lemma {:induction false} RegionReadsTheSame(m0: Memory, own0: Roles, m: Memory, own: Roles, src: FrameNo, dst: FrameNo, areas: seq<Regions.Area>, k: nat, va: nat)
    requires FlagsFit(areas) && Regions.Ordered(areas) && AfterFork(m0, own0, m, own, src, dst, AllSteps(areas))
    requires k < |areas| && areas[k].addr <= va < areas[k].End()
    requires areas[k].addr % PAGE_SIZE + (areas[k].size - 1) % PAGE_SIZE < PAGE_SIZE
    ensures Seen(m, src, va) == Seen(m0, src, va)
    ensures Seen(m, dst, va) == Seen(m0, src, va) <==> Seen(m0, src, va).Some?
  {
    RegionVisited(areas, k, va);
    ChildReadsWhatParentRead(m0, own0, m, own, src, dst, AllSteps(areas), va);
  }

  /** ... and no store of the one is seen by the other: neither a page of the child's in the
      parent, nor a page of the parent's in the child. */
  lemma {:induction false} RegionStoresStayApart(m0: Memory, own0: Roles, m: Memory, own: Roles, src: FrameNo, dst: FrameNo, areas: seq<Regions.Area>,
                              k: nat, va: nat, l: nat, vb: nat, page: Frame)
    requires FlagsFit(areas) && Regions.Ordered(areas) && AfterFork(m0, own0, m, own, src, dst, AllSteps(areas)) && |page| == ENTRIES
    requires k < |areas| && areas[k].addr <= va < areas[k].End() && Seen(m0, src, va).Some?
    requires areas[k].addr % PAGE_SIZE + (areas[k].size - 1) % PAGE_SIZE < PAGE_SIZE
    requires l < |areas| && areas[l].addr <= vb < areas[l].End() && Seen(m0, src, vb).Some?
    requires areas[l].addr % PAGE_SIZE + (areas[l].size - 1) % PAGE_SIZE < PAGE_SIZE
    ensures Seen(Stored(m, FrameOf(m, dst, va), page), src, vb) == Seen(m0, src, vb)
    ensures Seen(Stored(m, FrameOf(m, src, va), page), dst, vb) == Seen(m0, src, vb)
  {
    var steps := AllSteps(areas);
    RegionVisited(areas, k, va);
    RegionVisited(areas, l, vb);
    StepOf(m0, own0, src, steps, va);
    StepOf(m0, own0, src, steps, vb);
    assert Pte(m, src, DirIndex(va), TableIndex(va)) == Pte(m0, src, DirIndex(va), TableIndex(va));
    ChildStoresAreInvisible(m0, own0, m, own, src, dst, steps, va, page, src, vb);
    ParentStoresAreInvisible(m0, own0, m, own, src, dst, steps, FrameOf(m, src, va), page, vb);
  }

  /** If the frames at hand were clean and the child had no page there, then over the whole
      of user space the child reads what the parent read exactly if the parent had a page
      and the loop came to it, or neither. */
  lemma {:induction false} ForkReadsIff(m0: Memory, own0: Roles, m: Memory, own: Roles, src: FrameNo, dst: FrameNo, areas: seq<Regions.Area>, va: nat)
    requires FlagsFit(areas) && AfterFork(m0, own0, m, own, src, dst, AllSteps(areas)) && RestKept(m0, m, dst, AllSteps(areas))
    requires va < USER_END && Seen(m0, dst, va).None?
    ensures Seen(m, dst, va) == Seen(m0, src, va)
       <==> (Seen(m0, src, va).Some? <==> exists k {:trigger areas[k]} :: 0 <= k < |areas| && InStride(areas[k], va))
  {
    var steps := AllSteps(areas);
    VisitedIff(areas, va);
    if Visited(steps, va) {
      ChildReadsWhatParentRead(m0, own0, m, own, src, dst, steps, va);
    } else {
      NotTurned(steps, va);
      assert Pte(m, dst, DirIndex(va), TableIndex(va)) == Pte(m0, dst, DirIndex(va), TableIndex(va));
    }
  }

  lemma {:induction false} NotTurned(steps: seq<Step>, va: nat)
    requires UserSteps(steps) && va < USER_END && !Visited(steps, va)
    ensures !Turned(steps, DirIndex(va), TableIndex(va))
  {
    PageNumberSplit(va);
    forall j | 0 <= j < |steps| && Di(steps[j]) == DirIndex(va) ensures Ti(steps[j]) != TableIndex(va) {
      PageNumberSplit(steps[j].va);
    }
  }

  /** Where the parent had no page, a store of the child's goes to frame 0, and it is seen
      in every page of every address space that is mapped to frame 0, and nowhere else; all
      such pages of the child are. */
  lemma FrameZeroIsShared(m0: Memory, own0: Roles, m: Memory, own: Roles, src: FrameNo, dst: FrameNo, steps: seq<Step>,
                          va: nat, page: Frame, pd: FrameNo, vb: nat)
    requires AfterFork(m0, own0, m, own, src, dst, steps) && va < USER_END && Visited(steps, va) && Seen(m0, src, va).None?
    requires |page| == ENTRIES && (0 in own ==> own[0] == Page) && IsDirectory(own, pd) && vb < USER_END
    ensures Seen(Stored(m, FrameOf(m, dst, va), page), pd, vb)
         == if Seen(m, pd, vb).Some? && FrameOf(m, pd, vb) == 0 then Some(PageByte(page, vb % PAGE_SIZE)) else Seen(m, pd, vb)
    ensures Visited(steps, vb) && Seen(m0, src, vb).None? ==> Seen(m, dst, vb).Some? && FrameOf(m, dst, vb) == 0
  {
    hide PageByte;
    ForkedAt(m0, own0, m, own, src, dst, steps, va);
    assert SlotOk(m, own, pd, DirIndex(vb));
    if Visited(steps, vb) {
      ForkedAt(m0, own0, m, own, src, dst, steps, vb);
    }
  }

  lemma ForkedAt(m0: Memory, own0: Roles, m: Memory, own: Roles, src: FrameNo, dst: FrameNo, steps: seq<Step>, va: nat)
    requires AfterFork(m0, own0, m, own, src, dst, steps) && va < USER_END && Visited(steps, va)
    ensures PageForked(m0, own0, src, m, own, dst, DirIndex(va), TableIndex(va))
  {
    var j :| 0 <= j < |steps| && steps[j].va / PAGE_SIZE == va / PAGE_SIZE;
    SamePageNumber(steps[j].va, va);
  }

  lemma StepOf(m0: Memory, own0: Roles, src: FrameNo, steps: seq<Step>, va: nat)
    requires IsMemory(m0) && UserSteps(steps) && Copyable(m0, own0, src, steps) && va < USER_END && Visited(steps, va)
    ensures DataPage(m0, own0, src, DirIndex(va), TableIndex(va))
  {
    var j :| 0 <= j < |steps| && steps[j].va / PAGE_SIZE == va / PAGE_SIZE;
    SamePageNumber(steps[j].va, va);
    assert DataPage(m0, own0, src, Di(steps[j]), Ti(steps[j]));
  }
}
