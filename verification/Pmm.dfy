/** Physical frames, one bit each: a bitmap with a search hint that wraps around, and
    first-fit pools of neighbouring frames. */
module Pmm {

  const FRAME_SIZE: nat := 4096
  const WORD: nat := 0x1_0000_0000
  const BITMAP_SIZE: nat := 0x2_0000

  // ------------------------------------------------------------------- the bits

  /** `0x80 >> bit` */
  function Mask(bit: nat): bv8
    requires bit < 8
  {
    match bit
    case 0 => 0x80
    case 1 => 0x40
    case 2 => 0x20
    case 3 => 0x10
    case 4 => 0x08
    case 5 => 0x04
    case 6 => 0x02
    case 7 => 0x01
  }

  predicate Bit(byte: bv8, bit: nat)
    requires bit < 8
  {
    (byte & Mask(bit)) != 0
  }

  /** What `__bit_set` does to the byte. */
  function WithBit(byte: bv8, bit: nat, value: bool): bv8
    requires bit < 8
  {
    (byte & !Mask(bit)) | (if value then Mask(bit) else 0)
  }

  lemma WithBitSets(byte: bv8, bit: nat, value: bool, other: nat)
    requires bit < 8 && other < 8
    ensures Bit(WithBit(byte, bit, value), other) == if other == bit then value else Bit(byte, other)
  {
  }

  // --------------------------------------------------------- bitmaps as sequences

  function CountFree(used: seq<bool>): (n: nat)
    ensures n <= |used|
  {
    if used == [] then 0
    else CountFree(used[..|used| - 1]) + if used[|used| - 1] then 0 else 1
  }

  lemma {:induction false} CountUpdate(used: seq<bool>, i: nat, v: bool)
    requires i < |used|
    ensures CountFree(used[i := v]) == CountFree(used) + (if used[i] then 1 else 0) - (if v then 1 else 0)
  {
    var init := used[..|used| - 1];
    if i < |init| {
      CountUpdate(init, i, v);
      assert used[i := v][..|used| - 1] == init[i := v];
    } else {
      assert used[i := v][..|used| - 1] == init;
    }
  }

  /** Marking a frame free keeps the account right exactly if the frame was in use. */
  lemma FreeCountsIffUsed(used: seq<bool>, i: nat)
    requires i < |used|
    ensures CountFree(used[i := false]) == CountFree(used) + 1 <==> used[i]
  {
    CountUpdate(used, i, false);
  }

  lemma {:induction false} SomeFree(used: seq<bool>, lo: nat)
    requires lo <= |used| && forall i {:trigger used[i]} :: lo <= i < |used| ==> used[i]
    ensures CountFree(used) == CountFree(used[..lo])
  {
    if lo == |used| {
      assert used[..lo] == used;
    } else {
      var init := used[..|used| - 1];
      assert forall i {:trigger init[i]} :: lo <= i < |init| ==> init[i] == used[i];
      SomeFree(init, lo);
      assert init[..lo] == used[..lo];
    }
  }

  lemma {:induction false} NoneFree(used: seq<bool>)
    requires forall i {:trigger used[i]} :: 0 <= i < |used| ==> used[i]
    ensures CountFree(used) == 0
  {
    SomeFree(used, 0);
  }

  /** The first clear bit from `from` on, or the length. */
  function FirstFree(used: seq<bool>, from: nat): (i: nat)
    requires from <= |used|
    ensures from <= i <= |used| && (i < |used| ==> !used[i])
    ensures forall k {:trigger used[k]} :: from <= k < i ==> used[k]
    decreases |used| - from
  {
    if from == |used| || !used[from] then from else FirstFree(used, from + 1)
  }

  lemma FirstFreeStep(used: seq<bool>, from: nat)
    requires from < |used|
    ensures FirstFree(used, from) == if !used[from] then from else FirstFree(used, from + 1)
    ensures FirstFree(used, |used|) == |used|
  {
  }

  /** n free frames from s on. */
  ghost predicate RunAt(used: seq<bool>, s: nat, n: nat) {
    s + n <= |used| && forall i {:trigger used[i]} :: s <= i < s + n ==> !used[i]
  }

  function Marked(used: seq<bool>, s: nat, n: nat, v: bool): (used': seq<bool>)
    requires s + n <= |used|
    ensures |used'| == |used|
    ensures forall i {:trigger used'[i]} :: 0 <= i < |used| ==> used'[i] == if s <= i < s + n then v else used[i]
  {
    if n == 0 then used else Marked(used, s, n - 1, v)[s + n - 1 := v]
  }

  lemma {:induction false} CountMarked(used: seq<bool>, s: nat, n: nat)
    requires RunAt(used, s, n)
    ensures CountFree(Marked(used, s, n, true)) == CountFree(used) - n
  {
    if n > 0 {
      assert RunAt(used, s, n - 1);
      CountMarked(used, s, n - 1);
      CountUpdate(Marked(used, s, n - 1, true), s + n - 1, true);
    }
  }

  /** Releasing a pool undoes taking it. */
  lemma {:induction false} ReleaseUndoesTake(used: seq<bool>, s: nat, n: nat)
    requires RunAt(used, s, n)
    ensures Marked(Marked(used, s, n, true), s, n, false) == used
  {
  }

  // ---------------------------------------------------------------- the allocator

  datatype Result = Frame(addr: nat) | OutOfMemory

  class FrameAllocator {
    const bitmap: array<bv8>
    var kernelEndIdx: nat
    var lastFreeIdx: nat
    var totalFrames: nat
    var freeFrames: nat
    /** One entry for each frame there is. */
    ghost var used: seq<bool>

    predicate BitAt(i: nat)
      requires i / 8 < bitmap.Length
      reads bitmap
    {
      Bit(bitmap[i / 8], i % 8)
    }

    ghost predicate Mapped()
      reads this`totalFrames, this`used, bitmap
    {
      && bitmap.Length == BITMAP_SIZE && |used| == totalFrames < WORD / FRAME_SIZE
      && forall i: nat {:trigger BitAt(i)} {:trigger used[i]} :: i < totalFrames ==> BitAt(i) == used[i]
    }

    /** The bitmap holds `used`, the counter its clear bits; the frames of the kernel are in
        use and the search hint never points into them. */
    ghost predicate Valid()
      reads this, bitmap
    {
      Mapped() && freeFrames == CountFree(used) && Hinted()
    }

    ghost predicate Hinted()
      reads this`kernelEndIdx, this`lastFreeIdx, this`totalFrames, this`used
    {
      && kernelEndIdx <= lastFreeIdx <= totalFrames == |used| && kernelEndIdx < totalFrames
      && forall i {:trigger used[i]} :: 0 <= i <= kernelEndIdx ==> used[i]
    }

    /** `__bit_set` */
    method BitSet(idx: nat, value: bool)
      requires Mapped() && idx < totalFrames
      modifies bitmap, this`used
      ensures Mapped() && used == old(used)[idx := value]
    {
      forall other: nat | other < 8
        ensures Bit(WithBit(bitmap[idx / 8], idx % 8, value), other) == if other == idx % 8 then value else Bit(bitmap[idx / 8], other)
      {
        WithBitSets(bitmap[idx / 8], idx % 8, value, other);
      }
      bitmap[idx / 8] := WithBit(bitmap[idx / 8], idx % 8, value);
      used := used[idx := value];
      forall i: nat | i < totalFrames ensures BitAt(i) == used[i] {
        SameIndex(i, idx);
        assert old(BitAt(i)) == old(used[i]);
      }
    }

    static lemma SameIndex(i: nat, j: nat)
      ensures i == j <==> i / 8 == j / 8 && i % 8 == j % 8
    {
    }

    /** `__bit_get` */
    method BitGet(idx: nat) returns (bit: bool)
      requires Mapped() && idx < totalFrames
      ensures bit == used[idx]
    {
      bit := BitAt(idx);
    }

    /** `_IDX_SET`; the counter is a 32-bit word. */
    method IdxSet(idx: nat)
      requires Mapped() && idx < totalFrames
      modifies bitmap, this`used, this`freeFrames
      ensures Mapped() && used == old(used)[idx := true]
      ensures freeFrames == if old(freeFrames) == 0 then WORD - 1 else old(freeFrames) - 1
    {
      BitSet(idx, true);
      freeFrames := if freeFrames == 0 then WORD - 1 else freeFrames - 1;
    }

    /** `_IDX_UNSET` */
    method IdxUnset(idx: nat)
      requires Mapped() && idx < totalFrames
      modifies bitmap, this`used, this`freeFrames
      ensures Mapped() && used == old(used)[idx := false] && freeFrames == old(freeFrames) + 1
    {
      BitSet(idx, false);
      freeFrames := freeFrames + 1;
    }

    static function Reserved(end: nat): nat { (end + FRAME_SIZE - 1) / FRAME_SIZE }

    /** `pmm_init`, for memory that is reserved from address 0 on: exactly the frames below
        the end of the reserved memory are in use. */
    constructor (totalMemory: nat, reservedEnd: nat)
      requires totalMemory < WORD && 0 < reservedEnd && Reserved(reservedEnd) <= totalMemory / FRAME_SIZE
      ensures Valid() && totalFrames == totalMemory / FRAME_SIZE && kernelEndIdx == Reserved(reservedEnd) - 1
      ensures used == Marked(seq(totalFrames, _ => false), 0, Reserved(reservedEnd), true)
      ensures lastFreeIdx == Reserved(reservedEnd) && reservedEnd <= FRAME_SIZE * lastFreeIdx < reservedEnd + FRAME_SIZE
    {
      bitmap := new bv8[BITMAP_SIZE](_ => 0);
      totalFrames := totalMemory / FRAME_SIZE;
      freeFrames := totalMemory / FRAME_SIZE;
      lastFreeIdx, kernelEndIdx := 0, 0;
      used := seq(totalMemory / FRAME_SIZE, _ => false);
      new;
      ghost var clear := used;
      forall i: nat | i < totalFrames ensures BitAt(i) == used[i] {
        assert (0 & Mask(i % 8)) == 0;
      }
      AllFree(clear);
      var i := 0;
      while i < reservedEnd
        invariant i == FRAME_SIZE * lastFreeIdx && lastFreeIdx <= Reserved(reservedEnd)
        invariant Mapped() && totalFrames == totalMemory / FRAME_SIZE
        invariant used == Marked(clear, 0, lastFreeIdx, true) && freeFrames == CountFree(used) == totalFrames - lastFreeIdx
        decreases Reserved(reservedEnd) - lastFreeIdx
      {
        assert i / FRAME_SIZE == lastFreeIdx < Reserved(reservedEnd);
        Reserve(i / FRAME_SIZE, clear);
        i := i + FRAME_SIZE;
      }
      kernelEndIdx := lastFreeIdx - 1;
    }

    method Reserve(idx: nat, ghost clear: seq<bool>)
      requires Mapped() && idx == lastFreeIdx < totalFrames && |clear| == totalFrames && !clear[idx]
      requires used == Marked(clear, 0, lastFreeIdx, true) && freeFrames == CountFree(used) == totalFrames - lastFreeIdx
      modifies bitmap, this`used, this`freeFrames, this`lastFreeIdx
      ensures Mapped() && lastFreeIdx == old(lastFreeIdx) + 1
      ensures used == Marked(clear, 0, lastFreeIdx, true) && freeFrames == CountFree(used) == totalFrames - lastFreeIdx
    {
      hide Mapped;
      CountUpdate(used, idx, true);
      IdxSet(idx);
      lastFreeIdx := lastFreeIdx + 1;
    }

    static lemma {:induction false} AllFree(clear: seq<bool>)
      requires forall i {:trigger clear[i]} :: 0 <= i < |clear| ==> !clear[i]
      ensures CountFree(clear) == |clear|
    {
      if clear != [] {
        AllFree(clear[..|clear| - 1]);
      }
    }

    /** The frame that will be handed out: the first free one from the hint on, or else the
        first free one behind the kernel. */
    ghost function NextFrame(): nat
      requires Hinted()
      reads this`kernelEndIdx, this`lastFreeIdx, this`totalFrames, this`used
    {
      var i := FirstFree(used, lastFreeIdx);
      if i < totalFrames then i else FirstFree(used, kernelEndIdx)
    }

    /** All frames from the hint up to it are in use, or else all from the hint to the end and
        all in front of it. */
    lemma NextIsFirst()
      requires Hinted()
      ensures forall i {:trigger used[i]} ::
        (if NextFrame() >= lastFreeIdx then lastFreeIdx else 0) <= i < NextFrame() ==> used[i]
      ensures NextFrame() < lastFreeIdx ==> forall i {:trigger used[i]} :: lastFreeIdx <= i < totalFrames ==> used[i]
      ensures NextFrame() < totalFrames ==> !used[NextFrame()]
    {
    }

    /** `pmm_get_frame`: it hands out a frame that is free, exactly if there is one, and after
        one fruitless search starts over once. */
    method GetFrame() returns (r: Result)
      requires Valid()
      modifies this, bitmap
      ensures Valid() && totalFrames == old(totalFrames) && kernelEndIdx == old(kernelEndIdx)
      ensures r == OutOfMemory <==> old(CountFree(used)) == 0
      ensures r == OutOfMemory ==> used == old(used)
      ensures r.Frame? ==> old(NextFrame()) < totalFrames && kernelEndIdx < old(NextFrame()) && !old(used)[old(NextFrame())]
      ensures r.Frame? ==> r.addr == old(NextFrame()) * FRAME_SIZE && used == old(used)[old(NextFrame()) := true]
      ensures r.Frame? ==> lastFreeIdx == 1 + if FirstFree(old(used), old(lastFreeIdx)) < totalFrames then old(lastFreeIdx) else kernelEndIdx
      decreases if FirstFree(used, lastFreeIdx) < totalFrames then 0 else 1
    {
      hide Mapped, CountFree, BitAt, FirstFree;
      if freeFrames == 0 {
        return OutOfMemory;
      }
      SomeIsFree();
      var newFrameAddr := 0;
      var i := lastFreeIdx;
      while i < totalFrames
        invariant Valid() && used == old(used) && lastFreeIdx == old(lastFreeIdx) <= i <= totalFrames == old(totalFrames)
        invariant kernelEndIdx == old(kernelEndIdx) && freeFrames == old(freeFrames) && newFrameAddr == 0
        invariant FirstFree(used, i) == FirstFree(used, lastFreeIdx)
      {
        var bit := BitGet(i);
        FirstFreeStep(used, i);
        if !bit {
          CountUpdate(used, i, true);
          IdxSet(i);
          lastFreeIdx := lastFreeIdx + 1;
          newFrameAddr := i * FRAME_SIZE;
          break;
        }
        i := i + 1;
      }
      if newFrameAddr == 0 {
        lastFreeIdx := kernelEndIdx;
        r := GetFrame();
      } else {
        r := Frame(newFrameAddr);
      }
    }

    lemma SomeIsFree()
      requires Valid() && freeFrames > 0
      ensures FirstFree(used, kernelEndIdx) < totalFrames && kernelEndIdx < FirstFree(used, kernelEndIdx)
    {
      if FirstFree(used, kernelEndIdx) == totalFrames {
        NoneFree(used);
      }
    }

    /** The frame may be given back: it is not one of the kernel's, and it is in use. */
    static ghost predicate Owned(used: seq<bool>, kernelEnd: nat, idx: nat) {
      kernelEnd < idx < |used| && used[idx]
    }

    /** `pmm_free_frame`: the books stay right exactly if the frame was the caller's to give,
        or no frame at all. */
    method FreeFrame(addr: nat)
      requires Valid()
      modifies this, bitmap
      ensures totalFrames == old(totalFrames) && kernelEndIdx == old(kernelEndIdx)
      ensures Valid() <==> Owned(old(used), kernelEndIdx, addr / FRAME_SIZE) || addr / FRAME_SIZE >= totalFrames
      ensures used == if addr / FRAME_SIZE < totalFrames then old(used)[addr / FRAME_SIZE := false] else old(used)
      ensures lastFreeIdx == if addr / FRAME_SIZE < totalFrames then addr / FRAME_SIZE else old(lastFreeIdx)
    {
      hide Mapped, CountFree;
      var frameIdx := addr / FRAME_SIZE;
      if frameIdx < totalFrames {
        UsedLength();
        FreeCountsIffUsed(used, frameIdx);
        IdxUnset(frameIdx);
        assert !used[frameIdx];
        lastFreeIdx := frameIdx;
      }
    }

    lemma UsedLength()
      requires Mapped()
      ensures |used| == totalFrames
    {
    }

    /** The search of `pmm_get_pool`: the lowest run of free frames behind the kernel.  A
        search for no frames goes on to the end and succeeds, at frame 0, exactly if the
        last frame is in use. */
    method FindPool(frames: nat) returns (start: nat, end: nat, counter: nat)
      requires Mapped() && Hinted()
      ensures frames == 0 ==> (counter == 0 <==> used[totalFrames - 1]) && (counter == 0 ==> start == 0 && end == 0)
      ensures frames > 0 && counter == frames ==> kernelEndIdx <= start && end == start + frames - 1 && RunAt(used, start, frames)
      ensures frames > 0 && counter == frames ==> forall s: nat {:trigger RunAt(used, s, frames)} :: kernelEndIdx <= s && RunAt(used, s, frames) ==> start <= s
      ensures counter != frames && frames > 0 ==> forall s: nat {:trigger RunAt(used, s, frames)} :: kernelEndIdx <= s ==> !RunAt(used, s, frames)
    {
      hide Mapped;
      UsedLength();
      var isFirst := true;
      start, end, counter := 0, 0, 0;
      var i := kernelEndIdx;
      while i < totalFrames
        invariant kernelEndIdx <= i <= totalFrames && (frames > 0 ==> counter < frames) && (isFirst <==> counter == 0) && counter <= i - kernelEndIdx
        invariant if counter > 0 then start == i - counter else start == 0 && end == 0
        invariant i > kernelEndIdx ==> (counter == 0 <==> used[i - 1])
        invariant RunAt(used, i - counter, counter)
        invariant frames > 0 ==> forall s: nat {:trigger RunAt(used, s, frames)} :: kernelEndIdx <= s && RunAt(used, s, frames) ==> i - counter <= s
      {
        var bit := BitGet(i);
        if !bit {
          if isFirst {
            start := i;
          }
          isFirst := false;
          counter := counter + 1;
          if counter == frames {
            end := i;
            break;
          }
          i := i + 1;
          continue;
        }
        forall s: nat | frames > 0 && kernelEndIdx <= s && RunAt(used, s, frames) ensures i + 1 <= s {
          assert used[i] && i - counter <= s;
        }
        isFirst := true;
        counter := 0;
        start := 0;
        end := 0;
        i := i + 1;
      }
    }

    /** `pmm_get_pool`: the lowest run that is long enough, or 0 exactly if there is none.  A
        request for no frames spoils the books exactly if the last frame is in use: then
        frame 0 is taken a second time. */
    method GetPool(frames: nat) returns (addr: nat)
      requires Valid()
      modifies bitmap, this`used, this`freeFrames
      ensures Valid() <==> frames > 0 || !old(used)[totalFrames - 1]
      ensures frames > 0 ==> (addr == 0 <==> forall s: nat {:trigger RunAt(old(used), s, frames)} :: kernelEndIdx <= s ==> !RunAt(old(used), s, frames))
      ensures frames == 0 ==> addr == 0
      ensures addr == 0 ==> used == old(used)
      ensures addr != 0 ==> var s := addr / FRAME_SIZE;
        && addr == s * FRAME_SIZE && kernelEndIdx < s && RunAt(old(used), s, frames)
        && used == Marked(old(used), s, frames, true) && freeFrames == old(freeFrames) - frames
        && forall t: nat {:trigger RunAt(old(used), t, frames)} :: kernelEndIdx <= t && RunAt(old(used), t, frames) ==> s <= t
    {
      hide Mapped, CountFree;
      UsedLength();
      var start, end, counter := FindPool(frames);
      addr := 0;
      if counter == frames {
        assert used[kernelEndIdx] && used[0];
        assert frames > 0 ==> RunAt(used, start, frames);
        if frames > 0 { CountMarked(used, start, frames); }
        assert used[0 := true] == used;
        TakePool(start, end);
        addr := start * FRAME_SIZE;
      }
    }

    /** The loop that marks a pool: right for free frames, wrong for one that is in use. */
    method TakePool(start: nat, end: nat)
      requires Mapped() && start <= end < totalFrames && freeFrames == CountFree(used)
      requires RunAt(used, start, end - start + 1) || (start == end && used[start])
      modifies bitmap, this`used, this`freeFrames
      ensures Mapped() && used == Marked(old(used), start, end - start + 1, true)
      ensures freeFrames == CountFree(used) <==> RunAt(old(used), start, end - start + 1)
    {
      ghost var used0 := used;
      FreeAtMost(used0);
      var i := start;
      while i <= end
        invariant start <= i <= end + 1 && Mapped() && used == Marked(used0, start, i - start, true)
        invariant freeFrames == CountFree(used) <==> i == start || !used0[start]
      {
        CountUpdate(used, i, true);
        IdxSet(i);
        i := i + 1;
      }
    }

    static lemma {:induction false} FreeAtMost(used: seq<bool>)
      ensures CountFree(used) <= |used|
    {
      if used != [] {
        FreeAtMost(used[..|used| - 1]);
      }
    }

    /** How many of so many frames from s on there are. */
    static function There(total: nat, s: nat, frames: nat): nat {
      if s >= total then 0 else if frames < total - s then frames else total - s
    }

    static function Released(used: seq<bool>, s: nat, frames: nat): (used': seq<bool>)
      ensures |used'| == |used| && forall i {:trigger used'[i]} :: 0 <= i < |used| ==> used'[i] == (used[i] && !(s <= i < s + frames))
    {
      if s >= |used| then used else Marked(used, s, There(|used|, s, frames), false)
    }

    /** Each of the frames was in use. */
    static ghost predicate AllUsed(used: seq<bool>, s: nat, frames: nat) {
      forall i {:trigger used[i]} :: s <= i < s + There(|used|, s, frames) ==> used[i]
    }

    static lemma ReleaseStep(used: seq<bool>, s: nat, i: nat)
      ensures |Released(used, s, i)| == |used|
      ensures s + i >= |used| ==> Released(used, s, i + 1) == Released(used, s, i) && There(|used|, s, i + 1) == There(|used|, s, i)
      ensures s + i < |used| ==>
        && Released(used, s, i)[s + i] == used[s + i] && Released(used, s, i + 1) == Released(used, s, i)[s + i := false]
        && CountFree(Released(used, s, i + 1)) == CountFree(Released(used, s, i)) + (if used[s + i] then 1 else 0)
        && There(|used|, s, i) == i && (AllUsed(used, s, i + 1) <==> AllUsed(used, s, i) && used[s + i])
    {
      if s + i < |used| { CountUpdate(Released(used, s, i), s + i, false); }
    }

    /** Every frame of the pool that there is may be given back. */
    static ghost predicate AllOwned(used: seq<bool>, kernelEnd: nat, s: nat, frames: nat) {
      forall i: nat {:trigger Owned(used, kernelEnd, i)} :: s <= i < s + frames && i < |used| ==> Owned(used, kernelEnd, i)
    }

    /** `pmm_free_pool`: the books stay right exactly if every frame of the pool that there is
        was the caller's to give. */
    method FreePool(addr: nat, frames: nat)
      requires Valid()
      modifies bitmap, this`used, this`freeFrames, this`lastFreeIdx
      ensures Valid() <==> AllOwned(old(used), kernelEndIdx, addr / FRAME_SIZE, frames)
      ensures used == Released(old(used), addr / FRAME_SIZE, frames)
      ensures freeFrames == old(freeFrames) + There(totalFrames, addr / FRAME_SIZE, frames)
      ensures lastFreeIdx == if frames == 0 || addr / FRAME_SIZE >= totalFrames then old(lastFreeIdx)
                             else if addr / FRAME_SIZE + frames <= totalFrames then addr / FRAME_SIZE + frames - 1 else totalFrames - 1
    {
      hide Mapped, CountFree, Released, AllUsed;
      UsedLength();
      ghost var used0, last0 := used, lastFreeIdx;
      var s := addr / FRAME_SIZE;
      NothingReleased(used, s);
      var i, j := 0, s;
      while i < frames
        invariant i <= frames && j == s + i && Mapped() && used == Released(used0, s, i) && |used| == totalFrames
        invariant freeFrames == old(freeFrames) + There(totalFrames, s, i) && freeFrames >= CountFree(used)
        invariant freeFrames == CountFree(used) <==> AllUsed(used0, s, i)
        invariant lastFreeIdx == LastGiven(totalFrames, s, i, last0)
      {
        ReleaseStep(used0, s, i);
        if j < totalFrames {
          IdxUnset(j);
          lastFreeIdx := j;
        } else {
          assert AllUsed(used0, s, i + 1) == AllUsed(used0, s, i) by { StaysAllUsed(used0, s, i); }
        }
        i, j := i + 1, j + 1;
      }
      BooksRight(used0, s, frames, last0);
    }

    static lemma StaysAllUsed(used: seq<bool>, s: nat, i: nat)
      requires s + i >= |used|
      ensures AllUsed(used, s, i + 1) == AllUsed(used, s, i)
    {
    }

    static lemma {:induction false} NothingReleased(used: seq<bool>, s: nat)
      ensures Released(used, s, 0) == used && AllUsed(used, s, 0)
    {
    }

    /** The frame freed last, which the next search starts from. */
    static function LastGiven(total: nat, s: nat, frames: nat, last: nat): nat {
      var n := There(total, s, frames);
      if n == 0 then last else s + n - 1
    }

    lemma BooksRight(used0: seq<bool>, s: nat, frames: nat, last0: nat)
      requires Mapped() && |used| == |used0| == totalFrames && used == Released(used0, s, frames)
      requires freeFrames == CountFree(used) <==> AllUsed(used0, s, frames)
      requires lastFreeIdx == LastGiven(totalFrames, s, frames, last0) && kernelEndIdx <= last0 <= totalFrames && kernelEndIdx < totalFrames
      requires forall i {:trigger used0[i]} :: 0 <= i <= kernelEndIdx ==> used0[i]
      ensures Valid() <==> AllOwned(used0, kernelEndIdx, s, frames)
    {
      hide Mapped, CountFree;
      var n := There(totalFrames, s, frames);
      assert n > 0 && s <= kernelEndIdx ==> !used[s] && !Owned(used0, kernelEndIdx, s);
      if AllOwned(used0, kernelEndIdx, s, frames) {
        forall i | s <= i < s + n ensures used0[i] {
          assert Owned(used0, kernelEndIdx, i);
        }
      }
    }
  }
}
