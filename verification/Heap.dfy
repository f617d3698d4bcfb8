/** The kernel's chunk heap: kmalloc and kfree.

    Memory is a map from chunk addresses to chunk headers, so that the address
    arithmetic of the allocator (`chunk + size`) stays visible.  The keys of the
    map are the chunks carved so far plus the trailing "void" chunk. */
module Heap {

  import opened Lists

  const CHUNK_ALIGNMENT: nat := 16
  const MINIMAL_CHUNK_SIZE: nat := 16
  const CHUNK_DATA_OFFSET: nat := 8
  const SIZEBINS: nat := 5
  const SORTEDBIN: nat := 5
  const NULL: nat := 0
  const WORD: nat := 0x1_0000_0000
  const SIZE_FIELD: nat := 0x4000_0000
  const VM_KERN_START: nat := 0xc000_0000
  const VM_KMALLOC_END: nat := 0xd000_0000
  const VM_VMALLOC_START: nat := 0xd000_0000
  const LARGEST_REQUEST: nat := 0xffff_ffe8

  /** A chunk header.  `prev` and `next` overlay the first payload bytes, so they
      carry list links only while the chunk is free. */
  datatype Header = Header(size: nat, free: bool, prevFree: bool, prevSize: nat, prev: nat, next: nat)

  datatype Bin = Bin(storedSize: nat, counter: nat, first: nat, last: nat)

  datatype Outcome = Done(ptr: nat) | Panic

  type Memory = map<nat, Header>

  // ---------------------------------------------------------------- requests

  /** The chunk size kmalloc computes for a request, in 32-bit arithmetic. */
  function ChunkSizeFor(size: nat): nat {
    var rounded := if size % CHUNK_ALIGNMENT > 0
                   then (size - size % CHUNK_ALIGNMENT + CHUNK_ALIGNMENT) % WORD
                   else size;
    if (size + CHUNK_DATA_OFFSET) % WORD > rounded
    then (rounded + CHUNK_ALIGNMENT) % WORD
    else rounded
  }

  lemma RoundedRequest(size: nat, q: nat, r: nat)
    requires size < WORD && size == 16 * q + r && r < 16
    ensures ChunkSizeFor(size) ==
      if q == 0xfff_ffff then (if r == 0 || r == 8 then 0 else 16)
      else (16 * q + if r <= 8 then 16 else 32) % WORD
  {
    Remainder16(size, q, r);
  }

  lemma Remainder16(size: nat, q: nat, r: nat)
    requires size == 16 * q + r && r < 16
    ensures size % 16 == r
  {
  }

  /** A request is given a well-formed chunk with room for all its bytes exactly
      when it is at most 24 bytes below the word limit; above that the rounding
      wraps around. */
  lemma RequestFits(size: nat)
    requires size < WORD
    ensures (ChunkSizeFor(size) >= MINIMAL_CHUNK_SIZE && ChunkSizeFor(size) - CHUNK_DATA_OFFSET >= size)
            <==> size <= LARGEST_REQUEST
    ensures ChunkSizeFor(size) % CHUNK_ALIGNMENT == 0
    ensures size <= LARGEST_REQUEST ==> ChunkSizeFor(size) < size + CHUNK_DATA_OFFSET + CHUNK_ALIGNMENT
  {
    hide ChunkSizeFor;
    RoundedRequest(size, size / 16, size % 16);
  }

  /** Exactly these requests wrap around to a chunk of no size at all. */
  lemma RequestsForNothing(size: nat)
    requires size < WORD
    ensures ChunkSizeFor(size) == 0 <==>
      (LARGEST_REQUEST < size <= 0xffff_fff0) || size == 0xffff_fff8
  {
    RoundedRequest(size, size / 16, size % 16);
  }

  /** The bin kfree chooses for a chunk of the given size. */
  function BinIndex(size: nat): (k: nat)
    ensures k <= SORTEDBIN
  {
    if size == 32 then 0
    else if size == 48 then 1
    else if size == 64 then 2
    else if size == 80 then 3
    else if size == 96 then 4
    else SORTEDBIN
  }

  function StoredSize(k: nat): nat {
    if k < SIZEBINS then 32 + k * CHUNK_ALIGNMENT else 0
  }

  // -------------------------------------------------------------- invariants

  /** The address where the chunk at `a` ends. */
  function EndOf(mem: Memory, a: nat): nat
    requires a in mem
  {
    a + mem[a].size
  }

  /** Chunks lie end to end from `start` up to the void chunk, without overlap. */
  ghost predicate Tiles(mem: Memory, start: nat, void: nat) {
    && 0 < start && start in mem && void in mem && mem[void].free
    && (forall a {:trigger a in mem} :: a in mem ==> start <= a <= void)
    && (forall a {:trigger mem[a].size} :: a in mem ==>
          && MINIMAL_CHUNK_SIZE <= mem[a].size < SIZE_FIELD
          && (a != void ==> mem[a].size % CHUNK_ALIGNMENT == 0))
    && (forall a {:trigger EndOf(mem, a)} :: a in mem && a != void ==> EndOf(mem, a) in mem)
    && (forall a, b {:trigger EndOf(mem, a), b in mem} :: a in mem && b in mem && a < b ==> EndOf(mem, a) <= b)
  }

  /** The tiling depends only on where the chunks are and how big they are. */
  lemma TilesFrame(mem: Memory, mem': Memory, start: nat, void: nat)
    requires Tiles(mem, start, void) && mem'.Keys == mem.Keys && mem'[void].free
    requires forall a {:trigger mem'[a]} :: a in mem' ==> mem'[a].size == mem[a].size
    ensures Tiles(mem', start, void)
  {
    assert forall a {:trigger EndOf(mem', a)} :: a in mem ==> EndOf(mem', a) == EndOf(mem, a);
  }

  /** `list` is the chain of `next` links that starts at `first`. */
  ghost predicate Chain(mem: Memory, first: nat, list: seq<nat>) {
    && first == (if list == [] then NULL else list[0])
    && (forall i {:trigger list[i]} :: 0 <= i < |list| ==> list[i] in mem)
    && (forall i {:trigger mem[list[i]].next} :: 0 <= i < |list| ==>
          mem[list[i]].next == (if i + 1 < |list| then list[i + 1] else NULL))
  }

  ghost predicate BackChain(mem: Memory, last: nat, list: seq<nat>) {
    && last == (if list == [] then NULL else list[|list| - 1])
    && (forall i {:trigger list[i]} :: 0 <= i < |list| ==> list[i] in mem)
    && (forall i {:trigger mem[list[i]].prev} :: 0 <= i < |list| ==>
          mem[list[i]].prev == (if i == 0 then NULL else list[i - 1]))
  }

  ghost predicate SortedBySize(mem: Memory, list: seq<nat>) {
    && (forall i {:trigger list[i]} :: 0 <= i < |list| ==> list[i] in mem)
    && (forall i, j {:trigger list[i], list[j]} :: 0 <= i <= j < |list| ==>
          mem[list[i]].size <= mem[list[j]].size)
  }

  ghost predicate BinOk(mem: Memory, bin: Bin, k: nat, list: seq<nat>) {
    && bin.storedSize == StoredSize(k)
    && bin.counter == |list|
    && Distinct(list)
    && Chain(mem, bin.first, list)
    && (k == SORTEDBIN ==> BackChain(mem, bin.last, list) && SortedBySize(mem, list))
  }

  ghost predicate BinsOk(mem: Memory, bins: seq<Bin>, lists: seq<seq<nat>>) {
    && |bins| == |lists| == SORTEDBIN + 1
    && (forall k {:trigger lists[k]} {:trigger bins[k]} :: 0 <= k <= SORTEDBIN ==> BinOk(mem, bins[k], k, lists[k]))
  }

  /** Five sizes have a bin of their own, the one that records that size; all other sizes
      share the sorted bin. */
  lemma OwnBinIff(size: nat, k: nat)
    ensures BinIndex(size) < SIZEBINS <==> size == 32 || size == 48 || size == 64 || size == 80 || size == 96
    ensures k < SIZEBINS ==> (BinIndex(size) == k <==> size == StoredSize(k))
  {
  }

  /** The chunks in bin k have the size the bin records. */
  lemma BinHoldsItsSize(mem: Memory, bins: seq<Bin>, lists: seq<seq<nat>>, void: nat, hole: nat, k: nat, a: nat)
    requires BinsOk(mem, bins, lists) && Members(mem, lists, void, hole) && k < SIZEBINS && a in lists[k]
    ensures a in mem && mem[a].free && mem[a].size == bins[k].storedSize == 16 * (k + 2)
  {
    OwnBinIff(mem[a].size, k);
    assert BinOk(mem, bins[k], k, lists[k]);
  }

  /** Every chunk is either live or in exactly one bin, and its `free` flag says
      which.  `hole` is a chunk that is momentarily exempt: it is in no bin. */
  ghost predicate Members(mem: Memory, lists: seq<seq<nat>>, void: nat, hole: nat) {
    && |lists| == SORTEDBIN + 1
    && (forall k, a {:trigger a in lists[k]} :: 0 <= k <= SORTEDBIN && a in lists[k] ==>
          a in mem && a != void && a != hole && mem[a].free && BinIndex(mem[a].size) == k)
    && (forall a {:trigger mem[a].free} :: a in mem && a != void && a != hole && mem[a].free ==>
          a in lists[BinIndex(mem[a].size)])
  }

  /** A set `prevFree` behind chunk `a` says truly that `a` is free and how big it is. */
  ghost predicate TagTrue(mem: Memory, a: nat)
    requires a in mem
  {
    var b := EndOf(mem, a);
    b in mem && (mem[b].prevFree ==> mem[a].free && mem[b].prevSize == mem[a].size)
  }

  /** Boundary tags: a set `prevFree` tells the truth about the physically
      preceding chunk.  The neighbour of `except` is momentarily exempt. */
  ghost predicate Tags(mem: Memory, start: nat, void: nat, except: nat) {
    && start in mem && void in mem && !mem[start].prevFree && !mem[void].prevFree
    && (forall a {:trigger TagTrue(mem, a)} :: a in mem && a != void && a != except ==> TagTrue(mem, a))
  }

  /** Chunk `a` has been handed out and not yet given back. */
  ghost predicate IsLive(mem: Memory, void: nat, a: nat) {
    a in mem && a != void && !mem[a].free
  }

  /** The size and the payload words of chunk `a` are the same in both memories. */
  ghost predicate SameChunk(mem: Memory, mem': Memory, a: nat) {
    && a in mem && a in mem' && mem'[a].size == mem[a].size
    && mem'[a].prev == mem[a].prev && mem'[a].next == mem[a].next
  }

  /** The live chunks of `mem'` are those of `mem` and the `added` ones; the old ones are untouched. */
  ghost predicate LivePlus(mem: Memory, void: nat, mem': Memory, void': nat, added: set<nat>) {
    && (forall a {:trigger IsLive(mem', void', a)} :: IsLive(mem', void', a) <==> IsLive(mem, void, a) || a in added)
    && (forall a {:trigger SameChunk(mem, mem', a)} :: IsLive(mem, void, a) ==> SameChunk(mem, mem', a))
  }

  /** The live chunks of `mem'` are those of `mem` but `gone`; the others are untouched. */
  ghost predicate LiveMinus(mem: Memory, void: nat, mem': Memory, void': nat, gone: nat) {
    && (forall a {:trigger IsLive(mem', void', a)} :: IsLive(mem', void', a) <==> IsLive(mem, void, a) && a != gone)
    && (forall a {:trigger SameChunk(mem, mem', a)} :: IsLive(mem, void, a) && a != gone ==> SameChunk(mem, mem', a))
  }

  /** Memory after `chunk` is linked into the doubly linked `list` at position `at`. */
  ghost function Splice(mem: Memory, list: seq<nat>, at: nat, chunk: nat): Memory
    requires at <= |list| && chunk in mem && chunk !in list
    requires forall i {:trigger list[i]} :: 0 <= i < |list| ==> list[i] in mem
  {
    var before := if at == 0 then NULL else list[at - 1];
    var after := if at == |list| then NULL else list[at];
    var m1 := mem[chunk := mem[chunk].(prev := before, next := after)];
    var m2 := if at == |list| then m1 else m1[after := m1[after].(prev := chunk)];
    if at == 0 then m2 else m2[before := m2[before].(next := chunk)]
  }

  lemma SpliceAt(mem: Memory, first: nat, last: nat, list: seq<nat>, at: nat, chunk: nat, i: nat)
    requires at <= |list| && chunk in mem && chunk !in list && Distinct(list) && i < |list|
    requires Chain(mem, first, list) && BackChain(mem, last, list)
    ensures var mem' := Splice(mem, list, at, chunk);
      && list[i] in mem'
      && mem'[list[i]].next == (if i + 1 == at then chunk else if i + 1 < |list| then list[i + 1] else NULL)
      && mem'[list[i]].prev == (if i == at then chunk else if i == 0 then NULL else list[i - 1])
  {
    assert mem[list[i]].next == (if i + 1 < |list| then list[i + 1] else NULL);
    assert mem[list[i]].prev == (if i == 0 then NULL else list[i - 1]);
  }

  lemma SplicedAt(mem: Memory, first: nat, last: nat, list: seq<nat>, at: nat, chunk: nat, i: nat)
    requires at <= |list| && chunk in mem && chunk !in list && Distinct(list) && i <= |list|
    requires Chain(mem, first, list) && BackChain(mem, last, list)
    ensures var list' := InsertedAt(list, at, chunk);
      var mem' := Splice(mem, list, at, chunk);
      && list'[i] in mem'
      && mem'[list'[i]].next == (if i + 1 < |list'| then list'[i + 1] else NULL)
      && mem'[list'[i]].prev == (if i == 0 then NULL else list'[i - 1])
  {
    if i != at {
      SpliceAt(mem, first, last, list, at, chunk, if i < at then i else i - 1);
    }
  }

  lemma SpliceLinks(mem: Memory, first: nat, last: nat, list: seq<nat>, at: nat, chunk: nat)
    requires at <= |list| && chunk in mem && chunk !in list && Distinct(list)
    requires Chain(mem, first, list) && BackChain(mem, last, list)
    ensures var list' := InsertedAt(list, at, chunk);
      var mem' := Splice(mem, list, at, chunk);
      && Chain(mem', if at == 0 then chunk else first, list')
      && BackChain(mem', if at == |list| then chunk else last, list')
  {
    var list', mem' := InsertedAt(list, at, chunk), Splice(mem, list, at, chunk);
    forall i | 0 <= i < |list'|
      ensures
        && list'[i] in mem'
        && mem'[list'[i]].next == (if i + 1 < |list'| then list'[i + 1] else NULL)
        && mem'[list'[i]].prev == (if i == 0 then NULL else list'[i - 1])
    {
      SplicedAt(mem, first, last, list, at, chunk, i);
    }
  }

  function InsertedBin(bin: Bin, list: seq<nat>, at: nat, chunk: nat): Bin {
    bin.(counter := |list| + 1,
         first := if at == 0 then chunk else bin.first,
         last := if at == |list| then chunk else bin.last)
  }

  function ErasedBin(bin: Bin, list: seq<nat>, at: nat): Bin
    requires at < |list|
  {
    bin.(counter := |list| - 1,
         first := if at > 0 then bin.first else if |list| > 1 then list[1] else NULL,
         last := if at + 1 < |list| then bin.last else if at > 0 then list[at - 1] else NULL)
  }

  /** Position `at` keeps `list` in nondecreasing order of size. */
  ghost predicate FitsAt(mem: Memory, list: seq<nat>, at: nat, chunk: nat)
    requires chunk in mem && at <= |list|
    requires forall i {:trigger list[i]} :: 0 <= i < |list| ==> list[i] in mem
  {
    && (forall i {:trigger list[i]} :: 0 <= i < at ==> mem[list[i]].size <= mem[chunk].size)
    && (forall i {:trigger list[i]} :: at <= i < |list| ==> mem[chunk].size <= mem[list[i]].size)
  }

  lemma InsertedOrder(mem: Memory, list: seq<nat>, at: nat, chunk: nat)
    requires at <= |list| && chunk in mem && chunk !in list && Distinct(list) && SortedBySize(mem, list)
    requires FitsAt(mem, list, at, chunk)
    ensures Distinct(InsertedAt(list, at, chunk)) && SortedBySize(mem, InsertedAt(list, at, chunk))
  {
  }

  /** Memory after the chunk at position `at` is unlinked from `list`. */
  ghost function Unsplice(mem: Memory, list: seq<nat>, at: nat): Memory
    requires at < |list|
    requires forall i {:trigger list[i]} :: 0 <= i < |list| ==> list[i] in mem
  {
    var before := if at == 0 then NULL else list[at - 1];
    var after := if at + 1 == |list| then NULL else list[at + 1];
    var m1 := if at == 0 then mem else mem[before := mem[before].(next := after)];
    if at + 1 == |list| then m1 else m1[after := m1[after].(prev := before)]
  }

  lemma UnspliceAt(mem: Memory, first: nat, last: nat, list: seq<nat>, at: nat, i: nat)
    requires at < |list| && Distinct(list) && i < |list| && i != at
    requires Chain(mem, first, list) && BackChain(mem, last, list)
    ensures var mem' := Unsplice(mem, list, at);
      && list[i] in mem'
      && mem'[list[i]].next == (var n := if i + 1 == at then i + 2 else i + 1; if n < |list| then list[n] else NULL)
      && mem'[list[i]].prev == (var p := if i == at + 1 then i - 2 else i - 1; if p < 0 then NULL else list[p])
  {
    assert mem[list[i]].next == (if i + 1 < |list| then list[i + 1] else NULL);
    assert mem[list[i]].prev == (if i == 0 then NULL else list[i - 1]);
  }

  lemma UnsplicedAt(mem: Memory, first: nat, last: nat, list: seq<nat>, at: nat, i: nat)
    requires at < |list| && Distinct(list) && i + 1 < |list|
    requires Chain(mem, first, list) && BackChain(mem, last, list)
    ensures var list' := RemovedAt(list, at);
      var mem' := Unsplice(mem, list, at);
      && list'[i] in mem'
      && mem'[list'[i]].next == (if i + 1 < |list'| then list'[i + 1] else NULL)
      && mem'[list'[i]].prev == (if i == 0 then NULL else list'[i - 1])
  {
    UnspliceAt(mem, first, last, list, at, if i < at then i else i + 1);
  }

  lemma UnspliceLinks(mem: Memory, first: nat, last: nat, list: seq<nat>, at: nat)
    requires at < |list| && Distinct(list)
    requires Chain(mem, first, list) && BackChain(mem, last, list)
    ensures var list' := RemovedAt(list, at);
      var mem' := Unsplice(mem, list, at);
      && Chain(mem', if at > 0 then first else if |list| > 1 then list[1] else NULL, list')
      && BackChain(mem', if at + 1 < |list| then last else if at > 0 then list[at - 1] else NULL, list')
  {
    var list', mem' := RemovedAt(list, at), Unsplice(mem, list, at);
    forall i | 0 <= i < |list'|
      ensures
        && list'[i] in mem'
        && mem'[list'[i]].next == (if i + 1 < |list'| then list'[i + 1] else NULL)
        && mem'[list'[i]].prev == (if i == 0 then NULL else list'[i - 1])
    {
      UnsplicedAt(mem, first, last, list, at, i);
    }
  }

  /** Relinking the sorted bin leaves the size bins well linked. */
  lemma SizeBinsFrame(mem: Memory, mem': Memory, bins: seq<Bin>, bins': seq<Bin>,
                      lists: seq<seq<nat>>, lists': seq<seq<nat>>, touched: set<nat>)
    requires BinsOk(mem, bins, lists)
    requires |bins'| == |lists'| == SORTEDBIN + 1
    requires forall j :: 0 <= j < SIZEBINS ==> bins'[j] == bins[j] && lists'[j] == lists[j]
    requires forall a :: a in mem && a !in touched ==> a in mem' && mem'[a] == mem[a]
    requires forall j, a {:trigger a in lists[j]} :: 0 <= j < SIZEBINS && a in lists[j] ==> a !in touched
    requires BinOk(mem', bins'[SORTEDBIN], SORTEDBIN, lists'[SORTEDBIN])
    ensures BinsOk(mem', bins', lists')
  {
    forall j | 0 <= j <= SORTEDBIN
      ensures BinOk(mem', bins'[j], j, lists'[j])
    {
      if j < SIZEBINS {
        assert BinOk(mem, bins[j], j, lists[j]);
        forall i | 0 <= i < |lists[j]|
          ensures lists[j][i] in mem' && mem'[lists[j][i]] == mem[lists[j][i]]
        {
          assert lists[j][i] in lists[j];
        }
      }
    }
  }

  lemma SpliceRelinks(mem: Memory, list: seq<nat>, at: nat, chunk: nat)
    requires at <= |list| && chunk in mem && chunk !in list
    requires forall i {:trigger list[i]} :: 0 <= i < |list| ==> list[i] in mem
    ensures Relinked(mem, Splice(mem, list, at, chunk))
    ensures forall a {:trigger a in mem} :: a in mem && a != chunk && a !in list ==> Splice(mem, list, at, chunk)[a] == mem[a]
  {
  }

  lemma UnspliceRelinks(mem: Memory, list: seq<nat>, at: nat)
    requires at < |list|
    requires forall i {:trigger list[i]} :: 0 <= i < |list| ==> list[i] in mem
    ensures Relinked(mem, Unsplice(mem, list, at))
    ensures forall a {:trigger a in mem} :: a in mem && a !in list ==> Unsplice(mem, list, at)[a] == mem[a]
  {
  }

  lemma InsertKeepsBins(mem: Memory, bins: seq<Bin>, lists: seq<seq<nat>>, at: nat, chunk: nat)
    requires BinsOk(mem, bins, lists) && Apart(lists)
    requires chunk in mem && at <= |lists[SORTEDBIN]| && FitsAt(mem, lists[SORTEDBIN], at, chunk)
    requires forall j :: 0 <= j <= SORTEDBIN ==> chunk !in lists[j]
    ensures var list := lists[SORTEDBIN];
      && Relinked(mem, Splice(mem, list, at, chunk))
      && (forall a {:trigger a in mem} :: a in mem && a != chunk && a !in list ==> Splice(mem, list, at, chunk)[a] == mem[a])
      && BinsOk(Splice(mem, list, at, chunk), bins[SORTEDBIN := InsertedBin(bins[SORTEDBIN], list, at, chunk)],
                lists[SORTEDBIN := InsertedAt(list, at, chunk)])
  {
    var list := lists[SORTEDBIN];
    var mem' := Splice(mem, list, at, chunk);
    var bins' := bins[SORTEDBIN := InsertedBin(bins[SORTEDBIN], list, at, chunk)];
    var lists' := lists[SORTEDBIN := InsertedAt(list, at, chunk)];
    assert BinOk(mem, bins[SORTEDBIN], SORTEDBIN, list);
    hide Splice, Apart;
    SpliceLinks(mem, bins[SORTEDBIN].first, bins[SORTEDBIN].last, list, at, chunk);
    InsertedOrder(mem, list, at, chunk);
    SpliceRelinks(mem, list, at, chunk);
    SortedFrame(mem, mem', lists'[SORTEDBIN]);
    SizeBinsFrame(mem, mem', bins, bins', lists, lists', {chunk} + set a | a in list);
  }

  lemma EraseKeepsBins(mem: Memory, bins: seq<Bin>, lists: seq<seq<nat>>, at: nat)
    requires BinsOk(mem, bins, lists) && Apart(lists) && at < |lists[SORTEDBIN]|
    ensures var list := lists[SORTEDBIN];
      && Relinked(mem, Unsplice(mem, list, at))
      && (forall a {:trigger a in mem} :: a in mem && a !in list ==> Unsplice(mem, list, at)[a] == mem[a])
      && BinsOk(Unsplice(mem, list, at), bins[SORTEDBIN := ErasedBin(bins[SORTEDBIN], list, at)],
                lists[SORTEDBIN := RemovedAt(list, at)])
  {
    var list := lists[SORTEDBIN];
    var mem' := Unsplice(mem, list, at);
    var bins' := bins[SORTEDBIN := ErasedBin(bins[SORTEDBIN], list, at)];
    var lists' := lists[SORTEDBIN := RemovedAt(list, at)];
    assert BinOk(mem, bins[SORTEDBIN], SORTEDBIN, list);
    UnspliceLinks(mem, bins[SORTEDBIN].first, bins[SORTEDBIN].last, list, at);
    ErasedOrder(mem, list, at);
    UnspliceRelinks(mem, list, at);
    SortedFrame(mem, mem', lists'[SORTEDBIN]);
    SizeBinsFrame(mem, mem', bins, bins', lists, lists', set a | a in list);
  }

  lemma ErasedOrder(mem: Memory, list: seq<nat>, at: nat)
    requires at < |list| && Distinct(list) && SortedBySize(mem, list)
    ensures Distinct(RemovedAt(list, at)) && SortedBySize(mem, RemovedAt(list, at))
  {
  }

  /** Only list links differ. */
  ghost predicate Relinked(mem: Memory, mem': Memory) {
    && mem'.Keys == mem.Keys
    && (forall a {:trigger mem'[a]} :: a in mem ==> mem'[a] == mem[a].(prev := mem'[a].prev, next := mem'[a].next))
  }

  lemma SortedFrame(mem: Memory, mem': Memory, list: seq<nat>)
    requires SortedBySize(mem, list) && Relinked(mem, mem')
    ensures SortedBySize(mem', list)
  {
  }

  /** No chunk of a size bin is also in the sorted bin. */
  ghost predicate Apart(lists: seq<seq<nat>>) {
    && |lists| == SORTEDBIN + 1
    && (forall j, a {:trigger a in lists[j]} :: 0 <= j < SIZEBINS && a in lists[j] ==> a !in lists[SORTEDBIN])
  }

  ghost predicate SameLinks(mem: Memory, mem': Memory) {
    forall a {:trigger mem'[a]} {:trigger a in mem} :: a in mem ==>
      && a in mem' && mem'[a].size == mem[a].size
      && mem'[a].next == mem[a].next && mem'[a].prev == mem[a].prev
  }

  lemma BinsFrame(mem: Memory, mem': Memory, bins: seq<Bin>, lists: seq<seq<nat>>)
    requires BinsOk(mem, bins, lists) && SameLinks(mem, mem')
    ensures BinsOk(mem', bins, lists)
  {
    forall k | 0 <= k <= SORTEDBIN
      ensures BinOk(mem', bins[k], k, lists[k])
    {
      assert BinOk(mem, bins[k], k, lists[k]);
    }
  }

  // ------------------------------------------------------- effect of the steps

  /** What kfree leaves in header `a` when it frees `chunk`, apart from list links. */
  ghost function AfterFree(mem: Memory, void: nat, chunk: nat, a: nat): Header
    requires chunk in mem && a in mem
  {
    var isNext := a == chunk + mem[chunk].size && a < void;
    mem[a].(free := mem[a].free || a == chunk,
            prevFree := mem[a].prevFree || isNext,
            prevSize := if isNext then mem[chunk].size else mem[a].prevSize)
  }

  lemma FreedSizes(mem: Memory, mem': Memory, void: nat, chunk: nat)
    requires chunk in mem && Freed(mem, mem', void, chunk)
    ensures forall a {:trigger mem'[a]} :: a in mem ==> mem'[a].size == mem[a].size
  {
  }

  ghost predicate Freed(mem: Memory, mem': Memory, void: nat, chunk: nat)
    requires chunk in mem
  {
    && mem'.Keys == mem.Keys
    && (forall a {:trigger mem'[a]} :: a in mem ==>
          mem'[a] == AfterFree(mem, void, chunk, a).(prev := mem'[a].prev, next := mem'[a].next))
  }

  lemma ChunkInUse(mem: Memory, start: nat, void: nat, chunk: nat)
    requires Tiles(mem, start, void) && chunk in mem && !mem[chunk].free
    ensures chunk != void && mem[chunk].size > 0 && EndOf(mem, chunk) in mem
  {
  }

  lemma RelinkedSize(mem: Memory, mem': Memory, chunk: nat)
    requires chunk in mem && Relinked(mem, mem')
    ensures mem'.Keys == mem.Keys && mem'[chunk].size == mem[chunk].size && EndOf(mem', chunk) == EndOf(mem, chunk)
  {
  }

  /** `lists'` is `lists` with `chunk` put into bin `k`. */
  ghost predicate OneMore(lists: seq<seq<nat>>, lists': seq<seq<nat>>, k: nat, chunk: nat) {
    && |lists| == |lists'| == SORTEDBIN + 1 && k <= SORTEDBIN
    && (forall j, a {:trigger a in lists'[j]} :: 0 <= j <= SORTEDBIN ==>
          (a in lists'[j] <==> a in lists[j] || (j == k && a == chunk)))
  }

  lemma FreedAfterRelink(mem: Memory, mem1: Memory, mem2: Memory, void: nat, chunk: nat)
    requires chunk in mem && chunk != void && !mem[chunk].free
    requires Relinked(mem, mem1) && Freed(mem1, mem2, void, chunk) && SameLinks(mem1, mem2)
    requires forall a {:trigger mem1[a]} :: a in mem1 && a != chunk && !mem1[a].free ==> mem1[a] == mem[a]
    ensures Freed(mem, mem2, void, chunk)
    ensures LiveMinus(mem, void, mem2, void, chunk)
  {
    assert EndOf(mem1, chunk) == EndOf(mem, chunk);
    forall a | a in mem
      ensures mem2[a] == AfterFree(mem, void, chunk, a).(prev := mem2[a].prev, next := mem2[a].next)
      ensures mem2[a].free == (mem[a].free || a == chunk)
    {
      assert mem1[a] == mem[a].(prev := mem1[a].prev, next := mem1[a].next);
      assert mem2[a] == AfterFree(mem1, void, chunk, a).(prev := mem2[a].prev, next := mem2[a].next);
    }
  }

  /** The header behind the chunk freed is told; the tags of all others stay. */
  lemma FreedTags(mem: Memory, mem': Memory, start: nat, void: nat, chunk: nat)
    requires Tiles(mem, start, void) && chunk in mem && chunk != void && Freed(mem, mem', void, chunk)
    ensures EndOf(mem, chunk) < void ==> mem'[EndOf(mem, chunk)].prevFree && mem'[EndOf(mem, chunk)].prevSize == mem[chunk].size
    ensures forall a {:trigger mem'[a]} :: a in mem' && (a != EndOf(mem, chunk) || a == void) ==>
      mem'[a].prevFree == mem[a].prevFree && mem'[a].prevSize == mem[a].prevSize
    ensures forall a {:trigger mem'[a]} :: a in mem' ==> mem'[a].size == mem[a].size && mem'[a].free == (mem[a].free || a == chunk)
  {
  }

  lemma FreeKeepsTags(mem: Memory, mem': Memory, start: nat, void: nat, chunk: nat)
    requires Tiles(mem, start, void) && Tags(mem, start, void, chunk)
    requires chunk in mem && chunk != void && !mem[chunk].free && Freed(mem, mem', void, chunk)
    ensures Tags(mem', start, void, NULL)
  {
    forall a | a in mem' && a != void
      ensures TagTrue(mem', a)
    {
      assert EndOf(mem, a) in mem;
      if a != chunk {
        assert TagTrue(mem, a);
        assert EndOf(mem, a) != EndOf(mem, chunk);
      }
    }
  }

  lemma FreeKeepsMembers(mem: Memory, mem': Memory, void: nat, chunk: nat, lists: seq<seq<nat>>, lists': seq<seq<nat>>)
    requires Members(mem, lists, void, NULL)
    requires chunk in mem && chunk != void && chunk != NULL && NULL !in mem
    requires Freed(mem, mem', void, chunk)
    requires OneMore(lists, lists', BinIndex(mem[chunk].size), chunk)
    ensures Members(mem', lists', void, NULL)
  {
  }

  /** Relinking, tagging and marking together free the chunk and keep all invariants. */
  lemma FreeDone(mem: Memory, mem1: Memory, mem2: Memory, lists: seq<seq<nat>>, lists': seq<seq<nat>>, start: nat, void: nat, chunk: nat)
    requires Tiles(mem, start, void) && Members(mem, lists, void, NULL) && Tags(mem, start, void, chunk)
    requires chunk in mem && chunk != void && !mem[chunk].free
    requires Relinked(mem, mem1) && Freed(mem1, mem2, void, chunk) && SameLinks(mem1, mem2)
    requires forall a {:trigger mem1[a]} :: a in mem1 && a != chunk && !mem1[a].free ==> mem1[a] == mem[a]
    requires OneMore(lists, lists', BinIndex(mem[chunk].size), chunk)
    ensures Freed(mem, mem2, void, chunk) && LiveMinus(mem, void, mem2, void, chunk)
    ensures Tiles(mem2, start, void) && Members(mem2, lists', void, NULL) && Tags(mem2, start, void, NULL)
  {
    FreedAfterRelink(mem, mem1, mem2, void, chunk);
    TilesFrame(mem, mem2, start, void);
    FreeKeepsTags(mem, mem2, start, void, chunk);
    FreeKeepsMembers(mem, mem2, void, chunk, lists, lists');
  }

  lemma NotListed(mem: Memory, lists: seq<seq<nat>>, void: nat, chunk: nat)
    requires Members(mem, lists, void, NULL) && chunk in mem && !mem[chunk].free
    ensures Apart(lists)
    ensures forall j {:trigger lists[j]} :: 0 <= j <= SORTEDBIN ==> chunk !in lists[j]
  {
  }

  lemma WithAtMembers(list: seq<nat>, at: nat, chunk: nat)
    requires at <= |list|
    ensures forall a {:trigger a in InsertedAt(list, at, chunk)} :: a in InsertedAt(list, at, chunk) <==> a in list || a == chunk
  {
    forall a | a in list ensures a in InsertedAt(list, at, chunk) {
      var i :| 0 <= i < |list| && list[i] == a;
      assert InsertedAt(list, at, chunk)[if i < at then i else i + 1] == a;
    }
    assert InsertedAt(list, at, chunk)[at] == chunk;
  }

  /** The fields `_create_chunk` sets; the other header words keep what was in memory. */
  function Created(h: Header, size: nat): Header {
    h.(size := if size < MINIMAL_CHUNK_SIZE then MINIMAL_CHUNK_SIZE
               else if size < SIZE_FIELD then size else size % SIZE_FIELD,
       free := false, prevFree := false)
  }

  /** Memory after `chunk` is cut down to `size` and its rest becomes a chunk with header `rest`. */
  ghost function Cut(mem: Memory, chunk: nat, size: nat, rest: Header): Memory
    requires chunk in mem
  {
    mem[chunk := Created(mem[chunk], size)][chunk + size := rest]
  }

  ghost predicate CanCut(mem: Memory, start: nat, void: nat, chunk: nat, size: nat, rest: Header) {
    && Tiles(mem, start, void) && chunk in mem
    && MINIMAL_CHUNK_SIZE <= size && size % CHUNK_ALIGNMENT == 0
    && size + MINIMAL_CHUNK_SIZE <= mem[chunk].size
    && rest.size == mem[chunk].size - size && !rest.free && !rest.prevFree
  }

  lemma CutEnds(mem: Memory, start: nat, void: nat, chunk: nat, size: nat, rest: Header)
    requires CanCut(mem, start, void, chunk, size, rest) && chunk != void
    ensures chunk + size !in mem && chunk + size < EndOf(mem, chunk) <= void
    ensures var mem' := Cut(mem, chunk, size, rest);
      && mem'.Keys == mem.Keys + {chunk + size}
      && EndOf(mem', chunk) == chunk + size && EndOf(mem', chunk + size) == EndOf(mem, chunk)
      && (forall a {:trigger EndOf(mem', a)} :: a in mem && a != chunk ==> EndOf(mem', a) == EndOf(mem, a))
      && (forall a {:trigger EndOf(mem', a)} :: a in mem' && a != void ==> EndOf(mem', a) in mem')
  {
    assert EndOf(mem, chunk) in mem;
    var mem' := Cut(mem, chunk, size, rest);
    forall a | a in mem' && a != void ensures EndOf(mem', a) in mem' {
      if a in mem { assert EndOf(mem, a) in mem; }
    }
  }

  lemma CutSizes(mem: Memory, start: nat, void: nat, chunk: nat, size: nat, rest: Header)
    requires CanCut(mem, start, void, chunk, size, rest) && chunk != void
    ensures forall a {:trigger Cut(mem, chunk, size, rest)[a].size} :: a in Cut(mem, chunk, size, rest) ==>
      && MINIMAL_CHUNK_SIZE <= Cut(mem, chunk, size, rest)[a].size < SIZE_FIELD
      && (a != void ==> Cut(mem, chunk, size, rest)[a].size % CHUNK_ALIGNMENT == 0)
  {
    assert rest.size % CHUNK_ALIGNMENT == 0;
  }

  lemma CutNoOverlap(mem: Memory, start: nat, void: nat, chunk: nat, size: nat, rest: Header, a: nat, b: nat)
    requires CanCut(mem, start, void, chunk, size, rest) && chunk != void
    requires a < b && a in Cut(mem, chunk, size, rest) && b in Cut(mem, chunk, size, rest)
    ensures EndOf(Cut(mem, chunk, size, rest), a) <= b
  {
    CutEnds(mem, start, void, chunk, size, rest);
    var mem' := Cut(mem, chunk, size, rest);
    if a in mem && a != chunk {
      assert EndOf(mem', a) == EndOf(mem, a);
      assert EndOf(mem, a) <= if b in mem then b else chunk;
    } else if b in mem {
      assert EndOf(mem, chunk) <= b;
    }
  }

  lemma CutKeepsTiles(mem: Memory, start: nat, void: nat, chunk: nat, size: nat, rest: Header)
    requires CanCut(mem, start, void, chunk, size, rest) && chunk != void
    ensures Tiles(Cut(mem, chunk, size, rest), start, void)
  {
    var mem' := Cut(mem, chunk, size, rest);
    CutEnds(mem, start, void, chunk, size, rest);
    CutSizes(mem, start, void, chunk, size, rest);
    forall a, b | a in mem' && b in mem' && a < b ensures EndOf(mem', a) <= b {
      CutNoOverlap(mem, start, void, chunk, size, rest, a, b);
    }
  }

  lemma CutKeepsTags(mem: Memory, start: nat, void: nat, chunk: nat, size: nat, rest: Header)
    requires CanCut(mem, start, void, chunk, size, rest) && chunk != void
    requires Tags(mem, start, void, NULL)
    ensures Tags(Cut(mem, chunk, size, rest), start, void, chunk + size)
  {
    CutEnds(mem, start, void, chunk, size, rest);
    var mem' := Cut(mem, chunk, size, rest);
    forall a | a in mem' && a != void && a != chunk + size ensures TagTrue(mem', a) {
      if a != chunk {
        assert TagTrue(mem, a) && EndOf(mem', a) == EndOf(mem, a);
      } else {
        assert EndOf(mem', a) == chunk + size;
      }
    }
  }

  lemma CutKeepsBins(mem: Memory, bins: seq<Bin>, lists: seq<seq<nat>>, void: nat, chunk: nat, size: nat, rest: Header)
    requires BinsOk(mem, bins, lists) && Members(mem, lists, void, chunk)
    requires chunk in mem && chunk != void && void in mem && NULL !in mem && chunk + size !in mem && !rest.free
    ensures BinsOk(Cut(mem, chunk, size, rest), bins, lists)
    ensures Members(Cut(mem, chunk, size, rest), lists, void, NULL)
  {
    BinsFrameExcept(mem, Cut(mem, chunk, size, rest), bins, lists, chunk);
  }

  lemma CutLive(mem: Memory, void: nat, chunk: nat, size: nat, rest: Header)
    requires chunk in mem && chunk != void && chunk + size !in mem && chunk + size != void && mem[chunk].free && size > 0 && !rest.free
    ensures LivePlus(mem, void, Cut(mem, chunk, size, rest), void, {chunk, chunk + size})
  {
  }

  lemma PlusThenMinus(mem: Memory, mem1: Memory, mem2: Memory, void: nat, c: nat, d: nat)
    requires LivePlus(mem, void, mem1, void, {c, d}) && LiveMinus(mem1, void, mem2, void, d) && d !in mem && c != d
    ensures LivePlus(mem, void, mem2, void, {c})
  {
    forall a | IsLive(mem, void, a) ensures SameChunk(mem, mem2, a) {
      assert SameChunk(mem, mem1, a) && IsLive(mem1, void, a);
      assert SameChunk(mem1, mem2, a);
    }
    forall a ensures IsLive(mem2, void, a) <==> IsLive(mem, void, a) || a in {c} {
      assert IsLive(mem1, void, a) <==> IsLive(mem, void, a) || a in {c, d};
    }
  }

  /** Cutting a free chunk that is in no bin leaves everything in order but the tag behind the rest. */
  lemma CutReady(mem: Memory, bins: seq<Bin>, lists: seq<seq<nat>>, start: nat, void: nat, chunk: nat, size: nat, rest: Header)
    requires CanCut(mem, start, void, chunk, size, rest) && chunk != void && mem[chunk].free
    requires BinsOk(mem, bins, lists) && Members(mem, lists, void, chunk) && Tags(mem, start, void, NULL)
    ensures var mem' := Cut(mem, chunk, size, rest);
      && chunk + size !in mem && mem'.Keys == mem.Keys + {chunk + size} && chunk + size < void
      && Tiles(mem', start, void) && BinsOk(mem', bins, lists) && Members(mem', lists, void, NULL)
      && Tags(mem', start, void, chunk + size)
      && LivePlus(mem, void, mem', void, {chunk, chunk + size})
  {
    CutEnds(mem, start, void, chunk, size, rest);
    CutKeepsTiles(mem, start, void, chunk, size, rest);
    CutKeepsTags(mem, start, void, chunk, size, rest);
    CutKeepsBins(mem, bins, lists, void, chunk, size, rest);
    CutLive(mem, void, chunk, size, rest);
  }

  lemma BinsFrameExcept(mem: Memory, mem': Memory, bins: seq<Bin>, lists: seq<seq<nat>>, chunk: nat)
    requires BinsOk(mem, bins, lists)
    requires forall k {:trigger lists[k]} :: 0 <= k <= SORTEDBIN ==> chunk !in lists[k]
    requires forall a {:trigger mem'[a]} {:trigger a in mem} :: a in mem && a != chunk ==> a in mem' && mem'[a] == mem[a]
    ensures BinsOk(mem', bins, lists)
  {
    forall k | 0 <= k <= SORTEDBIN
      ensures BinOk(mem', bins[k], k, lists[k])
    {
      assert BinOk(mem, bins[k], k, lists[k]);
      forall i | 0 <= i < |lists[k]|
        ensures lists[k][i] in mem' && mem'[lists[k][i]] == mem[lists[k][i]]
      {
        assert lists[k][i] in lists[k];
      }
    }
  }

  /** `lists'` is `lists` with `chunk` taken out of bin `k`. */
  ghost predicate OneLess(lists: seq<seq<nat>>, lists': seq<seq<nat>>, k: nat, chunk: nat) {
    && |lists| == |lists'| == SORTEDBIN + 1 && k <= SORTEDBIN && chunk in lists[k]
    && (forall j, a {:trigger a in lists'[j]} :: 0 <= j <= SORTEDBIN ==>
          (a in lists'[j] <==> a in lists[j] && !(j == k && a == chunk)))
  }

  lemma WithoutAtMembers(list: seq<nat>, at: nat)
    requires at < |list| && Distinct(list)
    ensures forall a {:trigger a in RemovedAt(list, at)} :: a in RemovedAt(list, at) <==> a in list && a != list[at]
  {
    forall a | a in list && a != list[at] ensures a in RemovedAt(list, at) {
      var i :| 0 <= i < |list| && list[i] == a;
      assert RemovedAt(list, at)[if i < at then i else i - 1] == a;
    }
  }

  lemma TakenMembers(mem: Memory, mem': Memory, void: nat, lists: seq<seq<nat>>, lists': seq<seq<nat>>, chunk: nat, k: nat)
    requires Members(mem, lists, void, NULL) && NULL !in mem && Relinked(mem, mem') && OneLess(lists, lists', k, chunk)
    ensures Members(mem', lists', void, chunk)
    ensures chunk in mem && chunk != void && mem[chunk].free && BinIndex(mem[chunk].size) == k
  {
  }

  lemma RelinkKeepsTags(mem: Memory, mem': Memory, start: nat, void: nat)
    requires Tags(mem, start, void, NULL) && Relinked(mem, mem')
    ensures Tags(mem', start, void, NULL)
  {
    forall a | a in mem' && a != void && a != NULL ensures TagTrue(mem', a) {
      assert TagTrue(mem, a) && EndOf(mem', a) == EndOf(mem, a);
    }
  }

  /** A free chunk the allocator is willing to use for a chunk of `size` bytes: one of
      exactly that size, or one from the sorted bin that is big enough. */
  ghost predicate Serves(mem: Memory, void: nat, a: nat, size: nat) {
    && a in mem && a != void && mem[a].free
    && (mem[a].size == size || (BinIndex(mem[a].size) == SORTEDBIN && mem[a].size >= size))
  }

  /** A free chunk serves if its size is the one wanted, or if it is at least that and none of
      the five sizes that have bins of their own. */
  lemma ServesIff(mem: Memory, void: nat, a: nat, size: nat)
    requires a in mem && a != void
    ensures Serves(mem, void, a, size)
       <==> mem[a].free && (mem[a].size == size || (mem[a].size > size && mem[a].size !in {32, 48, 64, 80, 96}))
  {
  }

  /** A chunk given back serves the request it was made for: as long as nothing else is done
      the void is not touched for it. */
  lemma FreedServesAgain(mem: Memory, mem': Memory, void: nat, chunk: nat)
    requires chunk in mem && chunk != void && Freed(mem, mem', void, chunk)
    ensures Serves(mem', void, chunk, mem[chunk].size) && CanServe(mem', void, mem[chunk].size)
  {
    assert Serves(mem', void, chunk, mem[chunk].size);
  }

  ghost predicate CanServe(mem: Memory, void: nat, size: nat) {
    exists a :: Serves(mem, void, a, size)
  }

  /** `_create_chunk` never records a size below the minimum, even where less is left. */
  function AtLeastMinimal(size: int): nat {
    if size < MINIMAL_CHUNK_SIZE then MINIMAL_CHUNK_SIZE else size
  }

  /** The effect of a successful allocation.  A free chunk that serves is used, the smallest one;
      only when there is none the chunk is carved from the void. */
  ghost predicate Allocated(mem: Memory, void: nat, voidAt: nat, voidSize: nat,
                            mem': Memory, void': nat, voidSize': nat, chunk: nat, size: nat) {
    && chunk in mem' && mem'[chunk].size == size
    && !IsLive(mem, void, chunk)
    && LivePlus(mem, void, mem', void', {chunk})
    && (CanServe(mem, void, size) ==>
          SmallestServing(mem, void, chunk, size) && void' == void && voidSize' == voidSize)
    && (!CanServe(mem, void, size) ==>
          chunk == voidAt && void' == chunk + size && size <= voidSize
          && voidSize' == AtLeastMinimal(voidSize - size))
  }

  /** Before its first use the heap is as good as one without any chunk. */
  lemma AllocatedFromNothing(void: nat, voidAt: nat, voidSize: nat, mem0: Memory, void0: nat,
                             mem': Memory, void': nat, voidSize': nat, chunk: nat, size: nat)
    requires Allocated(mem0, void0, voidAt, voidSize, mem', void', voidSize', chunk, size)
    requires !CanServe(mem0, void0, size)
    requires forall a :: !IsLive(mem0, void0, a)
    ensures Allocated(map[], void, voidAt, voidSize, mem', void', voidSize', chunk, size)
  {
    LivePlusFrom(map[], void, mem0, void0, mem', void', {chunk});
  }

  lemma LivePlusFrom(mem: Memory, void: nat, mem0: Memory, void0: nat, mem': Memory, void': nat, added: set<nat>)
    requires LivePlus(mem0, void0, mem', void', added)
    requires (mem == mem0 && void == void0) || (mem == map[] && forall a :: !IsLive(mem0, void0, a))
    ensures LivePlus(mem, void, mem', void', added)
  {
  }

  ghost predicate SmallestServing(mem: Memory, void: nat, a: nat, size: nat) {
    && Serves(mem, void, a, size)
    && (forall b {:trigger Serves(mem, void, b, size)} :: Serves(mem, void, b, size) ==> mem[a].size <= mem[b].size)
  }

  lemma ServingChunks(mem: Memory, lists: seq<seq<nat>>, void: nat, size: nat)
    requires Members(mem, lists, void, NULL) && NULL !in mem
    ensures Apart(lists)
    ensures forall a {:trigger Serves(mem, void, a, size)} :: Serves(mem, void, a, size) <==>
      (a in lists[BinIndex(size)] && mem[a].size == size) || (a in lists[SORTEDBIN] && mem[a].size >= size)
  {
  }

  /** The chunk's header and its neighbour's tag as they are when it is handed out. */
  ghost function HandedOut(mem: Memory, chunk: nat): Memory
    requires chunk in mem && EndOf(mem, chunk) in mem && mem[chunk].size > 0
  {
    var next := EndOf(mem, chunk);
    mem[next := mem[next].(prevFree := false, prevSize := 0)][chunk := mem[chunk].(free := false)]
  }

  lemma HandOutTiles(mem: Memory, start: nat, void: nat, chunk: nat)
    requires Tiles(mem, start, void) && chunk in mem && chunk != void
    ensures EndOf(mem, chunk) in mem
    ensures SameLinks(mem, HandedOut(mem, chunk)) && Tiles(HandedOut(mem, chunk), start, void)
  {
    assert EndOf(mem, chunk) in mem;
    TilesFrame(mem, HandedOut(mem, chunk), start, void);
  }

  lemma HandOutTags(mem: Memory, start: nat, void: nat, chunk: nat)
    requires Tiles(mem, start, void) && Tags(mem, start, void, NULL) && chunk in mem && chunk != void
    requires EndOf(mem, chunk) in mem
    ensures Tags(HandedOut(mem, chunk), start, void, NULL)
  {
    var mem' := HandedOut(mem, chunk);
    forall a | a in mem' && a != void && a != NULL ensures TagTrue(mem', a) {
      assert TagTrue(mem, a) && EndOf(mem', a) == EndOf(mem, a);
    }
  }

  lemma HandOutKeeps(mem: Memory, bins: seq<Bin>, lists: seq<seq<nat>>, start: nat, void: nat, chunk: nat)
    requires Tiles(mem, start, void) && BinsOk(mem, bins, lists) && Members(mem, lists, void, chunk)
    requires Tags(mem, start, void, NULL) && chunk in mem && chunk != void
    ensures EndOf(mem, chunk) in mem
    ensures var mem' := HandedOut(mem, chunk);
      && Tiles(mem', start, void) && BinsOk(mem', bins, lists) && Members(mem', lists, void, NULL)
      && Tags(mem', start, void, NULL)
      && LivePlus(mem, void, mem', void, {chunk})
      && mem'.Keys == mem.Keys && mem'[chunk].size == mem[chunk].size
  {
    HandOutTiles(mem, start, void, chunk);
    HandOutTags(mem, start, void, chunk);
    BinsFrame(mem, HandedOut(mem, chunk), bins, lists);
  }

  lemma FirstFitIsSmallest(mem: Memory, lists: seq<seq<nat>>, void: nat, size: nat, found: nat)
    requires Members(mem, lists, void, NULL) && NULL !in mem
    requires BinIndex(size) < SIZEBINS ==> lists[BinIndex(size)] == []
    requires found in lists[SORTEDBIN] && mem[found].size >= size
    requires forall a :: a in lists[SORTEDBIN] && mem[a].size >= size ==> mem[found].size <= mem[a].size
    ensures SmallestServing(mem, void, found, size)
  {
    ServingChunks(mem, lists, void, size);
  }

  lemma ExactFitIsSmallest(mem: Memory, lists: seq<seq<nat>>, void: nat, size: nat, found: nat)
    requires Members(mem, lists, void, NULL) && BinIndex(size) < SIZEBINS && found in lists[BinIndex(size)]
    ensures SmallestServing(mem, void, found, size)
  {
    assert found in mem && BinIndex(mem[found].size) == BinIndex(size);
  }

  lemma NoneServes(mem: Memory, lists: seq<seq<nat>>, void: nat, size: nat)
    requires Members(mem, lists, void, NULL) && NULL !in mem
    requires BinIndex(size) < SIZEBINS ==> lists[BinIndex(size)] == []
    requires forall a :: a in lists[SORTEDBIN] ==> mem[a].size < size
    ensures !CanServe(mem, void, size)
  {
    ServingChunks(mem, lists, void, size);
  }

  lemma TakenLive(mem: Memory, mem': Memory, lists: seq<seq<nat>>, void: nat)
    requires Members(mem, lists, void, NULL) && Relinked(mem, mem')
    requires forall a {:trigger mem'[a]} :: a in mem' && a !in lists[SORTEDBIN] ==> mem'[a] == mem[a]
    ensures LivePlus(mem, void, mem', void, {})
  {
    forall a ensures IsLive(mem', void, a) <==> IsLive(mem, void, a) || a in {} { }
  }

  /** Taking a chunk out of bin `k` keeps all invariants, the chunk being in no bin now. */
  lemma TakenKeeps(mem: Memory, mem': Memory, lists: seq<seq<nat>>, lists': seq<seq<nat>>, start: nat, void: nat, chunk: nat, k: nat)
    requires Tiles(mem, start, void) && Members(mem, lists, void, NULL) && Tags(mem, start, void, NULL)
    requires Relinked(mem, mem') && OneLess(lists, lists', k, chunk)
    requires forall a {:trigger mem'[a]} :: a in mem' && a !in lists[SORTEDBIN] ==> mem'[a] == mem[a]
    ensures Tiles(mem', start, void) && Members(mem', lists', void, chunk) && Tags(mem', start, void, NULL)
    ensures LivePlus(mem, void, mem', void, {})
  {
    TakenMembers(mem, mem', void, lists, lists', chunk, k);
    TakenLive(mem, mem', lists, void);
    TilesFrame(mem, mem', start, void);
    RelinkKeepsTags(mem, mem', start, void);
  }

  lemma LivePlusChain(mem: Memory, mem1: Memory, mem2: Memory, void: nat, void': nat, s1: set<nat>, s2: set<nat>)
    requires LivePlus(mem, void, mem1, void, s1) && LivePlus(mem1, void, mem2, void', s2)
    ensures LivePlus(mem, void, mem2, void', s1 + s2)
  {
    forall a | IsLive(mem, void, a) ensures SameChunk(mem, mem2, a) {
      assert SameChunk(mem, mem1, a) && IsLive(mem1, void, a) && SameChunk(mem1, mem2, a);
    }
    forall a ensures IsLive(mem2, void', a) <==> IsLive(mem, void, a) || a in s1 + s2 {
      assert IsLive(mem1, void, a) <==> IsLive(mem, void, a) || a in s1;
    }
  }

  /** Memory after a chunk of `size` bytes is carved from the void chunk and `rest` becomes the void. */
  ghost function Carved(mem: Memory, void: nat, size: nat, rest: Header): Memory
    requires void in mem
  {
    mem[void := Created(mem[void], size)][void + size := rest]
  }

  lemma CarveEnds(mem: Memory, start: nat, void: nat, size: nat, rest: Header)
    requires Tiles(mem, start, void) && MINIMAL_CHUNK_SIZE <= size < SIZE_FIELD && size % CHUNK_ALIGNMENT == 0
    ensures var mem' := Carved(mem, void, size, rest);
      && mem'.Keys == mem.Keys + {void + size} && EndOf(mem', void) == void + size
      && (forall a {:trigger EndOf(mem', a)} :: a in mem && a != void ==> EndOf(mem', a) == EndOf(mem, a) && EndOf(mem, a) in mem)
      && (forall a {:trigger mem'[a].size} :: a in mem && a != void ==> mem'[a].size == mem[a].size)
      && mem'[void].size == size
  {
  }

  lemma CarveKeepsTiles(mem: Memory, start: nat, void: nat, size: nat, rest: Header)
    requires Tiles(mem, start, void) && MINIMAL_CHUNK_SIZE <= size < SIZE_FIELD && size % CHUNK_ALIGNMENT == 0
    requires MINIMAL_CHUNK_SIZE <= rest.size < SIZE_FIELD && rest.free
    ensures Tiles(Carved(mem, void, size, rest), start, void + size)
  {
    CarveEnds(mem, start, void, size, rest);
    CarvedApart(mem, start, void, size, rest);
    var mem' := Carved(mem, void, size, rest);
    assert mem'[void + size] == rest;
  }

  lemma CarvedApart(mem: Memory, start: nat, void: nat, size: nat, rest: Header)
    requires Tiles(mem, start, void) && MINIMAL_CHUNK_SIZE <= size
    ensures var mem' := Carved(mem, void, size, rest);
      forall a, b {:trigger EndOf(mem', a), b in mem'} :: a in mem' && b in mem' && a < b ==> EndOf(mem', a) <= b
  {
    var mem' := Carved(mem, void, size, rest);
    forall a, b | a in mem' && b in mem' && a < b ensures EndOf(mem', a) <= b {
      if a in mem && a != void { assert EndOf(mem', a) == EndOf(mem, a) <= void; }
    }
  }

  lemma CarveKeepsTags(mem: Memory, start: nat, void: nat, size: nat, rest: Header)
    requires Tiles(mem, start, void) && Tags(mem, start, void, NULL)
    requires MINIMAL_CHUNK_SIZE <= size < SIZE_FIELD && !rest.prevFree
    ensures Tags(Carved(mem, void, size, rest), start, void + size, NULL)
  {
    var mem' := Carved(mem, void, size, rest);
    forall a | a in mem' && a != void + size && a != NULL ensures TagTrue(mem', a) {
      if a == void {
        assert EndOf(mem', a) == void + size;
      } else {
        assert TagTrue(mem, a) && EndOf(mem', a) == EndOf(mem, a);
      }
    }
  }

  lemma CarveKeeps(mem: Memory, bins: seq<Bin>, lists: seq<seq<nat>>, start: nat, void: nat, size: nat, rest: Header)
    requires Tiles(mem, start, void) && BinsOk(mem, bins, lists) && Members(mem, lists, void, NULL) && Tags(mem, start, void, NULL)
    requires MINIMAL_CHUNK_SIZE <= size < SIZE_FIELD && size % CHUNK_ALIGNMENT == 0
    requires MINIMAL_CHUNK_SIZE <= rest.size < SIZE_FIELD && rest.free && !rest.prevFree
    ensures var mem' := Carved(mem, void, size, rest);
      && Tiles(mem', start, void + size) && BinsOk(mem', bins, lists) && Members(mem', lists, void + size, NULL)
      && Tags(mem', start, void + size, NULL)
      && LivePlus(mem, void, mem', void + size, {void})
  {
    CarveKeepsTiles(mem, start, void, size, rest);
    CarveKeepsTags(mem, start, void, size, rest);
    BinsFrameExcept(mem, Carved(mem, void, size, rest), bins, lists, void);
  }

  // ------------------------------------------------- what the invariants mean

  /** `VM_KMALLOC_END - VM_KMALLOC_START` with the start macro expanded without parentheses. */
  function InitialVoidSize(kernelEnd: nat): nat
    requires VM_KERN_START <= kernelEnd < VM_KMALLOC_END
  {
    VM_KMALLOC_END - kernelEnd + 0x1000
  }

  /** The void chunk always claims the first 0x2000 bytes of the vmalloc window. */
  lemma HeapOverrunsWindow(kernelEnd: nat)
    requires VM_KERN_START <= kernelEnd < VM_KMALLOC_END
    ensures kernelEnd + 0x1000 + InitialVoidSize(kernelEnd) == VM_VMALLOC_START + 0x2000
  {
  }

  /** The chunk boundary at or below `x`. */
  ghost function BoundaryBelow(mem: Memory, start: nat, x: nat): (a: nat)
    requires start in mem && start <= x
    ensures a in mem && start <= a <= x
    ensures forall b {:trigger b in mem} :: b in mem && b <= x ==> b <= a
    decreases x - start
  {
    if x in mem then x else BoundaryBelow(mem, start, x - 1)
  }

  /** The chunks cover the heap: every address between `start` and the void chunk lies
      in exactly one chunk. */
  lemma EveryAddressInOneChunk(mem: Memory, start: nat, void: nat, x: nat) returns (a: nat)
    requires Tiles(mem, start, void) && start <= x < void
    ensures a in mem && a != void && a <= x < EndOf(mem, a)
    ensures forall b :: b in mem && b != void && b <= x < EndOf(mem, b) ==> b == a
  {
    a := BoundaryBelow(mem, start, x);
    assert EndOf(mem, a) in mem;
  }

  /** Every chunk but the first has a chunk that ends where it starts. */
  lemma Predecessor(mem: Memory, start: nat, void: nat, b: nat) returns (a: nat)
    requires Tiles(mem, start, void) && b in mem && b != start
    ensures a in mem && a != void && a < b && EndOf(mem, a) == b
    ensures forall c :: c in mem && c < b ==> c <= a
  {
    a := BoundaryBelow(mem, start, b - 1);
    assert EndOf(mem, a) in mem && EndOf(mem, a) <= b;
  }

  /** A set `prevFree` flag really describes the physically preceding chunk. */
  lemma PrevFreeTellsTheTruth(mem: Memory, start: nat, void: nat, b: nat) returns (a: nat)
    requires Tiles(mem, start, void) && Tags(mem, start, void, NULL) && b in mem && mem[b].prevFree
    ensures a in mem && a != void && EndOf(mem, a) == b && mem[a].free && mem[b].prevSize == mem[a].size
  {
    a := Predecessor(mem, start, void, b);
    assert TagTrue(mem, a);
  }

  ghost function Below(mem: Memory, b: nat): set<nat> {
    set a | a in mem && a < b
  }

  ghost function SumSizes(mem: Memory, chunks: set<nat>): nat
    requires forall a {:trigger a in chunks} :: a in chunks ==> a in mem
  {
    if chunks == {} then 0 else
      var a :| a in chunks;
      mem[a].size + SumSizes(mem, chunks - {a})
  }

  lemma {:induction false} SumWithout(mem: Memory, chunks: set<nat>, a: nat)
    requires forall c {:trigger c in chunks} :: c in chunks ==> c in mem
    requires a in chunks
    ensures SumSizes(mem, chunks) == mem[a].size + SumSizes(mem, chunks - {a})
  {
    var b :| b in chunks && SumSizes(mem, chunks) == mem[b].size + SumSizes(mem, chunks - {b});
    if a != b {
      SumWithout(mem, chunks - {b}, a);
      SumWithout(mem, chunks - {a}, b);
      assert chunks - {b} - {a} == chunks - {a} - {b};
    }
  }

  /** The sizes of the chunks below a boundary add up to the distance from the heap start. */
  lemma {:induction false} SizesBelow(mem: Memory, start: nat, void: nat, b: nat)
    requires Tiles(mem, start, void) && b in mem
    ensures SumSizes(mem, Below(mem, b)) == b - start
    decreases b
  {
    if b == start {
      assert Below(mem, b) == {};
    } else {
      var p := Predecessor(mem, start, void, b);
      SizesBelow(mem, start, void, p);
      SumWithout(mem, Below(mem, b), p);
      assert Below(mem, b) - {p} == Below(mem, p);
    }
  }

  /** Total chunk size plus void size is the size of the heap, and an allocation keeps it,
      exactly when it is not a carve that leaves less than a minimal chunk. */
  lemma {:induction false} Conservation(mem: Memory, start: nat, void: nat, voidSize: nat, mem': Memory, void': nat, voidSize': nat, chunk: nat, size: nat)
    requires Tiles(mem, start, void) && mem[void].size == voidSize
    requires Tiles(mem', start, void') && mem'[void'].size == voidSize'
    requires Allocated(mem, void, void, voidSize, mem', void', voidSize', chunk, size)
    ensures SumSizes(mem, Below(mem, void)) == void - start
    ensures SumSizes(mem', Below(mem', void')) + voidSize'
              == SumSizes(mem, Below(mem, void)) + voidSize
            <==> CanServe(mem, void, size) || voidSize - size >= MINIMAL_CHUNK_SIZE
  {
    SizesBelow(mem, start, void, void);
    SizesBelow(mem', start, void', void');
  }

  /** Such a carve exists: 32 bytes from a void chunk of 40 leave 8, which are recorded as 16,
      so the heap now claims 8 bytes more than it has. */
  lemma ConservationFails(start: nat)
    requires start > 0
    ensures var mem := map[start := Header(40, true, false, 0, NULL, NULL)];
      var mem' := Carved(mem, start, 32, Header(16, true, false, 0, NULL, NULL));
      && Tiles(mem, start, start) && Tiles(mem', start, start + 32)
      && Allocated(mem, start, start, 40, mem', start + 32, 16, start, 32)
      && SumSizes(mem', Below(mem', start + 32)) + 16 == SumSizes(mem, Below(mem, start)) + 40 + 8
  {
    var mem := map[start := Header(40, true, false, 0, NULL, NULL)];
    var mem' := Carved(mem, start, 32, Header(16, true, false, 0, NULL, NULL));
    assert EndOf(mem', start) == start + 32;
    assert !CanServe(mem, start, 32);
    SizesBelow(mem, start, start, start);
    SizesBelow(mem', start, start + 32, start + 32);
  }

  // ------------------------------------------------ when the heap leaves its window

  /** Every chunk ends at `end` or before exactly if the void chunk starts there or before. */
  lemma AllInsideIff(mem: Memory, start: nat, void: nat, end: nat)
    requires Tiles(mem, start, void) && start <= end
    ensures (forall a {:trigger EndOf(mem, a)} :: a in mem && a != void ==> EndOf(mem, a) <= end) <==> void <= end
  {
    if void > start {
      var p := Predecessor(mem, start, void, void);
      assert EndOf(mem, p) == void;
    }
  }

  /** The chunk an allocation hands out lies inside the window exactly if a free chunk serves
      or as much as it takes is left in front of the end.  As long as that much is wanted
      only the smallest chunk can be handed out behind the end: its 16 bytes are granted
      whatever is left. */
  lemma HandedOutInsideIff(mem: Memory, start: nat, void: nat, end: nat, mem': Memory, void': nat, voidSize': nat, chunk: nat, size: nat)
    requires Tiles(mem, start, void) && Tiles(mem', start, void') && void <= end
    requires Allocated(mem, void, void, AtLeastMinimal(end - void), mem', void', voidSize', chunk, size)
    ensures EndOf(mem', chunk) <= end <==> CanServe(mem, void, size) || size <= end - void
    ensures EndOf(mem', chunk) > end <==> !CanServe(mem, void, size) && end - void < size <= MINIMAL_CHUNK_SIZE
    ensures voidSize' == AtLeastMinimal(end - void')
  {
    if CanServe(mem, void, size) {
      assert Serves(mem, void, chunk, size);
      assert IsLive(mem', void', chunk);
      assert EndOf(mem', chunk) <= void';
    }
  }

  /** The requests for which the smallest chunk is made: up to 8 bytes, or so many that the
      rounding wraps around. */
  lemma SmallestChunkIff(size: nat)
    requires size < WORD
    ensures ChunkSizeFor(size) == MINIMAL_CHUNK_SIZE <==> size <= 8 || (size > 0xffff_fff0 && size != 0xffff_fff8)
  {
    RoundedRequest(size, size / 16, size % 16);
  }

  /** What the heap looks like at one moment. */
  datatype Snapshot = Snapshot(mem: Memory, void: nat, voidSize: nat)

  /** A run of requests of up to 8 bytes each, `ptrs` being the chunks handed out. */
  ghost predicate SmallRun(states: seq<Snapshot>, ptrs: seq<nat>) {
    && |states| == |ptrs| + 1
    && (forall i {:trigger ptrs[i]} :: 0 <= i < |ptrs| ==>
          Allocated(states[i].mem, states[i].void, states[i].void, states[i].voidSize,
                    states[i + 1].mem, states[i + 1].void, states[i + 1].voidSize, ptrs[i], MINIMAL_CHUNK_SIZE))
  }

  lemma {:induction false} LiveAfterRun(states: seq<Snapshot>, ptrs: seq<nat>) returns (live: set<nat>)
    requires SmallRun(states, ptrs)
    ensures |live| == |ptrs|
    ensures forall a {:trigger a in live} :: a in live ==> IsLive(states[|ptrs|].mem, states[|ptrs|].void, a)
  {
    live := {};
    if ptrs != [] {
      var n := |ptrs| - 1;
      assert forall i :: 0 <= i < n ==> ptrs[..n][i] == ptrs[i];
      live := LiveAfterRun(states[..n + 1], ptrs[..n]);
      assert ptrs[n] !in live;
      live := live + {ptrs[n]};
    }
  }

  lemma {:induction false} SumAtLeast(mem: Memory, start: nat, void: nat, chunks: set<nat>)
    requires Tiles(mem, start, void)
    requires forall a {:trigger a in chunks} :: a in chunks ==> a in mem
    ensures SumSizes(mem, chunks) >= MINIMAL_CHUNK_SIZE * |chunks|
  {
    if chunks != {} {
      var a :| a in chunks;
      SumWithout(mem, chunks, a);
      SumAtLeast(mem, start, void, chunks - {a});
    }
  }

  lemma {:induction false} SumOfPart(mem: Memory, part: set<nat>, chunks: set<nat>)
    requires part <= chunks && forall a {:trigger a in chunks} :: a in chunks ==> a in mem
    ensures SumSizes(mem, part) <= SumSizes(mem, chunks)
  {
    if part != {} {
      var a :| a in part;
      SumWithout(mem, part, a);
      SumWithout(mem, chunks, a);
      SumOfPart(mem, part - {a}, chunks - {a});
    }
  }

  /** More small requests than the window has room for are all granted, so a chunk in use
      ends behind the window. */
  lemma {:induction false} SmallRunLeavesWindow(states: seq<Snapshot>, ptrs: seq<nat>, start: nat, total: nat)
    requires SmallRun(states, ptrs) && MINIMAL_CHUNK_SIZE * |ptrs| > total
    requires Tiles(states[|ptrs|].mem, start, states[|ptrs|].void)
    ensures var last := states[|ptrs|];
      exists a {:trigger EndOf(last.mem, a)} :: a in last.mem && a != last.void && EndOf(last.mem, a) > start + total
  {
    var last := states[|ptrs|];
    var live := LiveAfterRun(states, ptrs);
    forall a | a in live ensures a in Below(last.mem, last.void) {
      assert IsLive(last.mem, last.void, a);
    }
    SumAtLeast(last.mem, start, last.void, live);
    SumOfPart(last.mem, live, Below(last.mem, last.void));
    SizesBelow(last.mem, start, last.void, last.void);
    AllInsideIff(last.mem, start, last.void, start + total);
  }

  /** The payload of a chunk: what kmalloc promises to the caller. */
  ghost predicate InPayload(mem: Memory, a: nat, x: nat) {
    a in mem && a + CHUNK_DATA_OFFSET <= x < EndOf(mem, a)
  }

  /** Live payloads never overlap, and none reaches into the header of any chunk. */
  lemma PayloadsDisjoint(mem: Memory, start: nat, void: nat, a: nat, b: nat, x: nat)
    requires Tiles(mem, start, void) && IsLive(mem, void, a) && b in mem && a != b
    requires InPayload(mem, a, x)
    ensures !(b <= x < EndOf(mem, b)) || b == void
    ensures !(b <= x < b + CHUNK_DATA_OFFSET)
  {
    if a < b { assert EndOf(mem, a) <= b; } else { assert EndOf(mem, b) <= a; }
  }

  /** A request that fits gets a payload with room for every requested byte. */
  lemma PayloadHoldsRequest(mem: Memory, chunk: nat, size: nat)
    requires size <= LARGEST_REQUEST && chunk in mem && mem[chunk].size == ChunkSizeFor(size)
    ensures forall x :: chunk + CHUNK_DATA_OFFSET <= x < chunk + CHUNK_DATA_OFFSET + size ==> InPayload(mem, chunk, x)
  {
    RequestFits(size);
  }

  /** A chunk is live, or it is in the bin its size determines and in no other bin. */
  lemma LiveOrInOneBin(mem: Memory, bins: seq<Bin>, lists: seq<seq<nat>>, void: nat, a: nat)
    requires BinsOk(mem, bins, lists) && Members(mem, lists, void, NULL) && NULL !in mem
    requires a in mem && a != void
    ensures mem[a].free <==> exists k :: 0 <= k <= SORTEDBIN && a in lists[k]
    ensures forall k :: 0 <= k <= SORTEDBIN && a in lists[k] ==> k == BinIndex(mem[a].size)
    ensures forall k, i, j :: 0 <= k <= SORTEDBIN && 0 <= i < j < |lists[k]| ==> lists[k][i] != a || lists[k][j] != a
  {
    forall k, i, j | 0 <= k <= SORTEDBIN && 0 <= i < j < |lists[k]|
      ensures lists[k][i] != a || lists[k][j] != a
    {
      assert BinOk(mem, bins[k], k, lists[k]);
    }
  }

  // ---------------------------------------------------------------- the heap

  class KernelHeap {
    const start: nat
    const total: nat
    var initialized: bool
    var bins: seq<Bin>
    var voidChunk: nat
    var mem: Memory
    /** The chunks of each bin, in list order. */
    ghost var lists: seq<seq<nat>>

    /** The heap kmalloc will set up on its first call: the void chunk's start and size are
        what the address macros expand to. */
    constructor (kernelEnd: nat)
      requires VM_KERN_START <= kernelEnd < VM_KMALLOC_END
      ensures Valid() && !initialized
      ensures start == kernelEnd + 0x1000
      ensures total == InitialVoidSize(kernelEnd)
    {
      start := kernelEnd + 0x1000;
      total := InitialVoidSize(kernelEnd);
      initialized := false;
      bins := [];
      voidChunk := NULL;
      mem := map[];
      lists := [];
    }

    ghost predicate Shape(hole: nat)
      reads this
    {
      && initialized
      && Tiles(mem, start, voidChunk)
      && BinsOk(mem, bins, lists)
      && Members(mem, lists, voidChunk, hole)
    }

    ghost predicate Valid()
      reads this
    {
      && 0 < start && MINIMAL_CHUNK_SIZE <= total < SIZE_FIELD
      && (if initialized then Shape(NULL) && Tags(mem, start, voidChunk, NULL) else mem == map[])
      && VoidSize() == AtLeastMinimal(start + total - VoidAt())
    }

    method PushToSizebin(k: nat, chunk: nat)
      requires BinsOk(mem, bins, lists) && k < SIZEBINS
      requires chunk in mem && chunk != NULL
      requires forall j :: 0 <= j <= SORTEDBIN ==> chunk !in lists[j]
      modifies this`mem, this`bins, this`lists
      ensures mem == old(mem)[chunk := old(mem)[chunk].(next := old(bins)[k].first)]
      ensures lists == old(lists)[k := [chunk] + old(lists)[k]]
      ensures BinsOk(mem, bins, lists)
    {
      assert BinOk(mem, bins[k], k, lists[k]);
      mem := mem[chunk := mem[chunk].(next := bins[k].first)];
      bins := bins[k := bins[k].(first := chunk)];
      bins := bins[k := bins[k].(counter := bins[k].counter + 1)];
      ghost var list := lists[k];
      lists := lists[k := [chunk] + list];
      forall j | 0 <= j <= SORTEDBIN
        ensures BinOk(mem, bins[j], j, lists[j])
      {
        assert BinOk(old(mem), old(bins)[j], j, old(lists)[j]);
        if j == k {
          forall i | 0 <= i < |lists[k]|
            ensures lists[k][i] in mem
            ensures mem[lists[k][i]].next == (if i + 1 < |lists[k]| then lists[k][i + 1] else NULL)
          {
            if i > 0 {
              assert lists[k][i] == list[i - 1];
              assert old(mem)[list[i - 1]].next == (if i < |list| then list[i] else NULL);
            }
          }
        }
      }
    }

    method PopFromSizebin(k: nat) returns (chunk: nat)
      requires BinsOk(mem, bins, lists) && k < SIZEBINS && bins[k].counter > 0
      modifies this`bins, this`lists
      ensures lists == old(lists)[k := old(lists)[k][1..]]
      ensures chunk == old(lists)[k][0]
      ensures BinsOk(mem, bins, lists)
    {
      assert BinOk(mem, bins[k], k, lists[k]);
      chunk := bins[k].first;
      if bins[k].counter > 1 {
        bins := bins[k := bins[k].(first := mem[chunk].next)];
      } else {
        bins := bins[k := bins[k].(first := NULL)];
      }
      bins := bins[k := bins[k].(counter := bins[k].counter - 1)];
      ghost var list := lists[k];
      lists := lists[k := list[1..]];
      forall j | 0 <= j <= SORTEDBIN
        ensures BinOk(mem, bins[j], j, lists[j])
      {
        assert BinOk(mem, old(bins)[j], j, old(lists)[j]);
        if j == k {
          assert mem[list[0]].next == (if 1 < |list| then list[1] else NULL);
          forall i | 0 <= i < |lists[k]|
            ensures mem[lists[k][i]].next == (if i + 1 < |lists[k]| then lists[k][i + 1] else NULL)
          {
            assert lists[k][i] == list[i + 1];
            assert mem[list[i + 1]].next == (if i + 2 < |list| then list[i + 2] else NULL);
          }
        }
      }
    }

    method EraseFromSortedbin(chunk: nat, ghost at: nat)
      requires BinsOk(mem, bins, lists) && Apart(lists) && NULL !in mem
      requires at < |lists[SORTEDBIN]| && lists[SORTEDBIN][at] == chunk
      modifies this`mem, this`bins, this`lists
      ensures mem == Unsplice(old(mem), old(lists)[SORTEDBIN], at)
      ensures lists == old(lists)[SORTEDBIN := RemovedAt(old(lists)[SORTEDBIN], at)]
      ensures bins == old(bins)[SORTEDBIN := ErasedBin(old(bins)[SORTEDBIN], old(lists)[SORTEDBIN], at)]
    {
      hide Apart;
      ghost var list := lists[SORTEDBIN];
      assert BinOk(mem, bins[SORTEDBIN], SORTEDBIN, list);
      assert mem[list[at]].prev == (if at == 0 then NULL else list[at - 1]);
      assert mem[list[at]].next == (if at + 1 < |list| then list[at + 1] else NULL);
      var sortedbin := bins[SORTEDBIN];
      var prevChunk, nextChunk := NULL, NULL;
      if sortedbin.counter != 1 {
        prevChunk := mem[chunk].prev;
        nextChunk := mem[chunk].next;
      }
      assert prevChunk == (if at == 0 then NULL else list[at - 1]);
      assert nextChunk == (if at + 1 < |list| then list[at + 1] else NULL);
      if prevChunk == NULL {
        sortedbin := sortedbin.(first := nextChunk);
      } else {
        mem := mem[prevChunk := mem[prevChunk].(next := nextChunk)];
      }
      if nextChunk == NULL {
        sortedbin := sortedbin.(last := prevChunk);
      } else {
        mem := mem[nextChunk := mem[nextChunk].(prev := prevChunk)];
      }
      sortedbin := sortedbin.(counter := sortedbin.counter - 1);
      assert sortedbin == ErasedBin(bins[SORTEDBIN], list, at);
      bins := bins[SORTEDBIN := sortedbin];
      lists := lists[SORTEDBIN := RemovedAt(list, at)];
    }

    /** The search loop of the insertion, entered when the place is strictly inside the list. */
    method InsertInside(chunk: nat, head: nat) returns (ghost at: nat)
      requires BinsOk(mem, bins, lists) && NULL !in mem
      requires chunk in mem && chunk !in lists[SORTEDBIN]
      requires 2 <= |lists[SORTEDBIN]| && head == lists[SORTEDBIN][0]
      requires mem[head].size <= mem[chunk].size < mem[lists[SORTEDBIN][|lists[SORTEDBIN]| - 1]].size
      modifies this`mem
      ensures 0 < at < |lists[SORTEDBIN]|
      ensures FitsAt(old(mem), lists[SORTEDBIN], at, chunk)
      ensures mem == Splice(old(mem), lists[SORTEDBIN], at, chunk)
    {
      ghost var list := lists[SORTEDBIN];
      assert BinOk(mem, bins[SORTEDBIN], SORTEDBIN, list);
      var tmp := head;
      at := 1;
      while tmp != NULL
        invariant tmp != NULL
        invariant 1 <= at < |list| && tmp == list[at - 1] && mem == old(mem)
        invariant mem[tmp].size <= mem[chunk].size
        decreases |list| - at
      {
        assert mem[list[at - 1]].next == list[at];
        if mem[tmp].next != NULL {
          if mem[tmp].size <= mem[chunk].size && mem[mem[tmp].next].size >= mem[chunk].size {
            var next := mem[tmp].next;
            assert FitsAt(mem, list, at, chunk);
            mem := mem[chunk := mem[chunk].(prev := tmp, next := next)];
            mem := mem[next := mem[next].(prev := chunk)];
            mem := mem[tmp := mem[tmp].(next := chunk)];
            break;
          }
        } else {
          break;
        }
        tmp := mem[tmp].next;
        at := at + 1;
      }
    }

    /** The chunk has the smallest size: it goes in front of `head`. */
    method InsertFirst(chunk: nat, head: nat)
      requires BinsOk(mem, bins, lists) && NULL !in mem
      requires chunk in mem && chunk !in lists[SORTEDBIN]
      requires 1 <= |lists[SORTEDBIN]| && head == lists[SORTEDBIN][0]
      requires mem[head].size > mem[chunk].size
      modifies this`mem, this`bins
      ensures FitsAt(old(mem), lists[SORTEDBIN], 0, chunk)
      ensures mem == Splice(old(mem), lists[SORTEDBIN], 0, chunk)
      ensures bins == old(bins)[SORTEDBIN := old(bins)[SORTEDBIN].(first := chunk)]
    {
      assert BinOk(mem, bins[SORTEDBIN], SORTEDBIN, lists[SORTEDBIN]);
      bins := bins[SORTEDBIN := bins[SORTEDBIN].(first := chunk)];
      mem := mem[chunk := mem[chunk].(next := head, prev := NULL)];
      mem := mem[head := mem[head].(prev := chunk)];
    }

    /** The chunk has the biggest size: it goes behind `tail`. */
    method InsertLast(chunk: nat, tail: nat)
      requires BinsOk(mem, bins, lists) && NULL !in mem
      requires chunk in mem && chunk !in lists[SORTEDBIN]
      requires 1 <= |lists[SORTEDBIN]| && tail == lists[SORTEDBIN][|lists[SORTEDBIN]| - 1]
      requires mem[tail].size <= mem[chunk].size
      modifies this`mem, this`bins
      ensures FitsAt(old(mem), lists[SORTEDBIN], |lists[SORTEDBIN]|, chunk)
      ensures mem == Splice(old(mem), lists[SORTEDBIN], |lists[SORTEDBIN]|, chunk)
      ensures bins == old(bins)[SORTEDBIN := old(bins)[SORTEDBIN].(last := chunk)]
    {
      assert BinOk(mem, bins[SORTEDBIN], SORTEDBIN, lists[SORTEDBIN]);
      bins := bins[SORTEDBIN := bins[SORTEDBIN].(last := chunk)];
      mem := mem[chunk := mem[chunk].(next := NULL, prev := tail)];
      mem := mem[tail := mem[tail].(next := chunk)];
    }

    method InsertInSortedbin(chunk: nat) returns (ghost at: nat)
      requires BinsOk(mem, bins, lists) && NULL !in mem
      requires chunk in mem && chunk !in lists[SORTEDBIN]
      modifies this`mem, this`bins, this`lists
      ensures at <= |old(lists)[SORTEDBIN]|
      ensures FitsAt(old(mem), old(lists)[SORTEDBIN], at, chunk)
      ensures mem == Splice(old(mem), old(lists)[SORTEDBIN], at, chunk)
      ensures lists == old(lists)[SORTEDBIN := InsertedAt(old(lists)[SORTEDBIN], at, chunk)]
      ensures bins == old(bins)[SORTEDBIN := InsertedBin(old(bins)[SORTEDBIN], old(lists)[SORTEDBIN], at, chunk)]
    {
      ghost var list := lists[SORTEDBIN];
      assert BinOk(mem, bins[SORTEDBIN], SORTEDBIN, list);
      var tmp := bins[SORTEDBIN].first;
      match bins[SORTEDBIN].counter {
        case 0 =>
          at := 0;
          bins := bins[SORTEDBIN := bins[SORTEDBIN].(first := chunk, last := chunk)];
          mem := mem[chunk := mem[chunk].(next := NULL, prev := NULL)];
        case 1 =>
          if mem[tmp].size > mem[chunk].size {
            at := 0;
            InsertFirst(chunk, tmp);
          } else {
            at := 1;
            InsertLast(chunk, tmp);
          }
        case _ =>
          if mem[tmp].size > mem[chunk].size {
            at := 0;
            InsertFirst(chunk, tmp);
          } else if mem[bins[SORTEDBIN].last].size <= mem[chunk].size {
            at := |list|;
            InsertLast(chunk, bins[SORTEDBIN].last);
          } else {
            at := InsertInside(chunk, tmp);
          }
      }
      bins := bins[SORTEDBIN := bins[SORTEDBIN].(counter := bins[SORTEDBIN].counter + 1)];
      lists := lists[SORTEDBIN := InsertedAt(list, at, chunk)];
    }

    method FindSuitableBin(size: nat) returns (k: nat)
      requires BinsOk(mem, bins, lists)
      ensures k == BinIndex(size)
    {
      for i := 0 to SIZEBINS
        invariant forall j :: 0 <= j < i ==> StoredSize(j) != size
      {
        assert BinOk(mem, bins[i], i, lists[i]);
        if bins[i].storedSize == size {
          return i;
        }
      }
      assert StoredSize(0) != size && StoredSize(1) != size && StoredSize(2) != size && StoredSize(3) != size && StoredSize(4) != size;
      return SORTEDBIN;
    }

    /** A chunk that is in no bin goes to its place in the sorted one. */
    method PutInSortedbin(chunk: nat)
      requires BinsOk(mem, bins, lists) && Apart(lists) && NULL !in mem && chunk in mem
      requires forall j :: 0 <= j <= SORTEDBIN ==> chunk !in lists[j]
      requires forall a {:trigger mem[a]} :: a in lists[SORTEDBIN] ==> a in mem && mem[a].free
      modifies this`mem, this`bins, this`lists
      ensures Relinked(old(mem), mem) && mem[chunk].size == old(mem)[chunk].size
      ensures forall a {:trigger mem[a]} :: a in mem && a != chunk && !mem[a].free ==> mem[a] == old(mem)[a]
      ensures OneMore(old(lists), lists, SORTEDBIN, chunk)
      ensures BinsOk(mem, bins, lists)
    {
      hide Apart, Splice;
      ghost var at := InsertInSortedbin(chunk);
      InsertKeepsBins(old(mem), old(bins), old(lists), at, chunk);
      WithAtMembers(old(lists)[SORTEDBIN], at, chunk);
    }

    /** The first half of kfree: insert the chunk into the suitable bin. */
    method PutInBin(chunk: nat)
      requires Shape(NULL) && chunk in mem && chunk != voidChunk && !mem[chunk].free
      modifies this`mem, this`bins, this`lists
      ensures Relinked(old(mem), mem) && mem[chunk].size == old(mem)[chunk].size
      ensures forall a {:trigger mem[a]} :: a in mem && a != chunk && !mem[a].free ==> mem[a] == old(mem)[a]
      ensures OneMore(old(lists), lists, BinIndex(mem[chunk].size), chunk)
      ensures BinsOk(mem, bins, lists)
    {
      NotListed(mem, lists, voidChunk, chunk);
      var destBin := FindSuitableBin(mem[chunk].size);
      if destBin == SORTEDBIN {
        PutInSortedbin(chunk);
      } else {
        PushToSizebin(destBin, chunk);
      }
    }

    /** The second half of kfree: tag the neighbour and mark the chunk as free. */
    method MarkFree(chunk: nat)
      requires BinsOk(mem, bins, lists) && chunk in mem && EndOf(mem, chunk) in mem && mem[chunk].size > 0
      modifies this`mem
      ensures Freed(old(mem), mem, voidChunk, chunk)
      ensures SameLinks(old(mem), mem)
      ensures BinsOk(mem, bins, lists)
    {
      var nextChunk := chunk + mem[chunk].size;
      if voidChunk > nextChunk {
        mem := mem[nextChunk := mem[nextChunk].(prevFree := true, prevSize := mem[chunk].size)];
      }
      mem := mem[chunk := mem[chunk].(free := true)];
      BinsFrame(old(mem), mem, bins, lists);
    }

    /** The state kfree may be called in: the tag behind the freed chunk need not
        be right yet, because splitting a chunk leaves it stale. */
    ghost predicate FreeReady(ptr: nat)
      reads this
    {
      && initialized && Shape(NULL)
      && (ptr == NULL || (CHUNK_DATA_OFFSET <= ptr && ptr - CHUNK_DATA_OFFSET in mem))
      && Tags(mem, start, voidChunk, if ptr == NULL then NULL else ptr - CHUNK_DATA_OFFSET)
    }

    method Kfree(ptr: nat) returns (r: Outcome)
      requires FreeReady(ptr)
      modifies this`mem, this`bins, this`lists
      ensures ptr == NULL ==> r == Done(NULL)
      ensures ptr != NULL ==> (r == Panic <==> old(mem)[ptr - CHUNK_DATA_OFFSET].free)
      ensures ptr == NULL || r == Panic ==> mem == old(mem) && bins == old(bins) && lists == old(lists)
      ensures ptr != NULL && r != Panic ==> var chunk := ptr - CHUNK_DATA_OFFSET;
        && r == Done(NULL)
        && Freed(old(mem), mem, voidChunk, chunk)
        && LiveMinus(old(mem), voidChunk, mem, voidChunk, chunk)
        && Shape(NULL) && Tags(mem, start, voidChunk, NULL)
      ensures ptr != NULL && r != Panic ==> var chunk := ptr - CHUNK_DATA_OFFSET; var next := chunk + old(mem)[chunk].size;
        && (next < voidChunk ==> next in mem && mem[next].prevFree && mem[next].prevSize == old(mem)[chunk].size)
        && (forall a {:trigger mem[a]} :: a in mem && (a != next || a == voidChunk) ==>
              mem[a].prevFree == old(mem)[a].prevFree && mem[a].prevSize == old(mem)[a].prevSize)
        && (forall a {:trigger mem[a]} :: a in mem ==> mem[a].size == old(mem)[a].size && mem[a].free == (old(mem)[a].free || a == chunk))
      ensures VoidSize() == old(VoidSize()) && (old(Valid()) ==> Valid())
    {
      if ptr == NULL {
        return Done(NULL);
      }
      var chunk := ptr - CHUNK_DATA_OFFSET;
      if !initialized {
        return Panic;
      }
      if mem[chunk].free {
        return Panic;
      }
      ghost var before := mem;
      ChunkInUse(before, start, voidChunk, chunk);
      Release(chunk);
      FreedTags(before, mem, start, voidChunk, chunk);
      return Done(NULL);
    }

    /** kfree of a chunk that is in use. */
    method Release(chunk: nat)
      requires Shape(NULL) && Tags(mem, start, voidChunk, chunk) && chunk in mem && !mem[chunk].free
      modifies this`mem, this`bins, this`lists
      ensures Freed(old(mem), mem, voidChunk, chunk) && LiveMinus(old(mem), voidChunk, mem, voidChunk, chunk)
      ensures Shape(NULL) && Tags(mem, start, voidChunk, NULL)
    {
      hide Tiles, Members, Tags, BinsOk, Freed, LiveMinus, Relinked, SameLinks, OneMore;
      ghost var mem0, lists0 := mem, lists;
      ChunkInUse(mem0, start, voidChunk, chunk);
      PutInBin(chunk);
      ghost var mem1 := mem;
      RelinkedSize(mem0, mem1, chunk);
      MarkFree(chunk);
      FreeDone(mem0, mem1, mem, lists0, lists, start, voidChunk, chunk);
    }

    /** Writes a chunk header; words it does not set keep whatever memory held. */
    method CreateChunk(addr: nat, size: nat)
      modifies this`mem
      ensures addr in mem && mem == old(mem)[addr := mem[addr]]
      ensures mem[addr] == Created(mem[addr], size)
      ensures addr in old(mem) ==> mem[addr] == Created(old(mem)[addr], size)
    {
      var garbage: Header := *;
      var h := if addr in mem then mem[addr] else garbage;
      mem := mem[addr := Created(h, size)];
    }

    method SplitChunk(chunk: nat, size: nat)
      requires initialized && Shape(chunk) && Tags(mem, start, voidChunk, NULL)
      requires chunk in mem && chunk != voidChunk && mem[chunk].free
      requires MINIMAL_CHUNK_SIZE <= size <= mem[chunk].size && size % CHUNK_ALIGNMENT == 0
      modifies this`mem, this`bins, this`lists
      ensures Shape(chunk) && Tags(mem, start, voidChunk, NULL)
      ensures chunk in mem && mem[chunk].size == size
      ensures mem.Keys == old(mem).Keys + {chunk, chunk + size}
      ensures mem[voidChunk].size == old(mem)[voidChunk].size
      ensures LivePlus(old(mem), voidChunk, mem, voidChunk, if mem[chunk].free then {} else {chunk})
    {
      if mem[chunk].size - size >= MINIMAL_CHUNK_SIZE {
        ReleaseRest(chunk, size);
      } else {
        assert EndOf(mem, chunk) == chunk + size;
      }
    }

    /** The taken branch of the split: cut the chunk and free what lies behind it. */
    method ReleaseRest(chunk: nat, size: nat)
      requires initialized && Shape(chunk) && Tags(mem, start, voidChunk, NULL)
      requires chunk in mem && chunk != voidChunk && mem[chunk].free
      requires MINIMAL_CHUNK_SIZE <= size && size + MINIMAL_CHUNK_SIZE <= mem[chunk].size && size % CHUNK_ALIGNMENT == 0
      modifies this`mem, this`bins, this`lists
      ensures Shape(NULL) && Tags(mem, start, voidChunk, NULL)
      ensures chunk in mem && mem[chunk].size == size && !mem[chunk].free
      ensures mem.Keys == old(mem).Keys + {chunk + size}
      ensures mem[voidChunk].size == old(mem)[voidChunk].size
      ensures LivePlus(old(mem), voidChunk, mem, voidChunk, {chunk})
    {
      hide Tags, LivePlus, LiveMinus, Tiles, BinsOk, Members;
      var ptr := CutChunk(chunk, size);
      ghost var cut := mem;
      var r := Kfree(ptr);
      FreedSizes(cut, mem, voidChunk, chunk + size);
      PlusThenMinus(old(mem), cut, mem, voidChunk, chunk, chunk + size);
    }

    method CutChunk(chunk: nat, size: nat) returns (ptr: nat)
      requires initialized && Shape(chunk) && Tags(mem, start, voidChunk, NULL)
      requires chunk in mem && chunk != voidChunk && mem[chunk].free
      requires MINIMAL_CHUNK_SIZE <= size && size + MINIMAL_CHUNK_SIZE <= mem[chunk].size && size % CHUNK_ALIGNMENT == 0
      modifies this`mem
      ensures ptr == chunk + size + CHUNK_DATA_OFFSET && FreeReady(ptr)
      ensures chunk + size !in old(mem) && mem.Keys == old(mem).Keys + {chunk + size} && chunk + size < voidChunk
      ensures mem[chunk].size == size && !mem[chunk].free && !mem[chunk + size].free && voidChunk in mem
      ensures mem[voidChunk].size == old(mem)[voidChunk].size
      ensures LivePlus(old(mem), voidChunk, mem, voidChunk, {chunk, chunk + size})
    {
      var oldSize := mem[chunk].size;
      CreateChunk(chunk, size);
      CreateChunk(chunk + size, oldSize - size);
      ghost var rest := mem[chunk + size];
      assert mem == Cut(old(mem), chunk, size, rest);
      CutReady(old(mem), bins, lists, start, voidChunk, chunk, size, rest);
      ptr := chunk + size + CHUNK_DATA_OFFSET;
    }

    /** Search the size bins: only a bin of exactly this size will do. */
    method TakeFromSizebins(size: nat) returns (found: nat)
      requires BinsOk(mem, bins, lists) && NULL !in mem
      modifies this`bins, this`lists
      ensures BinsOk(mem, bins, lists)
      ensures found == NULL ==> bins == old(bins) && lists == old(lists)
      ensures found == NULL && BinIndex(size) < SIZEBINS ==> lists[BinIndex(size)] == []
      ensures found != NULL ==> BinIndex(size) < SIZEBINS && OneLess(old(lists), lists, BinIndex(size), found)
    {
      found := NULL;
      for i := 0 to SIZEBINS
        invariant found == NULL && bins == old(bins) && lists == old(lists)
        invariant forall j :: 0 <= j < i ==> StoredSize(j) != size
      {
        assert BinOk(mem, bins[i], i, lists[i]);
        if bins[i].storedSize == size {
          assert i == BinIndex(size);
          if bins[i].counter > 0 {
            found := PopFromSizebin(i);
            WithoutAtMembers(old(lists)[i], 0);
            assert lists[i] == RemovedAt(old(lists)[i], 0);
          }
          return;
        }
      }
      assert StoredSize(0) != size && StoredSize(1) != size && StoredSize(2) != size && StoredSize(3) != size && StoredSize(4) != size;
    }

    /** Search the sorted bin: the first chunk that is big enough. */
    method TakeFromSortedbin(size: nat) returns (found: nat)
      requires BinsOk(mem, bins, lists) && Apart(lists) && NULL !in mem
      modifies this`mem, this`bins, this`lists
      ensures Relinked(old(mem), mem)
      ensures BinsOk(mem, bins, lists)
      ensures forall a {:trigger mem[a]} :: a in mem && a !in old(lists)[SORTEDBIN] ==> mem[a] == old(mem)[a]
      ensures found == NULL ==> mem == old(mem) && bins == old(bins) && lists == old(lists)
      ensures found == NULL ==> forall a :: a in lists[SORTEDBIN] ==> a in mem && mem[a].size < size
      ensures found != NULL ==> OneLess(old(lists), lists, SORTEDBIN, found)
      ensures found != NULL ==> found in old(mem) && old(mem)[found].size >= size
      ensures found != NULL ==> forall a :: a in old(lists)[SORTEDBIN] ==>
        a in old(mem) && (old(mem)[a].size >= size ==> old(mem)[found].size <= old(mem)[a].size)
    {
      ghost var list := lists[SORTEDBIN];
      assert BinOk(mem, bins[SORTEDBIN], SORTEDBIN, list);
      found := NULL;
      if bins[SORTEDBIN].counter > 0 {
        var tmp := bins[SORTEDBIN].first;
        ghost var at := 0;
        while tmp != NULL
          invariant mem == old(mem) && bins == old(bins) && lists == old(lists) && found == NULL
          invariant at <= |list| && tmp == (if at < |list| then list[at] else NULL)
          invariant forall i {:trigger list[i]} :: 0 <= i < at ==> mem[list[i]].size < size
          decreases |list| - at
        {
          if mem[tmp].size >= size {
            found := tmp;
            EraseFromSortedbin(found, at);
            EraseKeepsBins(old(mem), old(bins), old(lists), at);
            WithoutAtMembers(list, at);
            return;
          }
          assert mem[list[at]].next == (if at + 1 < |list| then list[at + 1] else NULL);
          tmp := mem[tmp].next;
          at := at + 1;
        }
      }
    }

    /** Takes the first chunk of exactly the wanted size, if there is one. */
    method TakeExact(size: nat) returns (found: nat)
      requires initialized && Shape(NULL) && Tags(mem, start, voidChunk, NULL)
      modifies this`bins, this`lists
      ensures found == NULL ==> bins == old(bins) && lists == old(lists)
      ensures found == NULL && BinIndex(size) < SIZEBINS ==> lists[BinIndex(size)] == []
      ensures found != NULL ==> SmallestServing(mem, voidChunk, found, size) && Shape(found)
    {
      found := TakeFromSizebins(size);
      if found != NULL {
        TakenKeeps(mem, mem, old(lists), lists, start, voidChunk, found, BinIndex(size));
        ExactFitIsSmallest(mem, old(lists), voidChunk, size, found);
      }
    }

    /** Takes the smallest sufficient chunk of the sorted bin, if there is one. */
    method TakeBigger(size: nat) returns (found: nat)
      requires initialized && Shape(NULL) && Tags(mem, start, voidChunk, NULL)
      requires BinIndex(size) < SIZEBINS ==> lists[BinIndex(size)] == []
      modifies this`mem, this`bins, this`lists
      ensures found == NULL ==> mem == old(mem) && bins == old(bins) && lists == old(lists)
      ensures found == NULL ==> !CanServe(mem, voidChunk, size)
      ensures found != NULL ==>
        && SmallestServing(old(mem), voidChunk, found, size)
        && Relinked(old(mem), mem) && LivePlus(old(mem), voidChunk, mem, voidChunk, {})
        && Shape(found) && Tags(mem, start, voidChunk, NULL)
    {
      hide BinsOk, Tags, LivePlus, Relinked, OneLess, SmallestServing, CanServe;
      assert Apart(lists) && NULL !in mem by { ServingChunks(mem, lists, voidChunk, size); }
      found := TakeFromSortedbin(size);
      if found != NULL {
        TakenKeeps(old(mem), mem, old(lists), lists, start, voidChunk, found, SORTEDBIN);
        FirstFitIsSmallest(old(mem), old(lists), voidChunk, size, found);
      } else {
        NoneServes(mem, lists, voidChunk, size);
      }
    }

    /** Finds a free chunk and takes it out of its bin. */
    method TakeFromBins(size: nat) returns (found: nat)
      requires initialized && Shape(NULL) && Tags(mem, start, voidChunk, NULL)
      modifies this`mem, this`bins, this`lists
      ensures found == NULL ==> mem == old(mem) && bins == old(bins) && lists == old(lists)
      ensures found == NULL ==> !CanServe(mem, voidChunk, size)
      ensures found != NULL ==>
        && SmallestServing(old(mem), voidChunk, found, size)
        && Relinked(old(mem), mem) && LivePlus(old(mem), voidChunk, mem, voidChunk, {})
        && Shape(found) && Tags(mem, start, voidChunk, NULL)
    {
      found := TakeExact(size);
      if found == NULL {
        found := TakeBigger(size);
      }
    }

    /** Updates the headers of a chunk that leaves the allocator, and of its neighbour. */
    method HandOut(chunk: nat)
      requires initialized && Shape(chunk) && Tags(mem, start, voidChunk, NULL)
      requires chunk in mem && chunk != voidChunk
      modifies this`mem
      ensures Shape(NULL) && Tags(mem, start, voidChunk, NULL)
      ensures mem.Keys == old(mem).Keys && mem[chunk].size == old(mem)[chunk].size
      ensures mem[voidChunk].size == old(mem)[voidChunk].size
      ensures LivePlus(old(mem), voidChunk, mem, voidChunk, {chunk})
      ensures EndOf(mem, chunk) in mem && !mem[EndOf(mem, chunk)].prevFree && mem[EndOf(mem, chunk)].prevSize == 0
    {
      HandOutKeeps(mem, bins, lists, start, voidChunk, chunk);
      var adjacent := chunk + mem[chunk].size;
      assert adjacent == EndOf(mem, chunk);
      mem := mem[adjacent := mem[adjacent].(prevFree := false, prevSize := 0)];
      mem := mem[chunk := mem[chunk].(free := false)];
    }

    method FindFreeChunk(size: nat) returns (found: nat)
      requires initialized && Shape(NULL) && Tags(mem, start, voidChunk, NULL)
      requires MINIMAL_CHUNK_SIZE <= size && size % CHUNK_ALIGNMENT == 0
      modifies this`mem, this`bins, this`lists
      ensures Shape(NULL) && Tags(mem, start, voidChunk, NULL)
      ensures found == NULL ==> mem == old(mem) && bins == old(bins) && lists == old(lists)
      ensures mem[voidChunk].size == old(mem)[voidChunk].size
      ensures found == NULL ==> !CanServe(mem, voidChunk, size)
      ensures found != NULL ==>
        && SmallestServing(old(mem), voidChunk, found, size)
        && mem.Keys == old(mem).Keys + {found, found + size} && mem[found].size == size
        && !mem[found + size].prevFree && mem[found + size].prevSize == 0
        && LivePlus(old(mem), voidChunk, mem, voidChunk, {found})
    {
      hide BinsOk, Members, Tiles, Tags;
      found := TakeFromBins(size);
      if found != NULL {
        ghost var mem1 := mem;
        SplitChunk(found, size);
        ghost var mem2 := mem;
        HandOut(found);
        LivePlusChain(old(mem), mem1, mem2, voidChunk, voidChunk, {}, if mem2[found].free then {} else {found});
        LivePlusChain(old(mem), mem2, mem, voidChunk, voidChunk, if mem2[found].free then {} else {found}, {found});
      }
    }

    ghost function VoidAt(): nat
      reads this
    {
      if initialized then voidChunk else start
    }

    ghost function VoidSize(): nat
      reads this
    {
      if initialized && voidChunk in mem then mem[voidChunk].size else total
    }

    method MallocInit()
      requires Valid() && !initialized
      modifies this
      ensures Valid() && initialized
      ensures VoidAt() == old(VoidAt()) && VoidSize() == old(VoidSize())
      ensures forall a :: !IsLive(mem, voidChunk, a)
      ensures forall n :: !CanServe(mem, voidChunk, n)
    {
      bins := [];
      for i := 0 to SIZEBINS
        invariant |bins| == i && forall k :: 0 <= k < i ==> bins[k] == Bin(StoredSize(k), 0, NULL, NULL)
        invariant mem == map[] && !initialized
      {
        bins := bins + [Bin(32 + i * CHUNK_ALIGNMENT, 0, NULL, NULL)];
      }
      bins := bins + [Bin(0, 0, NULL, NULL)];
      lists := seq(SORTEDBIN + 1, _ => []);
      CreateChunk(start, total);
      voidChunk := start;
      mem := mem[voidChunk := mem[voidChunk].(free := true)];
      initialized := true;
      forall k | 0 <= k <= SORTEDBIN ensures BinOk(mem, bins[k], k, lists[k]) { }
    }

    method VoidChunkUpdate(addr: nat, size: nat)
      modifies this`mem, this`voidChunk
      ensures voidChunk == addr && addr in mem && mem == old(mem)[addr := mem[addr]]
      ensures mem[addr] == Created(mem[addr], size).(free := true)
    {
      CreateChunk(addr, size);
      voidChunk := addr;
      mem := mem[voidChunk := mem[voidChunk].(free := true)];
    }

    method CarveVoid(size: nat) returns (chunk: nat)
      requires Valid() && initialized
      requires MINIMAL_CHUNK_SIZE <= size <= VoidSize() && size % CHUNK_ALIGNMENT == 0
      modifies this`mem, this`voidChunk
      ensures Valid()
      ensures chunk == old(voidChunk) && chunk in mem && mem[chunk].size == size
      ensures voidChunk == chunk + size
      ensures VoidSize() == AtLeastMinimal(old(VoidSize()) - size)
      ensures LivePlus(old(mem), old(voidChunk), mem, voidChunk, {chunk})
    {
      chunk := voidChunk;
      var tmpSize := mem[voidChunk].size;
      CreateChunk(chunk, size);
      VoidChunkUpdate(chunk + size, tmpSize - size);
      ghost var rest := mem[chunk + size];
      assert mem == Carved(old(mem), chunk, size, rest);
      CarveKeeps(old(mem), bins, lists, start, chunk, size, rest);
    }

    /** kmalloc after the size is rounded. */
    method AllocateChunk(size: nat) returns (chunk: nat)
      requires Valid() && initialized && MINIMAL_CHUNK_SIZE <= size && size % CHUNK_ALIGNMENT == 0
      modifies this
      ensures Valid() && initialized
      ensures chunk == NULL <==> old(VoidSize()) < size && !CanServe(old(mem), old(voidChunk), size)
      ensures chunk == NULL ==> mem == old(mem) && bins == old(bins) && voidChunk == old(voidChunk)
      ensures chunk != NULL ==> Allocated(old(mem), old(voidChunk), old(VoidAt()), old(VoidSize()),
                                          mem, voidChunk, VoidSize(), chunk, size)
    {
      chunk := FindFreeChunk(size);
      if chunk == NULL {
        if mem[voidChunk].size >= size {
          chunk := CarveVoid(size);
        }
      }
    }

    method AlignSize(size: nat) returns (alignedSize: nat)
      requires size < WORD
      ensures alignedSize == ChunkSizeFor(size)
      ensures alignedSize % CHUNK_ALIGNMENT == 0
    {
      if size % CHUNK_ALIGNMENT > 0 {
        alignedSize := (size - size % CHUNK_ALIGNMENT + CHUNK_ALIGNMENT) % WORD;
      } else {
        alignedSize := size;
      }
      if (size + CHUNK_DATA_OFFSET) % WORD > alignedSize {
        alignedSize := (alignedSize + CHUNK_ALIGNMENT) % WORD;
      }
      RequestFits(size);
    }

    method Kmalloc(size: nat) returns (r: Outcome)
      requires Valid() && size < WORD && ChunkSizeFor(size) != 0
      modifies this
      ensures Valid() && initialized
      ensures r == Panic <==>
        old(VoidSize()) < ChunkSizeFor(size) && !CanServe(old(mem), old(voidChunk), ChunkSizeFor(size))
      ensures r == Panic && old(initialized) ==> mem == old(mem) && bins == old(bins) && voidChunk == old(voidChunk)
      ensures ChunkSizeFor(size) == MINIMAL_CHUNK_SIZE ==> r.Done?
      ensures r.Done? ==> CHUNK_DATA_OFFSET < r.ptr
      ensures r.Done? ==> Allocated(old(mem), old(voidChunk), old(VoidAt()), old(VoidSize()),
                                    mem, voidChunk, VoidSize(), r.ptr - CHUNK_DATA_OFFSET, ChunkSizeFor(size))
    {
      hide Allocated, ChunkSizeFor, BinsOk, Tags, Members;
      var alignedSize := AlignSize(size);
      if !initialized {
        MallocInit();
      }
      ghost var mem0, void0 := mem, voidChunk;
      var newChunk := AllocateChunk(alignedSize);
      if newChunk == NULL {
        return Panic;
      }
      if !old(initialized) {
        AllocatedFromNothing(old(voidChunk), old(VoidAt()), old(VoidSize()), mem0, void0,
                             mem, voidChunk, VoidSize(), newChunk, alignedSize);
      }
      return Done(newChunk + CHUNK_DATA_OFFSET);
    }
  }
}
