/** The kernel heap: malloc, free, calloc and realloc over one pool of physical memory. */
module KernelHeap {
  import opened Common
  import opened HeaderLayout
  import opened HeaderAccess
  import opened BlockList
  import opened HeapImage

  const POOL_SIZE: nat := 16 * 1024 * 1024
  const PAGE: nat := 0x1000

  // The largest request the size rounding does not wrap to zero.
  const MAX_REQUEST: nat := WORD_LIMIT - 16

  // HEAP_ALIGN in 64-bit arithmetic: the addition wraps.
  function Align(n: Word): (r: Word) {
    (n + (ALIGNMENT - 1)) % WORD_LIMIT / ALIGNMENT * ALIGNMENT
  }

  // Subtraction that stops at zero, as free guards its counters.
  function Monus(a: nat, b: nat): nat {
    if a >= b then a - b else 0
  }

  // The position of the first block that fits, or |bs|.
  ghost function FirstFit(bs: seq<Block>, n: nat): (i: nat)
    ensures i <= |bs|
    ensures forall j :: 0 <= j < i ==> !Fits(bs[j], n)
    ensures i < |bs| ==> Fits(bs[i], n)
  {
    if bs == [] || Fits(bs[0], n) then 0 else 1 + FirstFit(bs[1..], n)
  }

  lemma {:induction false} FirstFitIs(bs: seq<Block>, n: nat, i: nat)
    requires i <= |bs| && (forall j :: 0 <= j < i ==> !Fits(bs[j], n))
    requires i < |bs| ==> Fits(bs[i], n)
    ensures FirstFit(bs, n) == i
  {
  }

  ghost predicate Allocates(head: nat, bs: seq<Block>, n: Word) {
    head != 0 && n != 0 && FirstFit(bs, Align(n)) < |bs|
  }

  // The block a request for n bytes is granted.
  ghost function Grantee(bs: seq<Block>, n: Word): Block
    requires FirstFit(bs, Align(n)) < |bs|
  {
    Granted(bs[FirstFit(bs, Align(n))], Align(n))
  }

  // The stores of a split: the remainder's header, the back link of the block after it, and the
  // header of the block that is taken. m1 and m2 are memory after the first and the second.
  method WriteSplit(ram: array<Byte>, curr: nat, size: nat) returns (ghost m1: seq<Byte>, ghost m2: seq<Byte>)
    requires ram.Length <= WORD_LIMIT && curr + size + 2 * HEADER_SIZE <= ram.Length
    requires size + HEADER_SIZE <= GetHeader(ram, curr).size < WORD_LIMIT
    requires var next := GetHeader(ram, curr).next;
      next == 0 || (curr + size + 2 * HEADER_SIZE <= next && next + HEADER_SIZE <= ram.Length)
    modifies ram
    ensures SplitStores(old(ram[..]), m1, m2, ram[..], curr, size)
  {
    hide HeaderAt;
    ghost var m := ram[..];
    var rem := curr + HEADER_SIZE + size;
    var block := GetHeader(ram, curr);
    InitHeader(ram, rem, HEAP_MAGIC, block.size - size - HEADER_SIZE, 1, block.next, curr);
    m1 := ram[..];
    HeaderStays(m, m1, curr, rem, block);
    if block.next != 0 {
      HeaderStays(m, m1, block.next, rem, HeaderAt(m, block.next));
      SetPrev(ram, block.next, rem);
      HeaderStays(m1, ram[..], curr, block.next, block);
    }
    m2 := ram[..];
    Stretch(ram, curr, size, rem);
    SetFree(ram, curr, 0);
  }

  // The stores by which the block at a absorbs the block at c behind it.
  method WriteMerge(ram: array<Byte>, a: nat, c: nat) returns (ghost m1: seq<Byte>)
    requires ram.Length <= WORD_LIMIT && a + HEADER_SIZE <= c && c + HEADER_SIZE <= ram.Length
    requires GetHeader(ram, a).size + HEADER_SIZE + GetHeader(ram, c).size < WORD_LIMIT
    requires var next := GetHeader(ram, c).next;
      next == 0 || (c + HEADER_SIZE <= next && next + HEADER_SIZE <= ram.Length)
    modifies ram
    ensures MergeStores(old(ram[..]), m1, ram[..], a, c)
  {
    hide HeaderAt;
    ghost var m := ram[..];
    var grown, gone := GetHeader(ram, a), GetHeader(ram, c);
    Stretch(ram, a, grown.size + HEADER_SIZE + gone.size, gone.next);
    m1 := ram[..];
    if gone.next != 0 {
      HeaderStays(m, m1, gone.next, a, HeaderAt(m, gone.next));
      SetPrev(ram, gone.next, a);
    }
  }

  // memset and memcpy on physical memory.
  method Memset(ram: array<Byte>, p: nat, c: Byte, n: nat)
    requires p + n <= ram.Length
    modifies ram
    ensures forall k :: p <= k < p + n ==> ram[k] == c
    ensures SameOutside(old(ram[..]), ram[..], p, p + n)
  {
    var k := 0;
    while k < n
      invariant k <= n
      invariant forall j :: p <= j < p + k ==> ram[j] == c
      invariant forall j :: 0 <= j < ram.Length && !(p <= j < p + k) ==> ram[j] == old(ram[j])
    {
      ram[p + k] := c;
      k := k + 1;
    }
  }

  // Copying upwards: where the target starts inside the source, the bytes in front of it repeat.
  method Memcpy(ram: array<Byte>, d: nat, s: nat, n: nat)
    requires d + n <= ram.Length && s + n <= ram.Length
    modifies ram
    ensures forall k :: 0 <= k < n ==> ram[d + k] == old(ram[s + Source(d, s, k)])
    ensures !(s < d < s + n) ==> ram[d..d + n] == old(ram[s..s + n])
    ensures SameOutside(old(ram[..]), ram[..], d, d + n)
  {
    hide Source;
    var k := 0;
    while k < n
      invariant k <= n
      invariant forall j :: 0 <= j < k ==> ram[d + j] == old(ram[s + Source(d, s, j)])
      invariant forall j :: 0 <= j < ram.Length && !(d <= j < d + k) ==> ram[j] == old(ram[j])
    {
      SourceStep(d, s, k);
      ram[d + k] := ram[s + k];
      k := k + 1;
    }
    if !(s < d < s + n) {
      ghost var got, want := ram[d..d + n], old(ram[s..s + n]);
      forall j | 0 <= j < n ensures got[j] == want[j] {
        SourceStep(d, s, j);
        assert ram[d + j] == old(ram[s + Source(d, s, j)]);
      }
    }
  }

  // Which byte from s on ends up k places behind d.
  function Source(d: nat, s: nat, k: nat): (i: nat)
    ensures i <= k
  {
    if s < d <= s + k then Source(d, s, k - (d - s)) else k
  }

  lemma SourceStep(d: nat, s: nat, k: nat)
    ensures s < d <= s + k ==> Source(d, s, k) == Source(d, s, s + k - d)
    ensures !(s < d <= s + k) ==> Source(d, s, k) == k
  {
  }

  lemma DecodeMagic(s: seq<Byte>)
    requires |s| == 8
    ensures s == [0x50, 0x41, 0x45, 0x48, 0, 0, 0, 0] <==> Decode(s) == HEAP_MAGIC
  {
    hide Encode, Decode;
    PoolWords();
    EncodeDecode(s);
    WordIsEightBytes();
    DecodeEncode(HEAP_MAGIC, 8);
  }

  // The heap's bookkeeping as a value.
  datatype Books = Books(blocks: seq<Block>, used: nat, count: nat)

  // What one allocation of n bytes does to the books, and the pointer it returns.
  ghost predicate AllocStep(head: nat, a: Books, b: Books, n: Word, r: nat) {
    if !Allocates(head, a.blocks, n) then r == 0 && b == a
    else
      var g := Grantee(a.blocks, n);
      && r == Payload(g) && g !in Live(a.blocks) && Live(b.blocks) == Live(a.blocks) + {g}
      && b.used == a.used + g.size && b.count == a.count + 1
  }

  // What releasing the live block l does to the books.
  ghost predicate FreeStep(a: Books, b: Books, l: Block) {
    Live(b.blocks) == Live(a.blocks) - {l} && b.used == a.used - l.size && b.count == a.count - 1
  }

  // What moving the live block l into a new block of n bytes does to the books.
  ghost predicate MoveStep(a: Books, b: Books, l: Block, n: Word, r: nat)
    requires FirstFit(a.blocks, Align(n)) < |a.blocks|
  {
    var g := Grantee(a.blocks, n);
    && r == Payload(g) && g !in Live(a.blocks) && Live(b.blocks) == Live(a.blocks) - {l} + {g}
    && b.used == a.used - l.size + g.size && b.count == a.count
  }

  // What realloc of the live block l to n bytes does to the books and to memory.
  ghost predicate ReallocStep(head: nat, a: Books, b: Books, m: seq<Byte>, m': seq<Byte>,
                              l: Block, n: Word, r: nat)
    requires End(l) <= |m| == |m'|
  {
    if n == 0 then r == 0 && FreeStep(a, b, l)
    else if n <= l.size then r == Payload(l) && b == a && m' == m
    else if !Allocates(head, a.blocks, n) then r == 0 && b == a && m' == m
    else
      && MoveStep(a, b, l, n, r)
      && r + l.size <= |m'| && m'[r..r + l.size] == m[Payload(l)..End(l)]
  }

  // The 48 bytes of the first header: "HEAP" read backwards, the pool size less 48, free, no neighbours.
  ghost predicate InitialBytes(m: seq<Byte>, h: nat) {
    && h + 48 <= |m|
    && m[h..h + 8] == [0x50, 0x41, 0x45, 0x48, 0, 0, 0, 0]
    && m[h + 8..h + 16] == [0xD0, 0xFF, 0xFF, 0, 0, 0, 0, 0]
    && m[h + 16] == 1 && (forall i :: h + 17 <= i < h + 32 ==> m[i] == 0)
    && m[h + 32..h + 40] == m[h + 40..h + 48] == [0, 0, 0, 0, 0, 0, 0, 0]
  }

  lemma PageStart(x: nat)
    ensures var start := (x + 0xFFF) / 0x1000 * 0x1000; x <= start < x + 0x1000 && start % 0x1000 == 0
  {
  }

  // One block that fills the pool, with its header, is a pool.
  lemma OneBlock(m: seq<Byte>, h: nat)
    requires 0 < h && h + POOL_SIZE <= |m|
    requires HasHeader(m, h, Expected([Whole(h, h + POOL_SIZE)], 0))
    ensures var bs := [Whole(h, h + POOL_SIZE)];
      Pool(m, bs, h, h + POOL_SIZE) && Coalesced(bs) && UsedBytes(bs) == 0 && LiveCount(bs) == 0
  {
    hide HeaderAt;
    SumsOfOne(Whole(h, h + POOL_SIZE));
    assert (POOL_SIZE - HEADER_SIZE) % 16 == 0;
  }

  lemma FirstHeaderBytes(m: seq<Byte>, h: nat)
    requires h + HEADER_SIZE <= |m|
    requires HeaderAt(m, h) == Header(HEAP_MAGIC, POOL_SIZE - HEADER_SIZE, 1, 0, 0)
    requires forall i :: h + 17 <= i < h + 32 ==> m[i] == 0
    ensures InitialBytes(m, h)
  {
    hide Encode, HeaderAt;
    HeaderBytes(m, h);
    PoolWords();
  }

  class Heap {
    const ram: array<Byte>
    var base: nat
    var total: nat
    var used: nat
    var count: nat
    var head: nat
    ghost var blocks: seq<Block>

    // The block list lies end to end over the pool and memory spells it out.
    ghost predicate Shape()
      reads this, ram
    {
      && ram.Length <= WORD_LIMIT
      && head == base > 0 && base % PAGE == 0 && total == POOL_SIZE
      && Pool(ram[..], blocks, base, base + total)
    }

    ghost predicate Valid()
      reads this, ram
    {
      && ram.Length <= WORD_LIMIT
      && (head == 0 ==> base == total == used == count == 0 && blocks == [])
      && (head != 0 ==> Shape() && Coalesced(blocks))
      && used == UsedBytes(blocks)
      && count == LiveCount(blocks)
    }

    ghost function State(): Books
      reads this
    {
      Books(blocks, used, count)
    }

    // p is a pointer handed out and not yet given back.
    ghost predicate IsLive(p: nat)
      reads this
    {
      exists b :: b in Live(blocks) && Payload(b) == p
    }

    // The test free itself makes before it acts on p.
    ghost predicate Accepts(p: nat)
      requires Valid()
      reads this, ram
    {
      && head != 0 && base + HEADER_SIZE <= p < base + total
      && GetHeader(ram, p - HEADER_SIZE).magic == HEAP_MAGIC
      && GetHeader(ram, p - HEADER_SIZE).isFree == 0
    }

    // The test in terms of the pool and the bytes in front of p.
    lemma AcceptsIs(p: nat)
      requires Valid()
      ensures Accepts(p) <==>
        && head != 0 && head + 48 <= p < head + 0x100_0000 <= ram.Length
        && ram[p - 48..p - 40] == [0x50, 0x41, 0x45, 0x48, 0, 0, 0, 0] && ram[p - 32] == 0
    {
      hide Encode, Decode, Tiled, Image, Coalesced, UsedBytes, LiveCount;
      if head != 0 && head + 48 <= p < head + 0x100_0000 {
        HeaderBytes(ram[..], p - 48);
        PoolWords();
        DecodeMagic(ram[p - 48..p - 40]);
      }
    }

    constructor (ram: array<Byte>)
      requires ram.Length <= WORD_LIMIT
      ensures Valid() && this.ram == ram && head == 0
    {
      this.ram := ram;
      base, total, used, count, head := 0, 0, 0, 0, 0;
      blocks := [];
    }

    method Init(kernelEnd: nat)
      requires ram.Length <= WORD_LIMIT
      requires kernelEnd + 0x10000 + (PAGE - 1) + POOL_SIZE <= ram.Length
      modifies this, ram
      ensures Valid() && head == base != 0
      ensures kernelEnd + 0x10000 <= base < kernelEnd + 0x10000 + 0x1000 && base % 0x1000 == 0
      ensures total == 0x100_0000 && base + total <= ram.Length
      ensures blocks == [Whole(base, base + total)] && used == 0 && count == 0
      ensures InitialBytes(ram[..], base)
      ensures SameOutside(old(ram[..]), ram[..], base, base + 48)
    {
      hide InitialBytes, HeaderAt;
      PageStart(kernelEnd + 0x10000);
      var start := (kernelEnd + 0x10000 + (PAGE - 1)) / PAGE * PAGE;
      base, total, used, count := start, POOL_SIZE, 0, 0;
      head := base;
      InitHeader(ram, head, HEAP_MAGIC, total - HEADER_SIZE, 1, 0, 0);
      blocks := [Whole(base, base + total)];
      assert GetHeader(ram, head) == Expected(blocks, 0);
      FirstHeaderBytes(ram[..], base);
      OneBlock(ram[..], base);
    }

    // ---------- malloc ----------

    // The list walk of malloc: the first free block of at least size bytes, or NULL.
    method Find(size: nat) returns (curr: nat, ghost k: nat)
      requires Shape()
      ensures k == FirstFit(blocks, size)
      ensures var j := FirstFit(blocks, size);
        if j < |blocks| then curr == blocks[j].addr > 0 else curr == 0
    {
      curr, k := head, 0;
      while curr != 0
        invariant k <= |blocks| && (if k < |blocks| then curr == blocks[k].addr > 0 else curr == 0)
        invariant forall j :: 0 <= j < k ==> !Fits(blocks[j], size)
        decreases |blocks| - k
      {
        WalkStep(ram[..], blocks, base, base + total, k);
        var block := GetHeader(ram, curr);
        if block.isFree != 0 && block.size >= size {
          break;
        }
        curr, k := block.next, k + 1;
      }
      FirstFitIs(blocks, size, k);
    }

    // The free block at curr is split and its first part taken.
    method SplitAndTake(curr: nat, size: nat, ghost i: nat)
      requires Shape() && i < |blocks| && blocks[i].addr == curr && size % ALIGNMENT == 0
      requires Fits(blocks[i], size) && Granted(blocks[i], size).size != blocks[i].size
      modifies ram, `blocks
      ensures Shape() && blocks == Grant(old(blocks), i, size)
      ensures PayloadsKept(old(ram[..]), ram[..], Live(blocks))
      ensures SameOutside(old(ram[..]), ram[..], base, base + total)
    {
      hide Tiled, Image, HeaderAt;
      ghost var m, bs := ram[..], blocks;
      SplitRoom(m, bs, base, base + total, i, size);
      ghost var m1, m2 := WriteSplit(ram, curr, size);
      SplitPool(m, m1, m2, ram[..], bs, base, base + total, i, size);
      blocks := Grant(bs, i, size);
    }

    // The free block at curr is taken as it is.
    method TakeWhole(curr: nat, size: nat, ghost i: nat)
      requires Shape() && i < |blocks| && blocks[i].addr == curr
      requires Fits(blocks[i], size) && Granted(blocks[i], size).size == blocks[i].size
      modifies ram, `blocks
      ensures Shape() && blocks == Grant(old(blocks), i, size)
      ensures PayloadsKept(old(ram[..]), ram[..], Live(blocks))
      ensures SameOutside(old(ram[..]), ram[..], base, base + total)
    {
      hide Tiled, Image, HeaderAt, Pool;
      ghost var m, bs := ram[..], blocks;
      WalkStep(m, bs, base, base + total, i);
      SetFree(ram, curr, 0);
      FlagPool(m, ram[..], bs, base, base + total, i, false);
      assert Grant(bs, i, size) == bs[i := bs[i].(free := false)];
      blocks := Grant(bs, i, size);
    }

    // The free block at curr is taken, split first when the remainder is worth it.
    method Carve(curr: nat, size: nat, ghost i: nat)
      requires Shape() && i < |blocks| && blocks[i].addr == curr && size % ALIGNMENT == 0
      requires Fits(blocks[i], size)
      modifies ram, `blocks
      ensures Shape() && blocks == Grant(old(blocks), i, size)
      ensures PayloadsKept(old(ram[..]), ram[..], Live(blocks))
      ensures SameOutside(old(ram[..]), ram[..], base, base + total)
    {
      assert HasHeader(ram[..], curr, Expected(blocks, i));
      if GetHeader(ram, curr).size >= size + HEADER_SIZE + ALIGNMENT {
        SplitAndTake(curr, size, i);
      } else {
        TakeWhole(curr, size, i);
      }
    }

    method Take(curr: nat, size: nat, ghost i: nat)
      requires Valid() && head != 0 && i < |blocks| && blocks[i].addr == curr && size % ALIGNMENT == 0
      requires Fits(blocks[i], size)
      modifies this, ram
      ensures Valid() && base == old(base) && total == old(total) && head == old(head)
      ensures var g := Granted(old(blocks)[i], size);
        && g !in old(Live(blocks)) && Live(blocks) == old(Live(blocks)) + {g}
        && used == old(used) + g.size && count == old(count) + 1
      ensures PayloadsKept(old(ram[..]), ram[..], old(Live(blocks)))
      ensures SameOutside(old(ram[..]), ram[..], base, base + total)
    {
      GrantSummary(blocks, base, base + total, i, size);
      Carve(curr, size, i);
      assert HasHeader(ram[..], curr, Expected(blocks, i));
      used := used + GetHeader(ram, curr).size;
      count := count + 1;
    }

    method Malloc(n: Word) returns (r: nat)
      requires Valid()
      modifies this, ram
      ensures Valid() && base == old(base) && total == old(total) && head == old(head)
      ensures AllocStep(head, old(State()), State(), n, r)
      ensures r == 0 ==> ram[..] == old(ram[..])
      ensures PayloadsKept(old(ram[..]), ram[..], old(Live(blocks)))
      ensures SameOutside(old(ram[..]), ram[..], base, base + total)
    {
      if head == 0 || n == 0 {
        return 0;
      }
      var curr, k := Find(Align(n));
      if curr == 0 {
        return 0;
      }
      Take(curr, Align(n), k);
      return curr + HEADER_SIZE;
    }

    // ---------- free ----------

    // The block at a absorbs the free block behind it; the absorbed header stays in memory.
    method Absorb(a: nat, c: nat, ghost i: nat)
      requires Shape() && i + 1 < |blocks| && blocks[i].addr == a && blocks[i + 1].addr == c
      modifies ram, `blocks
      ensures Shape() && blocks == Merge(old(blocks), i)
      ensures PayloadsKept(old(ram[..]), ram[..], Live(blocks))
      ensures SameOutside(old(ram[..]), ram[..], base, base + total)
      ensures OnlyFrees(old(ram[..]), ram[..], old(blocks), blocks)
    {
      hide Tiled, Image, HeaderAt, OnlyFrees;
      ghost var m, bs := ram[..], blocks;
      MergeRoom(m, bs, base, base + total, i);
      ghost var m1 := WriteMerge(ram, a, c);
      ghost var m2 := ram[..];
      MergeOnlyFrees(m, m1, m2, bs, base, base + total, i);
      MergePool(m, m1, m2, bs, base, base + total, i);
      blocks := Merge(bs, i);
    }

    // The block at a is marked free.
    method MarkFree(a: nat, ghost i: nat)
      requires Shape() && i < |blocks| && blocks[i].addr == a
      modifies ram, `blocks
      ensures Shape() && blocks == Freed(old(blocks), i)
      ensures HasHeader(ram[..], a, Expected(blocks, i))
      ensures OnlyFrees(old(ram[..]), ram[..], old(blocks), blocks)
      ensures PayloadsKept(old(ram[..]), ram[..], Live(blocks))
      ensures SameOutside(old(ram[..]), ram[..], base, base + total)
    {
      hide Tiled, Image, HeaderAt, OnlyFrees, Live;
      ghost var m, bs := ram[..], blocks;
      WalkStep(m, bs, base, base + total, i);
      SetFree(ram, a, 1);
      FlagPool(m, ram[..], bs, base, base + total, i, true);
      MarkOnlyFrees(m, ram[..], bs, base, base + total, i);
      blocks := Freed(bs, i);
    }

    // The block at a is marked free and leaves the counters.
    method Discount(a: nat, ghost i: nat)
      requires Valid() && head != 0 && i < |blocks| && blocks[i].addr == a && !blocks[i].free
      modifies ram, `blocks, `used, `count
      ensures Shape() && |blocks| > i && blocks[i].addr == a && blocks[i].free
      ensures CoalescedExceptAt(blocks, i, true, true)
      ensures Live(blocks) == old(Live(blocks)) - {old(blocks)[i]}
      ensures used == UsedBytes(blocks) == old(used) - old(blocks)[i].size
      ensures count == LiveCount(blocks) == old(count) - 1
      ensures OnlyFrees(old(ram[..]), ram[..], old(blocks), blocks)
      ensures PayloadsKept(old(ram[..]), ram[..], Live(blocks))
      ensures SameOutside(old(ram[..]), ram[..], base, base + total)
    {
      hide Image, HeaderAt, UsedBytes, LiveCount, Live;
      FreedTiled(blocks, base, base + total, i);
      FreedLive(blocks, base, base + total, i);
      LiveBlockIsCounted(blocks, i);
      MarkFree(a, i);
      used := Monus(used, GetHeader(ram, a).size);
      count := Monus(count, 1);
    }

    // Whether the block behind a is free, read from the headers.
    method FreeNext(a: nat, ghost i: nat) returns (next: nat, free: bool)
      requires Shape() && i < |blocks| && blocks[i].addr == a
      ensures free <==> i + 1 < |blocks| && blocks[i + 1].free
      ensures free ==> next == blocks[i + 1].addr
    {
      WalkStep(ram[..], blocks, base, base + total, i);
      if i + 1 < |blocks| {
        WalkStep(ram[..], blocks, base, base + total, i + 1);
      }
      next := GetHeader(ram, a).next;
      free := next != 0 && GetHeader(ram, next).isFree != 0;
    }

    method FreePrev(a: nat, ghost i: nat) returns (prev: nat, free: bool)
      requires Shape() && i < |blocks| && blocks[i].addr == a
      ensures free <==> i > 0 && blocks[i - 1].free
      ensures free ==> prev == blocks[i - 1].addr
    {
      WalkStep(ram[..], blocks, base, base + total, i);
      if i > 0 {
        WalkStep(ram[..], blocks, base, base + total, i - 1);
      }
      prev := GetHeader(ram, a).prev;
      free := prev != 0 && GetHeader(ram, prev).isFree != 0;
    }

    method CoalesceNext(a: nat, ghost i: nat)
      requires Shape() && i < |blocks| && blocks[i].addr == a && blocks[i].free
      requires CoalescedExceptAt(blocks, i, true, true)
      modifies ram, `blocks
      ensures Shape() && i < |blocks| && blocks[i].addr == a && blocks[i].free
      ensures CoalescedExceptAt(blocks, i, true, false)
      ensures Live(blocks) == old(Live(blocks))
      ensures UsedBytes(blocks) == old(UsedBytes(blocks)) && LiveCount(blocks) == old(LiveCount(blocks))
      ensures OnlyFrees(old(ram[..]), ram[..], old(blocks), blocks)
      ensures PayloadsKept(old(ram[..]), ram[..], Live(blocks))
      ensures SameOutside(old(ram[..]), ram[..], base, base + total)
    {
      var next, merge := FreeNext(a, i);
      if merge {
        MergeLive(blocks, i);
        MergeRightCoalesced(blocks, i);
        Absorb(a, next, i);
      } else {
        OnlyFreesNothing(ram[..], blocks);
      }
    }

    method CoalescePrev(a: nat, ghost i: nat)
      requires Shape() && i < |blocks| && blocks[i].addr == a && blocks[i].free
      requires CoalescedExceptAt(blocks, i, true, false)
      modifies ram, `blocks
      ensures Shape() && Coalesced(blocks)
      ensures Live(blocks) == old(Live(blocks))
      ensures UsedBytes(blocks) == old(UsedBytes(blocks)) && LiveCount(blocks) == old(LiveCount(blocks))
      ensures OnlyFrees(old(ram[..]), ram[..], old(blocks), blocks)
      ensures PayloadsKept(old(ram[..]), ram[..], Live(blocks))
      ensures SameOutside(old(ram[..]), ram[..], base, base + total)
    {
      var prev, merge := FreePrev(a, i);
      if merge {
        MergeLive(blocks, i - 1);
        MergeLeftCoalesced(blocks, i - 1);
        Absorb(prev, a, i - 1);
      } else {
        OnlyFreesNothing(ram[..], blocks);
      }
    }

    method Free(p: nat)
      requires Valid()
      requires Accepts(p) ==> IsLive(p)
      modifies this, ram
      ensures Valid() && base == old(base) && total == old(total) && head == old(head)
      ensures !old(Accepts(p)) ==> State() == old(State()) && ram[..] == old(ram[..])
      ensures forall l :: l in old(Live(blocks)) && Payload(l) == p ==>
        FreeStep(old(State()), State(), l) && Retired(ram[..], l.addr)
      ensures OnlyFrees(old(ram[..]), ram[..], old(blocks), blocks)
      ensures PayloadsKept(old(ram[..]), ram[..], Live(blocks))
      ensures SameOutside(old(ram[..]), ram[..], base, base + total)
    {
      OnlyFreesNothing(ram[..], blocks);
      LiveIsAccepted(p);
      if p == 0 || base == 0 {
        return;
      }
      if p < base + HEADER_SIZE || p >= base + total {
        return;
      }
      var a := p - HEADER_SIZE;
      if GetHeader(ram, a).magic != HEAP_MAGIC || GetHeader(ram, a).isFree != 0 {
        return;
      }
      ghost var i := LiveIndex(p);
      Release(a, i);
    }

    method Release(a: nat, ghost i: nat)
      requires Valid() && head != 0 && i < |blocks| && blocks[i].addr == a && !blocks[i].free
      modifies this, ram
      ensures Valid() && base == old(base) && total == old(total) && head == old(head)
      ensures Live(blocks) == old(Live(blocks)) - {old(blocks)[i]}
      ensures used == old(used) - old(blocks)[i].size && count == old(count) - 1
      ensures a + HEADER_SIZE <= ram.Length && GetHeader(ram, a).isFree != 0
      ensures OnlyFrees(old(ram[..]), ram[..], old(blocks), blocks)
      ensures PayloadsKept(old(ram[..]), ram[..], Live(blocks))
      ensures SameOutside(old(ram[..]), ram[..], base, base + total)
    {
      hide Tiled, Image, HeaderAt;
      ghost var m, bs := ram[..], blocks;
      Discount(a, i);
      ghost var m1, cs := ram[..], blocks;
      FlagOfFreeBlock(m1, cs, base, base + total, i);
      CoalesceNext(a, i);
      OnlyFreesThrough(m, m1, ram[..], bs, cs, blocks, base, base + total);
      ghost var m2, ds := ram[..], blocks;
      FlagOfFreeBlock(m2, ds, base, base + total, i);
      CoalescePrev(a, i);
      OnlyFreesThrough(m, m2, ram[..], bs, ds, blocks, base, base + total);
    }

    // ---------- calloc and realloc ----------

    method Calloc(nmemb: Word, size: Word) returns (r: nat)
      requires Valid()
      requires nmemb * size <= MAX_REQUEST || nmemb * size >= WORD_LIMIT || !Allocates(head, blocks, nmemb * size)
      modifies this, ram
      ensures Valid() && base == old(base) && total == old(total) && head == old(head)
      ensures nmemb * size >= WORD_LIMIT ==> r == 0 && State() == old(State()) && ram[..] == old(ram[..])
      ensures nmemb * size < WORD_LIMIT ==> AllocStep(head, old(State()), State(), nmemb * size, r)
      ensures r != 0 ==> r + nmemb * size <= ram.Length && forall k :: r <= k < r + nmemb * size ==> ram[k] == 0
      ensures PayloadsKept(old(ram[..]), ram[..], old(Live(blocks)))
      ensures SameOutside(old(ram[..]), ram[..], base, base + total)
    {
      hide Tiled, Image, Coalesced, HeaderAt, UsedBytes, LiveCount, FirstFit, Grantee;
      if nmemb != 0 && size > (WORD_LIMIT - 1) / nmemb {
        ProductOverflows(nmemb, size);
        return 0;
      }
      ProductFits(nmemb, size);
      var bytes := nmemb * size;
      r := Malloc(bytes);
      if r != 0 {
        ghost var m, g := ram[..], Grantee(old(blocks), bytes);
        GranteeHolds(old(blocks), bytes);
        ghost var i := LivePlace(m, blocks, base, base + total, g);
        Memset(ram, r, 0, bytes);
        ClientWrite(m, ram[..], blocks, base, base + total, g, r, r + bytes);
      }
    }

    method Realloc(p: nat, n: Word) returns (r: nat)
      requires Valid()
      requires p == 0 || IsLive(p) || (n == 0 && !Accepts(p)) ||
        (HEADER_SIZE <= p <= ram.Length && GetHeader(ram, p - HEADER_SIZE).magic != HEAP_MAGIC)
      requires IsLive(p) ==> n <= MAX_REQUEST || !Allocates(head, blocks, n)
      modifies this, ram
      ensures Valid() && base == old(base) && total == old(total) && head == old(head)
      ensures p == 0 ==> AllocStep(head, old(State()), State(), n, r)
      ensures p != 0 && !old(IsLive(p)) ==> r == 0 && State() == old(State()) && ram[..] == old(ram[..])
      ensures forall l :: l in old(Live(blocks)) && Payload(l) == p ==>
        && End(l) <= ram.Length
        && ReallocStep(head, old(State()), State(), old(ram[..]), ram[..], l, n, r)
        && PayloadsKept(old(ram[..]), ram[..], old(Live(blocks)) - {l})
      ensures SameOutside(old(ram[..]), ram[..], base, base + total)
    {
      hide Tiled, Image, Coalesced, UsedBytes, LiveCount;
      LiveIsAccepted(p);
      if p == 0 {
        r := Malloc(n);
        return;
      }
      if n == 0 {
        Free(p);
        return 0;
      }
      var a := p - HEADER_SIZE;
      if GetHeader(ram, a).magic != HEAP_MAGIC {
        return 0;
      }
      ghost var i := LiveIndex(p);
      LiveRange(ram[..], blocks, base, base + total, blocks[i]);
      if GetHeader(ram, a).size >= n {
        return p;
      }
      r := Move(p, n, i);
    }

    // The end of realloc: allocate, copy, free.
    method Move(p: nat, n: Word, ghost i: nat) returns (r: nat)
      requires Valid() && head != 0 && i < |blocks| && !blocks[i].free && Payload(blocks[i]) == p
      requires blocks[i].size < n && (n <= MAX_REQUEST || !Allocates(head, blocks, n))
      modifies this, ram
      ensures Valid() && base == old(base) && total == old(total) && head == old(head)
      ensures End(old(blocks)[i]) <= ram.Length
      ensures ReallocStep(head, old(State()), State(), old(ram[..]), ram[..], old(blocks)[i], n, r)
      ensures PayloadsKept(old(ram[..]), ram[..], old(Live(blocks)) - {old(blocks)[i]})
      ensures SameOutside(old(ram[..]), ram[..], base, base + total)
    {
      hide Tiled, Image, Coalesced, HeaderAt, UsedBytes, LiveCount;
      ghost var l, m, a := blocks[i], ram[..], State();
      InLive(blocks, l);
      LiveRange(m, blocks, base, base + total, l);
      r := Malloc(n);
      if r != 0 {
        ghost var g, m1, b := Grantee(old(blocks), n), ram[..], State();
        GranteeHolds(old(blocks), n);
        CopyAndFree(p, r, n, l, g);
        MoveSummary(head, a, b, State(), m, m1, ram[..], l, n, r, base, base + total);
      }
    }

    method CopyAndFree(p: nat, r: nat, n: nat, ghost l: Block, ghost g: Block)
      requires Valid() && head != 0 && l in Live(blocks) && g in Live(blocks) && l != g
      requires p == Payload(l) && r == Payload(g) && l.size < n <= g.size
      modifies this, ram
      ensures Valid() && base == old(base) && total == old(total) && head == old(head)
      ensures End(l) <= ram.Length && End(g) <= ram.Length
      ensures FreeStep(old(State()), State(), l)
      ensures ram[r..r + l.size] == old(ram[p..p + l.size])
      ensures PayloadsKept(old(ram[..]), ram[..], Live(blocks) - {g})
      ensures SameOutside(old(ram[..]), ram[..], base, base + total)
    {
      hide Tiled, Image, Coalesced, HeaderAt, UsedBytes, LiveCount;
      ghost var m1, live := ram[..], Live(blocks);
      CopyPayload(p, r, n, l, g);
      ghost var m2 := ram[..];
      Free(p);
      SliceKept(m2, ram[..], Live(blocks), g, l.size);
      KeptThrough(m1, m2, ram[..], live - {g}, Live(blocks), Live(blocks) - {g});
    }

    // The size field of a live block, as realloc reads it.
    method SizeOf(p: nat, ghost l: Block) returns (size: nat)
      requires Valid() && head != 0 && l in Live(blocks) && p == Payload(l)
      ensures size == l.size && End(l) <= base + total <= ram.Length
    {
      LiveRange(ram[..], blocks, base, base + total, l);
      size := GetHeader(ram, p - HEADER_SIZE).size;
    }

    // Copy the payload of l into the longer payload of g.
    method CopyPayload(p: nat, r: nat, n: nat, ghost l: Block, ghost g: Block)
      requires Valid() && head != 0 && l in Live(blocks) && g in Live(blocks) && l != g
      requires p == Payload(l) && r == Payload(g) && l.size < n <= g.size
      modifies ram
      ensures Valid() && End(l) <= ram.Length && End(g) <= ram.Length
      ensures ram[r..r + l.size] == old(ram[p..p + l.size])
      ensures PayloadsKept(old(ram[..]), ram[..], Live(blocks) - {g})
      ensures SameOutside(old(ram[..]), ram[..], base, base + total)
    {
      hide Tiled, Image, HeaderAt, UsedBytes, LiveCount;
      ghost var m := ram[..];
      var size := SizeOf(p, l);
      LiveRange(m, blocks, base, base + total, g);
      LivePayloadsDisjoint(blocks, base, base + total, l, g);
      var copy := if size < n then size else n;
      Memcpy(ram, r, p, copy);
      ClientWrite(m, ram[..], blocks, base, base + total, g, r, r + copy);
    }

    // A live pointer passes free's test, and its block is unique.
    lemma LiveIndex(p: nat) returns (i: nat)
      requires Valid() && IsLive(p)
      ensures Accepts(p)
      ensures i < |blocks| && !blocks[i].free && Payload(blocks[i]) == p
      ensures forall b :: b in Live(blocks) && Payload(b) == p ==> b == blocks[i]
      ensures End(blocks[i]) <= ram.Length
    {
      hide Tiled, Image, Coalesced, UsedBytes, LiveCount;
      var b :| b in Live(blocks) && Payload(b) == p;
      i := LivePlace(ram[..], blocks, base, base + total, b);
      forall c | c in Live(blocks) && Payload(c) == p ensures c == b {
        var j := LivePlace(ram[..], blocks, base, base + total, c);
        SameAddrSamePosition(blocks, base, base + total, i, j);
      }
    }

    lemma LiveIsAccepted(p: nat)
      requires Valid()
      ensures IsLive(p) ==> Accepts(p)
      ensures forall l :: l in Live(blocks) && Payload(l) == p ==> End(l) <= ram.Length
    {
      if IsLive(p) {
        var i := LiveIndex(p);
      }
    }
  }

  // Allocate, copy and free add up to a move.
  lemma MoveSummary(head: nat, a: Books, b: Books, c: Books,
                    m: seq<Byte>, m1: seq<Byte>, m2: seq<Byte>,
                    l: Block, n: Word, r: nat, lo: nat, hi: nat)
    requires Allocates(head, a.blocks, n) && AllocStep(head, a, b, n, r) && FreeStep(b, c, l)
    requires l in Live(a.blocks) && l.size < n && End(l) <= |m|
    requires var g := Grantee(a.blocks, n);
      && End(g) <= |m| && l.size <= g.size
      && PayloadsKept(m, m1, Live(a.blocks))
      && PayloadsKept(m1, m2, Live(c.blocks) - {g})
      && m2[r..r + l.size] == m1[Payload(l)..End(l)]
    requires SameOutside(m, m1, lo, hi) && SameOutside(m1, m2, lo, hi)
    ensures ReallocStep(head, a, c, m, m2, l, n, r)
    ensures PayloadsKept(m, m2, Live(a.blocks) - {l})
    ensures SameOutside(m, m2, lo, hi)
  {
    var g := Grantee(a.blocks, n);
    SliceKept(m, m1, Live(a.blocks), l, l.size);
    KeptThrough(m, m1, m2, Live(a.blocks), Live(c.blocks) - {g}, Live(a.blocks) - {l});
  }

  // ---------- arithmetic of requests ----------

  lemma ProductOverflows(nmemb: Word, size: Word)
    requires nmemb != 0 && size > (WORD_LIMIT - 1) / nmemb
    ensures nmemb * size >= WORD_LIMIT
  {
    var q := (WORD_LIMIT - 1) / nmemb;
    assert WORD_LIMIT - 1 < (q + 1) * nmemb;
    assert (q + 1) * nmemb <= size * nmemb;
  }

  lemma ProductFits(nmemb: Word, size: Word)
    requires nmemb == 0 || size <= (WORD_LIMIT - 1) / nmemb
    ensures nmemb * size < WORD_LIMIT
  {
    if nmemb != 0 {
      var q := (WORD_LIMIT - 1) / nmemb;
      assert q * nmemb <= WORD_LIMIT - 1;
      assert size * nmemb <= q * nmemb;
    }
  }

  // HEAP_ALIGN rounds up to a multiple of 16 exactly for requests it does not wrap.
  lemma AlignRoundsUp(n: Word)
    ensures Align(n) % ALIGNMENT == 0
    ensures n <= MAX_REQUEST ==> n <= Align(n) < n + ALIGNMENT
    ensures n > MAX_REQUEST ==> Align(n) == 0
  {
  }

  // The granted block holds the request exactly when the rounding did not wrap.
  lemma GranteeHolds(bs: seq<Block>, n: Word)
    requires n != 0 && FirstFit(bs, Align(n)) < |bs|
    ensures n <= MAX_REQUEST <==> Grantee(bs, n).size >= n
  {
    AlignRoundsUp(n);
  }

  lemma GrantSummary(bs: seq<Block>, lo: nat, hi: nat, i: nat, n: nat)
    requires Tiled(bs, lo, hi) && Coalesced(bs) && i < |bs| && Fits(bs[i], n)
    ensures var cs, g := Grant(bs, i, n), Granted(bs[i], n);
      && Coalesced(cs)
      && i < |cs| && cs[i] == g
      && g !in Live(bs) && Live(cs) == Live(bs) + {g}
      && UsedBytes(cs) == UsedBytes(bs) + g.size
      && LiveCount(cs) == LiveCount(bs) + 1
  {
    GrantCoalesced(bs, i, n);
    GrantLive(bs, lo, hi, i, n);
    GrantedIsNew(bs, lo, hi, i, n);
    var d := GrantPositions(bs, i, n);
  }
}
