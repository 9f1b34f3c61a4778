/** The kernel's own heap test as a client run. */
module HeapSelfTest {
  import opened HeaderLayout
  import opened BlockList
  import opened HeapImage
  import opened KernelHeap
  import opened HeapClients

  // ---------- what the test returns ----------

  // The code the test returns for a heap with this list: which of its requests is the first to find no
  // block. The codes 4, 5, 6, 8 and 10, for bytes found damaged, do not occur.
  ghost function TestCode(head: nat, bs: seq<Block>): nat {
    if !Allocates(head, bs, 64) then 1
    else
      var bs1 := Allocated(bs, 64);
      if !Allocates(head, bs1, 256) then 2
      else
        var bs2 := Allocated(bs1, 256);
        if !Allocates(head, bs2, 1024) then 3 else GrowthCode(head, Grantee(bs, 64), Allocated(bs2, 1024))
  }

  // The part after the three allocations, the first of which was granted g: calloc of 128 bytes and
  // realloc to 128 bytes, which needs a new block only when g is smaller.
  ghost function GrowthCode(head: nat, g: Block, bs: seq<Block>): nat {
    if !Allocates(head, bs, 128) then 7
    else if g.size < 128 && !Allocates(head, Allocated(bs, 128), 128) then 9
    else 0
  }

  // ---------- the steps of the test ----------

  // What the test knows between calls: the heap is sound, has the blocks of live and mine, and the
  // payloads of live are as they were in m.
  ghost predicate Holding(h: Heap, m: seq<Byte>, live: set<Block>, mine: set<Block>)
    reads h, h.ram
  {
    && h.Valid() && Live(h.blocks) == live + mine && live !! mine
    && PayloadsKept(m, h.ram[..], live)
  }

  ghost predicate Filled(m: seq<Byte>, p: nat, c: Byte, n: nat) {
    p + n <= |m| && forall k :: p <= k < p + n ==> m[k] == c
  }

  lemma FilledKept(m: seq<Byte>, m': seq<Byte>, live: set<Block>, g: Block, c: Byte, n: nat)
    requires Filled(m, Payload(g), c, n) && PayloadsKept(m, m', live) && g in live && n <= g.size
    ensures Filled(m', Payload(g), c, n)
  {
  }

  method Grab(h: Heap, n: Word, ghost m: seq<Byte>, ghost live: set<Block>, ghost mine: set<Block>)
    returns (p: nat, ghost g: Block)
    requires Holding(h, m, live, mine) && 0 < n <= MAX_REQUEST
    modifies h, h.ram
    ensures p == 0 <==> !Allocates(h.head, old(h.blocks), n)
    ensures p == 0 ==> Holding(h, m, live, mine) && !old(Roomy(h, n))
    ensures p != 0 ==> g == Grantee(old(h.blocks), n) && h.blocks == Allocated(old(h.blocks), n)
    ensures p != 0 ==> p == Payload(g) && g.size >= n && g !in live + mine && Holding(h, m, live, mine + {g})
    ensures p != 0 ==> h.count == old(h.count) + 1 && h.used <= old(h.used) + n + 63
    ensures PayloadsKept(old(h.ram[..]), h.ram[..], live + mine)
    ensures h.base == old(h.base) && h.total == old(h.total) && h.head == old(h.head)
  {
    ghost var m1 := h.ram[..];
    RoomyAllocates(h, n);
    p := h.Malloc(n);
    if p != 0 {
      g := Grantee(old(h.blocks), n);
      AllocatedIs(old(h.blocks), h.blocks, h.base, h.base + h.total, n);
      GrantSlack(old(h.blocks), h.base, h.base + h.total, n);
    } else {
      g := Block(0, 0, true);
    }
    KeptThrough(m, m1, h.ram[..], live, live + mine, live);
  }

  method Drop(h: Heap, p: nat, ghost g: Block, ghost m: seq<Byte>, ghost live: set<Block>, ghost mine: set<Block>)
    requires Holding(h, m, live, mine) && g in mine && p == Payload(g)
    modifies h, h.ram
    ensures Holding(h, m, live, mine - {g})
    ensures PayloadsKept(old(h.ram[..]), h.ram[..], live + (mine - {g}))
    ensures h.base == old(h.base) && h.total == old(h.total) && h.head == old(h.head)
  {
    hide Tiled, Image, Coalesced, HeaderAt, UsedBytes, LiveCount, Pool;
    ghost var m1 := h.ram[..];
    h.Free(p);
    assert Live(h.blocks) == live + (mine - {g});
    KeptThrough(m, m1, h.ram[..], live, Live(h.blocks), live);
  }

  // A client filling n bytes of its own payload.
  method Fill(h: Heap, p: nat, c: Byte, n: nat, ghost g: Block,
              ghost m: seq<Byte>, ghost live: set<Block>, ghost mine: set<Block>)
    requires Holding(h, m, live, mine) && g in mine && p == Payload(g) && n <= g.size
    modifies h.ram
    ensures Holding(h, m, live, mine) && Filled(h.ram[..], p, c, n)
    ensures PayloadsKept(old(h.ram[..]), h.ram[..], live + (mine - {g}))
  {
    ghost var m1 := h.ram[..];
    LiveRange(m1, h.blocks, h.base, h.base + h.total, g);
    Memset(h.ram, p, c, n);
    ClientWrite(m1, h.ram[..], h.blocks, h.base, h.base + h.total, g, p, p + n);
    assert live + mine - {g} == live + (mine - {g});
    KeptThrough(m, m1, h.ram[..], live, live + (mine - {g}), live);
  }

  // The comparison loops: whether n bytes from p on all equal c.
  method Compare(ram: array<Byte>, p: nat, c: Byte, n: nat) returns (same: bool)
    requires p + n <= ram.Length
    ensures same <==> Filled(ram[..], p, c, n)
  {
    var i := 0;
    while i < n
      invariant i <= n
      invariant forall k :: p <= k < p + i ==> ram[k] == c
    {
      if ram[p + i] != c {
        return false;
      }
      i := i + 1;
    }
    return true;
  }

  // calloc of the test: 32 words of four bytes.
  method GrabZeroed(h: Heap, ghost m: seq<Byte>, ghost live: set<Block>, ghost mine: set<Block>)
    returns (p: nat, ghost g: Block)
    requires Holding(h, m, live, mine)
    modifies h, h.ram
    ensures p == 0 <==> !Allocates(h.head, old(h.blocks), 128)
    ensures p == 0 ==> Holding(h, m, live, mine) && !old(Roomy(h, 128))
    ensures p != 0 ==> h.blocks == Allocated(old(h.blocks), 128)
    ensures p != 0 ==> p == Payload(g) && g !in live + mine && Holding(h, m, live, mine + {g})
    ensures p != 0 ==> Filled(h.ram[..], p, 0, 128)
    ensures p != 0 ==> h.count == old(h.count) + 1 && h.used <= old(h.used) + 128 + 63
    ensures PayloadsKept(old(h.ram[..]), h.ram[..], live + mine)
    ensures h.base == old(h.base) && h.total == old(h.total) && h.head == old(h.head)
  {
    ghost var m1 := h.ram[..];
    RoomyAllocates(h, 128);
    p := h.Calloc(32, 4);
    if p != 0 {
      g := Grantee(old(h.blocks), 128);
      AllocatedIs(old(h.blocks), h.blocks, h.base, h.base + h.total, 128);
      GrantSlack(old(h.blocks), h.base, h.base + h.total, 128);
    } else {
      g := Block(0, 0, true);
    }
    KeptThrough(m, m1, h.ram[..], live, live + mine, live);
  }

  // realloc of the test: the block at p grows and keeps the bytes it was filled with.
  method Regrow(h: Heap, p: nat, n: Word, c: Byte, k: nat, ghost g: Block,
                ghost m: seq<Byte>, ghost live: set<Block>, ghost mine: set<Block>)
    returns (r: nat, ghost g': Block)
    requires Holding(h, m, live, mine) && g in mine && p == Payload(g) && 0 < n <= MAX_REQUEST
    requires k <= g.size && k <= n && Filled(h.ram[..], p, c, k)
    modifies h, h.ram
    ensures r == 0 <==> g.size < n && !Allocates(h.head, old(h.blocks), n)
    ensures r == 0 ==> Holding(h, m, live, mine) && !old(Roomy(h, n))
    ensures r != 0 ==> r == Payload(g') && g' !in live + (mine - {g}) && Holding(h, m, live, mine - {g} + {g'})
    ensures r != 0 ==> Filled(h.ram[..], r, c, k)
    ensures h.base == old(h.base) && h.total == old(h.total) && h.head == old(h.head)
  {
    hide Tiled, Image, Coalesced, UsedBytes, LiveCount, HeaderAt;
    ghost var m1 := h.ram[..];
    RoomyAllocates(h, n);
    LiveRange(m1, h.blocks, h.base, h.base + h.total, g);
    r := h.Realloc(p, n);
    ghost var now := live + mine;
    if n <= g.size || r == 0 {
      g' := g;
      assert mine - {g} + {g} == mine;
    } else {
      g' := Grantee(old(h.blocks), n);
      FilledMoved(m1, h.ram[..], g, r, c, k);
      Replaced(live, mine, g, g');
    }
    KeptThrough(m, m1, h.ram[..], live, now - {g}, live);
  }

  lemma Replaced(live: set<Block>, mine: set<Block>, g: Block, g': Block)
    requires live !! mine && g in mine && g' !in live + mine
    ensures live + mine - {g} + {g'} == live + (mine - {g} + {g'})
    ensures live !! mine - {g} + {g'}
  {
  }

  lemma FilledMoved(m: seq<Byte>, m': seq<Byte>, g: Block, r: nat, c: Byte, k: nat)
    requires Filled(m, Payload(g), c, k) && k <= g.size && End(g) <= |m| && r + g.size <= |m'|
    requires m'[r..r + g.size] == m[Payload(g)..End(g)]
    ensures Filled(m', r, c, k)
  {
    forall x | r <= x < r + k ensures m'[x] == c {
      assert m'[x] == m'[r..r + g.size][x - r] == m[Payload(g)..End(g)][x - r] == m[Payload(g) + (x - r)];
    }
  }

  // The heap's own test. It leaves the heap as it found it, whatever happens; its code says exactly
  // which request found no block; and on a heap with nothing allocated it passes.
  method SelfTest(h: Heap) returns (r: nat)
    requires h.Valid()
    modifies h, h.ram
    ensures h.Valid() && h.State() == old(h.State())
    ensures PayloadsKept(old(h.ram[..]), h.ram[..], Live(h.blocks))
    ensures r == TestCode(h.head, h.blocks)
    ensures h.head != 0 && h.count == 0 ==> r == 0
  {
    ghost var live, m := Live(h.blocks), h.ram[..];
    if h.count == 0 {
      NoneCounted(h.blocks);
    }
    r := TestAllocations(h, m, live, h.head != 0 && h.count == 0);
    BackToSameState(h);
  }

  lemma {:induction false} NoneCounted(bs: seq<Block>)
    requires LiveCount(bs) == 0
    ensures UsedBytes(bs) == 0
  {
    if bs != [] {
      NoneCounted(bs[1..]);
    }
  }

  method TestAllocations(h: Heap, ghost m: seq<Byte>, ghost live: set<Block>, ghost empty: bool) returns (r: nat)
    requires Holding(h, m, live, {}) && (empty ==> h.head != 0 && h.count == 0 && h.used == 0)
    modifies h, h.ram
    ensures Holding(h, m, live, {}) && r == TestCode(h.head, old(h.blocks)) && (empty ==> r == 0)
    ensures h.base == old(h.base) && h.total == old(h.total) && h.head == old(h.head)
  {
    hide Tiled, Image, Coalesced, HeaderAt, UsedBytes, LiveCount, Pool, Filled, PayloadsKept;
    hide FirstFit, Allocates, Allocated, Grantee;
    var p1, g1 := Grab(h, 64, m, live, {});
    if p1 == 0 {
      return 1;
    }
    var p2, g2 := Grab(h, 256, m, live, {g1});
    if p2 == 0 {
      Drop(h, p1, g1, m, live, {g1});
      return 2;
    }
    var p3, g3 := Grab(h, 1024, m, live, {g1, g2});
    if p3 == 0 {
      Drop(h, p1, g1, m, live, {g1, g2});
      Drop(h, p2, g2, m, live, {g2});
      return 3;
    }
    r := TestPatterns(h, p1, p2, p3, g1, g2, g3, m, live, empty);
  }

  method TestPatterns(h: Heap, p1: nat, p2: nat, p3: nat, ghost g1: Block, ghost g2: Block, ghost g3: Block,
                      ghost m: seq<Byte>, ghost live: set<Block>, ghost empty: bool) returns (r: nat)
    requires Holding(h, m, live, {g1, g2, g3}) && g1 != g2 && g1 != g3 && g2 != g3
    requires p1 == Payload(g1) && p2 == Payload(g2) && p3 == Payload(g3)
    requires g1.size >= 64 && g2.size >= 256 && g3.size >= 1024
    requires empty ==> h.head != 0 && h.count == 3 && h.used <= 2000
    modifies h, h.ram
    ensures Holding(h, m, live, {}) && r == GrowthCode(h.head, g1, old(h.blocks)) && (empty ==> r == 0)
    ensures h.base == old(h.base) && h.total == old(h.total) && h.head == old(h.head)
  {
    WritePatterns(h, p1, p2, p3, g1, g2, g3, m, live);
    var ok := Compare(h.ram, p1, 0xAA, 64);
    assert ok;
    ok := Compare(h.ram, p2, 0xBB, 256);
    assert ok;
    ok := Compare(h.ram, p3, 0xCC, 1024);
    assert ok;
    r := TestGrowth(h, p1, p2, p3, g1, g2, g3, m, live, empty);
  }

  // The three patterns are in place at once: filling one payload leaves the others as they are.
  method WritePatterns(h: Heap, p1: nat, p2: nat, p3: nat, ghost g1: Block, ghost g2: Block, ghost g3: Block,
                       ghost m: seq<Byte>, ghost live: set<Block>)
    requires Holding(h, m, live, {g1, g2, g3}) && g1 != g2 && g1 != g3 && g2 != g3
    requires p1 == Payload(g1) && p2 == Payload(g2) && p3 == Payload(g3)
    requires g1.size >= 64 && g2.size >= 256 && g3.size >= 1024
    modifies h.ram
    ensures Holding(h, m, live, {g1, g2, g3})
    ensures Filled(h.ram[..], p1, 0xAA, 64) && Filled(h.ram[..], p2, 0xBB, 256) && Filled(h.ram[..], p3, 0xCC, 1024)
  {
    ghost var mine := {g1, g2, g3};
    Fill(h, p1, 0xAA, 64, g1, m, live, mine);
    ghost var m1 := h.ram[..];
    Fill(h, p2, 0xBB, 256, g2, m, live, mine);
    ghost var m2 := h.ram[..];
    FilledKept(m1, m2, live + (mine - {g2}), g1, 0xAA, 64);
    Fill(h, p3, 0xCC, 1024, g3, m, live, mine);
    FilledKept(m2, h.ram[..], live + (mine - {g3}), g1, 0xAA, 64);
    FilledKept(m2, h.ram[..], live + (mine - {g3}), g2, 0xBB, 256);
  }

  method TestGrowth(h: Heap, p1: nat, p2: nat, p3: nat, ghost g1: Block, ghost g2: Block, ghost g3: Block,
                    ghost m: seq<Byte>, ghost live: set<Block>, ghost empty: bool) returns (r: nat)
    requires Holding(h, m, live, {g1, g2, g3}) && g1 != g2 && g1 != g3 && g2 != g3
    requires p1 == Payload(g1) && p2 == Payload(g2) && p3 == Payload(g3)
    requires g1.size >= 64 && Filled(h.ram[..], p1, 0xAA, 64)
    requires empty ==> h.head != 0 && h.count == 3 && h.used <= 2000
    modifies h, h.ram
    ensures Holding(h, m, live, {}) && r == GrowthCode(h.head, g1, old(h.blocks)) && (empty ==> r == 0)
    ensures h.base == old(h.base) && h.total == old(h.total) && h.head == old(h.head)
  {
    hide Tiled, Image, Coalesced, HeaderAt, UsedBytes, LiveCount, Pool, PayloadsKept;
    hide FirstFit, Allocates, Allocated, Grantee;
    ghost var m1 := h.ram[..];
    var p4, g4 := GrabZeroed(h, m, live, {g1, g2, g3});
    FilledKept(m1, h.ram[..], live + {g1, g2, g3}, g1, 0xAA, 64);
    if p4 == 0 {
      DropThree(h, p1, p2, p3, g1, g2, g3, m, live, {});
      return 7;
    }
    var ok := Compare(h.ram, p4, 0, 128);
    assert ok;
    var q1, k1 := Regrow(h, p1, 128, 0xAA, 64, g1, m, live, {g1, g2, g3, g4});
    if q1 == 0 {
      DropThree(h, p1, p2, p3, g1, g2, g3, m, live, {g4});
      Drop(h, p4, g4, m, live, {g4});
      return 9;
    }
    ok := Compare(h.ram, q1, 0xAA, 64);
    assert ok;
    assert {g1, g2, g3, g4} - {g1} + {k1} == {k1, g2, g3} + {g4};
    DropThree(h, q1, p2, p3, k1, g2, g3, m, live, {g4});
    Drop(h, p4, g4, m, live, {g4});
    return 0;
  }

  method DropThree(h: Heap, p1: nat, p2: nat, p3: nat, ghost g1: Block, ghost g2: Block, ghost g3: Block,
                   ghost m: seq<Byte>, ghost live: set<Block>, ghost rest: set<Block>)
    requires Holding(h, m, live, {g1, g2, g3} + rest) && g1 != g2 && g1 != g3 && g2 != g3
    requires g1 !in rest && g2 !in rest && g3 !in rest
    requires p1 == Payload(g1) && p2 == Payload(g2) && p3 == Payload(g3)
    modifies h, h.ram
    ensures Holding(h, m, live, rest)
    ensures h.base == old(h.base) && h.total == old(h.total) && h.head == old(h.head)
  {
    Drop(h, p1, g1, m, live, {g1, g2, g3} + rest);
    assert {g1, g2, g3} + rest - {g1} == {g2, g3} + rest;
    Drop(h, p2, g2, m, live, {g2, g3} + rest);
    assert {g2, g3} + rest - {g2} == {g3} + rest;
    Drop(h, p3, g3, m, live, {g3} + rest);
    assert {g3} + rest - {g3} == rest;
  }
}
