/** What the heap promises its clients: canonicity over live heaps, first fit, how much fragmentation can
    cost, allocate-then-free, and freeing in any order and with repeats. */
module HeapClients {
  import opened Common
  import opened HeaderLayout
  import opened BlockList
  import opened HeapImage
  import opened KernelHeap

  // ---------- canonicity ----------

  // The whole state of a heap is determined by which allocations are live.
  lemma SameLiveSameState(a: Heap, b: Heap)
    requires a.Valid() && b.Valid() && a.head != 0 && b.head != 0 && a.base == b.base
    requires Live(a.blocks) == Live(b.blocks)
    ensures a.State() == b.State()
  {
    Canonicity(a.blocks, b.blocks, a.base, a.base + a.total);
  }

  twostate lemma BackToSameState(h: Heap)
    requires old(h.Valid()) && h.Valid()
    requires h.base == old(h.base) && h.total == old(h.total) && h.head == old(h.head)
    requires Live(h.blocks) == old(Live(h.blocks))
    ensures h.State() == old(h.State())
  {
    if h.head != 0 {
      Canonicity(old(h.blocks), h.blocks, h.base, h.base + h.total);
    }
  }

  // ---------- first fit ----------

  // Of all the free blocks that are big enough, malloc takes the one with the lowest address.
  lemma FirstFitIsLowest(bs: seq<Block>, lo: nat, hi: nat, n: nat, b: Block)
    requires Tiled(bs, lo, hi) && b in bs && Fits(b, n)
    ensures FirstFit(bs, n) < |bs| && bs[FirstFit(bs, n)].addr <= b.addr
  {
    var j: nat :| j < |bs| && bs[j] == b;
    OrderedAll(bs, lo, hi);
  }

  // A granted block exceeds its request by at most 63 bytes.
  lemma GrantSlack(bs: seq<Block>, lo: nat, hi: nat, n: Word)
    requires Tiled(bs, lo, hi) && 0 < n <= MAX_REQUEST && FirstFit(bs, Align(n)) < |bs|
    ensures n <= Grantee(bs, n).size <= n + 63
  {
    AlignRoundsUp(n);
    var b := bs[FirstFit(bs, Align(n))];
    if b.size < Align(n) + 64 {
      MultiplesGap(b.size, Align(n));
    }
  }

  // Between a multiple of 16 and the next 64 there is room for 48.
  lemma MultiplesGap(a: nat, b: nat)
    requires a % ALIGNMENT == 0 && b % ALIGNMENT == 0 && b <= a < b + 64
    ensures a <= b + 48
  {
  }

  // A request the rounding wraps is granted an empty block, so it does not hold what was asked for.
  lemma WrappedRequest()
    ensures Align(WORD_LIMIT - 1) == 0
    ensures var bs := [Whole(PAGE, PAGE + POOL_SIZE)];
      FirstFit(bs, Align(WORD_LIMIT - 1)) == 0 && Grantee(bs, WORD_LIMIT - 1) == Block(PAGE, 0, false)
  {
    FirstFitIs([Whole(PAGE, PAGE + POOL_SIZE)], 0, 0);
  }

  // The list after a request for n bytes.
  ghost function Allocated(bs: seq<Block>, n: Word): seq<Block> {
    if FirstFit(bs, Align(n)) < |bs| then Grant(bs, FirstFit(bs, Align(n)), Align(n)) else bs
  }

  // What malloc promises about the live blocks leaves no other list.
  lemma AllocatedIs(bs: seq<Block>, cs: seq<Block>, lo: nat, hi: nat, n: Word)
    requires Tiled(bs, lo, hi) && Coalesced(bs) && Tiled(cs, lo, hi) && Coalesced(cs)
    requires FirstFit(bs, Align(n)) < |bs| && Live(cs) == Live(bs) + {Grantee(bs, n)}
    ensures cs == Allocated(bs, n)
  {
    hide Tiled, Coalesced, Live, Grant, UsedBytes, LiveCount;
    var i := FirstFit(bs, Align(n));
    AlignRoundsUp(n);
    GrantTiled(bs, lo, hi, i, Align(n));
    GrantCoalesced(bs, i, Align(n));
    GrantLive(bs, lo, hi, i, Align(n));
    Canonicity(cs, Allocated(bs, n), lo, hi);
  }

  // ---------- fragmentation ----------

  ghost function FreeCount(bs: seq<Block>): nat {
    if bs == [] then 0 else (if bs[0].free then 1 else 0) + FreeCount(bs[1..])
  }

  // Coalescing leaves at most one free block more than there are live ones.
  lemma {:induction false} FewFreeBlocks(bs: seq<Block>)
    requires Coalesced(bs)
    ensures |bs| == FreeCount(bs) + LiveCount(bs)
    ensures FreeCount(bs) <= LiveCount(bs) + 1
    ensures bs != [] && !bs[0].free ==> FreeCount(bs) <= LiveCount(bs)
  {
    if bs != [] {
      assert forall j, k :: 0 <= j && k == j + 1 && k < |bs| - 1 ==> bs[1..][j] == bs[j + 1] && bs[1..][k] == bs[k + 1];
      FewFreeBlocks(bs[1..]);
      if bs[0].free && |bs| > 1 {
        assert !bs[1].free;
      }
    }
  }

  lemma {:induction false} SmallFreeBlocks(bs: seq<Block>, n: nat)
    requires 0 < n && forall b :: b in bs ==> !Fits(b, n)
    ensures FreeBytes(bs) <= FreeCount(bs) * (n - 1)
  {
    if bs != [] {
      assert bs[0] in bs && forall b :: b in bs[1..] ==> b in bs;
      SmallFreeBlocks(bs[1..], n);
      var c := FreeCount(bs[1..]);
      assert (c + 1) * (n - 1) == c * (n - 1) + (n - 1);
    }
  }

  // Enough free bytes in all means some free block is big enough.
  lemma EnoughFreeBytes(bs: seq<Block>, n: nat)
    requires Coalesced(bs) && 0 < n && FreeBytes(bs) >= (LiveCount(bs) + 1) * n
    ensures FirstFit(bs, n) < |bs|
  {
    if FirstFit(bs, n) == |bs| {
      SmallFreeBlocks(bs, n);
      FewFreeBlocks(bs);
      Fewer(FreeCount(bs), LiveCount(bs) + 1, n);
    }
  }

  lemma Fewer(a: nat, b: nat, n: nat)
    requires a <= b && 0 < b && 0 < n
    ensures a * (n - 1) < b * n
  {
    TimesMonotone(n - 1, a, b);
    assert b * (n - 1) == b * n - b;
  }

  // Room for one more block of n bytes whatever the fragmentation.
  ghost predicate Roomy(h: Heap, n: nat)
    reads h
  {
    && h.head != 0
    && POOL_SIZE >= h.used + HEADER_SIZE * (2 * h.count + 1) + (h.count + 1) * (n + 15)
  }

  // malloc succeeds whenever there is room, however the free bytes are scattered.
  lemma RoomyAllocates(h: Heap, n: Word)
    requires h.Valid() && 0 < n <= MAX_REQUEST
    ensures Roomy(h, n) ==> Allocates(h.head, h.blocks, n)
  {
    if Roomy(h, n) {
      AlignRoundsUp(n);
      Conservation(h.blocks, h.base, h.base + h.total);
      FewFreeBlocks(h.blocks);
      TimesMonotone(h.count + 1, Align(n), n + 15);
      EnoughFreeBytes(h.blocks, Align(n));
    }
  }

  // heap_get_free: everything not handed out, headers included.
  method GetFree(h: Heap) returns (r: nat)
    requires h.Valid()
    ensures r == FreeBytes(h.blocks) + 48 * |h.blocks|
  {
    if h.head != 0 {
      Conservation(h.blocks, h.base, h.base + h.total);
    }
    r := if h.total > h.used then h.total - h.used else 0;
  }

  // ---------- runs ----------

  // malloc then free of its result restores the block list and both counters.
  method MallocThenFree(h: Heap, n: Word) returns (r: nat)
    requires h.Valid()
    modifies h, h.ram
    ensures h.Valid() && h.State() == old(h.State())
    ensures r == if Allocates(h.head, h.blocks, n) then Payload(Grantee(h.blocks, n)) else 0
    ensures PayloadsKept(old(h.ram[..]), h.ram[..], Live(h.blocks))
  {
    ghost var m, live := h.ram[..], Live(h.blocks);
    r := h.Malloc(n);
    if r != 0 {
      ghost var g, m1 := Grantee(old(h.blocks), n), h.ram[..];
      h.Free(r);
      assert Live(h.blocks) == live + {g} - {g} == live;
      KeptThrough(m, m1, h.ram[..], live, live, live);
      BackToSameState(h);
    }
  }

  ghost predicate Among(ps: seq<nat>, l: Block) {
    Payload(l) in ps
  }

  ghost function Remaining(live: set<Block>, ps: seq<nat>): set<Block> {
    set l | l in live && !Among(ps, l)
  }

  lemma RemainingStep(live: set<Block>, ps: seq<nat>, k: nat, l: Block)
    requires k < |ps| && l in live && Payload(l) == ps[k]
    requires forall c :: c in live && Payload(c) == Payload(l) ==> c == l
    ensures Remaining(live, ps[..k + 1]) == Remaining(live, ps[..k]) - {l}
    ensures ps[k] in ps[..k] <==> l !in Remaining(live, ps[..k])
  {
    assert ps[..k + 1] == ps[..k] + [ps[k]];
  }

  // Freeing p, which was live at the start of the run, now or once more.
  method FreeAgain(h: Heap, p: nat, ghost l: Block, ghost start: seq<Block>)
    requires h.Valid() && h.head != 0 && Payload(l) == p
    requires Tiled(start, h.base, h.base + h.total) && Addrs(h.blocks) <= Addrs(start)
    requires l in Live(h.blocks) || Retired(h.ram[..], l.addr)
    requires l.addr in Addrs(start)
    modifies h, h.ram
    ensures h.Valid() && h.base == old(h.base) && h.total == old(h.total) && h.head == old(h.head)
    ensures Live(h.blocks) == old(Live(h.blocks)) - {l}
    ensures Addrs(h.blocks) <= Addrs(start)
    ensures FlagsKept(old(h.ram[..]), h.ram[..], Addrs(start)) && Retired(h.ram[..], l.addr)
    ensures PayloadsKept(old(h.ram[..]), h.ram[..], Live(h.blocks))
  {
    TiledApart(start, h.base, h.base + h.total);
    ghost var m, bs := h.ram[..], h.blocks;
    if l !in Live(h.blocks) {
      RetiredNotLive(h, p, l);
    }
    h.Free(p);
    FlagsKeptOn(m, h.ram[..], bs, h.blocks, Addrs(start));
  }

  lemma RetiredNotLive(h: Heap, p: nat, l: Block)
    requires h.Valid() && Payload(l) == p && Retired(h.ram[..], l.addr)
    ensures !h.Accepts(p) && l !in Live(h.blocks)
  {
    if l in Live(h.blocks) {
      var i := h.LiveIndex(p);
    }
  }

  // owners[k] is the one live block of h with payload ps[k].
  ghost predicate Owners(h: Heap, ps: seq<nat>, owners: seq<Block>)
    reads h
  {
    && |owners| == |ps|
    && forall k :: 0 <= k < |ps| ==> Owner(h.blocks, ps[k], owners[k])
  }

  ghost predicate Owner(bs: seq<Block>, p: nat, l: Block) {
    && l in Live(bs) && Payload(l) == p && l.addr in Addrs(bs)
    && forall c :: c in Live(bs) && Payload(c) == p ==> c == l
  }

  lemma {:induction false} FindOwners(h: Heap, ps: seq<nat>) returns (owners: seq<Block>)
    requires h.Valid() && forall p :: p in ps ==> h.IsLive(p)
    ensures Owners(h, ps, owners)
  {
    if ps == [] {
      owners := [];
    } else {
      var rest := FindOwners(h, ps[1..]);
      var i := h.LiveIndex(ps[0]);
      assert h.blocks[i] in h.blocks;
      owners := [h.blocks[i]] + rest;
      assert forall k :: 1 <= k < |ps| ==> ps[k] == ps[1..][k - 1] && owners[k] == rest[k - 1];
    }
  }

  // Freeing any live pointers in any order, repeats included, releases exactly their blocks.
  method FreeMany(h: Heap, ps: seq<nat>)
    requires h.Valid() && forall p :: p in ps ==> h.IsLive(p)
    modifies h, h.ram
    ensures h.Valid() && h.base == old(h.base) && h.total == old(h.total) && h.head == old(h.head)
    ensures Live(h.blocks) == Remaining(old(Live(h.blocks)), ps)
    ensures PayloadsKept(old(h.ram[..]), h.ram[..], Live(h.blocks))
  {
    ghost var bs, live, m := h.blocks, Live(h.blocks), h.ram[..];
    ghost var owners := FindOwners(h, ps);
    var k := 0;
    while k < |ps|
      invariant k <= |ps|
      invariant h.Valid() && h.base == old(h.base) && h.total == old(h.total) && h.head == old(h.head)
      invariant Live(h.blocks) == Remaining(live, ps[..k])
      invariant Addrs(h.blocks) <= Addrs(bs)
      invariant AllRetired(h.ram[..], live - Live(h.blocks))
      invariant PayloadsKept(m, h.ram[..], Live(h.blocks))
    {
      ghost var l := owners[k];
      assert Owner(bs, ps[k], l);
      RemainingStep(live, ps, k, l);
      ghost var m1, live1 := h.ram[..], Live(h.blocks);
      FreeAgain(h, ps[k], l, bs);
      StillRetired(m1, h.ram[..], bs, live, live1, l);
      KeptThrough(m, m1, h.ram[..], live1, Live(h.blocks), Live(h.blocks));
      k := k + 1;
    }
    assert ps[..k] == ps;
  }

  ghost predicate AllRetired(m: seq<Byte>, gone: set<Block>) {
    forall l :: l in gone ==> Retired(m, l.addr)
  }

  lemma StillRetired(m: seq<Byte>, m': seq<Byte>, bs: seq<Block>, live: set<Block>, now: set<Block>, l: Block)
    requires live == Live(bs) && AllRetired(m, live - now)
    requires FlagsKept(m, m', Addrs(bs)) && Retired(m', l.addr)
    ensures AllRetired(m', live - (now - {l}))
  {
    forall c | c in live - (now - {l}) && c != l ensures Retired(m', c.addr) {
      InLive(bs, c);
      assert c.addr in Addrs(bs);
    }
  }

  // Once every live pointer has been freed, in whatever order, the pool is one free block again.
  method FreeAll(h: Heap, ps: seq<nat>)
    requires h.Valid() && h.head != 0
    requires forall p :: p in ps ==> h.IsLive(p)
    requires forall l :: l in Live(h.blocks) ==> Payload(l) in ps
    modifies h, h.ram
    ensures h.Valid() && h.base == old(h.base) && h.head != 0 && h.total == POOL_SIZE
    ensures h.blocks == [Whole(h.base, h.base + h.total)] && h.used == 0 && h.count == 0
  {
    ghost var live := Live(h.blocks);
    FreeMany(h, ps);
    assert Remaining(live, ps) == {} by {
      assert forall l :: l in live ==> Among(ps, l);
    }
    SumsOfOne(Whole(h.base, h.base + h.total));
    NothingLiveIsInitial(h.blocks, h.base, h.base + h.total);
  }
}
