/** When the bytes of memory spell out a block list, and which byte changes keep it so. */
module HeapImage {
  import opened HeaderLayout
  import opened BlockList

  const HEAP_MAGIC: Word := 0x4845_4150

  function NextAddr(bs: seq<Block>, i: nat): nat
    requires i < |bs|
  {
    if i + 1 < |bs| then bs[i + 1].addr else 0
  }

  function PrevAddr(bs: seq<Block>, i: nat): nat
    requires i < |bs|
  {
    if i > 0 then bs[i - 1].addr else 0
  }

  // The header the list asks for in front of block i.
  function Expected(bs: seq<Block>, i: nat): Header
    requires i < |bs|
  {
    Header(HEAP_MAGIC, bs[i].size, if bs[i].free then 1 else 0, NextAddr(bs, i), PrevAddr(bs, i))
  }

  ghost predicate HasHeader(m: seq<Byte>, h: nat, header: Header) {
    h + HEADER_SIZE <= |m| && HeaderAt(m, h) == header
  }

  // Memory holds, in front of every block, exactly the header the list asks for.
  ghost predicate Image(m: seq<Byte>, bs: seq<Block>) {
    forall i {:trigger Expected(bs, i)} :: 0 <= i < |bs| ==> HasHeader(m, bs[i].addr, Expected(bs, i))
  }

  // A pool from lo to hi: tiled by bs, ending in a block that is not empty, and spelled out in m.
  ghost predicate Pool(m: seq<Byte>, bs: seq<Block>, lo: nat, hi: nat) {
    && 0 < lo && hi <= |m|
    && Tiled(bs, lo, hi) && bs[|bs| - 1].size > 0
    && Image(m, bs)
  }

  ghost predicate InHeader(x: int, h: nat) {
    h <= x < h + HEADER_SIZE
  }

  // Only bytes inside headers at addresses in hs differ.
  ghost predicate OnlyHeaders(m: seq<Byte>, m': seq<Byte>, hs: set<nat>) {
    && |m'| == |m|
    && forall x :: 0 <= x < |m| && (forall h :: h in hs ==> !InHeader(x, h)) ==> m'[x] == m[x]
  }

  lemma OnlyThisHeader(m: seq<Byte>, m': seq<Byte>, h: nat)
    requires SameOutside(m, m', h, h + HEADER_SIZE)
    ensures OnlyHeaders(m, m', {h})
  {
    assert h in {h};
  }

  lemma OnlyBoth(m: seq<Byte>, m1: seq<Byte>, m2: seq<Byte>, hs: set<nat>, h: nat)
    requires OnlyHeaders(m, m1, hs) && SameOutside(m1, m2, h, h + HEADER_SIZE)
    ensures OnlyHeaders(m, m2, hs + {h})
  {
    forall x | 0 <= x < |m| && (forall k :: k in hs + {h} ==> !InHeader(x, k)) ensures m2[x] == m[x] {
      assert h in hs + {h};
      assert forall k :: k in hs ==> k in hs + {h};
    }
  }

  // A header none of the rewritten ones overlaps is still there.
  lemma HeaderStays(m: seq<Byte>, m': seq<Byte>, h: nat, k: nat, header: Header)
    requires HasHeader(m, h, header) && SameOutside(m, m', k, k + HEADER_SIZE)
    requires h + HEADER_SIZE <= k || k + HEADER_SIZE <= h
    ensures HasHeader(m', h, header)
  {
    HeaderFrame(m, m', h);
  }

  // The payload bytes of every block in live are the same.
  ghost predicate PayloadsKept(m: seq<Byte>, m': seq<Byte>, live: set<Block>) {
    && |m'| == |m|
    && forall b, x :: b in live && Payload(b) <= x < End(b) && x < |m| ==> m'[x] == m[x]
  }

  ghost predicate IsBlockAddr(bs: seq<Block>, h: nat) {
    exists j :: 0 <= j < |bs| && bs[j].addr == h
  }

  // Block j of cs was already in bs, with the same header.
  ghost predicate Carried(bs: seq<Block>, cs: seq<Block>, j: nat)
    requires j < |cs|
  {
    exists i {:trigger Expected(bs, i)} :: 0 <= i < |bs| && bs[i].addr == cs[j].addr && Expected(bs, i) == Expected(cs, j)
  }

  // Rewriting some headers turns an image of bs into an image of cs when every rewritten header is
  // the one cs asks for and every other block of cs was there before.
  lemma ImageAfter(m: seq<Byte>, m': seq<Byte>, bs: seq<Block>, cs: seq<Block>, lo: nat, hi: nat, hs: set<nat>)
    requires Image(m, bs) && Tiled(cs, lo, hi) && hi <= |m| && OnlyHeaders(m, m', hs)
    requires forall h :: h in hs ==> IsBlockAddr(cs, h)
    requires forall j {:trigger Expected(cs, j)} :: 0 <= j < |cs| && cs[j].addr in hs ==> HasHeader(m', cs[j].addr, Expected(cs, j))
    requires forall j {:trigger Carried(bs, cs, j)} :: 0 <= j < |cs| && cs[j].addr !in hs ==> Carried(bs, cs, j)
    ensures Image(m', cs)
  {
    forall j | 0 <= j < |cs| && cs[j].addr !in hs
      ensures HasHeader(m', cs[j].addr, Expected(cs, j))
    {
      assert Carried(bs, cs, j);
      var i :| 0 <= i < |bs| && bs[i].addr == cs[j].addr && Expected(bs, i) == Expected(cs, j);
      assert HasHeader(m, bs[i].addr, Expected(bs, i));
      HeadersApart(cs, lo, hi, j, hs);
      HeaderFrame(m, m', cs[j].addr);
    }
  }

  lemma HeadersApart(cs: seq<Block>, lo: nat, hi: nat, j: nat, hs: set<nat>)
    requires Tiled(cs, lo, hi) && j < |cs| && cs[j].addr !in hs
    requires forall h :: h in hs ==> IsBlockAddr(cs, h)
    ensures forall x, h :: h in hs && cs[j].addr <= x < End(cs[j]) ==> !InHeader(x, h)
  {
    forall x, h | h in hs && cs[j].addr <= x < End(cs[j]) ensures !InHeader(x, h) {
      assert IsBlockAddr(cs, h);
      var k :| 0 <= k < |cs| && cs[k].addr == h;
      if k < j {
        Ordered(cs, lo, hi, k, j);
      } else {
        Ordered(cs, lo, hi, j, k);
      }
    }
  }

  lemma PayloadOutsideHeader(cs: seq<Block>, lo: nat, hi: nat, i: nat, j: nat, x: nat)
    requires Tiled(cs, lo, hi) && i < |cs| && j < |cs| && Payload(cs[i]) <= x < End(cs[i])
    ensures !InHeader(x, cs[j].addr)
  {
    if j < i {
      Ordered(cs, lo, hi, j, i);
    } else if i < j {
      Ordered(cs, lo, hi, i, j);
    }
  }

  // Writes inside headers of a tiled list reach no live payload.
  lemma HeaderWritesKeepPayloads(m: seq<Byte>, m': seq<Byte>, cs: seq<Block>, lo: nat, hi: nat, hs: set<nat>)
    requires Tiled(cs, lo, hi) && OnlyHeaders(m, m', hs)
    requires forall h :: h in hs ==> IsBlockAddr(cs, h)
    ensures PayloadsKept(m, m', Live(cs))
  {
    forall b, x | b in Live(cs) && Payload(b) <= x < End(b) && x < |m| ensures m'[x] == m[x] {
      InLive(cs, b);
      var i: nat :| i < |cs| && cs[i] == b;
      forall h | h in hs ensures !InHeader(x, h) {
        assert IsBlockAddr(cs, h);
        var j :| 0 <= j < |cs| && cs[j].addr == h;
        PayloadOutsideHeader(cs, lo, hi, i, j, x);
      }
    }
  }

  // Bytes written inside one live payload change no header.
  lemma PayloadWriteKeepsImage(m: seq<Byte>, m': seq<Byte>, bs: seq<Block>, lo: nat, hi: nat,
                               b: Block, from: nat, to: nat)
    requires Tiled(bs, lo, hi) && Image(m, bs) && b in Live(bs)
    requires Payload(b) <= from <= to <= End(b) && SameOutside(m, m', from, to)
    ensures Image(m', bs)
  {
    InLive(bs, b);
    var i: nat :| i < |bs| && bs[i] == b;
    forall j | 0 <= j < |bs| ensures HasHeader(m', bs[j].addr, Expected(bs, j)) {
      assert HasHeader(m, bs[j].addr, Expected(bs, j));
      PayloadsDisjoint(bs, lo, hi, i, j);
      HeaderFrame(m, m', bs[j].addr);
    }
  }

  // Bytes written inside one live payload reach no other live payload.
  lemma PayloadWriteKeepsOthers(m: seq<Byte>, m': seq<Byte>, bs: seq<Block>, lo: nat, hi: nat,
                                b: Block, from: nat, to: nat)
    requires Tiled(bs, lo, hi) && b in Live(bs)
    requires Payload(b) <= from <= to <= End(b) && SameOutside(m, m', from, to)
    ensures PayloadsKept(m, m', Live(bs) - {b})
  {
    forall l, x | l in Live(bs) - {b} && Payload(l) <= x < End(l) && x < |m|
      ensures m'[x] == m[x]
    {
      LivePayloadsDisjoint(bs, lo, hi, b, l);
    }
  }

  lemma LivePayloadsDisjoint(bs: seq<Block>, lo: nat, hi: nat, b: Block, c: Block)
    requires Tiled(bs, lo, hi) && b in Live(bs) && c in Live(bs) && b != c
    ensures End(b) <= c.addr || End(c) <= b.addr
  {
    InLive(bs, b);
    InLive(bs, c);
    var i: nat :| i < |bs| && bs[i] == b;
    var j: nat :| j < |bs| && bs[j] == c;
    PayloadsDisjoint(bs, lo, hi, i, j);
  }

  // ---------- which blocks a grant or a merge carries over ----------

  lemma GrantCarried(bs: seq<Block>, i: nat, n: nat)
    requires i < |bs| && Fits(bs[i], n)
    ensures var cs := Grant(bs, i, n);
      var d := |cs| - |bs|;
      forall j :: 0 <= j < |cs| && (j < i || j > i + d + (if d == 1 then 1 else 0)) ==> Carried(bs, cs, j)
  {
    var cs := Grant(bs, i, n);
    var d := GrantPositions(bs, i, n);
    forall j | 0 <= j < |cs| && (j < i || j > i + d + (if d == 1 then 1 else 0))
      ensures Carried(bs, cs, j)
    {
      var k := if j < i then j else j - d;
      assert Expected(bs, k) == Expected(cs, j);
    }
  }

  lemma MergeCarried(bs: seq<Block>, i: nat)
    requires i + 1 < |bs|
    ensures var cs := Merge(bs, i);
      forall j :: 0 <= j < |cs| && j != i && j != i + 1 ==> Carried(bs, cs, j)
  {
    var cs := Merge(bs, i);
    forall j | 0 <= j < |cs| && j != i && j != i + 1 ensures Carried(bs, cs, j) {
      var k := if j < i then j else j + 1;
      assert Expected(bs, k) == Expected(cs, j);
    }
  }

  lemma FlagCarried(bs: seq<Block>, i: nat, free: bool)
    requires i < |bs|
    ensures var cs := bs[i := bs[i].(free := free)];
      forall j :: 0 <= j < |cs| && j != i ==> Carried(bs, cs, j)
  {
    var cs := bs[i := bs[i].(free := free)];
    forall j | 0 <= j < |cs| && j != i ensures Carried(bs, cs, j) {
      assert Expected(bs, j) == Expected(cs, j);
    }
  }

  // ---------- the images after a split, a merge and a change of flag ----------

  function NextSet(bs: seq<Block>, i: nat): set<nat>
    requires i < |bs|
  {
    if i + 1 < |bs| then {bs[i + 1].addr} else {}
  }

  lemma SplitImage(m: seq<Byte>, m': seq<Byte>, bs: seq<Block>, lo: nat, hi: nat, i: nat, n: nat)
    requires Tiled(bs, lo, hi) && hi <= |m| && Image(m, bs)
    requires i < |bs| && Fits(bs[i], n) && n % ALIGNMENT == 0 && Granted(bs[i], n).size != bs[i].size
    requires var cs := Grant(bs, i, n);
      && |cs| == |bs| + 1
      && OnlyHeaders(m, m', {cs[i].addr, cs[i + 1].addr} + NextSet(cs, i + 1))
      && HasHeader(m', cs[i].addr, Expected(cs, i))
      && HasHeader(m', cs[i + 1].addr, Expected(cs, i + 1))
      && (i + 2 < |cs| ==> HasHeader(m', cs[i + 2].addr, Expected(cs, i + 2)))
    ensures Image(m', Grant(bs, i, n))
  {
    hide Tiled, Image, OnlyHeaders, HasHeader, Expected, Carried;
    var cs := Grant(bs, i, n);
    GrantTiled(bs, lo, hi, i, n);
    GrantCarried(bs, i, n);
    var hs := {cs[i].addr, cs[i + 1].addr} + NextSet(cs, i + 1);
    forall j | 0 <= j < |cs| && cs[j].addr in hs ensures HasHeader(m', cs[j].addr, Expected(cs, j)) {
      var k :| i <= k <= i + 2 && k < |cs| && cs[k].addr == cs[j].addr;
      SameAddrSamePosition(cs, lo, hi, j, k);
    }
    ImageAfter(m, m', bs, cs, lo, hi, hs);
  }

  lemma MergeImage(m: seq<Byte>, m': seq<Byte>, bs: seq<Block>, lo: nat, hi: nat, i: nat)
    requires Tiled(bs, lo, hi) && hi <= |m| && Image(m, bs) && i + 1 < |bs|
    requires var cs := Merge(bs, i);
      && OnlyHeaders(m, m', {cs[i].addr} + NextSet(cs, i))
      && HasHeader(m', cs[i].addr, Expected(cs, i))
      && (i + 1 < |cs| ==> HasHeader(m', cs[i + 1].addr, Expected(cs, i + 1)))
    ensures Image(m', Merge(bs, i))
  {
    var cs := Merge(bs, i);
    MergeTiled(bs, lo, hi, i);
    MergeCarried(bs, i);
    var hs := {cs[i].addr} + NextSet(cs, i);
    forall j | 0 <= j < |cs| && cs[j].addr in hs ensures HasHeader(m', cs[j].addr, Expected(cs, j)) {
      var k :| i <= k <= i + 1 && k < |cs| && cs[k].addr == cs[j].addr;
      SameAddrSamePosition(cs, lo, hi, j, k);
    }
    ImageAfter(m, m', bs, cs, lo, hi, hs);
  }

  lemma FlagImage(m: seq<Byte>, m': seq<Byte>, bs: seq<Block>, lo: nat, hi: nat, i: nat, free: bool)
    requires Tiled(bs, lo, hi) && hi <= |m| && Image(m, bs) && i < |bs|
    requires var cs := bs[i := bs[i].(free := free)];
      OnlyHeaders(m, m', {bs[i].addr}) && HasHeader(m', bs[i].addr, Expected(cs, i))
    ensures var cs := bs[i := bs[i].(free := free)];
      Tiled(cs, lo, hi) && Image(m', cs)
  {
    var cs := bs[i := bs[i].(free := free)];
    FlagCarried(bs, i, free);
    forall j | 0 <= j < |cs| && cs[j].addr in {bs[i].addr}
      ensures HasHeader(m', cs[j].addr, Expected(cs, j))
    {
      SameAddrSamePosition(cs, lo, hi, j, i);
    }
    ImageAfter(m, m', bs, cs, lo, hi, {bs[i].addr});
  }

  // The stores of a split of the block at curr, with memory after each: the remainder's header (m1),
  // the back link of the block after it, when there is one (m2), and the taken block's header (m3).
  ghost predicate SplitStores(m: seq<Byte>, m1: seq<Byte>, m2: seq<Byte>, m3: seq<Byte>, curr: nat, size: nat)
    requires curr + HEADER_SIZE <= |m|
  {
    var block, rem := HeaderAt(m, curr), curr + HEADER_SIZE + size;
    && size + HEADER_SIZE <= block.size
    && HasHeader(m1, rem, Header(HEAP_MAGIC, block.size - size - HEADER_SIZE, 1, block.next, curr))
    && SameOutside(m, m1, rem, rem + HEADER_SIZE)
    && (if block.next != 0 then
          && block.next + HEADER_SIZE <= |m|
          && HasHeader(m2, block.next, HeaderAt(m, block.next).(prev := rem))
          && SameOutside(m1, m2, block.next, block.next + HEADER_SIZE)
        else m2 == m1)
    && HasHeader(m3, curr, block.(size := size, isFree := 0, next := rem))
    && SameOutside(m2, m3, curr, curr + HEADER_SIZE)
  }

  // The same, in terms of the list.
  ghost predicate SplitSteps(m: seq<Byte>, m1: seq<Byte>, m2: seq<Byte>, m3: seq<Byte>,
                             bs: seq<Block>, i: nat, n: nat)
    requires i < |bs| && Fits(bs[i], n)
  {
    var cs := Grant(bs, i, n);
    && |cs| == |bs| + 1
    && HasHeader(m1, cs[i + 1].addr, Expected(cs, i + 1))
    && SameOutside(m, m1, cs[i + 1].addr, cs[i + 1].addr + HEADER_SIZE)
    && (if i + 1 < |bs| then
          && HasHeader(m2, bs[i + 1].addr, Expected(bs, i + 1).(prev := cs[i + 1].addr))
          && SameOutside(m1, m2, bs[i + 1].addr, bs[i + 1].addr + HEADER_SIZE)
        else m2 == m1)
    && HasHeader(m3, cs[i].addr, Expected(cs, i))
    && SameOutside(m2, m3, cs[i].addr, cs[i].addr + HEADER_SIZE)
  }

  lemma SplitStoresAreSteps(m: seq<Byte>, m1: seq<Byte>, m2: seq<Byte>, m3: seq<Byte>,
                            bs: seq<Block>, lo: nat, hi: nat, i: nat, n: nat)
    requires Tiled(bs, lo, hi) && 0 < lo && hi <= |m| && Image(m, bs)
    requires i < |bs| && Fits(bs[i], n) && Granted(bs[i], n).size != bs[i].size
    requires bs[i].addr + HEADER_SIZE <= |m| && SplitStores(m, m1, m2, m3, bs[i].addr, n)
    ensures SplitSteps(m, m1, m2, m3, bs, i, n)
  {
    hide HeaderAt;
    var cs := Grant(bs, i, n);
    var d := GrantPositions(bs, i, n);
    assert HasHeader(m, bs[i].addr, Expected(bs, i));
    if i + 1 < |bs| {
      Ordered(bs, lo, hi, i, i + 1);
      assert cs[i + 2] == bs[i + 1];
      assert HasHeader(m, bs[i + 1].addr, Expected(bs, i + 1));
    }
  }

  lemma SplitChain(m: seq<Byte>, m1: seq<Byte>, m2: seq<Byte>, m3: seq<Byte>,
                   bs: seq<Block>, lo: nat, hi: nat, i: nat, n: nat)
    requires i < |bs| && Fits(bs[i], n) && SplitSteps(m, m1, m2, m3, bs, i, n)
    requires Tiled(Grant(bs, i, n), lo, hi)
    ensures var cs := Grant(bs, i, n);
      && OnlyHeaders(m, m3, {cs[i].addr, cs[i + 1].addr} + NextSet(cs, i + 1))
      && HasHeader(m3, cs[i + 1].addr, Expected(cs, i + 1))
      && (i + 2 < |cs| ==> HasHeader(m3, cs[i + 2].addr, Expected(cs, i + 2)))
  {
    hide HeaderAt;
    var cs := Grant(bs, i, n);
    var d := GrantPositions(bs, i, n);
    Ordered(cs, lo, hi, i, i + 1);
    OnlyThisHeader(m, m1, cs[i + 1].addr);
    var hs := {cs[i + 1].addr};
    if i + 1 < |bs| {
      assert cs[i + 2] == bs[i + 1];
      Ordered(cs, lo, hi, i + 1, i + 2);
      assert Expected(cs, i + 2) == Expected(bs, i + 1).(prev := cs[i + 1].addr);
      OnlyBoth(m, m1, m2, hs, cs[i + 2].addr);
      HeaderStays(m1, m2, cs[i + 1].addr, cs[i + 2].addr, Expected(cs, i + 1));
      HeaderStays(m2, m3, cs[i + 2].addr, cs[i].addr, Expected(cs, i + 2));
      hs := hs + {cs[i + 2].addr};
    }
    HeaderStays(m2, m3, cs[i + 1].addr, cs[i].addr, Expected(cs, i + 1));
    OnlyBoth(m, m2, m3, hs, cs[i].addr);
    assert hs + {cs[i].addr} == {cs[i].addr, cs[i + 1].addr} + NextSet(cs, i + 1);
  }

  lemma SplitWrites(m: seq<Byte>, m1: seq<Byte>, m2: seq<Byte>, m3: seq<Byte>,
                    bs: seq<Block>, lo: nat, hi: nat, i: nat, n: nat)
    requires Tiled(bs, lo, hi) && hi <= |m| && Image(m, bs)
    requires i < |bs| && Fits(bs[i], n) && n % ALIGNMENT == 0 && Granted(bs[i], n).size != bs[i].size
    requires 0 < lo && bs[i].addr + HEADER_SIZE <= |m| && SplitStores(m, m1, m2, m3, bs[i].addr, n)
    ensures Image(m3, Grant(bs, i, n))
    ensures PayloadsKept(m, m3, Live(Grant(bs, i, n)))
    ensures SameOutside(m, m3, lo, hi)
  {
    var cs := Grant(bs, i, n);
    GrantTiled(bs, lo, hi, i, n);
    SplitStoresAreSteps(m, m1, m2, m3, bs, lo, hi, i, n);
    SplitChain(m, m1, m2, m3, bs, lo, hi, i, n);
    SplitImage(m, m3, bs, lo, hi, i, n);
    SplitReach(m, m3, cs, lo, hi, i);
  }

  lemma SplitReach(m: seq<Byte>, m': seq<Byte>, cs: seq<Block>, lo: nat, hi: nat, i: nat)
    requires Tiled(cs, lo, hi) && i + 1 < |cs|
    requires OnlyHeaders(m, m', {cs[i].addr, cs[i + 1].addr} + NextSet(cs, i + 1))
    ensures PayloadsKept(m, m', Live(cs))
    ensures SameOutside(m, m', lo, hi)
  {
    var hs := {cs[i].addr, cs[i + 1].addr} + NextSet(cs, i + 1);
    forall h | h in hs ensures IsBlockAddr(cs, h) {
      assert h == cs[i].addr || h == cs[i + 1].addr || (i + 2 < |cs| && h == cs[i + 2].addr);
    }
    HeaderWritesKeepPayloads(m, m', cs, lo, hi, hs);
    HeaderWritesStayInPool(m, m', cs, lo, hi, hs);
  }

  // The stores that let the block at a absorb the block at c behind it, with memory after each: the
  // grown block's header (m1) and the back link of the block after c, when there is one (m2).
  ghost predicate MergeStores(m: seq<Byte>, m1: seq<Byte>, m2: seq<Byte>, a: nat, c: nat)
    requires a + HEADER_SIZE <= |m| && c + HEADER_SIZE <= |m|
  {
    var grown, gone := HeaderAt(m, a), HeaderAt(m, c);
    && HasHeader(m1, a, grown.(size := grown.size + HEADER_SIZE + gone.size, next := gone.next))
    && SameOutside(m, m1, a, a + HEADER_SIZE)
    && (if gone.next != 0 then
          && gone.next + HEADER_SIZE <= |m|
          && HasHeader(m2, gone.next, HeaderAt(m, gone.next).(prev := a))
          && SameOutside(m1, m2, gone.next, gone.next + HEADER_SIZE)
        else m2 == m1)
  }

  // The same, in terms of the list.
  ghost predicate MergeSteps(m: seq<Byte>, m1: seq<Byte>, m2: seq<Byte>, bs: seq<Block>, i: nat)
    requires i + 1 < |bs|
  {
    var cs := Merge(bs, i);
    && HasHeader(m1, bs[i].addr, Expected(cs, i))
    && SameOutside(m, m1, bs[i].addr, bs[i].addr + HEADER_SIZE)
    && (if i + 2 < |bs| then
          && HasHeader(m2, bs[i + 2].addr, Expected(bs, i + 2).(prev := bs[i].addr))
          && SameOutside(m1, m2, bs[i + 2].addr, bs[i + 2].addr + HEADER_SIZE)
        else m2 == m1)
  }

  lemma MergeStoresAreSteps(m: seq<Byte>, m1: seq<Byte>, m2: seq<Byte>, bs: seq<Block>, lo: nat, hi: nat, i: nat)
    requires Tiled(bs, lo, hi) && 0 < lo && hi <= |m| && Image(m, bs) && i + 1 < |bs|
    requires bs[i].addr + HEADER_SIZE <= |m| && bs[i + 1].addr + HEADER_SIZE <= |m|
    requires MergeStores(m, m1, m2, bs[i].addr, bs[i + 1].addr)
    ensures MergeSteps(m, m1, m2, bs, i)
  {
    var cs := Merge(bs, i);
    assert HasHeader(m, bs[i].addr, Expected(bs, i));
    assert HasHeader(m, bs[i + 1].addr, Expected(bs, i + 1));
    if i + 2 < |bs| {
      Ordered(bs, lo, hi, i, i + 2);
      assert cs[i + 1] == bs[i + 2];
      assert HasHeader(m, bs[i + 2].addr, Expected(bs, i + 2));
    }
  }

  lemma MergeWrites(m: seq<Byte>, m1: seq<Byte>, m2: seq<Byte>, bs: seq<Block>, lo: nat, hi: nat, i: nat)
    requires Tiled(bs, lo, hi) && 0 < lo && hi <= |m| && Image(m, bs) && i + 1 < |bs|
    requires bs[i].addr + HEADER_SIZE <= |m| && bs[i + 1].addr + HEADER_SIZE <= |m|
    requires MergeStores(m, m1, m2, bs[i].addr, bs[i + 1].addr)
    ensures Tiled(Merge(bs, i), lo, hi) && Image(m2, Merge(bs, i))
    ensures PayloadsKept(m, m2, Live(Merge(bs, i)))
    ensures SameOutside(m, m2, lo, hi)
  {
    hide HeaderAt;
    var cs := Merge(bs, i);
    MergeTiled(bs, lo, hi, i);
    MergeStoresAreSteps(m, m1, m2, bs, lo, hi, i);
    MergeChain(m, m1, m2, bs, lo, hi, i);
    MergeImage(m, m2, bs, lo, hi, i);
    var hs := {cs[i].addr} + NextSet(cs, i);
    forall h | h in hs ensures IsBlockAddr(cs, h) {
      assert h == cs[i].addr || (i + 1 < |cs| && h == cs[i + 1].addr);
    }
    HeaderWritesKeepPayloads(m, m2, cs, lo, hi, hs);
    HeaderWritesStayInPool(m, m2, cs, lo, hi, hs);
  }

  lemma MergeChain(m: seq<Byte>, m1: seq<Byte>, m2: seq<Byte>, bs: seq<Block>, lo: nat, hi: nat, i: nat)
    requires i + 1 < |bs| && MergeSteps(m, m1, m2, bs, i) && Tiled(Merge(bs, i), lo, hi)
    ensures var cs := Merge(bs, i);
      && OnlyHeaders(m, m2, {cs[i].addr} + NextSet(cs, i))
      && HasHeader(m2, cs[i].addr, Expected(cs, i))
      && (i + 1 < |cs| ==> HasHeader(m2, cs[i + 1].addr, Expected(cs, i + 1)))
  {
    var cs := Merge(bs, i);
    OnlyThisHeader(m, m1, cs[i].addr);
    if i + 2 < |bs| {
      assert cs[i + 1] == bs[i + 2];
      Ordered(cs, lo, hi, i, i + 1);
      assert Expected(cs, i + 1) == Expected(bs, i + 2).(prev := bs[i].addr);
      OnlyBoth(m, m1, m2, {cs[i].addr}, cs[i + 1].addr);
      HeaderStays(m1, m2, cs[i].addr, cs[i + 1].addr, Expected(cs, i));
    } else {
      assert {cs[i].addr} + NextSet(cs, i) == {cs[i].addr};
    }
  }

  // The single write of a changed free flag.
  lemma FlagWrite(m: seq<Byte>, m': seq<Byte>, bs: seq<Block>, lo: nat, hi: nat, i: nat, free: bool)
    requires Tiled(bs, lo, hi) && hi <= |m| && Image(m, bs) && i < |bs|
    requires var cs := bs[i := bs[i].(free := free)];
      && HasHeader(m', bs[i].addr, Expected(bs, i).(isFree := if free then 1 else 0))
      && SameOutside(m, m', bs[i].addr, bs[i].addr + HEADER_SIZE)
    ensures var cs := bs[i := bs[i].(free := free)];
      && Tiled(cs, lo, hi) && Image(m', cs)
      && PayloadsKept(m, m', Live(cs))
      && SameOutside(m, m', lo, hi)
  {
    var cs := bs[i := bs[i].(free := free)];
    OnlyThisHeader(m, m', bs[i].addr);
    assert Expected(cs, i) == Expected(bs, i).(isFree := if free then 1 else 0);
    FlagImage(m, m', bs, lo, hi, i, free);
    forall h | h in {bs[i].addr} ensures IsBlockAddr(cs, h) {
      assert h == cs[i].addr;
    }
    HeaderWritesKeepPayloads(m, m', cs, lo, hi, {bs[i].addr});
    HeaderWritesStayInPool(m, m', cs, lo, hi, {bs[i].addr});
  }

  lemma HeaderWritesStayInPool(m: seq<Byte>, m': seq<Byte>, cs: seq<Block>, lo: nat, hi: nat, hs: set<nat>)
    requires Tiled(cs, lo, hi) && OnlyHeaders(m, m', hs)
    requires forall h :: h in hs ==> IsBlockAddr(cs, h)
    ensures SameOutside(m, m', lo, hi)
  {
    forall x | 0 <= x < |m| && !(lo <= x < hi) ensures m'[x] == m[x] {
      forall h | h in hs ensures !InHeader(x, h) {
        assert IsBlockAddr(cs, h);
        var j :| 0 <= j < |cs| && cs[j].addr == h;
        PayloadsDisjoint(cs, lo, hi, j, j);
      }
    }
  }

  // ---------- the pool as a whole ----------

  // What following the list from block k finds.
  lemma WalkStep(m: seq<Byte>, bs: seq<Block>, lo: nat, hi: nat, k: nat)
    requires Pool(m, bs, lo, hi) && k < |bs|
    ensures HasHeader(m, bs[k].addr, Expected(bs, k))
    ensures bs[k].addr != 0 && (k + 1 < |bs| ==> bs[k + 1].addr != 0)
  {
    assert HasHeader(m, bs[k].addr, Expected(bs, k));
    OrderedAll(bs, lo, hi);
  }

  // Where a live block is, in the list and in memory.
  lemma LivePlace(m: seq<Byte>, bs: seq<Block>, lo: nat, hi: nat, b: Block) returns (i: nat)
    requires Pool(m, bs, lo, hi) && b in Live(bs)
    ensures i < |bs| && bs[i] == b && !b.free
    ensures HasHeader(m, b.addr, Expected(bs, i))
    ensures lo <= b.addr && End(b) <= hi && Payload(b) < hi
  {
    InLive(bs, b);
    i :| i < |bs| && bs[i] == b;
    WalkStep(m, bs, lo, hi, i);
    OrderedAll(bs, lo, hi);
  }

  // A client that writes inside one live payload leaves the pool and every other live payload alone.
  lemma ClientWrite(m: seq<Byte>, m': seq<Byte>, bs: seq<Block>, lo: nat, hi: nat,
                    b: Block, from: nat, to: nat)
    requires Pool(m, bs, lo, hi) && b in Live(bs)
    requires Payload(b) <= from <= to <= End(b) && SameOutside(m, m', from, to)
    ensures Pool(m', bs, lo, hi)
    ensures PayloadsKept(m, m', Live(bs) - {b})
    ensures SameOutside(m, m', lo, hi)
  {
    PayloadWriteKeepsImage(m, m', bs, lo, hi, b, from, to);
    PayloadWriteKeepsOthers(m, m', bs, lo, hi, b, from, to);
    var i := LivePlace(m, bs, lo, hi, b);
  }

  lemma LiveRange(m: seq<Byte>, bs: seq<Block>, lo: nat, hi: nat, b: Block)
    requires Pool(m, bs, lo, hi) && b in Live(bs)
    ensures lo <= b.addr && End(b) <= hi <= |m| && !b.free
    ensures HeaderAt(m, b.addr).size == b.size
  {
    var i := LivePlace(m, bs, lo, hi, b);
  }

  // A kept payload reads the same as a slice.
  lemma SliceKept(m: seq<Byte>, m': seq<Byte>, live: set<Block>, b: Block, n: nat)
    requires PayloadsKept(m, m', live) && b in live && n <= b.size && End(b) <= |m|
    ensures m'[Payload(b)..Payload(b) + n] == m[Payload(b)..Payload(b) + n]
  {
  }

  // Two changes in a row that both keep the payloads of live keep them together.
  lemma KeptThrough(m: seq<Byte>, m1: seq<Byte>, m2: seq<Byte>, live1: set<Block>, live2: set<Block>, live: set<Block>)
    requires PayloadsKept(m, m1, live1) && PayloadsKept(m1, m2, live2) && live <= live1 && live <= live2
    ensures PayloadsKept(m, m2, live)
  {
  }

  // Where the parties of a merge lie.
  lemma MergeRoom(m: seq<Byte>, bs: seq<Block>, lo: nat, hi: nat, i: nat)
    requires Pool(m, bs, lo, hi) && i + 1 < |bs|
    ensures HasHeader(m, bs[i].addr, Expected(bs, i)) && HasHeader(m, bs[i + 1].addr, Expected(bs, i + 1))
    ensures bs[i + 1].addr == End(bs[i]) && End(bs[i + 1]) <= hi
    ensures i + 2 < |bs| ==> bs[i + 2].addr == End(bs[i + 1]) && bs[i + 2].addr + HEADER_SIZE <= hi
    ensures HeaderAt(m, bs[i].addr).size + HEADER_SIZE + HeaderAt(m, bs[i + 1].addr).size < hi
  {
    WalkStep(m, bs, lo, hi, i);
    WalkStep(m, bs, lo, hi, i + 1);
    OrderedAll(bs, lo, hi);
  }

  // Where the pieces of a split lie.
  lemma SplitRoom(m: seq<Byte>, bs: seq<Block>, lo: nat, hi: nat, i: nat, n: nat)
    requires Pool(m, bs, lo, hi) && i < |bs| && Fits(bs[i], n) && Granted(bs[i], n).size != bs[i].size
    ensures HasHeader(m, bs[i].addr, Expected(bs, i))
    ensures End(bs[i]) <= hi && bs[i].size >= n + HEADER_SIZE + ALIGNMENT
    ensures i + 1 < |bs| ==> bs[i + 1].addr == End(bs[i]) && End(bs[i + 1]) <= hi
  {
    WalkStep(m, bs, lo, hi, i);
    OrderedAll(bs, lo, hi);
  }

  lemma SplitPool(m: seq<Byte>, m1: seq<Byte>, m2: seq<Byte>, m3: seq<Byte>,
                  bs: seq<Block>, lo: nat, hi: nat, i: nat, n: nat)
    requires Pool(m, bs, lo, hi)
    requires i < |bs| && Fits(bs[i], n) && n % ALIGNMENT == 0 && Granted(bs[i], n).size != bs[i].size
    requires bs[i].addr + HEADER_SIZE <= |m| && SplitStores(m, m1, m2, m3, bs[i].addr, n)
    ensures Pool(m3, Grant(bs, i, n), lo, hi)
    ensures PayloadsKept(m, m3, Live(Grant(bs, i, n)))
    ensures SameOutside(m, m3, lo, hi)
  {
    SplitWrites(m, m1, m2, m3, bs, lo, hi, i, n);
    GrantTiled(bs, lo, hi, i, n);
    var d := GrantPositions(bs, i, n);
  }

  lemma MergePool(m: seq<Byte>, m1: seq<Byte>, m2: seq<Byte>, bs: seq<Block>, lo: nat, hi: nat, i: nat)
    requires Pool(m, bs, lo, hi) && i + 1 < |bs|
    requires bs[i].addr + HEADER_SIZE <= |m| && bs[i + 1].addr + HEADER_SIZE <= |m|
    requires MergeStores(m, m1, m2, bs[i].addr, bs[i + 1].addr)
    ensures Pool(m2, Merge(bs, i), lo, hi)
    ensures PayloadsKept(m, m2, Live(Merge(bs, i)))
    ensures SameOutside(m, m2, lo, hi)
  {
    MergeWrites(m, m1, m2, bs, lo, hi, i);
    MergeLast(bs, i);
  }

  lemma MergeLast(bs: seq<Block>, i: nat)
    requires i + 1 < |bs| && bs[|bs| - 1].size > 0
    ensures |Merge(bs, i)| == |bs| - 1 && Merge(bs, i)[|bs| - 2].size > 0
  {
  }

  lemma FlagPool(m: seq<Byte>, m': seq<Byte>, bs: seq<Block>, lo: nat, hi: nat, i: nat, free: bool)
    requires Pool(m, bs, lo, hi) && i < |bs|
    requires HasHeader(m', bs[i].addr, Expected(bs, i).(isFree := if free then 1 else 0))
    requires SameOutside(m, m', bs[i].addr, bs[i].addr + HEADER_SIZE)
    ensures var cs := bs[i := bs[i].(free := free)];
      && Pool(m', cs, lo, hi)
      && HasHeader(m', bs[i].addr, Expected(cs, i))
      && PayloadsKept(m, m', Live(cs))
      && SameOutside(m, m', lo, hi)
  {
    FlagWrite(m, m', bs, lo, hi, i, free);
  }

  // ---------- headers under a sequence of frees ----------

  ghost function Addrs(bs: seq<Block>): set<nat> {
    set b | b in bs :: b.addr
  }

  // No header at an address in hs has its free flag cleared.
  ghost predicate FlagsKept(m: seq<Byte>, m': seq<Byte>, hs: set<nat>) {
    && |m'| == |m|
    && forall h :: h in hs && h + HEADER_SIZE <= |m| && HeaderAt(m, h).isFree != 0 ==> HeaderAt(m', h).isFree != 0
  }

  // The header at h, listed or stale, has its free flag set.
  ghost predicate Retired(m: seq<Byte>, h: nat) {
    h + HEADER_SIZE <= |m| && HeaderAt(m, h).isFree != 0
  }

  // Headers may be given up but none appears, only headers are written, and no free flag is cleared.
  ghost predicate OnlyFrees(m: seq<Byte>, m': seq<Byte>, bs: seq<Block>, cs: seq<Block>) {
    Addrs(cs) <= Addrs(bs) && OnlyHeaders(m, m', Addrs(bs)) && FlagsKept(m, m', Addrs(bs))
  }

  ghost predicate Apart(hs: set<nat>) {
    forall h, k :: h in hs && k in hs && h != k ==> h + HEADER_SIZE <= k || k + HEADER_SIZE <= h
  }

  lemma TiledApart(bs: seq<Block>, lo: nat, hi: nat)
    requires Tiled(bs, lo, hi)
    ensures Apart(Addrs(bs))
  {
    OrderedAll(bs, lo, hi);
  }

  // A header outside bs, but apart from its headers, is not touched either.
  lemma FlagsKeptOn(m: seq<Byte>, m': seq<Byte>, bs: seq<Block>, cs: seq<Block>, hs: set<nat>)
    requires OnlyFrees(m, m', bs, cs) && Addrs(bs) <= hs && Apart(hs)
    ensures FlagsKept(m, m', hs)
  {
    forall h | h in hs && h + HEADER_SIZE <= |m| && HeaderAt(m, h).isFree != 0
      ensures HeaderAt(m', h).isFree != 0
    {
      if h !in Addrs(bs) {
        HeaderFrame(m, m', h);
      }
    }
  }

  lemma OnlyFreesNothing(m: seq<Byte>, bs: seq<Block>)
    ensures OnlyFrees(m, m, bs, bs)
  {
  }

  lemma FlagOfFreeBlock(m: seq<Byte>, bs: seq<Block>, lo: nat, hi: nat, i: nat)
    requires Pool(m, bs, lo, hi) && i < |bs| && bs[i].free
    ensures bs[i].addr in Addrs(bs) && bs[i].addr + HEADER_SIZE <= |m| && HeaderAt(m, bs[i].addr).isFree != 0
  {
    WalkStep(m, bs, lo, hi, i);
    assert bs[i] in bs;
  }

  lemma OnlyFreesThrough(m: seq<Byte>, m1: seq<Byte>, m2: seq<Byte>,
                         bs: seq<Block>, cs: seq<Block>, ds: seq<Block>, lo: nat, hi: nat)
    requires Tiled(bs, lo, hi) && OnlyFrees(m, m1, bs, cs) && OnlyFrees(m1, m2, cs, ds)
    ensures OnlyFrees(m, m2, bs, ds)
  {
    TiledApart(bs, lo, hi);
    FlagsKeptOn(m1, m2, cs, ds, Addrs(bs));
  }

  lemma MarkOnlyFrees(m: seq<Byte>, m': seq<Byte>, bs: seq<Block>, lo: nat, hi: nat, i: nat)
    requires Tiled(bs, lo, hi) && i < |bs| && bs[i].addr + HEADER_SIZE <= |m|
    requires SameOutside(m, m', bs[i].addr, bs[i].addr + HEADER_SIZE)
    requires HeaderAt(m', bs[i].addr).isFree != 0
    ensures OnlyFrees(m, m', bs, Freed(bs, i))
  {
    OnlyThisHeader(m, m', bs[i].addr);
    assert bs[i].addr in Addrs(bs);
    TiledApart(bs, lo, hi);
    forall h | h in Addrs(bs) && h + HEADER_SIZE <= |m| && h != bs[i].addr
      ensures HeaderAt(m', h) == HeaderAt(m, h)
    {
      HeaderFrame(m, m', h);
    }
    forall c | c in Freed(bs, i) ensures c.addr in Addrs(bs) {
      var j :| 0 <= j < |bs| && Freed(bs, i)[j] == c;
      assert bs[j] in bs;
    }
  }

  lemma MergeOnlyFrees(m: seq<Byte>, m1: seq<Byte>, m2: seq<Byte>, bs: seq<Block>, lo: nat, hi: nat, i: nat)
    requires Pool(m, bs, lo, hi) && i + 1 < |bs|
    requires bs[i].addr + HEADER_SIZE <= |m| && bs[i + 1].addr + HEADER_SIZE <= |m|
    requires MergeStores(m, m1, m2, bs[i].addr, bs[i + 1].addr)
    ensures OnlyFrees(m, m2, bs, Merge(bs, i))
  {
    hide Image, Tiled, HeaderAt, Apart;
    MergeRoom(m, bs, lo, hi, i);
    TiledApart(bs, lo, hi);
    var a, c := bs[i].addr, NextAddr(bs, i + 1);
    forall h | h in Addrs(bs) && h + HEADER_SIZE <= |m| ensures HeaderAt(m2, h).isFree == HeaderAt(m, h).isFree {
      MergeFlag(m, m1, m2, bs, i, h);
    }
    OnlyThisHeader(m, m1, a);
    if c != 0 {
      OnlyBoth(m, m1, m2, {a}, c);
      assert bs[i + 2] in bs;
    }
    assert bs[i] in bs;
    assert OnlyHeaders(m, m2, Addrs(bs));
    forall d | d in Merge(bs, i) ensures d.addr in Addrs(bs) {
      assert d == Merge(bs, i)[i] || d in bs;
    }
  }

  lemma MergeFlag(m: seq<Byte>, m1: seq<Byte>, m2: seq<Byte>, bs: seq<Block>, i: nat, h: nat)
    requires i + 1 < |bs| && h in Addrs(bs) && h + HEADER_SIZE <= |m| && Apart(Addrs(bs))
    requires HasHeader(m, bs[i].addr, Expected(bs, i)) && HasHeader(m, bs[i + 1].addr, Expected(bs, i + 1))
    requires MergeStores(m, m1, m2, bs[i].addr, bs[i + 1].addr)
    ensures HeaderAt(m2, h).isFree == HeaderAt(m, h).isFree
  {
    var a, c := bs[i].addr, NextAddr(bs, i + 1);
    assert bs[i] in bs && a in Addrs(bs);
    if i + 2 < |bs| {
      assert bs[i + 2] in bs && c in Addrs(bs);
    }
    if h != a {
      HeaderFrame(m, m1, h);
    }
    if c != 0 && h != c {
      HeaderFrame(m1, m2, h);
    }
  }
}
