/** The heap's block list as a value: what it means for a list to tile the pool, how granting and
    releasing change it, and that the list is determined by its live blocks alone. */
module BlockList {
  import opened HeaderLayout

  const ALIGNMENT: nat := 16

  datatype Block = Block(addr: nat, size: nat, free: bool)

  function End(b: Block): nat {
    b.addr + HEADER_SIZE + b.size
  }

  function Payload(b: Block): nat {
    b.addr + HEADER_SIZE
  }

  // The blocks lie end to end from lo to hi and every size is a multiple of 16.
  ghost predicate Tiled(bs: seq<Block>, lo: nat, hi: nat) {
    && bs != [] && bs[0].addr == lo && End(bs[|bs| - 1]) == hi
    && (forall i, j :: 0 <= i && j == i + 1 && j < |bs| ==> bs[j].addr == End(bs[i]))
    && (forall i :: 0 <= i < |bs| ==> bs[i].size % ALIGNMENT == 0)
  }

  // No two neighbouring blocks are both free.
  ghost predicate Coalesced(bs: seq<Block>) {
    forall i, j :: 0 <= i && j == i + 1 && j < |bs| ==> !(bs[i].free && bs[j].free)
  }

  ghost function Live(bs: seq<Block>): set<Block> {
    if bs == [] then {} else (if bs[0].free then {} else {bs[0]}) + Live(bs[1..])
  }

  ghost function UsedBytes(bs: seq<Block>): nat {
    if bs == [] then 0 else (if bs[0].free then 0 else bs[0].size) + UsedBytes(bs[1..])
  }

  ghost function FreeBytes(bs: seq<Block>): nat {
    if bs == [] then 0 else (if bs[0].free then bs[0].size else 0) + FreeBytes(bs[1..])
  }

  ghost function LiveCount(bs: seq<Block>): nat {
    if bs == [] then 0 else (if bs[0].free then 0 else 1) + LiveCount(bs[1..])
  }

  lemma {:induction false} InLive(bs: seq<Block>, b: Block)
    ensures b in Live(bs) <==> b in bs && !b.free
  {
    if bs != [] {
      InLive(bs[1..], b);
      assert bs == [bs[0]] + bs[1..];
    }
  }

  // ---------- order and alignment ----------

  lemma {:induction false} Ordered(bs: seq<Block>, lo: nat, hi: nat, i: nat, j: nat)
    requires Tiled(bs, lo, hi) && i < j < |bs|
    ensures End(bs[i]) <= bs[j].addr
    decreases j - i
  {
    if i + 1 < j {
      Ordered(bs, lo, hi, i + 1, j);
      assert bs[i + 1].addr == End(bs[i]);
    }
  }

  lemma OrderedAll(bs: seq<Block>, lo: nat, hi: nat)
    requires Tiled(bs, lo, hi)
    ensures forall i, j :: 0 <= i < j < |bs| ==> End(bs[i]) <= bs[j].addr
    ensures forall i :: 0 <= i < |bs| ==> lo <= bs[i].addr && End(bs[i]) <= hi
  {
    forall i, j | 0 <= i < j < |bs| ensures End(bs[i]) <= bs[j].addr {
      Ordered(bs, lo, hi, i, j);
    }
  }

  lemma {:induction false} PayloadAligned(bs: seq<Block>, lo: nat, hi: nat, i: nat)
    requires Tiled(bs, lo, hi) && lo % ALIGNMENT == 0 && i < |bs|
    ensures bs[i].addr % 16 == 0 && Payload(bs[i]) % 16 == 0
  {
    if i > 0 {
      PayloadAligned(bs, lo, hi, i - 1);
      assert bs[i].addr == End(bs[i - 1]);
      EndAligned(bs[i - 1].addr, bs[i - 1].size);
    }
    EndAligned(bs[i].addr, 0);
  }

  lemma EndAligned(addr: nat, size: nat)
    requires addr % ALIGNMENT == 0 && size % ALIGNMENT == 0
    ensures (addr + HEADER_SIZE + size) % ALIGNMENT == 0
  {
    var a, b := addr / 16, size / 16;
    assert addr == 16 * a && size == 16 * b;
    assert addr + HEADER_SIZE + size == 16 * (a + 3 + b);
  }

  // Live payloads are pairwise disjoint and meet no header.
  lemma PayloadsDisjoint(bs: seq<Block>, lo: nat, hi: nat, i: nat, j: nat)
    requires Tiled(bs, lo, hi) && i < |bs| && j < |bs|
    ensures i != j ==> End(bs[i]) <= bs[j].addr || End(bs[j]) <= bs[i].addr
    ensures Payload(bs[i]) <= End(bs[i]) <= hi && lo + HEADER_SIZE <= Payload(bs[i])
  {
    OrderedAll(bs, lo, hi);
  }

  // ---------- sums over a list ----------

  lemma {:induction false} SumsOfConcat(a: seq<Block>, b: seq<Block>)
    ensures UsedBytes(a + b) == UsedBytes(a) + UsedBytes(b)
    ensures FreeBytes(a + b) == FreeBytes(a) + FreeBytes(b)
    ensures LiveCount(a + b) == LiveCount(a) + LiveCount(b)
    ensures Live(a + b) == Live(a) + Live(b)
  {
    if a == [] {
      assert a + b == b;
    } else {
      assert (a + b)[1..] == a[1..] + b;
      SumsOfConcat(a[1..], b);
    }
  }

  // The sums over a list with a middle part singled out.
  lemma SumsOfThree(a: seq<Block>, mid: seq<Block>, b: seq<Block>)
    ensures UsedBytes(a + mid + b) == UsedBytes(a) + UsedBytes(mid) + UsedBytes(b)
    ensures FreeBytes(a + mid + b) == FreeBytes(a) + FreeBytes(mid) + FreeBytes(b)
    ensures LiveCount(a + mid + b) == LiveCount(a) + LiveCount(mid) + LiveCount(b)
    ensures Live(a + mid + b) == Live(a) + Live(mid) + Live(b)
  {
    SumsOfConcat(a + mid, b);
    SumsOfConcat(a, mid);
  }

  // Conservation: the pool is its live payload, its free payload and one header per block.
  lemma {:induction false} Conservation(bs: seq<Block>, lo: nat, hi: nat)
    requires Tiled(bs, lo, hi)
    ensures hi - lo == UsedBytes(bs) + FreeBytes(bs) + 48 * |bs|
  {
    if |bs| > 1 {
      assert bs[1].addr == End(bs[0]);
      Conservation(bs[1..], End(bs[0]), hi);
    } else {
      assert bs[1..] == [];
    }
  }

  lemma {:induction false} LiveBlockIsCounted(bs: seq<Block>, i: nat)
    requires i < |bs| && !bs[i].free
    ensures UsedBytes(bs) >= bs[i].size && LiveCount(bs) >= 1
  {
    assert bs == bs[..i] + [bs[i]] + bs[i + 1..];
    SumsOfThree(bs[..i], [bs[i]], bs[i + 1..]);
  }

  // ---------- canonicity ----------

  // One step: lists that agree up to k and have the same live blocks agree on block k.
  lemma SameLiveSameBlock(bs: seq<Block>, cs: seq<Block>, lo: nat, hi: nat, k: nat)
    requires Tiled(bs, lo, hi) && Tiled(cs, lo, hi) && Coalesced(bs) && Coalesced(cs)
    requires Live(bs) == Live(cs)
    requires k < |bs| && k < |cs| && bs[k].addr == cs[k].addr
    ensures bs[k] == cs[k]
  {
    SameLiveNotLonger(bs, cs, lo, hi, k);
    SameLiveNotLonger(cs, bs, lo, hi, k);
  }

  lemma SameLiveNotLonger(bs: seq<Block>, cs: seq<Block>, lo: nat, hi: nat, k: nat)
    requires Tiled(bs, lo, hi) && Tiled(cs, lo, hi) && Coalesced(bs)
    requires Live(bs) == Live(cs)
    requires k < |bs| && k < |cs| && bs[k].addr == cs[k].addr
    ensures bs[k].free ==> cs[k].free && bs[k].size >= cs[k].size
    ensures !bs[k].free ==> bs[k] == cs[k]
  {
    if !bs[k].free {
      var j := LivePosition(bs, cs, k);
      SameAddrSamePosition(cs, lo, hi, j, k);
    } else {
      if !cs[k].free {
        var j := LivePosition(cs, bs, k);
        SameAddrSamePosition(bs, lo, hi, j, k);
        assert false;
      }
      if bs[k].size < cs[k].size {
        OrderedAll(cs, lo, hi);
        assert k + 1 < |bs|;
        assert bs[k + 1].addr == End(bs[k]);
        var j := LivePosition(bs, cs, k + 1);
        assert false;
      }
    }
  }

  // Where a live block of bs sits in a list with the same live blocks.
  lemma LivePosition(bs: seq<Block>, cs: seq<Block>, k: nat) returns (j: nat)
    requires Live(bs) == Live(cs) && k < |bs| && !bs[k].free
    ensures j < |cs| && cs[j] == bs[k]
  {
    InLive(bs, bs[k]);
    InLive(cs, bs[k]);
    j :| j < |cs| && cs[j] == bs[k];
  }

  lemma SameAddrSamePosition(bs: seq<Block>, lo: nat, hi: nat, j: nat, k: nat)
    requires Tiled(bs, lo, hi) && j < |bs| && k < |bs| && bs[j].addr == bs[k].addr
    ensures j == k
  {
    if j < k {
      Ordered(bs, lo, hi, j, k);
    } else if k < j {
      Ordered(bs, lo, hi, k, j);
    }
  }

  lemma {:induction false} SameLiveSamePrefix(bs: seq<Block>, cs: seq<Block>, lo: nat, hi: nat, k: nat)
    requires Tiled(bs, lo, hi) && Tiled(cs, lo, hi) && Coalesced(bs) && Coalesced(cs)
    requires Live(bs) == Live(cs) && k <= |bs|
    ensures k <= |cs| && bs[..k] == cs[..k]
  {
    if k > 0 {
      hide Live, Coalesced;
      SameLiveSamePrefix(bs, cs, lo, hi, k - 1);
      if k > 1 {
        assert bs[k - 2] == bs[..k - 1][k - 2] == cs[..k - 1][k - 2] == cs[k - 2];
        BlockBehind(bs, cs, lo, hi, k - 2);
      }
      SameLiveSameBlock(bs, cs, lo, hi, k - 1);
      assert bs[..k] == bs[..k - 1] + [bs[k - 1]];
      assert cs[..k] == cs[..k - 1] + [cs[k - 1]];
    }
  }

  // Where one list goes on behind a common block the other does, at the same address.
  lemma BlockBehind(bs: seq<Block>, cs: seq<Block>, lo: nat, hi: nat, i: nat)
    requires Tiled(bs, lo, hi) && Tiled(cs, lo, hi)
    requires i + 1 < |bs| && i < |cs| && bs[i] == cs[i]
    ensures i + 1 < |cs| && bs[i + 1].addr == cs[i + 1].addr
  {
    assert bs[i + 1].addr == End(bs[i]);
    OrderedAll(bs, lo, hi);
    assert i + 1 < |cs| ==> cs[i + 1].addr == End(cs[i]);
  }

  // Canonicity: the block list is a function of the set of live blocks.
  lemma Canonicity(bs: seq<Block>, cs: seq<Block>, lo: nat, hi: nat)
    requires Tiled(bs, lo, hi) && Coalesced(bs)
    requires Tiled(cs, lo, hi) && Coalesced(cs)
    requires Live(bs) == Live(cs)
    ensures bs == cs
  {
    SameLiveSamePrefix(bs, cs, lo, hi, |bs|);
    SameLiveSamePrefix(cs, bs, lo, hi, |cs|);
  }

  function Whole(lo: nat, hi: nat): Block
    requires lo + HEADER_SIZE <= hi
  {
    Block(lo, hi - lo - HEADER_SIZE, true)
  }

  // With nothing live the pool is the single free block it started as.
  lemma NothingLiveIsInitial(bs: seq<Block>, lo: nat, hi: nat)
    requires Tiled(bs, lo, hi) && Coalesced(bs) && Live(bs) == {}
    requires (hi - lo) % ALIGNMENT == 0
    ensures lo + HEADER_SIZE <= hi && bs == [Whole(lo, hi)]
  {
    OrderedAll(bs, lo, hi);
    assert Live([Whole(lo, hi)]) == {};
    Canonicity(bs, [Whole(lo, hi)], lo, hi);
  }

  // ---------- granting a block ----------

  predicate Fits(b: Block, n: nat) {
    b.free && b.size >= n
  }

  // What the block at the fitting position keeps, and the remainder when it is worth splitting off.
  function Granted(b: Block, n: nat): Block
    requires Fits(b, n)
  {
    Block(b.addr, if b.size >= n + HEADER_SIZE + ALIGNMENT then n else b.size, false)
  }

  // The granted block and, when it was split, the free remainder behind it.
  function Pieces(b: Block, n: nat): seq<Block>
    requires Fits(b, n)
  {
    var g := Granted(b, n);
    [g] + if g.size == b.size then [] else [Block(End(g), b.size - n - HEADER_SIZE, true)]
  }

  function Grant(bs: seq<Block>, i: nat, n: nat): seq<Block>
    requires i < |bs| && Fits(bs[i], n)
  {
    bs[..i] + Pieces(bs[i], n) + bs[i + 1..]
  }

  // Granting leaves the blocks before i where they are and moves those after it by d positions.
  lemma GrantPositions(bs: seq<Block>, i: nat, n: nat) returns (d: nat)
    requires i < |bs| && Fits(bs[i], n)
    ensures d == (if Granted(bs[i], n).size == bs[i].size then 0 else 1)
    ensures var cs := Grant(bs, i, n);
      && |cs| == |bs| + d
      && (forall j :: 0 <= j < i ==> cs[j] == bs[j])
      && cs[i] == Granted(bs[i], n)
      && (d == 1 ==> cs[i + 1] == Block(End(cs[i]), bs[i].size - n - HEADER_SIZE, true))
      && (forall j :: i + d < j < |cs| ==> cs[j] == bs[j - d])
  {
    d := |Pieces(bs[i], n)| - 1;
    assert Pieces(bs[i], n)[0] == Granted(bs[i], n);
  }

  lemma GrantTiled(bs: seq<Block>, lo: nat, hi: nat, i: nat, n: nat)
    requires Tiled(bs, lo, hi) && i < |bs| && Fits(bs[i], n) && n % ALIGNMENT == 0
    ensures Tiled(Grant(bs, i, n), lo, hi)
  {
    var cs := Grant(bs, i, n);
    var d := GrantPositions(bs, i, n);
    assert End(cs[i + d]) == End(bs[i]);
    forall j, k | 0 <= j && k == j + 1 && k < |cs| ensures cs[k].addr == End(cs[j]) {
      if j < i {
        assert bs[k].addr == End(bs[j]);
      } else if j >= i + d {
        assert bs[k - d].addr == End(bs[j - d]);
      }
    }
    assert |cs| - 1 > i + d ==> cs[|cs| - 1] == bs[|bs| - 1];
  }

  lemma GrantCoalesced(bs: seq<Block>, i: nat, n: nat)
    requires Coalesced(bs) && i < |bs| && Fits(bs[i], n)
    ensures Coalesced(Grant(bs, i, n))
  {
    var cs := Grant(bs, i, n);
    var d := GrantPositions(bs, i, n);
    forall j, k | 0 <= j && k == j + 1 && k < |cs| ensures !(cs[j].free && cs[k].free) {
      if k < i {
        assert !(bs[j].free && bs[k].free);
      } else if j >= i + d {
        assert !(bs[j - d].free && bs[k - d].free);
      }
    }
  }

  lemma GrantLive(bs: seq<Block>, lo: nat, hi: nat, i: nat, n: nat)
    requires Tiled(bs, lo, hi) && i < |bs| && Fits(bs[i], n)
    ensures Live(Grant(bs, i, n)) == Live(bs) + {Granted(bs[i], n)}
    ensures UsedBytes(Grant(bs, i, n)) == UsedBytes(bs) + Granted(bs[i], n).size
    ensures LiveCount(Grant(bs, i, n)) == LiveCount(bs) + 1
  {
    hide Tiled, Live, UsedBytes, FreeBytes, LiveCount, Pieces;
    assert bs == bs[..i] + [bs[i]] + bs[i + 1..];
    SumsOfThree(bs[..i], Pieces(bs[i], n), bs[i + 1..]);
    SumsOfThree(bs[..i], [bs[i]], bs[i + 1..]);
    SumsOfPieces(bs[i], n);
    SumsOfOne(bs[i]);
  }

  lemma SumsOfPieces(b: Block, n: nat)
    requires Fits(b, n)
    ensures Live(Pieces(b, n)) == {Granted(b, n)}
    ensures UsedBytes(Pieces(b, n)) == Granted(b, n).size
    ensures LiveCount(Pieces(b, n)) == 1
  {
    var g := Granted(b, n);
    var rest := if g.size == b.size then [] else [Block(End(g), b.size - n - HEADER_SIZE, true)];
    SumsOfConcat([g], rest);
    SumsOfOne(g);
    if rest != [] {
      SumsOfOne(rest[0]);
    }
  }

  lemma SumsOfOne(b: Block)
    ensures Live([b]) == (if b.free then {} else {b})
    ensures UsedBytes([b]) == (if b.free then 0 else b.size)
    ensures LiveCount([b]) == (if b.free then 0 else 1)
  {
  }

  lemma GrantedIsNew(bs: seq<Block>, lo: nat, hi: nat, i: nat, n: nat)
    requires Tiled(bs, lo, hi) && i < |bs| && Fits(bs[i], n)
    ensures forall b :: b in Live(bs) ==> b.addr != bs[i].addr
  {
    forall b | b in Live(bs) ensures b.addr != bs[i].addr {
      InLive(bs, b);
      var j: nat :| j < |bs| && bs[j] == b;
      if b.addr == bs[i].addr {
        SameAddrSamePosition(bs, lo, hi, i, j);
      }
    }
  }

  // ---------- releasing a block ----------

  // Blocks i and i + 1 as one block.
  function Merge(bs: seq<Block>, i: nat): seq<Block>
    requires i + 1 < |bs|
  {
    bs[..i] + [Block(bs[i].addr, bs[i].size + HEADER_SIZE + bs[i + 1].size, bs[i].free)] + bs[i + 2..]
  }

  lemma MergeTiled(bs: seq<Block>, lo: nat, hi: nat, i: nat)
    requires Tiled(bs, lo, hi) && i + 1 < |bs|
    ensures Tiled(Merge(bs, i), lo, hi)
  {
    var cs := Merge(bs, i);
    assert bs[i + 1].addr == End(bs[i]);
    EndAligned(bs[i].size, bs[i + 1].size);
    forall j, k | 0 <= j && k == j + 1 && k < |cs| ensures cs[k].addr == End(cs[j]) {
      if j < i {
        assert cs[j] == bs[j] && cs[k].addr == bs[k].addr;
      } else {
        assert End(cs[j]) == End(bs[j + 1]) && cs[k] == bs[k + 1];
      }
    }
    forall j | 0 <= j < |cs| ensures cs[j].size % ALIGNMENT == 0 {
      assert j != i ==> cs[j] == bs[if j < i then j else j + 1];
    }
  }

  lemma MergeLive(bs: seq<Block>, i: nat)
    requires i + 1 < |bs| && bs[i].free && bs[i + 1].free
    ensures Live(Merge(bs, i)) == Live(bs)
    ensures UsedBytes(Merge(bs, i)) == UsedBytes(bs)
    ensures LiveCount(Merge(bs, i)) == LiveCount(bs)
  {
    hide Live, UsedBytes, FreeBytes, LiveCount;
    var mid := [Block(bs[i].addr, bs[i].size + HEADER_SIZE + bs[i + 1].size, true)];
    SumsOfOne(mid[0]);
    SumsOfOne(bs[i]);
    SumsOfOne(bs[i + 1]);
    SumsOfConcat([bs[i]], [bs[i + 1]]);
    assert [bs[i]] + [bs[i + 1]] == [bs[i], bs[i + 1]];
    assert bs == bs[..i] + [bs[i], bs[i + 1]] + bs[i + 2..];
    SumsOfThree(bs[..i], mid, bs[i + 2..]);
    SumsOfThree(bs[..i], [bs[i], bs[i + 1]], bs[i + 2..]);
  }

  // The only neighbours that may both be free are at positions i - 1, i and i, i + 1.
  ghost predicate CoalescedExceptAt(bs: seq<Block>, i: nat, left: bool, right: bool) {
    forall j, k :: 0 <= j && k == j + 1 && k < |bs| && !(left && k == i) && !(right && j == i) ==>
      !(bs[j].free && bs[k].free)
  }

  function Freed(bs: seq<Block>, i: nat): seq<Block>
    requires i < |bs|
  {
    bs[i := bs[i].(free := true)]
  }

  lemma FreedTiled(bs: seq<Block>, lo: nat, hi: nat, i: nat)
    requires Tiled(bs, lo, hi) && Coalesced(bs) && i < |bs|
    ensures Tiled(Freed(bs, i), lo, hi) && CoalescedExceptAt(Freed(bs, i), i, true, true)
  {
  }

  lemma FreedLive(bs: seq<Block>, lo: nat, hi: nat, i: nat)
    requires Tiled(bs, lo, hi) && i < |bs| && !bs[i].free
    ensures Live(Freed(bs, i)) == Live(bs) - {bs[i]}
    ensures UsedBytes(Freed(bs, i)) == UsedBytes(bs) - bs[i].size
    ensures LiveCount(Freed(bs, i)) == LiveCount(bs) - 1
  {
    hide Tiled, Live, UsedBytes, FreeBytes, LiveCount;
    assert bs == bs[..i] + [bs[i]] + bs[i + 1..];
    assert Freed(bs, i) == bs[..i] + [bs[i].(free := true)] + bs[i + 1..];
    SumsOfThree(bs[..i], [bs[i]], bs[i + 1..]);
    SumsOfThree(bs[..i], [bs[i].(free := true)], bs[i + 1..]);
    SumsOfOne(bs[i]);
    SumsOfOne(bs[i].(free := true));
    LiveOnce(bs, lo, hi, i);
  }

  lemma LiveOnce(bs: seq<Block>, lo: nat, hi: nat, i: nat)
    requires Tiled(bs, lo, hi) && i < |bs|
    ensures bs[i] !in Live(bs[..i]) && bs[i] !in Live(bs[i + 1..])
  {
    InLive(bs[..i], bs[i]);
    InLive(bs[i + 1..], bs[i]);
    OrderedAll(bs, lo, hi);
  }

  lemma MergeRightCoalesced(bs: seq<Block>, i: nat)
    requires i + 1 < |bs| && bs[i].free && bs[i + 1].free
    requires CoalescedExceptAt(bs, i, true, true)
    ensures CoalescedExceptAt(Merge(bs, i), i, true, false)
  {
    var cs := Merge(bs, i);
    assert forall j :: 0 <= j < i ==> cs[j] == bs[j];
    assert forall j :: i < j < |cs| ==> cs[j] == bs[j + 1];
    forall j, k | 0 <= j && k == j + 1 && k < |cs| && k != i ensures !(cs[j].free && cs[k].free) {
      if k < i {
        assert !(bs[j].free && bs[k].free);
      } else {
        assert !(bs[j + 1].free && bs[k + 1].free);
      }
    }
  }

  lemma MergeLeftCoalesced(bs: seq<Block>, i: nat)
    requires i + 1 < |bs| && bs[i].free && bs[i + 1].free
    requires CoalescedExceptAt(bs, i + 1, true, false)
    ensures Coalesced(Merge(bs, i))
  {
    var cs := Merge(bs, i);
    assert forall j :: 0 <= j < i ==> cs[j] == bs[j];
    assert forall j :: i < j < |cs| ==> cs[j] == bs[j + 1];
    forall j, k | 0 <= j && k == j + 1 && k < |cs| ensures !(cs[j].free && cs[k].free) {
      if k <= i {
        assert !(bs[j].free && bs[k].free);
      } else {
        assert !(bs[j + 1].free && bs[k + 1].free);
      }
    }
  }
}
