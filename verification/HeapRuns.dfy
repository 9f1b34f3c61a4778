/** Whole runs of the heap: any sequence of calls by a client that also writes into what it holds.

    A run leaves a trace of snapshots, each following from the one before by what the call promises. The
    trace is determined by the calls, so what is proved about traces is proved about every run. */
module HeapRuns {
  import opened Common
  import opened HeaderLayout
  import opened BlockList
  import opened HeapImage
  import opened KernelHeap

  // A call a client may make, or a write into the payload at p: the bytes of data from offset on.
  datatype Call =
    | Malloc(n: Word)
    | Calloc(nmemb: Word, size: Word)
    | Realloc(p: nat, n: Word)
    | Free(p: nat)
    | Write(p: nat, offset: nat, data: seq<Byte>)

  predicate Proper(c: Call) {
    match c
    case Malloc(_) => true
    case Calloc(nmemb, size) => nmemb * size <= MAX_REQUEST || nmemb * size >= WORD_LIMIT
    case Realloc(_, n) => n <= MAX_REQUEST
    case Free(_) => true
    case Write(_, _, _) => true
  }

  // ---------- one step ----------

  datatype Snapshot = Snapshot(books: Books, memory: seq<Byte>)

  ghost function Snap(h: Heap): Snapshot
    reads h, h.ram
  {
    Snapshot(h.State(), h.ram[..])
  }

  ghost function LiveIn(s: Snapshot): set<Block> {
    Live(s.books.blocks)
  }

  // What Valid says of a heap whose list starts at head.
  ghost predicate Sound(head: nat, s: Snapshot) {
    && (head == 0 ==> s.books.blocks == [])
    && (head != 0 ==> head % PAGE == 0 && Pool(s.memory, s.books.blocks, head, head + POOL_SIZE)
                      && Coalesced(s.books.blocks))
    && s.books.used == UsedBytes(s.books.blocks) && s.books.count == LiveCount(s.books.blocks)
  }

  lemma ValidIsSound(h: Heap)
    requires h.Valid()
    ensures Sound(h.head, Snap(h))
  {
  }

  // p was handed out and not yet given back.
  ghost predicate Held(s: Snapshot, p: nat) {
    exists l :: l in LiveIn(s) && Payload(l) == p
  }

  ghost predicate AllZero(m: seq<Byte>, p: nat, n: nat) {
    p + n <= |m| && forall k :: p <= k < p + n ==> m[k] == 0
  }

  // What each call does, and the pointer it returns (0 where it returns none).
  ghost predicate MallocStep(head: nat, s: Snapshot, s': Snapshot, n: Word, r: nat) {
    && AllocStep(head, s.books, s'.books, n, r) && PayloadsKept(s.memory, s'.memory, LiveIn(s))
    && (r == 0 ==> s' == s)
  }

  ghost predicate CallocStep(head: nat, s: Snapshot, s': Snapshot, nmemb: Word, size: Word, r: nat) {
    if nmemb * size >= WORD_LIMIT then r == 0 && s' == s
    else
      && AllocStep(head, s.books, s'.books, nmemb * size, r) && PayloadsKept(s.memory, s'.memory, LiveIn(s))
      && (r != 0 ==> AllZero(s'.memory, r, nmemb * size))
  }

  ghost predicate FreeBlockStep(s: Snapshot, s': Snapshot, l: Block) {
    FreeStep(s.books, s'.books, l) && PayloadsKept(s.memory, s'.memory, LiveIn(s) - {l})
  }

  ghost predicate ReallocBlockStep(head: nat, s: Snapshot, s': Snapshot, l: Block, n: Word, r: nat) {
    && End(l) <= |s.memory| == |s'.memory|
    && ReallocStep(head, s.books, s'.books, s.memory, s'.memory, l, n, r)
    && PayloadsKept(s.memory, s'.memory, LiveIn(s) - {l})
  }

  // A write that does not fit its block is not made.
  ghost predicate WriteStep(s: Snapshot, s': Snapshot, l: Block, offset: nat, data: seq<Byte>) {
    if offset + |data| <= l.size then
      End(l) <= |s.memory| && s' == s.(memory := Store(s.memory, Payload(l) + offset, data))
    else s' == s
  }

  // Pointers the client does not hold are not passed.
  ghost predicate CallStep(head: nat, s: Snapshot, s': Snapshot, c: Call, r: nat) {
    match c
    case Malloc(n) => MallocStep(head, s, s', n, r)
    case Calloc(nmemb, size) => CallocStep(head, s, s', nmemb, size, r)
    case Free(p) =>
      r == 0 && if Held(s, p) then forall l :: l in LiveIn(s) && Payload(l) == p ==> FreeBlockStep(s, s', l) else s' == s
    case Realloc(p, n) =>
      if Held(s, p) then forall l :: l in LiveIn(s) && Payload(l) == p ==> ReallocBlockStep(head, s, s', l, n, r)
      else r == 0 && s' == s
    case Write(p, offset, data) =>
      && r == 0
      && if Held(s, p) then forall l :: l in LiveIn(s) && Payload(l) == p ==> WriteStep(s, s', l, offset, data)
         else s' == s
  }

  // The client's record of the pointers it holds is exact.
  ghost predicate Holds(h: Heap, held: set<nat>)
    reads h
  {
    held == set l | l in Live(h.blocks) :: Payload(l)
  }

  lemma HeldIs(h: Heap, held: set<nat>, p: nat)
    requires Holds(h, held)
    ensures p in held <==> Held(Snap(h), p)
    ensures p in held <==> h.IsLive(p)
  {
  }

  // One call of the run.
  method Step(h: Heap, c: Call, held: set<nat>) returns (r: nat, held': set<nat>)
    requires h.Valid() && Holds(h, held) && Proper(c)
    modifies h, h.ram
    ensures h.Valid() && Holds(h, held') && h.head == old(h.head)
    ensures CallStep(h.head, old(Snap(h)), Snap(h), c, r)
  {
    hide Tiled, Image, Coalesced, HeaderAt, UsedBytes, LiveCount;
    r, held' := 0, held;
    match c {
      case Malloc(n) =>
        r := h.Malloc(n);
        if r != 0 {
          held' := held + {r};
        }
      case Calloc(nmemb, size) =>
        r := h.Calloc(nmemb, size);
        if r != 0 {
          held' := held + {r};
        }
      case Free(p) =>
        HeldIs(h, held, p);
        if p in held {
          held' := StepFree(h, p, held);
        }
      case Realloc(p, n) =>
        HeldIs(h, held, p);
        if p in held {
          r, held' := StepRealloc(h, p, n, held);
        }
      case Write(p, offset, data) =>
        HeldIs(h, held, p);
        if p in held {
          StepWrite(h, p, offset, data, held);
        }
    }
  }

  method StepFree(h: Heap, p: nat, held: set<nat>) returns (held': set<nat>)
    requires h.Valid() && Holds(h, held) && p in held
    modifies h, h.ram
    ensures h.Valid() && Holds(h, held') && h.head == old(h.head) && held' == held - {p}
    ensures forall l :: l in old(Live(h.blocks)) && Payload(l) == p ==> FreeBlockStep(old(Snap(h)), Snap(h), l)
  {
    hide Tiled, Image, Coalesced, HeaderAt, UsedBytes, LiveCount;
    ghost var i := h.LiveIndex(p);
    h.Free(p);
    held' := held - {p};
  }

  method StepRealloc(h: Heap, p: nat, n: Word, held: set<nat>) returns (r: nat, held': set<nat>)
    requires h.Valid() && Holds(h, held) && p in held && n <= MAX_REQUEST
    modifies h, h.ram
    ensures h.Valid() && Holds(h, held') && h.head == old(h.head)
    ensures forall l :: l in old(Live(h.blocks)) && Payload(l) == p ==>
      ReallocBlockStep(h.head, old(Snap(h)), Snap(h), l, n, r)
  {
    hide Tiled, Image, Coalesced, HeaderAt, UsedBytes, LiveCount;
    ghost var i := h.LiveIndex(p);
    ghost var l := h.blocks[i];
    r := h.Realloc(p, n);
    held' := if n == 0 then held - {p} else if r == 0 then held else held - {p} + {r};
  }

  method StepWrite(h: Heap, p: nat, offset: nat, data: seq<Byte>, ghost held: set<nat>)
    requires h.Valid() && Holds(h, held) && p in held
    modifies h.ram
    ensures h.Valid()
    ensures forall l :: l in Live(h.blocks) && Payload(l) == p ==> WriteStep(old(Snap(h)), Snap(h), l, offset, data)
  {
    hide Tiled, Image, Coalesced, HeaderAt, UsedBytes, LiveCount;
    ghost var i := h.LiveIndex(p);
    ghost var l, m := h.blocks[i], h.ram[..];
    var size := h.SizeOf(p, l);
    if offset + |data| <= size {
      StoreBytes(h.ram, p + offset, data);
      ClientWrite(m, h.ram[..], h.blocks, h.base, h.base + h.total, l, p + offset, p + offset + |data|);
    }
  }

  method StoreBytes(ram: array<Byte>, a: nat, data: seq<Byte>)
    requires a + |data| <= ram.Length
    modifies ram
    ensures ram[..] == Store(old(ram[..]), a, data)
  {
    forall i | 0 <= i < |data| {
      ram[a + i] := data[i];
    }
  }

  // ---------- traces ----------

  ghost predicate StepAt(head: nat, calls: seq<Call>, trace: seq<Snapshot>, rs: seq<nat>, k: nat)
    requires |trace| == |calls| + 1 && |rs| == |calls| && k < |calls|
  {
    CallStep(head, trace[k], trace[k + 1], calls[k], rs[k])
  }

  // trace and rs are what the calls lead to from trace[0] on: the snapshots and the results.
  ghost predicate Traced(head: nat, calls: seq<Call>, trace: seq<Snapshot>, rs: seq<nat>) {
    && |trace| == |calls| + 1 && |rs| == |calls|
    && (forall k :: 0 <= k < |trace| ==> Sound(head, trace[k]))
    && (forall k :: 0 <= k < |calls| ==> StepAt(head, calls, trace, rs, k))
  }

  lemma TraceGoesOn(head: nat, calls: seq<Call>, trace: seq<Snapshot>, rs: seq<nat>, c: Call, s: Snapshot, r: nat)
    requires Traced(head, calls, trace, rs) && Sound(head, s) && CallStep(head, trace[|calls|], s, c, r)
    ensures Traced(head, calls + [c], trace + [s], rs + [r])
  {
    hide Sound, CallStep;
    forall k | 0 <= k < |calls + [c]| ensures StepAt(head, calls + [c], trace + [s], rs + [r], k) {
      assert k < |calls| ==> StepAt(head, calls, trace, rs, k);
    }
  }

  // Any run of calls follows a trace from the heap as it was to the heap as it is, returns the results
  // of that trace, and knows which pointers it holds.
  method Run(h: Heap, calls: seq<Call>, held: set<nat>) returns (rs: seq<nat>, held': set<nat>, ghost trace: seq<Snapshot>)
    requires h.Valid() && Holds(h, held) && forall c :: c in calls ==> Proper(c)
    modifies h, h.ram
    ensures h.Valid() && Holds(h, held') && h.head == old(h.head)
    ensures |trace| == |calls| + 1 && Traced(h.head, calls, trace, rs)
    ensures trace[0] == old(Snap(h)) && trace[|calls|] == Snap(h)
  {
    hide Sound, CallStep, Tiled, Image, Coalesced, UsedBytes, LiveCount;
    rs, held', trace := [], held, [Snap(h)];
    ValidIsSound(h);
    for k := 0 to |calls|
      invariant h.Valid() && Holds(h, held') && h.head == old(h.head)
      invariant Traced(h.head, calls[..k], trace, rs) && trace[0] == old(Snap(h)) && trace[k] == Snap(h)
    {
      var r;
      r, held' := Step(h, calls[k], held');
      ValidIsSound(h);
      TraceGoesOn(h.head, calls[..k], trace, rs, calls[k], Snap(h), r);
      assert calls[..k + 1] == calls[..k] + [calls[k]];
      rs, trace := rs + [r], trace + [Snap(h)];
    }
    assert calls[..|calls|] == calls;
  }

  function Frees(ps: seq<nat>): seq<Call> {
    seq(|ps|, i requires 0 <= i < |ps| => Free(ps[i]))
  }

  lemma FreesGoOn(calls: seq<Call>, ps: seq<nat>, p: nat)
    ensures |Frees(ps)| == |ps| && calls + Frees(ps) + [Free(p)] == calls + Frees(ps + [p])
  {
  }

  // Giving back everything held, in whatever order, goes on with the trace.
  method GiveBack(h: Heap, held: set<nat>, ghost calls: seq<Call>, rs: seq<nat>, ghost trace: seq<Snapshot>)
    returns (ps: seq<nat>, rs': seq<nat>, ghost trace': seq<Snapshot>)
    requires h.Valid() && Holds(h, held)
    requires |trace| == |calls| + 1 && Traced(h.head, calls, trace, rs) && trace[|calls|] == Snap(h)
    modifies h, h.ram
    ensures h.Valid() && Holds(h, {}) && h.head == old(h.head)
    ensures |trace'| == |calls| + |ps| + 1 && Traced(h.head, calls + Frees(ps), trace', rs')
    ensures trace <= trace' && rs <= rs' && trace'[|calls| + |ps|] == Snap(h)
    ensures forall p :: p in ps <==> p in held
  {
    hide Sound, CallStep, Traced, Frees, Tiled, Image, Coalesced, UsedBytes, LiveCount;
    ps, rs', trace' := [], rs, trace;
    assert calls + Frees([]) == calls by {
      FreesGoOn(calls, [], 0);
    }
    var left := held;
    while left != {}
      invariant h.Valid() && Holds(h, left) && h.head == old(h.head)
      invariant forall p :: p in held <==> p in left || p in ps
      invariant |trace'| == |calls| + |ps| + 1 && Traced(h.head, calls + Frees(ps), trace', rs')
      invariant trace <= trace' && rs <= rs' && trace'[|calls| + |ps|] == Snap(h)
      decreases left
    {
      var p :| p in left;
      HeldIs(h, left, p);
      left := StepFree(h, p, left);
      ValidIsSound(h);
      FreeIsCall(h.head, trace'[|calls| + |ps|], Snap(h), p);
      FreesGoOn(calls, ps, p);
      TraceGoesOn(h.head, calls + Frees(ps), trace', rs', Free(p), Snap(h), 0);
      rs', trace', ps := rs' + [0], trace' + [Snap(h)], ps + [p];
    }
  }

  // After any run from an empty heap, giving back exactly what it still holds, in whatever order,
  // restores the initial list and counters.
  method RunAndCleanUp(h: Heap, calls: seq<Call>) returns (rs: seq<nat>, ps: seq<nat>, ghost trace: seq<Snapshot>)
    requires h.Valid() && h.head != 0 && Live(h.blocks) == {} && forall c :: c in calls ==> Proper(c)
    modifies h, h.ram
    ensures h.Valid() && h.head == old(h.head) && h.State() == old(h.State())
    ensures |trace| == |calls| + |ps| + 1 && Traced(h.head, calls + Frees(ps), trace, rs)
    ensures trace[0] == old(Snap(h)) && trace[|calls| + |ps|] == Snap(h)
    ensures forall p :: p in ps <==> Held(trace[|calls|], p)
  {
    hide Sound, CallStep, Traced, Frees, Tiled, Image, Coalesced, UsedBytes, LiveCount;
    EmptyState(h);
    ghost var trace1;
    var rs1, held;
    rs1, held, trace1 := Run(h, calls, {});
    ghost var end := Snap(h);
    forall p ensures p in held <==> Held(end, p) {
      HeldIs(h, held, p);
    }
    ps, rs, trace := GiveBack(h, held, calls, rs1, trace1);
    assert trace[|calls|] == trace1[|calls|] && trace[0] == trace1[0];
    HoldsNothing(h, {});
    EmptyState(h);
  }

  lemma HoldsNothing(h: Heap, held: set<nat>)
    requires Holds(h, held) && held == {}
    ensures Live(h.blocks) == {}
  {
    assert forall l :: l in Live(h.blocks) ==> Payload(l) in held;
  }

  lemma EmptyState(h: Heap)
    requires h.Valid() && h.head != 0 && Live(h.blocks) == {}
    ensures h.State() == Books([Whole(h.head, h.head + POOL_SIZE)], 0, 0)
  {
    NothingLiveIsInitial(h.blocks, h.base, h.base + h.total);
    SumsOfOne(Whole(h.base, h.base + h.total));
  }

  lemma FreeIsCall(head: nat, s: Snapshot, s': Snapshot, p: nat)
    requires Held(s, p) && forall l :: l in LiveIn(s) && Payload(l) == p ==> FreeBlockStep(s, s', l)
    ensures CallStep(head, s, s', Free(p), 0)
  {
  }

  // ---------- what runs promise ----------

  // The calls determine the run: from the same snapshot they return the same pointers and leave the
  // same lists and counters after every step.
  lemma {:induction false} RunDetermined(head: nat, calls: seq<Call>, a: seq<Snapshot>, b: seq<Snapshot>,
                                         rs: seq<nat>, ts: seq<nat>, k: nat)
    requires Traced(head, calls, a, rs) && Traced(head, calls, b, ts) && a[0] == b[0] && k <= |calls|
    ensures a[k].books == b[k].books && (k > 0 ==> rs[k - 1] == ts[k - 1])
  {
    if k > 0 {
      RunDetermined(head, calls, a, b, rs, ts, k - 1);
      assert StepAt(head, calls, a, rs, k - 1) && StepAt(head, calls, b, ts, k - 1);
      StepDetermined(head, a[k - 1], b[k - 1], a[k], b[k], calls[k - 1], rs[k - 1], ts[k - 1]);
    }
  }

  lemma StepDetermined(head: nat, s: Snapshot, t: Snapshot, s': Snapshot, t': Snapshot, c: Call, r: nat, u: nat)
    requires Sound(head, s) && Sound(head, t) && Sound(head, s') && Sound(head, t') && s.books == t.books
    requires CallStep(head, s, s', c, r) && CallStep(head, t, t', c, u)
    ensures s'.books == t'.books && r == u
  {
    hide Tiled, Image, Coalesced, UsedBytes, LiveCount, PayloadsKept, Store, FirstFit, Pool;
    assert LiveIn(s') == LiveIn(t') && r == u && s'.books.used == t'.books.used && s'.books.count == t'.books.count;
    SameLiveSameBooks(head, s', t');
  }

  lemma SameLiveSameBooks(head: nat, s: Snapshot, t: Snapshot)
    requires Sound(head, s) && Sound(head, t) && LiveIn(s) == LiveIn(t)
    ensures s.books == t.books
  {
    if head != 0 {
      Canonicity(s.books.blocks, t.books.blocks, head, head + POOL_SIZE);
    }
  }

  // realloc, whether it moves the block or not, keeps as many bytes from the start as fit, and what it
  // returns is a live payload of at least the size asked for.
  lemma ReallocKeeps(head: nat, s: Snapshot, s': Snapshot, l: Block, n: Word, r: nat)
    requires Sound(head, s) && Sound(head, s') && l in LiveIn(s) && 0 < n <= 0xFFFF_FFFF_FFFF_FFF0
    requires CallStep(head, s, s', Realloc(Payload(l), n), r)
    ensures r == 0 ==> s' == s
    ensures r != 0 ==> exists g :: g in LiveIn(s') && Payload(g) == r && g.size >= n
    ensures r != 0 ==> var k, p := Min(l.size, n), Payload(l);
      p + k <= |s.memory| && r + k <= |s'.memory| && s'.memory[r..r + k] == s.memory[p..p + k]
  {
    hide Tiled, Image, Coalesced, UsedBytes, LiveCount, FirstFit;
    assert Held(s, Payload(l));
    assert ReallocBlockStep(head, s, s', l, n, r);
    if r != 0 && n > l.size {
      var g := Grantee(s.books.blocks, n);
      GranteeHolds(s.books.blocks, n);
      assert g in LiveIn(s') && Payload(g) == r;
      assert Min(l.size, n) == l.size;
    } else if r != 0 {
      assert l in LiveIn(s') && Payload(l) == r;
    }
  }

  // The call does not concern the payload at p.
  predicate Leaves(c: Call, p: nat) {
    match c
    case Realloc(q, _) => q != p
    case Free(q) => q != p
    case Write(q, _, _) => q != p
    case _ => true
  }

  // Over a whole run, whatever the client allocates, frees, resizes and writes elsewhere, a payload none
  // of its calls concerns stays allocated and keeps every byte.
  lemma {:induction false} Survives(head: nat, calls: seq<Call>, trace: seq<Snapshot>, rs: seq<nat>, l: Block, i: nat, j: nat)
    requires Traced(head, calls, trace, rs) && i <= j <= |calls| && l in LiveIn(trace[i])
    requires forall k :: i <= k < j ==> Leaves(calls[k], Payload(l))
    ensures l in LiveIn(trace[j]) && PayloadsKept(trace[i].memory, trace[j].memory, {l})
  {
    if i < j {
      Survives(head, calls, trace, rs, l, i, j - 1);
      assert StepAt(head, calls, trace, rs, j - 1);
      StepLeaves(head, trace[j - 1], trace[j], calls[j - 1], rs[j - 1], l);
      KeptThrough(trace[i].memory, trace[j - 1].memory, trace[j].memory, {l}, {l}, {l});
    }
  }

  lemma StepLeaves(head: nat, s: Snapshot, s': Snapshot, c: Call, r: nat, l: Block)
    requires Sound(head, s) && CallStep(head, s, s', c, r) && l in LiveIn(s) && Leaves(c, Payload(l))
    ensures l in LiveIn(s') && PayloadsKept(s.memory, s'.memory, {l})
  {
    hide Tiled, Image, Coalesced, UsedBytes, LiveCount, Store, FirstFit;
    match c
    case Malloc(_) =>
    case Calloc(_, _) =>
    case Free(p) =>
      if Held(s, p) {
        var w :| w in LiveIn(s) && Payload(w) == p;
        assert FreeBlockStep(s, s', w);
      }
    case Realloc(p, n) =>
      if Held(s, p) {
        var w :| w in LiveIn(s) && Payload(w) == p;
        assert ReallocBlockStep(head, s, s', w, n, r);
      }
    case Write(p, offset, data) =>
      if Held(s, p) {
        var w :| w in LiveIn(s) && Payload(w) == p;
        assert WriteStep(s, s', w, offset, data);
        LivePayloadsDisjoint(s.books.blocks, head, head + POOL_SIZE, l, w);
      }
  }

  // What the client writes into a payload it finds there as long as no later call concerns that payload.
  lemma ReadBack(head: nat, calls: seq<Call>, trace: seq<Snapshot>, rs: seq<nat>, l: Block, i: nat, j: nat)
    requires Traced(head, calls, trace, rs) && i < j <= |calls| && l in LiveIn(trace[i])
    requires calls[i].Write? && calls[i].p == Payload(l) && calls[i].offset + |calls[i].data| <= l.size
    requires forall k :: i < k < j ==> Leaves(calls[k], Payload(l))
    ensures var from, n := Payload(l) + calls[i].offset, |calls[i].data|;
      from + n <= |trace[j].memory| && trace[j].memory[from..from + n] == calls[i].data
  {
    assert StepAt(head, calls, trace, rs, i);
    assert Held(trace[i], Payload(l));
    Survives(head, calls, trace, rs, l, i + 1, j);
    var m, m' := trace[i + 1].memory, trace[j].memory;
    var from, n := Payload(l) + calls[i].offset, |calls[i].data|;
    assert m[from..from + n] == calls[i].data;
  }
}
