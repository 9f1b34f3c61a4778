/** The keyboard ring: interrupts put keys in while the main loop takes them out, one step at a time. */
module Keyboard {

  const KBD_BUF_SIZE: nat := 256

  // Where kbd_getchar is: testing for a key, about to read the slot, or about to advance past key c.
  datatype Phase = Testing | Reading | Advancing(c: int)

  // One step of the machine: an interrupt delivers a key, or the consumer takes its next step.
  datatype Event = Interrupt(key: int) | ConsumerStep

  // Slot i places after start.
  function Slot(start: nat, i: nat): (r: nat)
    requires start < KBD_BUF_SIZE && i < KBD_BUF_SIZE
    ensures r < KBD_BUF_SIZE
  {
    if start + i < KBD_BUF_SIZE then start + i else start + i - KBD_BUF_SIZE
  }

  // ---------- the queue the ring stands for ----------

  // The keys taken in and the keys handed out since the start, and where the reader is.
  datatype Queue = Queue(accepted: seq<int>, delivered: seq<int>, phase: Phase)

  ghost predicate Sound(q: Queue) {
    && q.delivered <= q.accepted && Waiting(q) < KBD_BUF_SIZE
    && (q.phase != Testing ==> Waiting(q) > 0)
  }

  function Waiting(q: Queue): int {
    |q.accepted| - |q.delivered|
  }

  // A queue for 255 keys: further ones are lost. The reader waits while it is empty, and hands out the
  // oldest key two steps after it has found one.
  function Next(q: Queue, e: Event): (r: Queue)
    requires Sound(q)
    ensures Sound(r) && q.accepted <= r.accepted && q.delivered <= r.delivered
  {
    match e
    case Interrupt(key) => if Waiting(q) < KBD_BUF_SIZE - 1 then q.(accepted := q.accepted + [key]) else q
    case ConsumerStep =>
      match q.phase
      case Testing => if Waiting(q) > 0 then q.(phase := Reading) else q
      case Reading => q.(phase := Advancing(q.accepted[|q.delivered|]))
      case Advancing(_) => q.(delivered := q.accepted[..|q.delivered| + 1], phase := Testing)
  }

  function After(q: Queue, es: seq<Event>): (r: Queue)
    requires Sound(q)
    ensures Sound(r) && q.accepted <= r.accepted && q.delivered <= r.delivered
  {
    if es == [] then q else Next(After(q, es[..|es| - 1]), es[|es| - 1])
  }

  // Three reader steps hand out the oldest key, if there is one, whatever arrives in between.
  lemma ThreeSteps(q: Queue, a: seq<int>, b: seq<int>)
    requires Sound(q) && q.phase == Testing && Waiting(q) > 0
    ensures var r := Next(After(Next(After(Next(q, ConsumerStep), Interrupts(a)), ConsumerStep), Interrupts(b)), ConsumerStep);
      r.phase == Testing && r.delivered == q.delivered + [q.accepted[|q.delivered|]]
  {
    var q1 := Next(q, ConsumerStep);
    var q2 := After(q1, Interrupts(a));
    OnlyArrivals(q1, a);
    var q3 := Next(q2, ConsumerStep);
    OnlyArrivals(q3, b);
    var q4 := After(q3, Interrupts(b));
    assert q4.accepted[..|q.delivered|] == q.delivered;
  }

  function Interrupts(keys: seq<int>): seq<Event> {
    seq(|keys|, i requires 0 <= i < |keys| => Interrupt(keys[i]))
  }

  lemma {:induction false} OnlyArrivals(q: Queue, keys: seq<int>)
    requires Sound(q)
    ensures var r := After(q, Interrupts(keys)); r.delivered == q.delivered && r.phase == q.phase
  {
    if keys != [] {
      var n := |keys| - 1;
      assert Interrupts(keys)[..n] == Interrupts(keys[..n]);
      OnlyArrivals(q, keys[..n]);
    }
  }

  // An arriving key is taken in behind the others exactly while fewer than 255 wait, and changes nothing
  // else.
  lemma KeyArrives(q: Queue, key: int)
    requires Sound(q)
    ensures var r := After(q, [Interrupt(key)]);
      && r.delivered == q.delivered && r.phase == q.phase
      && r.accepted == if |q.accepted| - |q.delivered| < 255 then q.accepted + [key] else q.accepted
  {
    assert [Interrupt(key)][..0] == [];
  }

  // Of a burst of keys as many are taken in as make 255 waiting, in order.
  lemma {:induction false} BurstKept(q: Queue, keys: seq<int>)
    requires Sound(q)
    ensures var room := 255 - (|q.accepted| - |q.delivered|);
      After(q, Interrupts(keys)).accepted == q.accepted + keys[..if |keys| < room then |keys| else room]
  {
    OnlyArrivals(q, keys);
    if keys != [] {
      var n := |keys| - 1;
      assert Interrupts(keys)[..n] == Interrupts(keys[..n]);
      BurstKept(q, keys[..n]);
      OnlyArrivals(q, keys[..n]);
      var room := 255 - (|q.accepted| - |q.delivered|);
      if |keys| <= room {
        assert keys[..n][..n] + [keys[n]] == keys[..|keys|];
      } else {
        assert keys[..n][..room] == keys[..room];
      }
    }
  }

  function Steps(n: nat): seq<Event> {
    seq(n, _ => ConsumerStep)
  }

  // The reader by itself hands out one key in three steps, in order, and waits when there is none.
  lemma {:induction false} Drains(q: Queue, n: nat)
    requires Sound(q) && q.phase == Testing
    ensures var waiting := |q.accepted| - |q.delivered|;
      After(q, Steps(3 * n)) == Queue(q.accepted, q.accepted[..|q.delivered| + if n < waiting then n else waiting], Testing)
  {
    hide After, Next;
    if n > 0 {
      Drains(q, n - 1);
      OneStep(q, 3 * n - 3);
      OneStep(q, 3 * n - 2);
      OneStep(q, 3 * n - 1);
      Threefold(After(q, Steps(3 * n - 3)));
    } else {
      NoStep(q);
      assert q.accepted[..|q.delivered|] == q.delivered;
    }
  }

  lemma NoStep(q: Queue)
    requires Sound(q)
    ensures After(q, Steps(0)) == q
  {
  }

  lemma OneStep(q: Queue, n: nat)
    requires Sound(q)
    ensures After(q, Steps(n + 1)) == Next(After(q, Steps(n)), ConsumerStep)
  {
    assert Steps(n + 1)[..n] == Steps(n);
  }

  lemma Threefold(q: Queue)
    requires Sound(q) && q.phase == Testing
    ensures var d := |q.delivered|;
      Next(Next(Next(q, ConsumerStep), ConsumerStep), ConsumerStep) ==
      if |q.accepted| > d then Queue(q.accepted, q.accepted[..d + 1], Testing) else q
  {
  }

  // ---------- the ring ----------

  class Ring {
    const buffer: array<int>
    var head: nat
    var tail: nat
    var phase: Phase
    ghost var accepted: seq<int>
    ghost var delivered: seq<int>

    // The keys accepted and not yet delivered, oldest first.
    ghost function Pending(): seq<int>
      requires |delivered| <= |accepted|
      reads this
    {
      accepted[|delivered|..]
    }

    ghost function State(): Queue
      reads this
    {
      Queue(accepted, delivered, phase)
    }

    ghost predicate Valid()
      reads this, buffer
      ensures Valid() ==> Sound(State())
    {
      && buffer.Length == KBD_BUF_SIZE && head < KBD_BUF_SIZE && tail < KBD_BUF_SIZE
      && |delivered| <= |accepted| && delivered == accepted[..|delivered|]
      && |Pending()| < KBD_BUF_SIZE && head == Slot(tail, |Pending()|)
      && (forall i :: 0 <= i < |Pending()| ==> buffer[Slot(tail, i)] == Pending()[i])
      && (phase != Testing ==> Pending() != [])
      && (phase.Advancing? ==> phase.c == Pending()[0])
    }

    constructor ()
      ensures Valid() && accepted == [] && delivered == [] && phase == Testing && fresh(buffer)
    {
      buffer := new int[KBD_BUF_SIZE](_ => 0);
      head, tail, phase := 0, 0, Testing;
      accepted, delivered := [], [];
    }

    // kbd_enqueue_key, and the three places in kbd_handler that do the same. A key is dropped exactly
    // when 255 are pending, and the slot the consumer is reading is never overwritten.
    method Enqueue(key: int)
      requires Valid()
      modifies this`head, this`accepted, buffer
      ensures Valid() && State() == Next(old(State()), Interrupt(key))
      ensures old(Pending()) != [] ==> buffer[tail] == old(buffer[tail])
    {
      var next := (head + 1) % KBD_BUF_SIZE;
      if next != tail {
        ghost var was := Pending();
        buffer[head] := key;
        head := next;
        accepted := accepted + [key];
        assert Pending() == was + [key];
      }
    }

    // One step of kbd_getchar.
    method Consume()
      requires Valid()
      modifies this`tail, this`phase, this`delivered
      ensures Valid() && State() == Next(old(State()), ConsumerStep)
    {
      match phase {
        case Testing =>
          if head != tail {
            phase := Reading;
          }
        case Reading =>
          phase := Advancing(buffer[tail]);
        case Advancing(c) =>
          ghost var was := Pending();
          ghost var t := tail;
          tail := (tail + 1) % KBD_BUF_SIZE;
          assert tail == Slot(t, 1);
          delivered := delivered + [c];
          phase := Testing;
          assert Pending() == was[1..];
          assert forall i :: 0 <= i < |was| - 1 ==> Slot(tail, i) == Slot(t, i + 1);
      }
    }

    // However interrupts and consumer steps interleave, the ring takes in, holds and hands out what the
    // queue does; so the keys delivered are a prefix of the keys accepted, and at most 255 wait.
    method Run(events: seq<Event>)
      requires Valid()
      modifies this, buffer
      ensures Valid() && State() == After(old(State()), events)
      ensures delivered <= accepted && |accepted| - |delivered| < KBD_BUF_SIZE
    {
      for i := 0 to |events|
        invariant Valid() && State() == After(old(State()), events[..i])
      {
        match events[i] {
          case Interrupt(key) => Enqueue(key);
          case ConsumerStep => Consume();
        }
        assert events[..i + 1][..i] == events[..i];
      }
      assert events[..|events|] == events;
    }
  }
}
