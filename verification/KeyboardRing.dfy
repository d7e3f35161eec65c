/** The ring between the keyboard interrupt and the poll, as interleaved steps. */
module KeyboardRing {
  import opened Bits
  import opened Keyboard

  const RING_SIZE := 256

  /** Where the poll is: outside, at the head of its loop, or between reading a byte and moving the tail on. */
  datatype Local = Idle | Polling(head: nat) | Fetched(head: nat, event: Byte)

  datatype Machine = Machine(ring: seq<Byte>, head: nat, tail: nat, local: Local, decoder: Decoder, actions: seq<Action>) {
    predicate Valid() { |ring| == RING_SIZE && head < RING_SIZE && tail < RING_SIZE }
  }

  /** An interrupt with the byte of the keyboard's port, or the next step of the poll. */
  datatype Event = Interrupt(b: Byte) | Poll

  function Next(i: nat): nat { (i + 1) % RING_SIZE }

  /** `n` slots further on. */
  function Moved(i: nat, n: nat): nat
  {
    if n == 0 then i else Next(Moved(i, n - 1))
  }

  function Step(keys: Keymap, m: Machine, e: Event): (r: Machine)
    requires m.Valid()
    ensures r.Valid()
  {
    match e
    case Interrupt(b) => m.(ring := m.ring[m.head := b], head := Next(m.head))
    case Poll =>
      match m.local
      case Idle => m.(local := Polling(m.head))
      case Polling(head) => if head == m.tail then m.(local := Idle) else m.(local := Fetched(head, m.ring[m.tail]))
      case Fetched(head, event) =>
        m.(tail := Next(m.tail), local := Polling(head), decoder := After(m.decoder, event),
           actions := m.actions + Actions(keys, m.decoder, event))
  }

  function Steps(keys: Keymap, m: Machine, es: seq<Event>): (r: Machine)
    requires m.Valid()
    ensures r.Valid()
  {
    if es == [] then m else Step(keys, Steps(keys, m, es[..|es| - 1]), es[|es| - 1])
  }

  function Start(ring: seq<Byte>): Machine
  {
    Machine(ring, 0, 0, Idle, IDLE, [])
  }

  // ----- What was sent and what was read

  /** The bytes sent in a run. */
  function SentIn(es: seq<Event>): seq<Byte>
  {
    if es == [] then []
    else
      match es[|es| - 1]
      case Interrupt(b) => SentIn(es[..|es| - 1]) + [b]
      case Poll => SentIn(es[..|es| - 1])
  }

  /** How many bytes the poll has read in a run. */
  function TakenIn(keys: Keymap, m: Machine, es: seq<Event>): nat
    requires m.Valid()
  {
    if es == [] then 0
    else
      TakenIn(keys, m, es[..|es| - 1])
      + if es[|es| - 1].Poll? && Steps(keys, m, es[..|es| - 1]).local.Fetched? then 1 else 0
  }

  /** At no time are more than 255 bytes unread. */
  predicate Roomy(keys: Keymap, m: Machine, es: seq<Event>)
    requires m.Valid()
  {
    es == [] || (Roomy(keys, m, es[..|es| - 1]) && |SentIn(es)| <= TakenIn(keys, m, es) + 255)
  }

  /** The ring holds the unread bytes. */
  ghost predicate Holds(ring: seq<Byte>, sent: seq<Byte>, taken: nat)
    requires |ring| == RING_SIZE
  {
    forall k: nat :: taken <= k < |sent| ==> ring[k % RING_SIZE] == sent[k]
  }

  /** How the machine's state comes from the bytes sent and the number read. */
  ghost predicate Inv(keys: Keymap, m: Machine, sent: seq<Byte>, taken: nat, goal: nat)
  {
    && m.Valid() && taken <= goal <= |sent| <= taken + 255
    && m.head == |sent| % RING_SIZE && m.tail == taken % RING_SIZE
    && Holds(m.ring, sent, taken)
    && m.decoder == AfterAll(IDLE, sent[..taken]) && m.actions == AllActions(keys, IDLE, sent[..taken])
    && match m.local
       case Idle => true
       case Polling(head) => head == goal % RING_SIZE
       case Fetched(head, event) => head == goal % RING_SIZE && taken < goal && event == sent[taken]
  }

  /** Numbers less than 256 apart share a slot only if they are the same. */
  lemma SameSlot(a: nat, b: nat)
    requires a <= b < a + RING_SIZE && a % RING_SIZE == b % RING_SIZE
    ensures a == b
  {
  }

  lemma NextSlot(a: nat)
    ensures Next(a % RING_SIZE) == (a + 1) % RING_SIZE
  {
  }

  lemma InterruptKeepsInv(keys: Keymap, m: Machine, sent: seq<Byte>, taken: nat, goal: nat, b: Byte)
    requires Inv(keys, m, sent, taken, goal) && |sent| < taken + 255
    ensures Inv(keys, Step(keys, m, Interrupt(b)), sent + [b], taken, goal)
  {
    NextSlot(|sent|);
    assert (sent + [b])[..taken] == sent[..taken];
    forall k: nat | taken <= k < |sent| + 1
      ensures m.ring[m.head := b][k % RING_SIZE] == (sent + [b])[k]
    {
      if k < |sent| && k % RING_SIZE == m.head {
        SameSlot(k, |sent|);
      }
    }
  }

  lemma PollKeepsInv(keys: Keymap, m: Machine, sent: seq<Byte>, taken: nat, goal: nat)
    requires Inv(keys, m, sent, taken, goal)
    ensures match m.local
      case Idle => Inv(keys, Step(keys, m, Poll), sent, taken, |sent|)
      case Polling(_) => Inv(keys, Step(keys, m, Poll), sent, taken, goal) && (Step(keys, m, Poll).local.Idle? ==> taken == goal)
      case Fetched(_, _) => Inv(keys, Step(keys, m, Poll), sent, taken + 1, goal)
  {
    match m.local {
      case Idle =>
      case Polling(head) =>
        if head == m.tail {
          SameSlot(taken, goal);
        }
      case Fetched(head, event) =>
        NextSlot(taken);
        Feed(keys, IDLE, sent[..taken], event);
        assert sent[..taken] + [event] == sent[..taken + 1];
    }
  }

  /**
   In every run, however interrupts and polls interleave, as long as no more
   than 255 bytes are unread the engine has been made to do just what the bytes
   read so far mean, in order.
   */
  lemma {:induction false} EveryRun(keys: Keymap, ring: seq<Byte>, es: seq<Event>) returns (goal: nat)
    requires |ring| == 256 && Roomy(keys, Start(ring), es)
    ensures Inv(keys, Steps(keys, Start(ring), es), SentIn(es), TakenIn(keys, Start(ring), es), goal)
  {
    if es == [] {
      goal := 0;
    } else {
      var before := es[..|es| - 1];
      goal := EveryRun(keys, ring, before);
      var m, sent, taken := Steps(keys, Start(ring), before), SentIn(before), TakenIn(keys, Start(ring), before);
      match es[|es| - 1] {
        case Interrupt(b) => InterruptKeepsInv(keys, m, sent, taken, goal, b);
        case Poll =>
          PollKeepsInv(keys, m, sent, taken, goal);
          goal := if m.local.Idle? then |sent| else goal;
      }
    }
  }

  lemma Delivered(keys: Keymap, ring: seq<Byte>, es: seq<Event>)
    requires |ring| == 256 && Roomy(keys, Start(ring), es)
    ensures var taken := TakenIn(keys, Start(ring), es);
      && taken <= |SentIn(es)|
      && Steps(keys, Start(ring), es).actions == AllActions(keys, IDLE, SentIn(es)[..taken])
  {
    var goal := EveryRun(keys, ring, es);
  }

  /** If the bytes sent are the codes of some keys and all are read, the engine has done what the keys mean. */
  lemma KeysDelivered(keys: Keymap, ring: seq<Byte>, es: seq<Event>, codes: seq<Code>)
    requires |ring| == 256 && Roomy(keys, Start(ring), es)
    requires forall c :: c in codes ==> c.WellFormed()
    requires SentIn(es) == Sent(codes) && TakenIn(keys, Start(ring), es) == |SentIn(es)|
    ensures Steps(keys, Start(ring), es).actions == Meant(keys, codes) && Steps(keys, Start(ring), es).decoder == IDLE
  {
    var goal := EveryRun(keys, ring, es);
    assert SentIn(es)[..|SentIn(es)|] == SentIn(es);
    AllCodes(keys, codes);
  }

  // ----- When the ring overflows

  function From(sent: seq<Byte>): nat { if |sent| < RING_SIZE then 0 else |sent| - RING_SIZE }

  /** What holds in every run: the ring has the latest 256 bytes, and a poll stops where its snapshot says. */
  ghost predicate Latest(m: Machine, sent: seq<Byte>, taken: nat, goal: nat)
  {
    && m.Valid() && taken <= goal <= |sent|
    && m.head == |sent| % RING_SIZE && m.tail == taken % RING_SIZE
    && Holds(m.ring, sent, From(sent))
    && match m.local
       case Idle => true
       case Polling(head) => head == goal % RING_SIZE
       case Fetched(head, _) => head == goal % RING_SIZE && taken < goal
  }

  lemma InterruptKeepsLatest(keys: Keymap, m: Machine, sent: seq<Byte>, taken: nat, goal: nat, b: Byte)
    requires Latest(m, sent, taken, goal)
    ensures Latest(Step(keys, m, Interrupt(b)), sent + [b], taken, goal)
  {
    NextSlot(|sent|);
    forall k: nat | From(sent + [b]) <= k < |sent| + 1
      ensures m.ring[m.head := b][k % RING_SIZE] == (sent + [b])[k]
    {
      if k < |sent| && k % RING_SIZE == m.head {
        SameSlot(k, |sent|);
      }
    }
  }

  lemma {:induction false} EveryRunLatest(keys: Keymap, ring: seq<Byte>, es: seq<Event>) returns (goal: nat)
    requires |ring| == RING_SIZE
    ensures Latest(Steps(keys, Start(ring), es), SentIn(es), TakenIn(keys, Start(ring), es), goal)
  {
    if es == [] {
      goal := 0;
    } else {
      var before := es[..|es| - 1];
      goal := EveryRunLatest(keys, ring, before);
      var m, sent, taken := Steps(keys, Start(ring), before), SentIn(before), TakenIn(keys, Start(ring), before);
      match es[|es| - 1] {
        case Interrupt(b) => InterruptKeepsLatest(keys, m, sent, taken, goal, b);
        case Poll =>
          PollKeepsLatest(keys, m, sent, taken, goal);
          goal := if m.local.Idle? then |sent| else goal;
      }
    }
  }

  lemma PollKeepsLatest(keys: Keymap, m: Machine, sent: seq<Byte>, taken: nat, goal: nat)
    requires Latest(m, sent, taken, goal)
    ensures Latest(Step(keys, m, Poll), sent, if m.local.Fetched? then taken + 1 else taken,
                   if m.local.Idle? then |sent| else goal)
  {
    NextSlot(taken);
  }

  /** `n` steps of a poll that nothing interrupts. */
  function PollSteps(keys: Keymap, m: Machine, n: nat): (r: Machine)
    requires m.Valid()
    ensures r.Valid()
    decreases n
  {
    if n == 0 then m else PollSteps(keys, Step(keys, m, Poll), n - 1)
  }

  /** One byte is read in two steps. */
  lemma ReadByte(keys: Keymap, m: Machine, n: nat)
    requires m.Valid() && m.local.Polling? && m.local.head != m.tail
    ensures PollSteps(keys, m, n + 2)
         == PollSteps(keys, m.(tail := Next(m.tail), decoder := After(m.decoder, m.ring[m.tail]),
                         actions := m.actions + Actions(keys, m.decoder, m.ring[m.tail])), n)
  {
    var fetched := Step(keys, m, Poll);
    assert PollSteps(keys, m, n + 2) == PollSteps(keys, fetched, n + 1) == PollSteps(keys, Step(keys, fetched, Poll), n);
  }

  /** The poll is at the head of its loop with `r` bytes to go. */
  ghost predicate ToRead(m: Machine, sent: seq<Byte>, r: nat)
  {
    && m.Valid() && m.local == Polling(m.head) && r < RING_SIZE && r <= |sent|
    && m.head == |sent| % RING_SIZE && m.tail == (|sent| - r) % RING_SIZE && Holds(m.ring, sent, |sent| - r)
  }

  /** One byte taken from the ring. */
  function Taken(keys: Keymap, m: Machine, b: Byte): Machine
  {
    m.(tail := Next(m.tail), decoder := After(m.decoder, b), actions := m.actions + Actions(keys, m.decoder, b))
  }

  function AllTaken(keys: Keymap, m: Machine, bytes: seq<Byte>): Machine
    decreases bytes
  {
    if bytes == [] then m.(local := Idle) else AllTaken(keys, Taken(keys, m, bytes[0]), bytes[1..])
  }

  lemma {:induction false} ActionsOfAll(keys: Keymap, m: Machine, bytes: seq<Byte>)
    ensures AllTaken(keys, m, bytes).local.Idle?
    ensures AllTaken(keys, m, bytes).actions == m.actions + AllActions(keys, m.decoder, bytes)
    decreases bytes
  {
    if bytes != [] {
      var b, others := bytes[0], bytes[1..];
      assert bytes == [b] + others;
      ActionsOfAll(keys, Taken(keys, m, b), others);
      FirstByte(keys, m.decoder, b, others);
      Joined(m.actions, Actions(keys, m.decoder, b), AllActions(keys, After(m.decoder, b), others));
    }
  }

  lemma ReadNext(keys: Keymap, m: Machine, sent: seq<Byte>, r: nat, n: nat)
    requires r > 0 && ToRead(m, sent, r)
    ensures ToRead(Taken(keys, m, sent[|sent| - r]), sent, r - 1)
    ensures PollSteps(keys, m, n + 2) == PollSteps(keys, Taken(keys, m, sent[|sent| - r]), n)
  {
    var k := |sent| - r;
    if m.head == m.tail {
      SameSlot(k, |sent|);
    }
    NextSlot(k);
    ReadByte(keys, m, n);
    assert m.ring[m.tail] == sent[k];
  }

  /** The rest of a poll that nothing interrupts. */
  lemma {:induction false} RestOfPoll(keys: Keymap, m: Machine, sent: seq<Byte>, rest: seq<Byte>, n: nat)
    requires ToRead(m, sent, |rest|) && rest == sent[|sent| - |rest|..] && n == 2 * |rest|
    ensures PollSteps(keys, m, n + 1) == AllTaken(keys, m, rest)
    decreases rest
  {
    if rest == [] {
      LastStep(keys, m);
    } else {
      ReadNext(keys, m, sent, |rest|, n - 1);
      RestOfPoll(keys, Taken(keys, m, rest[0]), sent, rest[1..], n - 2);
    }
  }

  lemma LastStep(keys: Keymap, m: Machine)
    requires m.Valid() && m.local == Polling(m.tail)
    ensures PollSteps(keys, m, 1) == m.(local := Idle)
  {
    assert PollSteps(keys, m, 1) == PollSteps(keys, Step(keys, m, Poll), 0);
  }

  /** How many bytes a poll sees, and which one is the first. */
  lemma Residue(sent: nat, taken: nat, r: nat)
    requires taken <= sent && r == (sent - taken) % RING_SIZE
    ensures r <= sent - taken && (sent - r) % RING_SIZE == taken % RING_SIZE
    ensures r == sent - taken <==> sent - taken <= 255
  {
    var laps := (sent - taken) / RING_SIZE;
    assert sent - r == taken + RING_SIZE * laps;
  }

  /** A whole poll that nothing interrupts. */
  lemma WholePoll(keys: Keymap, m: Machine, sent: seq<Byte>, r: nat)
    requires m.Valid() && m.local.Idle? && ToRead(m.(local := Polling(m.head)), sent, r)
    ensures PollSteps(keys, m, 2 * r + 2).actions == m.actions + AllActions(keys, m.decoder, sent[|sent| - r..])
  {
    var polling := m.(local := Polling(m.head));
    assert PollSteps(keys, m, 2 * r + 2) == PollSteps(keys, polling, 2 * r + 1);
    RestOfPoll(keys, polling, sent, sent[|sent| - r..], 2 * r);
    ActionsOfAll(keys, polling, sent[|sent| - r..]);
  }

  /**
   What a poll does that nothing interrupts: it reads the latest bytes, as many
   as are unread modulo 256; all of them exactly if they are at most 255.
   */
  ghost predicate PollOutcome(keys: Keymap, m: Machine, sent: seq<Byte>, taken: nat, r: nat)
  {
    && m.Valid() && r <= |sent| - taken && r == (|sent| - taken) % RING_SIZE
    && PollSteps(keys, m, 2 * r + 2).actions == m.actions + AllActions(keys, m.decoder, sent[|sent| - r..])
    && (r == |sent| - taken <==> |sent| - taken <= 255)
  }

  lemma PollBegins(m: Machine, sent: seq<Byte>, taken: nat, goal: nat, r: nat)
    requires Latest(m, sent, taken, goal) && m.local.Idle? && r == (|sent| - taken) % RING_SIZE
    ensures r <= |sent| - taken && ToRead(m.(local := Polling(m.head)), sent, r)
    ensures r == |sent| - taken <==> |sent| - taken <= 255
  {
    Residue(|sent|, taken, r);
  }

  lemma LatestPoll(keys: Keymap, m: Machine, sent: seq<Byte>, taken: nat, goal: nat, r: nat)
    requires Latest(m, sent, taken, goal) && m.local.Idle? && r == (|sent| - taken) % RING_SIZE
    ensures PollOutcome(keys, m, sent, taken, r)
  {
    PollBegins(m, sent, taken, goal, r);
    WholePoll(keys, m, sent, r);
  }

  /** So it is after every run. With 256 unread bytes, the poll reads none. */
  lemma PollReads(keys: Keymap, ring: seq<Byte>, es: seq<Event>) returns (r: nat)
    requires |ring| == 256 && Steps(keys, Start(ring), es).local.Idle?
    ensures PollOutcome(keys, Steps(keys, Start(ring), es), SentIn(es), TakenIn(keys, Start(ring), es), r)
  {
    var goal := EveryRunLatest(keys, ring, es);
    r := (|SentIn(es)| - TakenIn(keys, Start(ring), es)) % RING_SIZE;
    LatestPoll(keys, Steps(keys, Start(ring), es), SentIn(es), TakenIn(keys, Start(ring), es), goal, r);
  }

  /** The poll is under way and stops after `goal` bytes. */
  ghost predicate StopsAt(m: Machine, taken: nat, goal: nat)
  {
    && m.Valid() && m.tail == taken % RING_SIZE && taken <= goal < taken + RING_SIZE
    && match m.local
       case Idle => false
       case Polling(head) => head == goal % RING_SIZE
       case Fetched(head, _) => head == goal % RING_SIZE && taken < goal
  }

  /** The events all belong to one poll: it is not over before the last of them. */
  predicate Busy(keys: Keymap, m: Machine, es: seq<Event>)
    requires m.Valid()
  {
    es == [] || (Busy(keys, m, es[..|es| - 1]) && !Steps(keys, m, es[..|es| - 1]).local.Idle?)
  }

  lemma StopStays(keys: Keymap, m: Machine, e: Event, taken: nat, goal: nat)
    requires StopsAt(m, taken, goal)
    ensures var taken' := if e.Poll? && m.local.Fetched? then taken + 1 else taken;
      if Step(keys, m, e).local.Idle? then taken' == goal else StopsAt(Step(keys, m, e), taken', goal)
  {
    NextSlot(taken);
    if m.tail == goal % RING_SIZE {
      SameSlot(taken, goal);
    }
  }

  lemma {:induction false} StopIsReached(keys: Keymap, m: Machine, es: seq<Event>, taken: nat, goal: nat)
    requires StopsAt(m, taken, goal) && Busy(keys, m, es)
    ensures var taken' := taken + TakenIn(keys, m, es);
      if Steps(keys, m, es).local.Idle? then taken' == goal else StopsAt(Steps(keys, m, es), taken', goal)
  {
    if es != [] {
      var before := es[..|es| - 1];
      StopIsReached(keys, m, before, taken, goal);
      StopStays(keys, Steps(keys, m, before), es[|es| - 1], taken + TakenIn(keys, m, before), goal);
    }
  }

  /**
   After any run, and whatever interrupts fall into it, a poll takes as many
   bytes as were unread, modulo 256, when it looked.
   */
  lemma PollTakes(keys: Keymap, ring: seq<Byte>, es: seq<Event>, during: seq<Event>)
    requires |ring| == 256 && Steps(keys, Start(ring), es).local.Idle?
    requires var m := Step(keys, Steps(keys, Start(ring), es), Poll);
             Busy(keys, m, during) && Steps(keys, m, during).local.Idle?
    ensures TakenIn(keys, Start(ring), es) <= |SentIn(es)|
    ensures TakenIn(keys, Step(keys, Steps(keys, Start(ring), es), Poll), during)
         == (|SentIn(es)| - TakenIn(keys, Start(ring), es)) % 256
  {
    var _ := EveryRunLatest(keys, ring, es);
    var taken := TakenIn(keys, Start(ring), es);
    var r := (|SentIn(es)| - taken) % RING_SIZE;
    Residue(|SentIn(es)|, taken, r);
    SameResidue(|SentIn(es)|, taken, r);
    StopIsReached(keys, Step(keys, Steps(keys, Start(ring), es), Poll), during, taken, taken + r);
  }

  lemma SameResidue(sent: nat, taken: nat, r: nat)
    requires taken <= sent && r == (sent - taken) % RING_SIZE
    ensures (taken + r) % RING_SIZE == sent % RING_SIZE
  {
    var laps := (sent - taken) / RING_SIZE;
    assert sent == taken + r + RING_SIZE * laps;
  }

  // ----- The driver

  lemma {:induction false} StepsConcat(keys: Keymap, m: Machine, a: seq<Event>, b: seq<Event>)
    requires m.Valid()
    ensures Steps(keys, m, a + b) == Steps(keys, Steps(keys, m, a), b)
  {
    if b == [] {
      assert a + b == a;
    } else {
      var last := |b| - 1;
      StepsConcat(keys, m, a, b[..last]);
      assert (a + b)[..|a + b| - 1] == a + b[..last];
      assert (a + b)[|a + b| - 1] == b[last];
    }
  }

  lemma OneMore(keys: Keymap, m: Machine, es: seq<Event>, e: Event)
    requires m.Valid()
    ensures Steps(keys, m, es + [e]) == Step(keys, Steps(keys, m, es), e)
    ensures SentIn(es + [e]) == if e.Interrupt? then SentIn(es) + [e.b] else SentIn(es)
  {
    assert (es + [e])[..|es|] == es;
  }

  lemma OneMoreSent(keys: Keymap, m: Machine, es: seq<Event>, sent: seq<Byte>, bytes: seq<Byte>, i: nat)
    requires m.Valid() && i < |bytes| && SentIn(es) == sent + bytes[..i]
    ensures Steps(keys, m, es + [Interrupt(bytes[i])]) == Step(keys, Steps(keys, m, es), Interrupt(bytes[i]))
    ensures SentIn(es + [Interrupt(bytes[i])]) == sent + bytes[..i + 1]
  {
    OneMore(keys, m, es, Interrupt(bytes[i]));
    assert bytes[..i + 1] == bytes[..i] + [bytes[i]];
  }

  class Driver {
    const keys: Keymap
    const ring: array<Byte>
    var head: nat
    var tail: nat
    var isExtended: bool
    var pauseRemaining: nat
    /** What has been handed to the engine. */
    var actions: seq<Action>

    ghost predicate Valid()
      reads this
    {
      ring.Length == RING_SIZE && head < RING_SIZE && tail < RING_SIZE
    }

    ghost function State(local: Local): Machine
      reads this, ring
    {
      Machine(ring[..], head, tail, local, Decoder(isExtended, pauseRemaining), actions)
    }

    constructor (keys: Keymap)
      ensures Valid() && fresh(ring) && this.keys == keys && State(Idle) == Start(ring[..])
    {
      this.keys := keys;
      ring := new Byte[RING_SIZE](_ => 0);
      head, tail, isExtended, pauseRemaining, actions := 0, 0, false, 0, [];
    }

    /** The interrupt handler; the poll may be anywhere. */
    method KeyboardIRQHandler(b: Byte, ghost local: Local)
      requires Valid()
      modifies this`head, ring
      ensures Valid() && State(local) == Step(keys, old(State(local)), Interrupt(b))
    {
      ring[head] := b;
      head := Next(head);
    }

    /** The interrupts that arrive at one point of the poll. */
    method Arrive(bytes: seq<Byte>, ghost start: Machine, ghost before: seq<Event>, ghost local: Local)
      returns (ghost trace: seq<Event>)
      requires Valid() && start.Valid() && State(local) == Steps(keys, start, before)
      modifies this`head, ring
      ensures Valid() && State(local) == Steps(keys, start, trace) && SentIn(trace) == SentIn(before) + bytes
      ensures head == Moved(old(head), |bytes|)
    {
      trace := before;
      ghost var sent := SentIn(before);
      for i := 0 to |bytes|
        invariant Valid() && State(local) == Steps(keys, start, trace) && SentIn(trace) == sent + bytes[..i]
        invariant head == Moved(old(head), i)
      {
        KeyboardIRQHandler(bytes[i], local);
        OneMoreSent(keys, start, trace, sent, bytes, i);
        trace := trace + [Interrupt(bytes[i])];
      }
      assert bytes[..|bytes|] == bytes;
    }

    /** The body of the loop after the byte was read: moves the tail on and decodes. */
    method Decode(event: Byte, ghost head0: nat)
      requires Valid()
      modifies this
      ensures Valid() && State(Polling(head0)) == Step(keys, old(State(Fetched(head0, event))), Poll)
    {
      tail := Next(tail);
      if pauseRemaining > 0 {
        pauseRemaining := pauseRemaining - 1;
        return;
      }
      if event == PREFIX_PAUSE {
        pauseRemaining := 5;
        return;
      }
      if event == PREFIX_EXTENDED {
        isExtended := true;
        return;
      }
      var scancode := event % 0x80;
      var pressed := event < 0x80;
      var mapping := keys(isExtended, scancode);
      var extended := isExtended;
      isExtended := false;
      if mapping.Some? && pressed {
        if !extended && mapping.value == KEY_ESCAPE {
          actions := actions + [Quit];
        }
        actions := actions + [KeyDown(extended, mapping.value)];
      }
    }

    /** One turn of the loop, with the interrupts before and after it reads a byte from the ring. */
    method Turn(currentHead: nat, first: seq<Byte>, second: seq<Byte>, ghost start: Machine, ghost before: seq<Event>)
      returns (ghost trace: seq<Event>)
      requires Valid() && start.Valid() && currentHead != tail
      requires State(Polling(currentHead)) == Steps(keys, start, before)
      modifies this, ring
      ensures Valid() && tail == Next(old(tail)) && State(Polling(currentHead)) == Steps(keys, start, trace)
      ensures SentIn(trace) == SentIn(before) + first + second
    {
      trace := Arrive(first, start, before, Polling(currentHead));
      var event := ring[tail];
      OneMore(keys, start, trace, Poll);
      trace := trace + [Poll];
      assert State(Fetched(currentHead, event)) == Steps(keys, start, trace);
      trace := Arrive(second, start, trace, Fetched(currentHead, event));
      Decode(event, currentHead);
      OneMore(keys, start, trace, Poll);
      trace := trace + [Poll];
    }

    /**
     The poll. `arrivals` says which bytes interrupt it: the first portion
     before it looks at the head, then two portions in every turn of its loop.
     It reads all that was in the ring when it looked.
     */
    method SendKeyboardEvent(arrivals: nat -> seq<Byte>) returns (ghost trace: seq<Event>)
      requires Valid()
      modifies this, ring
      ensures Valid() && State(Idle) == Steps(keys, old(State(Idle)), trace)
      ensures tail == Moved(old(head), |arrivals(0)|)
    {
      ghost var start := State(Idle);
      trace := Arrive(arrivals(0), start, [], Idle);
      var currentHead := head;
      OneMore(keys, start, trace, Poll);
      trace := trace + [Poll];
      var turn := 0;
      while currentHead != tail
        invariant Valid() && State(Polling(currentHead)) == Steps(keys, start, trace)
        invariant currentHead == Moved(old(head), |arrivals(0)|) && currentHead < RING_SIZE
        decreases ToGo(currentHead, tail)
      {
        Closer(currentHead, tail);
        trace := Turn(currentHead, arrivals(2 * turn + 1), arrivals(2 * turn + 2), start, trace);
        turn := turn + 1;
      }
      OneMore(keys, start, trace, Poll);
      trace := trace + [Poll];
    }
  }

  function ToGo(head: nat, tail: nat): nat { (head - tail) % RING_SIZE }

  lemma Closer(head: nat, tail: nat)
    requires head < RING_SIZE && tail < RING_SIZE && head != tail
    ensures ToGo(head, Next(tail)) < ToGo(head, tail)
  {
  }
}
