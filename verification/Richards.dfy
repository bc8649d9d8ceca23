/** The scheduler benchmark (richards.js): tasks of different priorities that pass packets to
    each other through linked work lists. */
module Richards {

  const ID_IDLE := 0
  const ID_WORKER := 1
  const ID_HANDLER_A := 2
  const ID_HANDLER_B := 3
  const ID_DEVICE_A := 4
  const ID_DEVICE_B := 5
  const NUMBER_OF_IDS := 6

  const KIND_DEVICE := 0
  const KIND_WORK := 1

  const DATA_SIZE := 4

  // ---------- packets and work lists ----------

  /** Where a packet is: in the work list of a block, in a handler's list of work packets or of
      device packets, kept by a device, or on its way. */
  datatype Place = Hand | Worklist(id: int) | Work(id: int) | Spare(id: int) | Pending(id: int)

  class Packet {
    var link: Packet?
    var id: int
    const kind: int
    var a1: int
    var a2: seq<int>
    ghost var at: Place

    constructor (link: Packet?, id: int, kind: int)
      ensures this.link == link && this.id == id && this.kind == kind && a1 == 0 && |a2| == DATA_SIZE
      ensures at == Hand
    {
      this.link := link;
      this.id := id;
      this.kind := kind;
      a1 := 0;
      a2 := seq(DATA_SIZE, _ => 0);
      at := Hand;
    }

    // add this packet to the end of a work list
    method AddTo(queue: Packet?, ghost s: seq<Packet>) returns (r: Packet)
      requires Chain(queue, s) && this !in s
      modifies this`link, s`link
      ensures Chain(r, s + [this])
      ensures forall p | p in s && p != s[|s| - 1] :: p.link == old(p.link)
    {
      link := null;
      if queue == null {
        return this;
      }
      ghost var k := 0;
      var next: Packet := queue;
      var peek := next.link;
      assert Linked(s, 0);
      while peek != null
        invariant k < |s| && next == s[k] && peek == next.link && Chain(queue, s)
        decreases |s| - k
      {
        assert Linked(s, k);
        next := peek;
        k := k + 1;
        assert Linked(s, k);
        peek := next.link;
      }
      assert Linked(s, k);
      ChainDistinct(queue, s);
      next.link := this;
      r := queue;
      assert forall i | 0 <= i < k :: Linked(s + [this], i) by {
        forall i | 0 <= i < k ensures Linked(s + [this], i) { assert old(Linked(s, i)); }
      }
    }
  }

  ghost predicate Linked(s: seq<Packet>, k: nat)
    requires k < |s|
    reads s`link
  {
    s[k].link == if k + 1 < |s| then s[k + 1] else null
  }

  /** The packets reached from head, in order. */
  ghost predicate Chain(head: Packet?, s: seq<Packet>)
    reads s`link
  {
    head == (if s == [] then null else s[0]) && forall k | 0 <= k < |s| :: Linked(s, k)
  }

  ghost function AsSet(s: seq<Packet>): set<Packet> {
    set p | p in s
  }

  lemma InTail(x: Packet, s: seq<Packet>)
    requires x in s && x != s[0]
    ensures x in s[1..]
  {
    var k :| 0 <= k < |s| && s[k] == x;
    assert s[1..][k - 1] == x;
  }

  /** A list that ends has no packet twice. */
  lemma ChainDistinct(head: Packet?, s: seq<Packet>)
    requires Chain(head, s)
    ensures forall i, j | 0 <= i < j < |s| :: s[i] != s[j]
  {
    forall i, j | 0 <= i < j < |s| ensures s[i] != s[j] { LinksDiffer(head, s, i, j); }
  }

  lemma {:induction false} LinksDiffer(head: Packet?, s: seq<Packet>, i: nat, j: nat)
    requires Chain(head, s) && i < j < |s|
    ensures s[i] != s[j]
    decreases |s| - j
  {
    assert Linked(s, i) && Linked(s, j);
    if j + 1 < |s| { LinksDiffer(head, s, i + 1, j + 1); }
  }

  lemma ChainTail(head: Packet?, s: seq<Packet>)
    requires Chain(head, s) && s != []
    ensures head != null && Chain(head.link, s[1..])
  {
    assert Linked(s, 0);
    forall k | 0 <= k < |s| - 1 ensures Linked(s[1..], k) { assert Linked(s, k + 1); }
  }

  // ---------- tasks ----------

  datatype State = State(runnable: bool, suspended: bool, held: bool)

  const STATE_RUNNING := State(false, false, false)
  const STATE_RUNNABLE := State(true, false, false)
  const STATE_SUSPENDED := State(false, true, false)
  const STATE_SUSPENDED_RUNNABLE := State(true, true, false)

  datatype Task =
    | Idle(idle: IdleTask)
    | Worker(worker: WorkerTask)
    | Handler(handler: HandlerTask)
    | Device(device: DeviceTask)

  function Owner(t: Task): int {
    match t
    case Idle(x) => x.owner
    case Worker(x) => x.owner
    case Handler(x) => x.owner
    case Device(x) => x.owner
  }

  function Chosen(v: bv16): int {
    if v & 1 == 0 then ID_DEVICE_A else ID_DEVICE_B
  }

  /** The shift register that decides which device is released. */
  function Register(v: bv16): bv16 {
    if v & 1 == 0 then v >> 1 else (v >> 1) ^ 0xD008
  }

  /** An even value is twice the next one; an odd one is twice the next one, with the bits of 0xD008
      inverted, plus one. Nothing is carried out of the 16 bits. */
  lemma RegisterSteps(v: bv16)
    ensures Chosen(v) == ID_DEVICE_A ==> Register(v) < 0x8000 && 2 * Register(v) == v
    ensures Chosen(v) == ID_DEVICE_B ==> Register(v) ^ 0xD008 < 0x8000 && 2 * (Register(v) ^ 0xD008) + 1 == v
    ensures v != 0 ==> Register(v) != 0
  {}

  function RegisterAfter(v: bv16, k: nat): bv16 {
    if k == 0 then v else Register(RegisterAfter(v, k - 1))
  }

  lemma {:induction false} NeverZero(v: bv16, k: nat)
    requires v != 0
    ensures RegisterAfter(v, k) != 0
    decreases k
  {
    if k > 0 {
      NeverZero(v, k - 1);
      RegisterSteps(RegisterAfter(v, k - 1));
    }
  }

  function Half(x: bv16): bv16 {
    x >> 1
  }

  function Sixteenth(x: bv16): bv16 {
    x >> 4
  }

  function Halved(v: bv16, k: nat): bv16 {
    if k == 0 then v else Half(Halved(v, k - 1))
  }

  lemma FourHalves(x: bv16)
    ensures Half(Half(Half(Half(x)))) == Sixteenth(x)
  {}

  lemma FourSixteenths(x: bv16)
    ensures Sixteenth(Sixteenth(Sixteenth(Sixteenth(x)))) == 0
  {}

  lemma HalvedFour(v: bv16, k: nat)
    ensures Halved(v, k + 4) == Sixteenth(Halved(v, k))
  {
    hide Half;
    hide Sixteenth;
    FourHalves(Halved(v, k));
    assert Halved(v, k + 2) == Half(Halved(v, k + 1)) == Half(Half(Halved(v, k)));
    assert Halved(v, k + 4) == Half(Halved(v, k + 3)) == Half(Half(Halved(v, k + 2)));
  }

  lemma HalvedOut(v: bv16)
    ensures Halved(v, 16) == 0
  {
    hide Half;
    hide Sixteenth;
    HalvedFour(v, 0);
    HalvedFour(v, 4);
    HalvedFour(v, 8);
    HalvedFour(v, 12);
    FourSixteenths(v);
  }

  /** The only value that the register keeps while it chooses device B. */
  function FromFixed(v: bv16): bv16 {
    v ^ 0x9FF0
  }

  lemma EvenShifts(r: bv16)
    ensures Chosen(r) == ID_DEVICE_A ==> Register(r) == Half(r)
  {}

  lemma OddShifts(r: bv16)
    ensures Chosen(r) == ID_DEVICE_B ==> FromFixed(Register(r)) == Half(FromFixed(r))
  {
    if Chosen(r) == ID_DEVICE_B { HalfOfXor(r); }
  }

  lemma HalfOfXor(r: bv16)
    ensures (r >> 1) ^ 0xD008 ^ 0x9FF0 == (r ^ 0x9FF0) >> 1
  {}

  /** As long as only one device is chosen, what distinguishes the register from 0 or from 0x9FF0 moves out. */
  lemma {:induction false} OneDevice(v: bv16, k: nat)
    ensures (forall i | 0 <= i < k :: Chosen(RegisterAfter(v, i)) == ID_DEVICE_A) ==> RegisterAfter(v, k) == Halved(v, k)
    ensures (forall i | 0 <= i < k :: Chosen(RegisterAfter(v, i)) == ID_DEVICE_B) ==>
      FromFixed(RegisterAfter(v, k)) == Halved(FromFixed(v), k)
    decreases k
  {
    hide Register;
    hide Chosen;
    hide Half;
    hide FromFixed;
    if k > 0 {
      OneDevice(v, k - 1);
      EvenShifts(RegisterAfter(v, k - 1));
      OddShifts(RegisterAfter(v, k - 1));
    }
  }

  /** From any value but zero both devices get their turn within 17 runs. */
  lemma BothDevices(v: bv16) returns (a: nat, b: nat)
    requires v != 0
    ensures a <= 16 && b <= 15
    ensures Chosen(RegisterAfter(v, a)) == ID_DEVICE_A && Chosen(RegisterAfter(v, b)) == ID_DEVICE_B
  {
    OneDevice(v, 16);
    NeverZero(v, 16);
    HalvedOut(v);
    HalvedOut(FromFixed(v));
    if i :| 0 <= i < 16 && Chosen(RegisterAfter(v, i)) == ID_DEVICE_A { a := i; } else { a := 16; }
    b :| 0 <= b < 16 && Chosen(RegisterAfter(v, b)) == ID_DEVICE_B;
  }

  /** Cycles control between the two devices. */
  class IdleTask {
    const owner: int
    var v1: bv16
    var count: int
    ghost const seed: bv16
    ghost const turns: int
    ghost var shifts: nat  // how often the register was shifted

    constructor (owner: int, v1: bv16, count: int)
      ensures this.owner == owner && this.v1 == v1 && this.count == count && seed == v1 && turns == count && shifts == 0
    {
      this.owner, this.v1, this.count := owner, v1, count;
      seed, turns, shifts := v1, count, 0;
    }

    /** Every run but the one that ends the count has shifted the register, which started from the seed. */
    ghost predicate Cycled()
      reads this
    {
      v1 == RegisterAfter(seed, shifts) && shifts == turns - count - if count <= 0 < turns then 1 else 0
    }

    method Run(packet: Packet?, s: Scheduler) returns (next: TaskControlBlock?)
      requires s.Serving(packet) && s.Doing(Idle(this))
      modifies this, s`holdCount, s.tcbs`state
      ensures s.Valid() && s.Holding(null) && s.Ahead(next) && count == old(count) - 1
      ensures v1 == if old(count) == 1 then old(v1) else Register(old(v1))
      ensures old(Cycled()) ==> Cycled()
      ensures old(count) == 1 ==> next == s.currentTcb.link && s.OnlyState(s.currentTcb, old(s.currentTcb.state).(held := true))
      ensures old(count) != 1 ==>
        var tcb := s.Block(Chosen(old(v1)));
        && s.OnlyState(tcb, old(tcb.state).(held := false))
        && next == if tcb.priority > s.currentTcb.priority then tcb else s.currentTcb
      ensures s.Progress(false)
    {
      hide Chain;
      hide Linked;
      hide Scheduler.Valid;
      hide Scheduler.Shape;
      hide Scheduler.Ahead;
      hide Scheduler.Serving;
      hide Scheduler.Progress;
      hide Chosen;
      hide Register;
      s.IdleGetsNone(this, packet);
      s.ServingNothing();
      count := count - 1;
      if count == 0 {
        next := s.HoldCurrent();
        s.HeldProgress(this);
      } else {
        var device := Shift();
        next := s.Release(device);
        s.ReleaseProgress(this, device);
      }
    }

    // the device that the register chooses; the register goes on to its next value
    method Shift() returns (device: int)
      modifies `v1, `shifts
      ensures device == Chosen(old(v1)) && (device == ID_DEVICE_A || device == ID_DEVICE_B)
      ensures v1 == Register(old(v1)) && shifts == old(shifts) + 1
    {
      shifts := shifts + 1;
      if v1 & 1 == 0 {
        v1 := v1 >> 1;
        device := ID_DEVICE_A;
      } else {
        v1 := (v1 >> 1) ^ 0xD008;
        device := ID_DEVICE_B;
      }
    }
  }

  /** Fills work packets and passes them to the two handlers in turn. */
  class WorkerTask {
    const owner: int
    var v1: int
    var v2: int

    constructor (owner: int, v1: int, v2: int)
      ensures this.owner == owner && this.v1 == v1 && this.v2 == v2
    {
      this.owner, this.v1, this.v2 := owner, v1, v2;
    }

    method Run(packet: Packet?, s: Scheduler) returns (next: TaskControlBlock)
      requires s.Serving(packet) && s.Doing(Worker(this))
      modifies this, s`queueCount, s`lists, s.packets`id, s.packets`at, s.packets`link, s.tcbs`queue, s.tcbs`state
      modifies (if packet == null then {} else {packet})`a1, (if packet == null then {} else {packet})`a2
      ensures s.Valid() && s.Holding(null) && s.Ahead(next)
      ensures packet == null ==> next == s.currentTcb && s.Suspended() && v1 == old(v1) && v2 == old(v2)
      ensures packet != null ==>
        && v1 == (if old(v1) == ID_HANDLER_A then ID_HANDLER_B else ID_HANDLER_A)
        && s.Sent(packet, v1) && s.Turn(v1, next) && s.Unmoved({packet}) && packet.a1 == 0
        && packet.a2 == Letters(old(v2), DATA_SIZE) && v2 == packet.a2[DATA_SIZE - 1]
      ensures s.Progress(packet != null)
    {
      hide Chain;
      hide Linked;
      hide Scheduler.Valid;
      hide Scheduler.Shape;
      hide Scheduler.Ahead;
      hide Scheduler.Serving;
      hide Scheduler.Progress;
      hide Scheduler.Sent;
      hide Scheduler.Turn;
      hide Scheduler.Unmoved;
      if packet == null {
        s.ServingNothing();
        next := s.SuspendCurrent();
        s.SuspendProgress();
      } else {
        s.ServingTarget(packet);
        next := Pass(packet, s);
        s.WorkerProgress(this, packet, v1);
      }
    }

    // fill a work packet and send it to the handler whose turn it is
    method Pass(packet: Packet, s: Scheduler) returns (next: TaskControlBlock)
      requires s.Serving(packet) && s.Doing(Worker(this)) && packet in s.packets
      modifies this, s`queueCount, s`lists, s.packets`id, s.packets`at, s.packets`link, s.tcbs`queue, s.tcbs`state
      modifies packet`a1, packet`a2
      ensures s.Valid() && s.Holding(null) && s.Ahead(next)
      ensures v1 == (if old(v1) == ID_HANDLER_A then ID_HANDLER_B else ID_HANDLER_A)
      ensures s.Sent(packet, v1) && s.Turn(v1, next) && s.Unmoved({packet}) && packet.a1 == 0
      ensures packet.a2 == Letters(old(v2), DATA_SIZE) && v2 == packet.a2[DATA_SIZE - 1]
    {
      hide Chain;
      hide Linked;
      hide Scheduler.Valid;
      hide Scheduler.Shape;
      hide Scheduler.Ahead;
      hide Scheduler.Serving;
      v1 := if v1 == ID_HANDLER_A then ID_HANDLER_B else ID_HANDLER_A;
      Fill(packet, s);
      s.ServingTarget(packet);
      next := s.Queue(packet);
    }

    method Fill(packet: Packet, s: Scheduler)
      requires s.Serving(packet) && s.Doing(Worker(this)) && (v1 == ID_HANDLER_A || v1 == ID_HANDLER_B)
      modifies `v2, packet`id, packet`a1, packet`a2
      ensures s.Serving(packet)
      ensures packet.id == v1 && packet.a1 == 0 && packet.a2 == Letters(old(v2), DATA_SIZE) && v2 == packet.a2[DATA_SIZE - 1]
    {
      hide Chain;
      hide Linked;
      hide Scheduler.ListOk;
      hide Scheduler.BlockShape;
      hide Scheduler.StackShape;
      hide Scheduler.HeadOf;
      hide Scheduler.StateOk;
      hide Scheduler.Ahead;
      hide Scheduler.Valid;
      hide Scheduler.Shape;
      hide Scheduler.Serving;
      s.ServingTarget(packet);
      s.HandlersKnown();
      s.SizeOf(packet);
      packet.id := v1;
      packet.a1 := 0;
      FillLetters(packet);
      assert s.PacketOk(packet);
      s.EditedServes(packet);
    }

    method FillLetters(packet: Packet)
      requires |packet.a2| == DATA_SIZE
      modifies `v2, packet`a2
      ensures packet.a2 == Letters(old(v2), DATA_SIZE) && v2 == packet.a2[DATA_SIZE - 1]
    {
      for i := 0 to DATA_SIZE
        invariant |packet.a2| == DATA_SIZE && packet.a2[..i] == Letters(old(v2), i)
        invariant v2 == if i == 0 then old(v2) else packet.a2[i - 1]
      {
        v2 := v2 + 1;
        if v2 > 26 { v2 := 1; }
        packet.a2 := packet.a2[i := v2];
      }
      assert packet.a2[..DATA_SIZE] == packet.a2;
    }
  }

  function NextLetter(v: int): int {
    if v + 1 > 26 then 1 else v + 1
  }

  /** n consecutive letters, the first one after v. */
  function Letters(v: int, n: nat): (s: seq<int>)
    ensures |s| == n
  {
    if n == 0 then [] else
      var s := Letters(v, n - 1);
      s + [NextLetter(if n == 1 then v else s[n - 2])]
  }

  lemma {:induction false} LettersAreLetters(v: int, n: nat)
    requires 0 <= v <= 26
    ensures forall k | 0 <= k < n :: 1 <= Letters(v, n)[k] <= 26 && (Letters(v, n)[k] - v - k - 1) % 26 == 0
  {
    if n > 0 { LettersAreLetters(v, n - 1); }
  }

  /** A handler's list of work packets, or of spare ones, once it has a packet p of its kind. */
  function AfterJoin(l: seq<Packet>, p: Packet?, work: bool): seq<Packet>
    reads p
  {
    if p != null && work == (p.kind == KIND_WORK) then l + [p] else l
  }

  /** The list once its first packet has gone. */
  function AfterSend(l: seq<Packet>, sent: bool): seq<Packet> {
    if sent && l != [] then l[1..] else l
  }

  function First(l: seq<Packet>): Packet? {
    if l == [] then null else l[0]
  }

  /** Takes work packets apart, one device packet for each piece of data. */
  class HandlerTask {
    const owner: int
    var v1: Packet?
    var v2: Packet?

    constructor (owner: int)
      ensures this.owner == owner && v1 == null && v2 == null
    {
      this.owner, v1, v2 := owner, null, null;
    }

    // w and v are the first packets of the two lists once the packet has joined its own
    method Run(packet: Packet?, s: Scheduler) returns (next: TaskControlBlock, ghost w: Packet?, ghost v: Packet?)
      requires s.Serving(packet) && s.Doing(Handler(this))
      modifies this, s`queueCount, s`lists, s.packets`id, s.packets`at, s.packets`link, s.packets`a1, s.tcbs`queue, s.tcbs`state
      ensures s.Valid() && s.Holding(null) && s.Ahead(next) && s.Progress(packet != null)
      ensures w == First(AfterJoin(old(s.lists(Work(owner))), packet, true))
      ensures v == First(AfterJoin(old(s.lists(Spare(owner))), packet, false))
      ensures w != null ==> w in old(s.packets) && 0 <= old(w.a1) && |old(w.a2)| == DATA_SIZE
      ensures v != null ==> v in old(s.packets)
      ensures w != null && v != null && old(w.a1) < DATA_SIZE ==>
        v.at == Worklist(old(v.id)) && v.id == s.currentId && v.a1 == old(w.a2)[old(w.a1)] && w.a1 == old(w.a1) + 1
      ensures w != null && old(w.a1) >= DATA_SIZE ==>
        w.at == Worklist(old(w.id)) && w.id == s.currentId && w.a1 == old(w.a1)
      ensures w == null || (old(w.a1) < DATA_SIZE && v == null) ==>
        next == s.currentTcb && next.state == old(s.currentTcb.state).(suspended := true)
      ensures s.packets == old(s.packets) && forall x | x in s.packets && x != w && x != v :: x.id == old(x.id) && x.a1 == old(x.a1)
      ensures w == null || (old(w.a1) < DATA_SIZE && v == null) ==>
        forall x | x in s.packets :: x.id == old(x.id) && x.a1 == old(x.a1)
      ensures s.lists(Work(owner))
        == AfterSend(AfterJoin(old(s.lists(Work(owner))), packet, true), w != null && old(w.a1) >= DATA_SIZE)
      ensures s.lists(Spare(owner))
        == AfterSend(AfterJoin(old(s.lists(Spare(owner))), packet, false), w != null && v != null && old(w.a1) < DATA_SIZE)
    {
      hide Chain;
      hide Linked;
      hide Scheduler.Valid;
      hide Scheduler.Shape;
      hide Scheduler.Ahead;
      hide Scheduler.Serving;
      hide Scheduler.Routed;
      hide Scheduler.Left;
      hide Less;
      s.HandlersLists(this, packet);
      ghost var m0 := s.Left();
      if packet != null {
        Accept(packet, s);
      }
      ghost var m1 := s.Left();
      next, w, v := Serve(s);
      if packet != null && old(s.Routed()) { LessTrans(s.Left(), m1, m0); }
    }

    // what a handler does once a packet given to it is in its list
    method Serve(s: Scheduler) returns (next: TaskControlBlock, ghost w: Packet?, ghost v: Packet?)
      requires s.Serving(null) && s.Doing(Handler(this))
      modifies this, s`queueCount, s`lists, s.packets`id, s.packets`at, s.packets`link, s.packets`a1, s.tcbs`queue, s.tcbs`state
      ensures s.Valid() && s.Holding(null) && s.Ahead(next) && s.Progress(false)
      ensures w == First(old(s.lists(Work(owner)))) && v == First(old(s.lists(Spare(owner))))
      ensures w != null ==> w in old(s.packets) && 0 <= old(w.a1) && |old(w.a2)| == DATA_SIZE
      ensures v != null ==> v in old(s.packets)
      ensures w != null && v != null && old(w.a1) < DATA_SIZE ==>
        s.Sent(v, old(v.id)) && s.Turn(old(v.id), next) && v.a1 == old(w.a2)[old(w.a1)] && w.a1 == old(w.a1) + 1
      ensures w != null && old(w.a1) >= DATA_SIZE ==>
        s.Sent(w, old(w.id)) && s.Turn(old(w.id), next) && w.a1 == old(w.a1)
      ensures w == null || (old(w.a1) < DATA_SIZE && v == null) ==>
        next == s.currentTcb && next.state == old(s.currentTcb.state).(suspended := true)
      ensures s.packets == old(s.packets) && forall x | x in s.packets && x != w && x != v :: x.id == old(x.id) && x.a1 == old(x.a1)
      ensures w == null || (old(w.a1) < DATA_SIZE && v == null) ==>
        forall x | x in s.packets :: x.id == old(x.id) && x.a1 == old(x.a1)
      ensures s.lists(Work(owner)) == AfterSend(old(s.lists(Work(owner))), w != null && old(w.a1) >= DATA_SIZE)
      ensures s.lists(Spare(owner)) == AfterSend(old(s.lists(Spare(owner))), w != null && v != null && old(w.a1) < DATA_SIZE)
    {
      hide Chain;
      hide Linked;
      hide Scheduler.Valid;
      hide Scheduler.Shape;
      hide Scheduler.Ahead;
      hide Scheduler.Serving;
      hide Scheduler.Progress;
      s.HandlersLists(this, null);
      w, v := v1, v2;
      next := Proceed(v1, v2, s);
    }

    // a packet joins the list for its kind
    method Accept(packet: Packet, s: Scheduler)
      requires s.Serving(packet) && s.Doing(Handler(this))
      modifies `v1, `v2, s`lists, packet`at, packet`link, s.packets`link
      ensures s.Serving(null) && s.Progress(true)
      ensures s.lists(Work(owner)) == AfterJoin(old(s.lists(Work(owner))), packet, true)
      ensures s.lists(Spare(owner)) == AfterJoin(old(s.lists(Spare(owner))), packet, false)
      ensures forall q | q != Work(owner) && q != Spare(owner) :: s.lists(q) == old(s.lists(q))
    {
      hide Chain;
      hide Scheduler.Shape;
      hide Scheduler.Serving;
      hide Scheduler.Progress;
      s.HandlersLists(this, packet);
      ghost var pl := if packet.kind == KIND_WORK then Work(owner) else Spare(owner);
      if packet.kind == KIND_WORK {
        AddWork(packet, s);
      } else {
        AddSpare(packet, s);
      }
      s.Accepted(this, packet, pl);
      s.AcceptProgress(this, packet, pl);
    }

    // go on with the first packet w of the list of work and the first one v of the spare packets
    method Proceed(w: Packet?, v: Packet?, s: Scheduler) returns (next: TaskControlBlock)
      requires s.Serving(null) && s.Doing(Handler(this)) && v1 == w && v2 == v
      requires w != null ==> s.IsHead(w, Work(owner))
      requires v != null ==> s.IsHead(v, Spare(owner))
      modifies this, s`queueCount, s`lists, s.packets`id, s.packets`at, s.packets`link, s.packets`a1, s.tcbs`queue, s.tcbs`state
      ensures s.Valid() && s.Holding(null) && s.Ahead(next)
      ensures w != null && old(w.a1) < DATA_SIZE && v != null ==>
        s.Sent(v, old(v.id)) && s.Turn(old(v.id), next) && s.Unmoved({v, w}) && w.at == Work(owner) && w.id == old(w.id) && w.a1 == old(w.a1) + 1
      ensures w != null && old(w.a1) < DATA_SIZE && v != null ==>
        && v.a1 == old(w.a2)[old(w.a1)] && s.lists(Work(owner)) == old(s.lists(Work(owner)))
        && s.lists(Spare(owner)) == old(s.lists(Spare(owner)))[1..]
      ensures w != null && old(w.a1) >= DATA_SIZE ==>
        && s.Sent(w, old(w.id)) && s.Turn(old(w.id), next) && s.Unmoved({w}) && w.a1 == old(w.a1)
        && s.lists(Work(owner)) == old(s.lists(Work(owner)))[1..] && s.lists(Spare(owner)) == old(s.lists(Spare(owner)))
      ensures w == null || (old(w.a1) < DATA_SIZE && v == null) ==>
        next == s.currentTcb && s.Suspended() && s.lists == old(s.lists)
      ensures s.Progress(false)
    {
      hide Chain;
      hide Linked;
      hide Scheduler.Valid;
      hide Scheduler.Shape;
      hide Scheduler.Ahead;
      hide Scheduler.Serving;
      hide Scheduler.Progress;
      hide Scheduler.Sent;
      hide Scheduler.Turn;
      hide Scheduler.Unmoved;
      hide Scheduler.OnlyState;
      s.HandlersLists(this, null);
      s.ServingNothing();
      if w != null {
        if w.a1 < DATA_SIZE {
          if v != null {
            next := SendSpare(w, v, s);
            s.SpareProgress(this, w, v);
            return;
          }
        } else {
          next := SendWork(w, s);
          s.WorkProgress(this, w);
          return;
        }
      }
      next := s.SuspendCurrent();
      s.SuspendProgress();
    }

    // a work packet joins the list of work
    method AddWork(packet: Packet, s: Scheduler)
      requires Chain(v1, s.lists(Work(owner))) && this in s.handlers && packet in s.packets
      requires forall x | x in s.lists(Work(owner)) :: x in s.packets && x != packet
      modifies `v1, s`lists, packet`at, packet`link, s.packets`link
      ensures s.Joined(packet, Work(owner)) && Chain(v1, s.lists(Work(owner)))
    {
      hide Chain;
      hide Linked;
      ghost var q := s.lists(Work(owner));
      v1 := packet.AddTo(v1, q);
      packet.at := Work(owner);
      s.lists := With(s.lists, Work(owner), q + [packet]);
    }

    // a device packet joins the list of spare packets
    method AddSpare(packet: Packet, s: Scheduler)
      requires Chain(v2, s.lists(Spare(owner))) && this in s.handlers && packet in s.packets
      requires forall x | x in s.lists(Spare(owner)) :: x in s.packets && x != packet
      modifies `v2, s`lists, packet`at, packet`link, s.packets`link
      ensures s.Joined(packet, Spare(owner)) && Chain(v2, s.lists(Spare(owner)))
    {
      hide Chain;
      hide Linked;
      ghost var q := s.lists(Spare(owner));
      v2 := packet.AddTo(v2, q);
      packet.at := Spare(owner);
      s.lists := With(s.lists, Spare(owner), q + [packet]);
    }

    // the first spare packet takes the next piece of data of the first work packet along
    method SendSpare(w: Packet, v: Packet, s: Scheduler) returns (next: TaskControlBlock)
      requires s.Serving(null) && s.Doing(Handler(this)) && v1 == w && v2 == v && w.a1 < DATA_SIZE
      requires s.IsHead(w, Work(owner)) && s.IsHead(v, Spare(owner))
      modifies this, s`queueCount, s`lists, s.packets`id, s.packets`at, s.packets`link, s.packets`a1, s.tcbs`queue, s.tcbs`state
      ensures s.Valid() && s.Holding(null) && s.Ahead(next)
      ensures s.Sent(v, old(v.id)) && s.Turn(old(v.id), next) && s.Unmoved({v, w}) && w.at == Work(owner)
      ensures w.id == old(w.id) && w.a1 == old(w.a1) + 1 && v.a1 == old(w.a2[w.a1])
      ensures s.lists(Work(owner)) == old(s.lists(Work(owner))) && s.lists(Spare(owner)) == old(s.lists(Spare(owner)))[1..]
    {
      hide Chain;
      hide Linked;
      hide Scheduler.Valid;
      hide Scheduler.Shape;
      hide Scheduler.Ahead;
      hide Scheduler.Serving;
      hide Scheduler.Progress;
      s.HandlersLists(this, null);
      Mark(w, v, s);
      s.ServingTarget(v);
      next := s.Queue(v);
    }

    method Mark(w: Packet, v: Packet, s: Scheduler)
      requires s.Serving(null) && s.Doing(Handler(this)) && v2 == v && w.a1 < DATA_SIZE
      requires s.IsHead(w, Work(owner)) && s.IsHead(v, Spare(owner))
      modifies `v2, s`lists, v`at, v`a1, w`a1
      ensures s.Serving(v) && v.at == Hand
      ensures w.a1 == old(w.a1) + 1 && v.a1 == old(w.a2[w.a1]) && s.lists(Spare(owner)) == old(s.lists(Spare(owner)))[1..]
      ensures forall q | q != Spare(owner) :: s.lists(q) == old(s.lists(q))
    {
      hide Scheduler.Serving;
      TakeSpare(v, s);
      Copy(w, v, s);
    }

    method TakeSpare(v: Packet, s: Scheduler)
      requires s.Serving(null) && s.Doing(Handler(this)) && v2 == v && s.IsHead(v, Spare(owner))
      modifies `v2, s`lists, v`at
      ensures s.Serving(v) && v2 == v.link && v.at == Hand
      ensures s.lists(Spare(owner)) == old(s.lists(Spare(owner)))[1..]
      ensures forall q | q != Spare(owner) :: s.lists(q) == old(s.lists(q))
    {
      hide Chain;
      hide Linked;
      hide Scheduler.Serving;
      s.HandlersLists(this, null);
      v2 := v.link;
      v.at := Hand;
      s.lists := With(s.lists, Spare(owner), s.lists(Spare(owner))[1..]);
      s.Given(this, v, Spare(owner));
    }

    method Copy(w: Packet, v: Packet, s: Scheduler)
      requires s.Serving(v) && s.Doing(Handler(this)) && v.kind != KIND_WORK && s.IsHead(w, Work(owner)) && w.a1 < DATA_SIZE
      modifies v`a1, w`a1
      ensures s.Serving(v) && w.a1 == old(w.a1) + 1 && v.a1 == old(w.a2[w.a1])
    {
      hide Chain;
      hide Linked;
      hide Scheduler.ListOk;
      hide Scheduler.BlockShape;
      hide Scheduler.StackShape;
      hide Scheduler.HeadOf;
      hide Scheduler.StateOk;
      hide Scheduler.Ahead;
      v.a1 := w.a2[w.a1];
      w.a1 := w.a1 + 1;
      forall x | x in s.packets ensures s.PacketOk(x) { assert old(s.PacketOk(x)); }
    }

    // the first work packet, all its data taken, goes back
    method SendWork(v: Packet, s: Scheduler) returns (next: TaskControlBlock)
      requires s.Serving(null) && s.Doing(Handler(this)) && v1 == v && s.IsHead(v, Work(owner)) && v.a1 >= DATA_SIZE
      modifies this, s`queueCount, s`lists, s.packets`id, s.packets`at, s.packets`link, s.packets`a1, s.tcbs`queue, s.tcbs`state
      ensures s.Valid() && s.Holding(null) && s.Ahead(next)
      ensures s.Sent(v, old(v.id)) && s.Turn(old(v.id), next) && s.Unmoved({v}) && v.a1 == old(v.a1)
      ensures s.lists(Work(owner)) == old(s.lists(Work(owner)))[1..] && s.lists(Spare(owner)) == old(s.lists(Spare(owner)))
    {
      hide Chain;
      hide Linked;
      hide Scheduler.Valid;
      hide Scheduler.Shape;
      hide Scheduler.Ahead;
      hide Scheduler.Serving;
      hide Scheduler.Progress;
      s.HandlersLists(this, null);
      TakeWork(v, s);
      s.ServingTarget(v);
      next := s.Queue(v);
    }

    method TakeWork(v: Packet, s: Scheduler)
      requires s.Serving(null) && s.Doing(Handler(this)) && v1 == v && s.IsHead(v, Work(owner))
      modifies `v1, s`lists, v`at
      ensures s.Serving(v) && v1 == v.link && v.at == Hand
      ensures s.lists(Work(owner)) == old(s.lists(Work(owner)))[1..]
      ensures forall q | q != Work(owner) :: s.lists(q) == old(s.lists(q))
    {
      hide Chain;
      hide Linked;
      hide Scheduler.Serving;
      s.HandlersLists(this, null);
      v1 := v.link;
      v.at := Hand;
      s.lists := With(s.lists, Work(owner), s.lists(Work(owner))[1..]);
      s.Given(this, v, Work(owner));
    }
  }

  /** Keeps one packet at a time until it is released. */
  class DeviceTask {
    const owner: int
    var v1: Packet?

    constructor (owner: int)
      ensures this.owner == owner && v1 == null
    {
      this.owner, v1 := owner, null;
    }

    method Run(packet: Packet?, s: Scheduler) returns (next: TaskControlBlock?)
      requires s.Serving(packet) && s.Doing(Device(this))
      modifies `v1, s`queueCount, s`holdCount, s`lists, s.packets`id, s.packets`at, s.packets`link, s.tcbs`queue, s.tcbs`state
      ensures s.Valid() && s.Holding(null) && s.Ahead(next)
      ensures packet == null && old(v1) == null ==> next == s.currentTcb && s.Suspended()
      ensures packet == null && old(v1) != null ==>
        v1 == null && s.Sent(old(v1), old(v1.id)) && s.Turn(old(v1.id), next) && s.Unmoved({old(v1)}) && old(v1).a1 == old(v1.a1)
      ensures packet != null ==> v1 == packet && next == s.currentTcb.link && s.Kept(packet)
      ensures s.Progress(packet != null)
    {
      hide Scheduler.ListOk;
      hide Scheduler.PacketOk;
      hide Scheduler.Sent;
      hide Scheduler.Turn;
      hide Scheduler.Kept;
      hide Scheduler.Ahead;
      s.MyUnits();
      if packet != null {
        next := Keep(packet, s);
      } else if v1 == null {
        next := s.SuspendCurrent();
        s.SuspendProgress();
      } else {
        next := Forward(s);
      }
    }

    method Forward(s: Scheduler) returns (next: TaskControlBlock)
      requires s.Serving(null) && s.Doing(Device(this)) && v1 != null
      modifies `v1, s`queueCount, s`lists, s.packets`id, s.packets`at, s.packets`link, s.tcbs`queue, s.tcbs`state
      ensures s.Valid() && s.Holding(null) && s.Ahead(next) && v1 == null
      ensures s.Sent(old(v1), old(v1.id)) && s.Turn(old(v1.id), next) && s.Unmoved({old(v1)}) && old(v1).a1 == old(v1.a1)
      ensures s.Progress(true)
    {
      hide Chain;
      hide Linked;
      hide Scheduler.Valid;
      hide Scheduler.Shape;
      hide Scheduler.Ahead;
      hide Scheduler.Serving;
      hide Scheduler.Progress;
      s.ServesOwn(null);
      var v: Packet := v1;
      v1 := null;
      v.at := Hand;
      s.lists := With(s.lists, Pending(owner), []);
      s.KeptLeaves(this, v);
      s.ServingTarget(v);
      next := s.Queue(v);
      s.ForwardProgress(this, v);
    }

    method Keep(packet: Packet, s: Scheduler) returns (next: TaskControlBlock?)
      requires s.Serving(packet) && s.Doing(Device(this))
      modifies `v1, s`holdCount, s`lists, packet`at, s.currentTcb`state
      ensures s.Valid() && s.Holding(null) && s.Ahead(next)
      ensures v1 == packet && next == s.currentTcb.link && s.Kept(packet) && s.Progress(true)
    {
      hide Chain;
      hide Linked;
      hide Scheduler.ListOk;
      hide Scheduler.PacketOk;
      hide Scheduler.BlockShape;
      hide Scheduler.StackShape;
      hide Scheduler.HeadOf;
      hide Scheduler.StateOk;
      hide Scheduler.Ahead;
      s.MyUnits();
      v1 := packet;
      packet.at := Pending(owner);
      s.lists := With(s.lists, Pending(owner), [packet]);
      s.KeptArrives(this, packet);
      next := s.HoldCurrent();
      s.KeepProgress(packet);
    }
  }

  class TaskControlBlock {
    const link: TaskControlBlock?
    const id: int
    const priority: int
    const task: Task
    var queue: Packet?
    var state: State
    ghost const depth: nat  // the number of blocks behind this one

    constructor (link: TaskControlBlock?, id: int, priority: int, queue: Packet?, task: Task, ghost depth: nat)
      ensures this.link == link && this.id == id && this.priority == priority && this.queue == queue
      ensures this.task == task && this.depth == depth
      ensures state == if queue == null then STATE_SUSPENDED else STATE_SUSPENDED_RUNNABLE
    {
      this.link, this.id, this.priority, this.queue, this.task := link, id, priority, queue, task;
      this.depth := depth;
      state := if queue == null then STATE_SUSPENDED else STATE_SUSPENDED_RUNNABLE;
    }

    predicate IsHeldOrSuspended()
      reads `state
    {
      state.held || state == STATE_SUSPENDED
    }

    // run for the first packet of the work list if it was suspended
    method Run(s: Scheduler) returns (next: TaskControlBlock?)
      requires s.Valid() && s.Holding(null) && s.Running() && s.currentTcb == this && s.Ahead(this) && !IsHeldOrSuspended()
      modifies s`queueCount, s`holdCount, s`lists, s.packets, s.tcbs, s.idles, s.workers, s.handlers, s.devices
      ensures s.Valid() && s.Holding(null) && s.Ahead(next) && s.Progress(false)
      ensures old(s.Cycling()) ==> s.Cycling()
    {
      hide Scheduler.Valid;
      hide Scheduler.Shape;
      hide Scheduler.Ahead;
      hide Scheduler.Serving;
      hide Scheduler.Routed;
      hide Scheduler.Left;
      hide IdleTask.Cycled;
      s.Me(this);
      if state == STATE_SUSPENDED_RUNNABLE {
        var packet := Dequeue(s);
        next := RunTask(packet, s);
      } else {
        s.ServesWithout(this);
        next := RunTask(null, s);
      }
    }

    method RunTask(packet: Packet?, s: Scheduler) returns (next: TaskControlBlock?)
      requires s.Serving(packet) && s.Doing(task)
      modifies s`queueCount, s`holdCount, s`lists, s.packets, s.tcbs, s.idles, s.workers, s.handlers, s.devices
      ensures s.Valid() && s.Holding(null) && s.Ahead(next) && s.Progress(packet != null)
      ensures old(s.Cycling()) ==> s.Cycling()
      ensures task.Worker? && packet != null ==> s.Sent(packet, task.worker.v1) && packet.a1 == 0
      ensures task.Worker? && packet != null ==> packet.a2 == Letters(old(task.worker.v2), DATA_SIZE)
      ensures task.Device? && packet != null ==> task.device.v1 == packet && next == s.currentTcb.link && s.Kept(packet)
    {
      hide Scheduler.Valid;
      hide Scheduler.Shape;
      hide Scheduler.Ahead;
      hide Scheduler.Serving;
      hide Scheduler.Progress;
      hide IdleTask.Cycled;
      s.ServesOwn(packet);
      match task
      case Idle(x) => s.IdleGetsNone(x, packet); next := x.Run(packet, s);
      case Worker(x) => s.PacketKnown(packet); next := x.Run(packet, s);
      case Handler(x) => ghost var w, v; next, w, v := x.Run(packet, s);
      case Device(x) => next := x.Run(packet, s);
    }

    method Dequeue(s: Scheduler) returns (packet: Packet)
      requires s.Valid() && s.Holding(null) && s.Running() && s.currentTcb == this && s.Ahead(this)
      requires state == STATE_SUSPENDED_RUNNABLE && s.HasPackets(this)
      modifies `queue, `state, s`lists, s.packets`at
      ensures s.Serving(packet)
      ensures [packet] + s.lists(Worklist(id)) == old(s.lists(Worklist(id)))
      ensures forall q | q != Worklist(id) :: s.lists(q) == old(s.lists(q))
      ensures state == if queue == null then STATE_RUNNING else STATE_RUNNABLE
      ensures (forall p | p in s.packets && p != packet :: p.at == old(p.at)) && s.SameMeasure()
    {
      hide Chain;
      hide Linked;
      hide Scheduler.Valid;
      hide Scheduler.Shape;
      hide Scheduler.Ahead;
      hide Scheduler.Serving;
      hide Scheduler.Progress;
      s.ValidShape();
      packet := queue;
      queue := packet.link;
      state := if queue == null then STATE_RUNNING else STATE_RUNNABLE;
      packet.at := Hand;
      s.lists := With(s.lists, Worklist(id), s.lists(Worklist(id))[1..]);
      s.Dequeued(this, packet);
      s.DequeueKeeps(this, packet);
    }

    /** The bits agree with the work list; a device is not suspended while it keeps a packet. */
    ghost predicate Consistent()
      reads `state, `queue, if task.Device? then {task.device} else {}
    {
      && (state.runnable <==> queue != null)
      && (task.Idle? ==> !state.suspended)
      && (task.Device? && task.device.v1 != null ==> !state.suspended)
    }

    // add a packet to the work list; the result is the block to go on with
    method CheckPriorityAdd(task: TaskControlBlock, packet: Packet, ghost s: Scheduler) returns (next: TaskControlBlock)
      requires s.Valid() && s.Holding(packet) && packet.link == null && s.IsBlock(this) && s.Ahead(task)
      modifies `queue, `state, s`lists, packet`at, packet`link, s.packets`link
      ensures s.Valid() && s.Holding(null) && s.Ahead(next)
      ensures s.lists(Worklist(id)) == old(s.lists(Worklist(id))) + [packet]
      ensures forall q | q != Worklist(id) :: s.lists(q) == old(s.lists(q))
      ensures next == if old(queue) == null && priority > task.priority then this else task
      ensures state == old(state).(runnable := true) && packet.at == Worklist(id)
    {
      hide Chain;
      hide Linked;
      hide Scheduler.ListOk;
      hide Scheduler.PacketOk;
      hide Scheduler.Closed;
      hide Scheduler.BlockShape;
      hide Scheduler.StackShape;
      hide Scheduler.HeadOf;
      hide Scheduler.StateOk;
      hide Scheduler.Waits;
      hide Scheduler.Ahead;
      hide Scheduler.Shape;
      ghost var pl := Worklist(id);
      ghost var q := s.lists(pl);
      s.QueueOf(this, packet);
      next := task;
      if queue == null {
        queue := packet;
        state := state.(runnable := true);
        if priority > task.priority { next := this; }
      } else {
        queue := packet.AddTo(queue, q);
      }
      packet.at := pl;
      s.lists := With(s.lists, pl, q + [packet]);
      s.Arrives(this, packet);
      s.StillAhead(this, task, next);
    }
  }

  /** The work lists after the one at pl became s. */
  ghost function With(f: Place -> seq<Packet>, pl: Place, s: seq<Packet>): (g: Place -> seq<Packet>)
    ensures g(pl) == s && forall q | q != pl :: g(q) == f(q)
  {
    (q: Place) => if q == pl then s else f(q)
  }

  /** What is left to do: turns of idle tasks, moves of device packets, moves of work packets,
      and tasks that are not suspended. */
  datatype Remaining = Remaining(turns: int, spare: set<(Packet, int)>, work: set<(Packet, int)>, awake: int)

  /** There is less left in a than in b; a task that runs for a packet has to use up more than
      its being awake. */
  ghost predicate Less(a: Remaining, b: Remaining, byPacket: bool) {
    || a.turns < b.turns
    || (a.turns == b.turns &&
          (|| a.spare < b.spare
           || (a.spare == b.spare &&
                 (|| a.work < b.work
                  || (a.work == b.work && !byPacket && a.awake < b.awake)))))
  }

  lemma LessTrans(a: Remaining, b: Remaining, c: Remaining)
    requires Less(b, c, true) && Less(a, b, false)
    ensures Less(a, c, true)
  {}

  class Scheduler {
    var queueCount: int
    var holdCount: int
    var blocks: seq<TaskControlBlock?>
    var list: TaskControlBlock?
    var currentTcb: TaskControlBlock?
    var currentId: int
    ghost var stack: seq<TaskControlBlock>  // the linked blocks, last one first
    ghost var tcbs: set<TaskControlBlock>
    ghost var idles: set<IdleTask>
    ghost var workers: set<WorkerTask>
    ghost var handlers: set<HandlerTask>
    ghost var devices: set<DeviceTask>
    ghost var packets: set<Packet>
    ghost var lists: Place -> seq<Packet>

    ghost predicate Registered(i: int)
      reads `blocks
    {
      |blocks| == NUMBER_OF_IDS && 0 <= i < NUMBER_OF_IDS && blocks[i] != null
    }

    ghost function Block(i: int): TaskControlBlock
      requires Registered(i)
      reads `blocks
    {
      blocks[i]
    }

    ghost predicate BlockShape(i: int)
      requires Registered(i)
      reads `blocks, `stack, `tcbs, `idles, `workers, `handlers, `devices
    {
      var b := blocks[i];
      && b.id == i && Owner(b.task) == i && b in tcbs && b.depth < |stack| && stack[b.depth] == b
      && match b.task
         case Idle(x) => x in idles
         case Worker(x) => x in workers
         case Handler(x) => x in handlers
         case Device(x) => x in devices
    }

    ghost predicate StackShape(d: int)
      requires 0 <= d < |stack|
      reads `blocks, `stack
    {
      var b := stack[d];
      && b.depth == d && b.link == (if d == 0 then null else stack[d - 1])
      && Registered(b.id) && blocks[b.id] == b
    }

    /** The blocks are linked in the order of their priorities, highest first. */
    ghost predicate Shape()
      reads `blocks, `stack, `tcbs, `idles, `workers, `handlers, `devices, `list
    {
      && |blocks| == NUMBER_OF_IDS
      && (forall i | Registered(i) :: BlockShape(i))
      && (forall d | 0 <= d < |stack| :: StackShape(d))
      && list == (if stack == [] then null else stack[|stack| - 1])
      && forall c, d | 0 <= c < d < |stack| :: stack[c].priority < stack[d].priority
    }

    ghost function HeadOf(pl: Place): Packet?
      requires Shape()
      reads `blocks, `stack, `tcbs, `idles, `workers, `handlers, `devices, `list, tcbs`queue, handlers, devices
    {
      match pl
      case Hand => null
      case Worklist(i) => if Registered(i) then (assert BlockShape(i); blocks[i].queue) else null
      case Work(i) =>
        if Registered(i) && blocks[i].task.Handler? then (assert BlockShape(i); blocks[i].task.handler.v1) else null
      case Spare(i) =>
        if Registered(i) && blocks[i].task.Handler? then (assert BlockShape(i); blocks[i].task.handler.v2) else null
      case Pending(i) =>
        if Registered(i) && blocks[i].task.Device? then (assert BlockShape(i); blocks[i].task.device.v1) else null
    }

    ghost predicate AllAt(s: seq<Packet>, pl: Place)
      reads `packets, packets`at
    {
      forall k | 0 <= k < |s| :: s[k] in packets && s[k].at == pl
    }

    /** lists(pl) are the packets linked there, and they know where they are. */
    ghost predicate ListOk(pl: Place)
      requires Shape()
      reads `blocks, `stack, `tcbs, `idles, `workers, `handlers, `devices, `list, tcbs`queue, handlers, devices
      reads `lists, `packets, packets`at, packets`link
    {
      && AllAt(lists(pl), pl)
      && if pl.Pending? then lists(pl) == (if HeadOf(pl) == null then [] else [HeadOf(pl)])
         else Chain(HeadOf(pl), lists(pl))
    }

    ghost predicate PacketOk(p: Packet)
      reads `lists, p
    {
      && |p.a2| == DATA_SIZE && (p.kind == KIND_WORK ==> 0 <= p.a1 <= DATA_SIZE)
      && (!p.at.Hand? ==> p in lists(p.at))
      && (p.at.Work? ==> p.kind == KIND_WORK) && (p.at.Spare? ==> p.kind != KIND_WORK)
    }

    ghost predicate StateOk(i: int)
      requires Shape() && Registered(i)
      reads `blocks, `stack, `tcbs, `idles, `workers, `handlers, `devices, `list, tcbs, devices
    {
      assert BlockShape(i);
      var b := blocks[i];
      b.Consistent()
    }

    /** Every id that a packet or a task may name is that of a block. */
    ghost predicate Closed()
      reads `blocks, `packets, packets`id
    {
      && Registered(ID_HANDLER_A) && Registered(ID_HANDLER_B) && Registered(ID_DEVICE_A) && Registered(ID_DEVICE_B)
      && forall p | p in packets :: Registered(p.id)
    }

    ghost predicate Valid()
      reads `blocks, `stack, `tcbs, `idles, `workers, `handlers, `devices, `list, tcbs, handlers, devices, `lists, `packets, packets
    {
      && Shape() && Closed()
      && (forall pl :: ListOk(pl))
      && (forall p | p in packets :: PacketOk(p))
      && (forall i | Registered(i) :: StateOk(i))
    }

    /** p is the only packet on its way. */
    ghost predicate Holding(p: Packet?)
      reads `packets, packets`at
    {
      (p != null ==> p in packets && p.at == Hand) && forall q | q in packets && q.at == Hand :: q == p
    }

    ghost predicate IsBlock(b: TaskControlBlock)
      reads `blocks
    {
      Registered(b.id) && blocks[b.id] == b
    }

    /** Every block of a higher priority than c, or every block if there is no c, is blocked. */
    ghost predicate Ahead(c: TaskControlBlock?)
      requires Shape()
      reads `blocks, `stack, `tcbs, `idles, `workers, `handlers, `devices, `list, tcbs`state
    {
      && (c != null ==> IsBlock(c))
      && forall i | Registered(i) && (c == null || blocks[i].priority > c.priority) :: Waits(i)
    }

    lemma PacketKnown(p: Packet?)
      requires Serving(p)
      ensures p != null ==> p in packets
    {}

    /** The idle tasks' registers are where their counts say. */
    ghost predicate Cycling()
      reads `idles, idles
    {
      forall x | x in idles :: x.Cycled()
    }

    ghost predicate Waits(i: int)
      requires Shape() && Registered(i)
      reads `blocks, `stack, `tcbs, `idles, `workers, `handlers, `devices, `list, tcbs`state
    {
      assert BlockShape(i);
      blocks[i].IsHeldOrSuspended()
    }

    ghost predicate Running()
      reads `blocks, `currentTcb, `currentId
    {
      currentTcb != null && IsBlock(currentTcb) && currentId == currentTcb.id
    }

    // ---------- operations ----------

    lemma NextInLine(c: TaskControlBlock)
      requires Shape() && Ahead(c) && Waits(c.id)
      ensures Ahead(c.link)
    {
      var d := c.depth;
      assert BlockShape(c.id) && StackShape(d);
      assert d > 0 ==> StackShape(d - 1);
      assert d > 0 ==> forall e | 0 <= e < d - 1 :: stack[e].priority < stack[d - 1].priority;
      forall i | Registered(i) && (c.link == null || blocks[i].priority > c.link.priority) ensures Waits(i) {
        assert BlockShape(i);
        var e := blocks[i].depth;
        assert e > d ==> stack[d].priority < stack[e].priority;
      }
    }

    ghost predicate MayHave(b: TaskControlBlock, st: State)
      requires Shape() && IsBlock(b)
      reads `blocks, `stack, `tcbs, `idles, `workers, `handlers, `devices, `list, tcbs`state, devices
    {
      assert BlockShape(b.id);
      && st.runnable == b.state.runnable && (b.task.Idle? ==> !st.suspended)
      && (b.task.Device? && b.task.device.v1 != null ==> !st.suspended)
    }

    // the bits of a block change, other than the one that says it has packets
    method SetState(b: TaskControlBlock, st: State)
      requires Valid() && IsBlock(b) && MayHave(b, st)
      modifies b`state
      ensures Valid() && b.state == st
      ensures forall i | Registered(i) && i != b.id :: Waits(i) == old(Waits(i))
    {
      assert BlockShape(b.id) && StateOk(b.id);
      b.state := st;
      forall i | Registered(i) ensures StateOk(i) && (i != b.id ==> Waits(i) == old(Waits(i))) {
        assert BlockShape(i) && old(StateOk(i));
      }
    }

    lemma QueueOf(b: TaskControlBlock, p: Packet)
      requires Valid() && IsBlock(b) && Holding(p)
      ensures Chain(b.queue, lists(Worklist(b.id))) && p !in lists(Worklist(b.id)) && b in tcbs && b.Consistent()
      ensures (b.queue == null <==> lists(Worklist(b.id)) == []) && forall x | x in lists(Worklist(b.id)) :: x in packets
      ensures b.queue == null && p.link == null ==> Chain(p, lists(Worklist(b.id)) + [p])
    {
      assert ListOk(Worklist(b.id)) && BlockShape(b.id) && StateOk(b.id);
      if p.link == null { assert Linked([p], 0) && [] + [p] == [p]; }
    }

    method HoldCurrent() returns (next: TaskControlBlock?)
      requires Valid() && Running() && Ahead(currentTcb)
      modifies `holdCount, currentTcb`state
      ensures Valid() && Ahead(next)
      ensures next == currentTcb.link && holdCount == old(holdCount) + 1
      ensures currentTcb.state == old(currentTcb.state).(held := true)
    {
      holdCount := holdCount + 1;
      assert StateOk(currentTcb.id);
      SetState(currentTcb, currentTcb.state.(held := true));
      NextInLine(currentTcb);
      next := currentTcb.link;
    }

    method SuspendCurrent() returns (next: TaskControlBlock)
      requires Valid() && Running() && Ahead(currentTcb)
      requires !currentTcb.task.Idle? && (currentTcb.task.Device? ==> currentTcb.task.device.v1 == null)
      modifies currentTcb`state
      ensures Valid() && Ahead(next)
      ensures next == currentTcb && currentTcb.state == old(currentTcb.state).(suspended := true) && Suspended()
    {
      assert StateOk(currentTcb.id);
      SetState(currentTcb, currentTcb.state.(suspended := true));
      next := currentTcb;
    }

    method Release(id: int) returns (next: TaskControlBlock?)
      requires Valid() && Running() && Ahead(currentTcb)
      modifies (if Registered(id) then {Block(id)} else {})`state
      ensures Valid() && (Registered(id) <==> next != null)
      ensures Registered(id) ==>
        && Ahead(next) && blocks[id].state == old(Block(id).state).(held := false)
        && next == if blocks[id].priority > currentTcb.priority then blocks[id] else currentTcb
    {
      if id < 0 || id >= |blocks| || blocks[id] == null {
        return null;
      }
      var tcb := blocks[id];
      assert StateOk(id) && BlockShape(id);
      SetState(tcb, tcb.state.(held := false));
      if tcb.priority > currentTcb.priority {
        next := tcb;
      } else {
        next := currentTcb;
      }
    }

    /** Everything that moving packets does not touch. */
    twostate predicate SameShape()
      reads `blocks, `stack, `tcbs, `idles, `workers, `handlers, `devices, `list, `packets
    {
      && blocks == old(blocks) && stack == old(stack) && tcbs == old(tcbs) && idles == old(idles)
      && workers == old(workers) && handlers == old(handlers) && devices == old(devices)
      && list == old(list) && packets == old(packets)
    }

    twostate predicate SamePlaces(p: Packet, pl: Place)
      requires SameShape() && old(Shape())
      reads `blocks, `stack, `tcbs, `idles, `workers, `handlers, `devices, `list, `packets
      reads tcbs`queue, handlers, devices, `lists, packets
    {
      && (forall q | q != pl :: lists(q) == old(lists(q)) && HeadOf(q) == old(HeadOf(q)))
      && (forall x | x in packets :: x.a1 == old(x.a1) && x.a2 == old(x.a2) && (x != p ==> x.at == old(x.at)))
    }

    /** A list that was left alone is still in order. */
    twostate lemma SameList(new q: Place, was: seq<Packet>)
      requires was == old(lists(q)) && SameShape() && old(Shape()) && old(ListOk(q)) && lists(q) == old(lists(q)) && HeadOf(q) == old(HeadOf(q))
      requires q != Hand ==> forall x | x in packets && old(x.at) == q :: x.link == old(x.link) && x.at == old(x.at)
      ensures ListOk(q)
    {
      if q != Hand && !q.Pending? {
        forall k | 0 <= k < |was| ensures Linked(was, k) { assert was[k] in packets && old(Linked(was, k)); }
      }
    }

    /** Of all blocks and tasks, only those of id i changed. */
    twostate lemma OneOwner(i: int)
      requires SameShape() && old(Shape()) && Registered(i) && Block(i).Consistent()
      requires old(forall j | Registered(j) :: StateOk(j))
      requires forall x | x in tcbs && x.id != i :: x.queue == old(x.queue) && x.state == old(x.state)
      requires forall x | x in handlers && x.owner != i :: x.v1 == old(x.v1) && x.v2 == old(x.v2)
      requires forall x | x in devices && x.owner != i :: x.v1 == old(x.v1)
      ensures forall q: Place | q.Hand? || q.id != i :: HeadOf(q) == old(HeadOf(q))
      ensures forall j | Registered(j) :: StateOk(j) && (j != i ==> Waits(j) == old(Waits(j)))
      ensures Block(i).state == old(Block(i).state) ==> Waits(i) == old(Waits(i))
      ensures Heads(i) && old(Heads(i))
    {
      forall j | Registered(j) ensures StateOk(j) && (j != i ==> Waits(j) == old(Waits(j))) {
        assert BlockShape(j) && old(StateOk(j));
      }
      assert BlockShape(i);
      forall q: Place | q.Hand? || q.id != i ensures HeadOf(q) == old(HeadOf(q)) {
        if !q.Hand? && Registered(q.id) { assert BlockShape(q.id); }
      }
    }

    /** Where the lists of block i start. */
    ghost predicate Heads(i: int)
      requires Shape() && Registered(i)
      reads `blocks, `stack, `tcbs, `idles, `workers, `handlers, `devices, `list, tcbs`queue, handlers, devices
    {
      assert BlockShape(i);
      var b := blocks[i];
      && HeadOf(Worklist(i)) == b.queue
      && (b.task.Handler? ==>
            HeadOf(Work(i)) == b.task.handler.v1 && HeadOf(Spare(i)) == b.task.handler.v2 && HeadOf(Pending(i)) == null)
      && (b.task.Device? ==>
            HeadOf(Pending(i)) == b.task.device.v1 && HeadOf(Work(i)) == null && HeadOf(Spare(i)) == null)
      && (!b.task.Handler? && !b.task.Device? ==>
            HeadOf(Pending(i)) == null && HeadOf(Work(i)) == null && HeadOf(Spare(i)) == null)
    }

    twostate lemma StillAhead(new b: TaskControlBlock, c: TaskControlBlock, new next: TaskControlBlock)
      requires SameShape() && old(Shape()) && old(Ahead(c)) && IsBlock(b)
      requires forall i | Registered(i) && i != b.id :: Waits(i) == old(Waits(i))
      requires next == c || (next == b && b.priority > c.priority)
      requires next == c && b.priority > c.priority ==> b.state == old(b.state)
      ensures Ahead(next)
    {
      assert BlockShape(b.id);
      forall i | Registered(i) && blocks[i].priority > next.priority ensures Waits(i) {
        assert old(Waits(i));
      }
    }

    /** The packet on its way has reached the end of list pl. */
    twostate lemma PutLast(p: Packet, new pl: Place)
      requires old(Valid()) && old(Holding(p)) && SameShape() && SamePlaces(p, pl)
      requires !pl.Hand? && !pl.Pending? && p.at == pl && lists(pl) == old(lists(pl)) + [p]
      requires Chain(HeadOf(pl), lists(pl))
      requires forall x | x in packets && x != p && x !in old(lists(pl)) :: x.link == old(x.link)
      requires (pl.Work? ==> p.kind == KIND_WORK) && (pl.Spare? ==> p.kind != KIND_WORK)
      ensures (forall q :: ListOk(q)) && (forall x | x in packets :: PacketOk(x)) && Holding(null)
    {
      forall q ensures ListOk(q) {
        assert old(ListOk(q)) && old(ListOk(pl));
        if q != pl { SameList(q, old(lists(q))); }
      }
      forall x | x in packets ensures PacketOk(x) { assert old(PacketOk(x)); }
    }

    /** The head p of list pl is on its way. */
    twostate lemma TakeFirst(p: Packet, new pl: Place)
      requires old(Valid()) && old(Holding(null)) && SameShape() && SamePlaces(p, pl)
      requires old(HeadOf(pl)) == p && p.at == Hand && old(lists(pl)) != [] && lists(pl) == old(lists(pl))[1..]
      requires (pl.Pending? ==> HeadOf(pl) == null) && (!pl.Pending? ==> HeadOf(pl) == old(p.link))
      requires forall x | x in packets :: x.link == old(x.link)
      ensures (forall q :: ListOk(q)) && (forall x | x in packets :: PacketOk(x)) && Holding(p)
    {
      assert old(ListOk(pl));
      TakenFrom(p, pl, old(lists(pl)));
      forall q ensures ListOk(q) {
        assert old(ListOk(q));
        if q != pl { SameList(q, old(lists(q))); }
      }
      forall x | x in packets ensures PacketOk(x) { RestOk(p, pl, x); }
    }

    twostate lemma RestOk(new p: Packet, new pl: Place, x: Packet)
      requires x in packets && SameShape() && p.at == Hand && !pl.Hand? && old(PacketOk(x))
      requires old(lists(pl)) != [] && lists(pl) == old(lists(pl))[1..] && p == old(lists(pl))[0]
      requires forall q | q != pl :: lists(q) == old(lists(q))
      requires x.a1 == old(x.a1) && x.a2 == old(x.a2) && (x != p ==> x.at == old(x.at))
      ensures PacketOk(x)
    {
      if x != p && x.at == pl { InTail(x, old(lists(pl))); }
    }

    twostate lemma TakenFrom(new p: Packet, new pl: Place, was: seq<Packet>)
      requires was == old(lists(pl)) && SameShape() && old(Shape()) && old(ListOk(pl)) && Shape()
      requires forall x | x in packets && x != p :: x.at == old(x.at)
      requires old(HeadOf(pl)) == p && p.at == Hand && old(lists(pl)) != [] && lists(pl) == old(lists(pl))[1..]
      requires (pl.Pending? ==> HeadOf(pl) == null) && (!pl.Pending? ==> HeadOf(pl) == old(p.link))
      requires forall x | x in packets :: x.link == old(x.link)
      ensures ListOk(pl) && p in packets && old(p.at) == pl
    {
      assert old(ListOk(pl));
      assert was[0] == p;
      if !pl.Pending? {
        forall k | 0 <= k < |was| ensures Linked(was, k) { assert was[k] in packets && old(Linked(was, k)); }
        ChainTail(p, was);
        ChainDistinct(p, was);
        assert was[1..] == lists(pl);
      }
      forall k | 0 <= k < |lists(pl)| ensures lists(pl)[k] in packets && lists(pl)[k].at == pl {
        assert was[k + 1] == lists(pl)[k];
      }
    }

    /** A device keeps the packet on its way. */
    twostate lemma Keep(p: Packet, new i: int)
      requires old(Valid()) && old(Holding(p)) && SameShape() && SamePlaces(p, Pending(i))
      requires old(lists(Pending(i))) == [] && HeadOf(Pending(i)) == p && p.at == Pending(i)
      requires lists(Pending(i)) == [p] && forall x | x in packets :: x.link == old(x.link)
      ensures (forall q :: ListOk(q)) && (forall x | x in packets :: PacketOk(x)) && Holding(null)
    {
      forall q ensures ListOk(q) {
        assert old(ListOk(q));
        if q != Pending(i) { SameList(q, old(lists(q))); }
      }
      forall x | x in packets ensures PacketOk(x) { assert old(PacketOk(x)); }
    }

    /** The packet on its way, which no list holds, was filled in or addressed. */
    twostate lemma Edited(p: Packet)
      requires old(Valid()) && old(Holding(p)) && SameShape() && p.at.Hand? && PacketOk(p) && Registered(p.id)
      requires forall q :: lists(q) == old(lists(q)) && HeadOf(q) == old(HeadOf(q))
      requires forall x | x in packets && x != p :: x.link == old(x.link) && x.id == old(x.id)
                 && x.a1 == old(x.a1) && x.a2 == old(x.a2) && x.at == old(x.at)
      ensures (forall q :: ListOk(q)) && (forall x | x in packets :: PacketOk(x)) && Holding(p) && Closed()
    {
      forall q ensures ListOk(q) {
        assert old(ListOk(q));
        SameList(q, old(lists(q)));
      }
      forall x | x in packets ensures PacketOk(x) { assert old(PacketOk(x)); }
    }

    // the packet on its way is to carry the id of its sender
    method Sign(packet: Packet)
      requires Valid() && Holding(packet) && Running()
      modifies packet`link, packet`id
      ensures Valid() && Holding(packet) && packet.link == null && packet.id == currentId
    {
      hide Chain;
      hide Linked;
      hide Scheduler.ListOk;
      hide Scheduler.BlockShape;
      hide Scheduler.StackShape;
      hide Scheduler.HeadOf;
      hide Scheduler.StateOk;
      packet.link := null;
      packet.id := currentId;
      Edited(packet) by { assert old(PacketOk(packet)); }
    }

    // send the packet on its way to whom it names; the result is the block to go on with
    method Queue(packet: Packet) returns (next: TaskControlBlock)
      requires Valid() && Holding(packet) && Running() && Ahead(currentTcb)
      modifies `queueCount, `lists, packet`id, packet`at, packets`link, Block(packet.id)`queue, Block(packet.id)`state
      ensures Valid() && Holding(null) && Ahead(next) && queueCount == old(queueCount) + 1
      ensures Sent(packet, old(packet.id)) && Turn(old(packet.id), next) && Unmoved({packet})
      ensures forall q | q != Worklist(old(packet.id)) :: lists(q) == old(lists(q))
    {
      hide Chain;
      hide Linked;
      hide Scheduler.ListOk;
      hide Scheduler.PacketOk;
      hide Scheduler.BlockShape;
      hide Scheduler.StackShape;
      hide Scheduler.HeadOf;
      hide Scheduler.StateOk;
      hide Scheduler.Ahead;
      var t := blocks[packet.id];
      TargetIs(packet.id);
      queueCount := queueCount + 1;
      Sign(packet);
      next := t.CheckPriorityAdd(currentTcb, packet, this);
    }

    lemma TargetIs(i: int)
      requires Shape() && Registered(i)
      ensures blocks[i].id == i && IsBlock(blocks[i]) && blocks[i] in tcbs
    {
      assert BlockShape(i);
    }

    /** The packet on its way was added to the work list of block b. */
    twostate lemma Arrives(new b: TaskControlBlock, p: Packet)
      requires old(Valid()) && old(Holding(p)) && SameShape() && IsBlock(b) && b.Consistent()
      requires p.at == Worklist(b.id) && lists(Worklist(b.id)) == old(lists(Worklist(b.id))) + [p]
      requires Chain(b.queue, lists(Worklist(b.id)))
      requires forall q | q != Worklist(b.id) :: lists(q) == old(lists(q))
      requires forall x | x in tcbs && x != b :: x.queue == old(x.queue) && x.state == old(x.state)
      requires forall x | x in handlers :: x.v1 == old(x.v1) && x.v2 == old(x.v2)
      requires forall x | x in devices :: x.v1 == old(x.v1)
      requires forall x | x in packets :: x.id == old(x.id) && x.a1 == old(x.a1) && x.a2 == old(x.a2)
      requires forall x | x in packets && x != p :: x.at == old(x.at)
      requires forall x | x in packets && x != p && x !in old(lists(Worklist(b.id))) :: x.link == old(x.link)
      ensures Valid() && Holding(null)
      ensures forall i | Registered(i) && i != b.id :: Waits(i) == old(Waits(i))
    {
      TargetIs(b.id);
      OneOwner(b.id);
      PutLast(p, Worklist(b.id));
    }

    /** The current block is to run its task, for the packet or without one. */
    ghost predicate Serving(packet: Packet?)
      reads `blocks, `stack, `tcbs, `idles, `workers, `handlers, `devices, `list, tcbs, handlers, devices, `lists
      reads `packets, packets, `currentTcb, `currentId
    {
      && Valid() && Holding(packet) && Running() && Ahead(currentTcb)
      && !currentTcb.state.held && !currentTcb.state.suspended
      && BlockShape(currentTcb.id)
      && var task := currentTcb.task;
      && (packet != null ==> !task.Idle? && (task.Device? ==> task.device.v1 == null))
      && (task.Device? && task.device.v1 != null ==> task.device.v1 in packets)
    }

    ghost predicate Doing(task: Task)
      reads `currentTcb
    {
      currentTcb != null && currentTcb.task == task
    }
    twostate lemma EditedServes(p: Packet)
      requires old(Serving(p)) && SameShape() && currentTcb == old(currentTcb) && currentId == old(currentId)
      requires p.at.Hand? && PacketOk(p) && Registered(p.id) && forall q :: lists(q) == old(lists(q))
      requires forall x | x in tcbs :: x.queue == old(x.queue) && x.state == old(x.state)
      requires forall x | x in handlers :: x.v1 == old(x.v1) && x.v2 == old(x.v2)
      requires forall x | x in devices :: x.v1 == old(x.v1)
      requires forall x | x in packets && x != p :: x.link == old(x.link) && x.id == old(x.id)
                 && x.a1 == old(x.a1) && x.a2 == old(x.a2) && x.at == old(x.at)
      ensures Serving(p)
    {
      assert BlockShape(currentTcb.id) && old(StateOk(currentTcb.id));
      OneOwner(currentTcb.id);
      Edited(p);
    }

    /** The packet a device keeps is on its way. */
    twostate lemma KeptLeaves(d: DeviceTask, new v: Packet)
      requires old(Serving(null)) && Doing(Device(d)) && SameShape() && currentTcb == old(currentTcb) && currentId == old(currentId)
      requires old(d.v1) == v && d.v1 == null && v.at == Hand && lists(Pending(d.owner)) == []
      requires forall q | q != Pending(d.owner) :: lists(q) == old(lists(q))
      requires forall x | x in tcbs :: x.queue == old(x.queue) && x.state == old(x.state)
      requires forall x | x in handlers :: x.v1 == old(x.v1) && x.v2 == old(x.v2)
      requires forall x | x in devices && x != d :: x.v1 == old(x.v1)
      requires forall x | x in packets :: x.link == old(x.link) && x.id == old(x.id) && x.a1 == old(x.a1) && x.a2 == old(x.a2)
      requires forall x | x in packets && x != v :: x.at == old(x.at)
      ensures Serving(v)
    {
      assert BlockShape(currentTcb.id) && old(StateOk(currentTcb.id)) && old(ListOk(Pending(d.owner)));
      OneOwner(d.owner);
      TakeFirst(v, Pending(d.owner));
    }

    /** A device has taken the packet on its way. */
    twostate lemma KeptArrives(new d: DeviceTask, p: Packet)
      requires old(Serving(p)) && Doing(Device(d)) && SameShape() && currentTcb == old(currentTcb) && currentId == old(currentId)
      requires d.v1 == p && p.at == Pending(d.owner) && lists(Pending(d.owner)) == [p]
      requires forall q | q != Pending(d.owner) :: lists(q) == old(lists(q))
      requires forall x | x in tcbs :: x.queue == old(x.queue) && x.state == old(x.state)
      requires forall x | x in handlers :: x.v1 == old(x.v1) && x.v2 == old(x.v2)
      requires forall x | x in devices && x != d :: x.v1 == old(x.v1)
      requires forall x | x in packets :: x.link == old(x.link) && x.id == old(x.id) && x.a1 == old(x.a1) && x.a2 == old(x.a2)
      requires forall x | x in packets && x != p :: x.at == old(x.at)
      ensures Valid() && Holding(null) && Ahead(currentTcb)
    {
      assert BlockShape(currentTcb.id) && old(StateOk(currentTcb.id)) && old(ListOk(Pending(d.owner)));
      OneOwner(d.owner);
      Keep(p, d.owner);
    }

    lemma MyUnits()
      requires Shape() && currentTcb != null && IsBlock(currentTcb)
      ensures currentTcb in tcbs && currentTcb.id == Owner(currentTcb.task)
      ensures match currentTcb.task
        case Idle(x) => x in idles
        case Worker(x) => x in workers
        case Handler(x) => x in handlers
        case Device(x) => x in devices
    {
      assert BlockShape(currentTcb.id);
    }

    /** Of all the blocks' bits, only those of b changed. */
    twostate predicate OnlyState(b: TaskControlBlock, st: State)
      reads `tcbs, tcbs`state, b`state
    {
      tcbs == old(tcbs) && b.state == st && forall x | x in tcbs && x != b :: x.state == old(x.state)
    }

    twostate predicate Unmoved(new except: set<Packet?>)
      reads `packets, packets
    {
      packets == old(packets) && forall x | x in packets && x !in except :: x.at == old(x.at) && x.id == old(x.id) && x.a1 == old(x.a1)
    }

    /** All that happened is that the current task was suspended. */
    twostate predicate Suspended()
      reads `tcbs, `packets
      reads `currentTcb, tcbs`state, (if currentTcb != null then {currentTcb} else {})`state, packets
    {
      currentTcb != null && old(currentTcb) == currentTcb && Unmoved({}) && OnlyState(currentTcb, old(currentTcb.state).(suspended := true))
    }

    /** The packet p, and no other, is kept by the current task, which is held. */
    twostate predicate Kept(p: Packet)
      reads `tcbs, `packets
      reads `currentTcb, tcbs`state, (if currentTcb != null then {currentTcb} else {})`state, packets, p
    {
      && currentTcb != null && old(currentTcb) == currentTcb
      && p.at == Pending(currentTcb.id) && p.id == old(p.id) && p.a1 == old(p.a1) && Unmoved({p})
      && OnlyState(currentTcb, old(currentTcb.state).(held := true))
    }

    /** The packet p went to the end of the work list of the block of id i, which may run now. */
    twostate predicate Sent(p: Packet, i: int)
      reads `tcbs, `blocks, tcbs`state, (if Registered(i) then {Block(i)} else {})`state, p, `currentId, `lists
    {
      && blocks == old(blocks) && old(Registered(i)) && p.at == Worklist(i) && p.id == currentId
      && OnlyState(old(Block(i)), old(Block(i).state).(runnable := true))
      && lists(Worklist(i)) == old(lists(Worklist(i))) + [p]
    }

    /** Control goes to the block of id i if it had no packets and has priority over the current one. */
    twostate predicate Turn(i: int, new next: TaskControlBlock?)
      reads `blocks, `currentTcb
    {
      && old(Registered(i)) && currentTcb == old(currentTcb) && currentTcb != null
      && var t := old(Block(i)); next == if old(t.queue) == null && t.priority > currentTcb.priority then t else currentTcb
    }

    lemma SizeOf(p: Packet)
      requires Valid() && p in packets
      ensures PacketOk(p) && |p.a2| == DATA_SIZE
    {
      assert PacketOk(p);
    }

    lemma HandlersKnown()
      requires Valid()
      ensures Registered(ID_HANDLER_A) && Registered(ID_HANDLER_B)
    {}

    ghost predicate IsHead(p: Packet, pl: Place)
      reads `lists, `packets, p
    {
      && p in packets && p.at == pl && lists(pl) != [] && p == lists(pl)[0] && |p.a2| == DATA_SIZE
      && if pl.Work? then p.kind == KIND_WORK && 0 <= p.a1 <= DATA_SIZE else p.kind != KIND_WORK
    }

    /** What a handler knows of its two lists. */
    lemma HandlersLists(h: HandlerTask, p: Packet?)
      requires Serving(p) && Doing(Handler(h))
      ensures Shape() && h in handlers && h.owner == currentTcb.id && currentTcb in tcbs && (p != null ==> p in packets)
      ensures Chain(h.v1, lists(Work(h.owner))) && Chain(h.v2, lists(Spare(h.owner)))
      ensures forall x | x in lists(Work(h.owner)) :: x in packets && x != p
      ensures forall x | x in lists(Spare(h.owner)) :: x in packets && x != p
      ensures if h.v1 == null then lists(Work(h.owner)) == [] else IsHead(h.v1, Work(h.owner))
      ensures if h.v2 == null then lists(Spare(h.owner)) == [] else IsHead(h.v2, Spare(h.owner))
    {
      assert BlockShape(h.owner) && ListOk(Work(h.owner)) && ListOk(Spare(h.owner));
      assert h.v1 != null ==> PacketOk(h.v1);
      assert h.v2 != null ==> PacketOk(h.v2);
    }

    /** All that happened is that packet p, which was on its way, joined list pl of a handler. */
    twostate predicate Joined(p: Packet, pl: Place)
      reads `blocks, `stack, `tcbs, `idles, `workers, `handlers, `devices, `list, `packets, `lists
      reads tcbs, idles`count, handlers, devices, packets, p
    {
      && SameShape() && !pl.Hand? && p.at == pl && lists(pl) == old(lists(pl)) + [p]
      && (forall q | q != pl :: lists(q) == old(lists(q)))
      && (forall x | x in tcbs :: x.queue == old(x.queue) && x.state == old(x.state))
      && (forall x | x in idles :: x.count == old(x.count))
      && (forall x | x in handlers && x.owner != pl.id :: x.v1 == old(x.v1) && x.v2 == old(x.v2))
      && (forall x | x in devices :: x.v1 == old(x.v1))
      && (forall x | x in packets :: x.id == old(x.id) && x.a1 == old(x.a1) && x.a2 == old(x.a2))
      && (forall x | x in packets && x != p :: x.at == old(x.at) && (x !in old(lists(pl)) ==> x.link == old(x.link)))
    }

    /** A handler has put the packet on its way at the end of list pl. */
    twostate lemma Accepted(new h: HandlerTask, p: Packet, new pl: Place)
      requires old(Serving(p)) && Doing(Handler(h)) && currentTcb == old(currentTcb) && currentId == old(currentId)
      requires Joined(p, pl) && h in handlers && p in packets && Chain(if p.kind == KIND_WORK then h.v1 else h.v2, lists(pl))
      requires if p.kind == KIND_WORK then pl == Work(h.owner) && h.v2 == old(h.v2) else pl == Spare(h.owner) && h.v1 == old(h.v1)
      ensures Serving(null)
    {
      assert BlockShape(currentTcb.id) && old(StateOk(currentTcb.id));
      OneOwner(h.owner);
      PutLast(p, pl);
    }

    /** The first packet of a handler's list pl is on its way. */
    twostate lemma Given(new h: HandlerTask, p: Packet, new pl: Place)
      requires old(Serving(null)) && Doing(Handler(h)) && SameShape() && currentTcb == old(currentTcb) && currentId == old(currentId)
      requires pl == Work(h.owner) || pl == Spare(h.owner)
      requires p == (if pl.Work? then old(h.v1) else old(h.v2)) && p.at == Hand
      requires old(lists(pl)) != [] && lists(pl) == old(lists(pl))[1..]
      requires if pl.Work? then h.v1 == old(p.link) && h.v2 == old(h.v2) else h.v2 == old(p.link) && h.v1 == old(h.v1)
      requires forall q | q != pl :: lists(q) == old(lists(q))
      requires forall x | x in tcbs :: x.queue == old(x.queue) && x.state == old(x.state)
      requires forall x | x in handlers && x != h :: x.v1 == old(x.v1) && x.v2 == old(x.v2)
      requires forall x | x in devices :: x.v1 == old(x.v1)
      requires forall x | x in packets :: x.id == old(x.id) && x.a1 == old(x.a1) && x.a2 == old(x.a2) && x.link == old(x.link)
      requires forall x | x in packets && x != p :: x.at == old(x.at)
      ensures Serving(p)
    {
      assert BlockShape(currentTcb.id) && old(StateOk(currentTcb.id));
      OneOwner(h.owner);
      TakeFirst(p, pl);
    }

    lemma ServingTarget(p: Packet)
      requires Serving(p)
      ensures Valid() && Holding(p) && Running() && Ahead(currentTcb) && Registered(p.id)
      ensures IsBlock(blocks[p.id]) && blocks[p.id] in tcbs && p in packets
    {
      TargetIs(p.id);
    }

    lemma ServingNothing()
      requires Serving(null)
      ensures Valid() && Holding(null) && Running() && Ahead(currentTcb) && currentTcb in tcbs
      ensures !currentTcb.state.suspended && !currentTcb.state.held
      ensures Registered(ID_DEVICE_A) && Registered(ID_DEVICE_B) && blocks[ID_DEVICE_A] in tcbs && blocks[ID_DEVICE_B] in tcbs
    {
      TargetIs(ID_DEVICE_A);
      TargetIs(ID_DEVICE_B);
    }

    ghost predicate HasPackets(b: TaskControlBlock)
      reads b`queue, `lists, `packets, `tcbs, packets`at
    {
      && b in tcbs && b.queue != null && b.queue in packets && b.queue.at == Worklist(b.id)
      && lists(Worklist(b.id)) != [] && b.queue == lists(Worklist(b.id))[0]
    }

    /** What a block with a place in the list knows. */
    lemma Me(b: TaskControlBlock)
      requires Valid() && IsBlock(b)
      ensures b in tcbs && (b.state.runnable ==> HasPackets(b))
    {
      assert BlockShape(b.id) && StateOk(b.id) && ListOk(Worklist(b.id));
    }

    lemma ServesWithout(b: TaskControlBlock)
      requires Valid() && Holding(null) && Running() && currentTcb == b && Ahead(b)
      requires !b.IsHeldOrSuspended() && b.state != STATE_SUSPENDED_RUNNABLE
      ensures Serving(null)
    {
      assert BlockShape(b.id) && StateOk(b.id) && ListOk(Pending(b.id));
      if b.task.Device? && b.task.device.v1 != null {
        assert lists(Pending(b.id))[0] == b.task.device.v1;
      }
    }

    lemma IdleGetsNone(x: IdleTask, p: Packet?)
      requires Serving(p) && Doing(Idle(x))
      ensures p == null
    {}

    lemma ServesOwn(p: Packet?)
      requires Serving(p)
      ensures match currentTcb.task
        case Idle(x) => x in idles
        case Worker(x) => x in workers
        case Handler(x) => x in handlers
        case Device(x) => x in devices && (x.v1 != null ==> x.v1 in packets)
    {}

    /** The first packet of the work list of block b is on its way, and b runs. */
    twostate lemma Dequeued(new b: TaskControlBlock, p: Packet)
      requires old(Valid()) && old(Holding(null)) && old(Running()) && old(Ahead(currentTcb)) && SameShape()
      requires currentTcb == b && old(currentTcb) == b && currentId == old(currentId) && old(HasPackets(b))
      requires old(b.queue) == p && b.queue == old(p.link) && old(b.state) == STATE_SUSPENDED_RUNNABLE
      requires b.state == if b.queue == null then STATE_RUNNING else STATE_RUNNABLE
      requires p.at == Hand && lists(Worklist(b.id)) == old(lists(Worklist(b.id)))[1..]
      requires forall q | q != Worklist(b.id) :: lists(q) == old(lists(q))
      requires forall x | x in tcbs && x != b :: x.queue == old(x.queue) && x.state == old(x.state)
      requires forall x | x in handlers :: x.v1 == old(x.v1) && x.v2 == old(x.v2)
      requires forall x | x in devices :: x.v1 == old(x.v1)
      requires forall x | x in packets :: x.id == old(x.id) && x.a1 == old(x.a1) && x.a2 == old(x.a2) && x.link == old(x.link)
      requires forall x | x in packets && x != p :: x.at == old(x.at)
      ensures Serving(p)
    {
      assert BlockShape(b.id) && old(StateOk(b.id)) && old(ListOk(Pending(b.id)));
      OneOwner(b.id);
      TakeFirst(p, Worklist(b.id));
      assert ListOk(Pending(b.id));
    }

    // ---------- progress ----------

    ghost predicate IsWorker(i: int)
      reads `blocks
    {
      Registered(i) && blocks[i].task.Worker?
    }

    ghost predicate IsHandler(i: int)
      reads `blocks
    {
      Registered(i) && blocks[i].task.Handler?
    }

    ghost predicate IsDevice(i: int)
      reads `blocks
    {
      Registered(i) && blocks[i].task.Device?
    }

    /** Work packets travel between workers and handlers, other packets between handlers and devices:
        the id of a packet names whom to send it back to. */
    ghost predicate RoutedAt(p: Packet, pl: Place)
      reads `blocks, p`id
    {
      match pl
      case Hand => false
      case Worklist(i) =>
        if IsWorker(i) then p.kind == KIND_WORK
        else if IsHandler(i) then if p.kind == KIND_WORK then IsWorker(p.id) else IsDevice(p.id)
        else IsDevice(i) && p.kind != KIND_WORK && IsHandler(p.id)
      case Work(i) => IsWorker(p.id)
      case Spare(i) => IsDevice(p.id)
      case Pending(i) => p.kind != KIND_WORK && IsHandler(p.id)
    }

    /** A packet on its way counts as still in the list it was taken from. */
    ghost function Spot(p: Packet): Place
      reads p`at, `currentId
    {
      if p.at.Hand? then Worklist(currentId) else p.at
    }

    ghost predicate IsHeld(i: int)
      requires Shape()
      reads `blocks, `stack, `tcbs, `idles, `workers, `handlers, `devices, `list, tcbs`state
    {
      Registered(i) && (assert BlockShape(i); blocks[i].state.held)
    }

    /** How many moves a packet has left before it has to wait: for a device to be released if it
        is not a work packet, for other packets if it is. */
    ghost function RankAt(p: Packet, pl: Place): nat
      requires Shape()
      reads `blocks, `stack, `tcbs, `idles, `workers, `handlers, `devices, `list, tcbs`state, p`a1
    {
      match pl
      case Hand => 0
      case Worklist(i) =>
        if p.kind == KIND_WORK then (if IsWorker(i) then 2 else if p.a1 < DATA_SIZE then 1 else 4)
        else if IsDevice(i) then 1 else 3
      case Work(i) => if p.kind == KIND_WORK && p.a1 >= DATA_SIZE then 3 else 0
      case Spare(i) => 2
      case Pending(i) => if IsHeld(i) then 0 else 4
    }

    ghost function Rank(p: Packet): nat
      requires Shape()
      reads `blocks, `stack, `tcbs, `idles, `workers, `handlers, `devices, `list, tcbs`state, `currentId, p`a1, p`at
    {
      RankAt(p, Spot(p))
    }

    /** One element for each move left to a packet. */
    ghost function Moves(work: bool): set<(Packet, int)>
      requires Shape()
      reads `blocks, `stack, `tcbs, `idles, `workers, `handlers, `devices, `list, tcbs`state, `currentId
      reads `packets, packets`a1, packets`at
    {
      set p, k | p in packets && 0 <= k < 4 && work == (p.kind == KIND_WORK) && k < Rank(p) :: (p, k)
    }

    /** How often the idle task of block i is still to run. */
    ghost function Turns(i: int): int
      requires Shape()
      reads `blocks, `stack, `tcbs, `idles, `workers, `handlers, `devices, `list, tcbs`state, idles`count
    {
      if Registered(i) && (assert BlockShape(i); blocks[i].task.Idle?) && !IsHeld(i) then blocks[i].task.idle.count else 0
    }

    ghost function Wakes(i: int): int
      requires Shape()
      reads `blocks, `stack, `tcbs, `idles, `workers, `handlers, `devices, `list, tcbs`state
    {
      if Registered(i) && (assert BlockShape(i); !blocks[i].state.suspended) then 1 else 0
    }

    ghost function AllTurns(): int
      requires Shape()
      reads `blocks, `stack, `tcbs, `idles, `workers, `handlers, `devices, `list, tcbs`state, idles`count
    {
      Turns(0) + Turns(1) + Turns(2) + Turns(3) + Turns(4) + Turns(5)
    }

    ghost function AllWakes(): int
      requires Shape()
      reads `blocks, `stack, `tcbs, `idles, `workers, `handlers, `devices, `list, tcbs`state
    {
      Wakes(0) + Wakes(1) + Wakes(2) + Wakes(3) + Wakes(4) + Wakes(5)
    }

    ghost predicate Routed()
      requires Shape()
      reads `blocks, `stack, `tcbs, `idles, `workers, `handlers, `devices, `list, tcbs`state, idles`count, `currentId
      reads `packets, packets`id, packets`at
    {
      && IsHandler(ID_HANDLER_A) && IsHandler(ID_HANDLER_B) && IsDevice(ID_DEVICE_A) && IsDevice(ID_DEVICE_B)
      && (forall p | p in packets :: RoutedAt(p, Spot(p)))
      && forall i | Registered(i) && blocks[i].task.Idle? && !IsHeld(i) :: Turns(i) > 0
    }

    ghost function Left(): Remaining
      requires Shape()
      reads `blocks, `stack, `tcbs, `idles, `workers, `handlers, `devices, `list, tcbs`state, idles`count, `currentId
      reads `packets, packets`a1, packets`at
    {
      Remaining(AllTurns(), Moves(false), Moves(true), AllWakes())
    }

    twostate predicate Progress(byPacket: bool)
      reads `blocks, `stack, `tcbs, `idles, `workers, `handlers, `devices, `list, tcbs`state, idles`count, `currentId
      reads `packets, packets`a1, packets`at, packets`id
    {
      old(Shape()) && Shape() && SameShape() && (old(Routed()) ==> Routed() && Less(Left(), old(Left()), byPacket))
    }

    twostate lemma MovesShrink(work: bool)
      requires old(Shape()) && SameShape()
      requires forall p | p in packets && work == (p.kind == KIND_WORK) :: Rank(p) <= old(Rank(p))
      ensures Moves(work) <= old(Moves(work))
    {}

    twostate lemma MovesFall(new work: bool, q: Packet)
      requires old(Shape()) && SameShape() && q in packets && work == (q.kind == KIND_WORK) && Rank(q) < old(Rank(q))
      requires forall p | p in packets && work == (p.kind == KIND_WORK) :: Rank(p) <= old(Rank(p))
      ensures Moves(work) < old(Moves(work))
    {
      MovesShrink(work);
      assert (q, Rank(q)) in old(Moves(work)) && (q, Rank(q)) !in Moves(work);
    }

    /** No idle task ran, and only tasks that are not idle may have become held. */
    twostate predicate TurnsKept()
      requires SameShape()
      reads `blocks, `stack, `tcbs, `idles, `workers, `handlers, `devices, `list, `packets, tcbs`state, idles`count
    {
      && (forall x | x in idles :: x.count == old(x.count))
      && forall b | b in tcbs :: b.state.held == old(b.state.held) || (b.state.held && !b.task.Idle?)
    }

    twostate lemma SameTurns(i: int)
      requires old(Shape()) && SameShape() && TurnsKept()
      ensures Turns(i) == old(Turns(i)) && (old(IsHeld(i)) ==> IsHeld(i))
      ensures Registered(i) && blocks[i].task.Idle? ==> IsHeld(i) == old(IsHeld(i))
    {
      if Registered(i) { assert BlockShape(i); }
    }

    /** Packet q moved on, or if there is none the current task was suspended. */
    twostate lemma Progressed(q: Packet?, new byPacket: bool)
      requires old(Shape()) && SameShape() && currentId == old(currentId) && TurnsKept()
      requires old(Routed()) ==> forall p | p in packets :: RoutedAt(p, Spot(p))
      requires old(Routed()) ==> forall p | p in packets && p.kind != KIND_WORK :: Rank(p) <= old(Rank(p))
      requires old(Routed()) && (q == null || q.kind == KIND_WORK) ==>
        forall p | p in packets && p.kind == KIND_WORK :: Rank(p) <= old(Rank(p))
      requires if q == null then !byPacket && AllWakes() < old(AllWakes())
               else old(Routed()) ==> q in packets && Rank(q) < old(Rank(q))
      ensures Progress(byPacket)
    {
      if old(Routed()) {
        AllTurnsKept();
        hide Scheduler.Rank;
        MovesShrink(false);
        if q != null && q.kind != KIND_WORK { MovesFall(false, q); } else { MovesShrink(true); }
        if q != null && q.kind == KIND_WORK { MovesFall(true, q); }
        hide Scheduler.Moves;
        hide Scheduler.AllTurns;
        hide Scheduler.AllWakes;
      }
    }

    twostate lemma AllTurnsKept()
      requires old(Shape()) && SameShape() && TurnsKept()
      requires old(forall i | Registered(i) && blocks[i].task.Idle? && !IsHeld(i) :: Turns(i) > 0)
      ensures AllTurns() == old(AllTurns())
      ensures forall i | Registered(i) && blocks[i].task.Idle? && !IsHeld(i) :: Turns(i) > 0
    {
      forall i ensures Turns(i) == old(Turns(i)) { SameTurns(i); }
      forall i | Registered(i) && blocks[i].task.Idle? && !IsHeld(i) ensures Turns(i) > 0 { SameTurns(i); }
    }

    twostate lemma SuspendProgress()
      requires old(Shape()) && SameShape() && currentTcb != null && currentTcb == old(currentTcb) && IsBlock(currentTcb)
      requires currentId == old(currentId) && !old(currentTcb.state.suspended) && Suspended()
      requires forall x | x in idles :: x.count == old(x.count)
      ensures Progress(false)
    {
      var c := currentTcb.id;
      assert BlockShape(c);
      assert TurnsKept();
      forall j ensures Wakes(j) == old(Wakes(j)) - if j == c then 1 else 0 {
        if Registered(j) { assert BlockShape(j); }
      }
      SpotsKept({}, null);
      Progressed(null, false);
    }

    /** Packets that were left alone keep their rank; work packets may have been marked when a
        device packet moves. */
    twostate lemma SpotsKept(new except: set<Packet?>, q: Packet?)
      requires old(Shape()) && SameShape() && currentId == old(currentId) && TurnsKept()
      requires forall x | x in packets && x !in except ::
        x.at == old(x.at) && x.id == old(x.id) && (x.a1 == old(x.a1) || (q != null && q.kind != KIND_WORK))
      ensures forall x | x in packets && x !in except && (q == null || q.kind == KIND_WORK || x.kind != KIND_WORK) ::
        Rank(x) <= old(Rank(x))
      ensures old(Routed()) ==> forall x | x in packets && x !in except :: RoutedAt(x, Spot(x))
    {
      forall x | x in packets && x !in except && (q == null || q.kind == KIND_WORK || x.kind != KIND_WORK)
        ensures Rank(x) <= old(Rank(x))
      {
        if Spot(x).Pending? { SameTurns(Spot(x).id); }
      }
    }

    /** Packet p, taken from where it was, went to the work list of block i. */
    twostate lemma SentProgress(p: Packet, new i: int)
      requires old(Shape()) && SameShape() && currentId == old(currentId) && p in packets && Sent(p, i)
      requires forall x | x in idles :: x.count == old(x.count)
      requires forall x | x in packets && x != p ::
        x.at == old(x.at) && x.id == old(x.id) && (x.a1 == old(x.a1) || p.kind != KIND_WORK)
      requires old(Routed()) ==> RoutedAt(p, Worklist(i)) && RankAt(p, Worklist(i)) < old(Rank(p))
      ensures Progress(true)
    {
      assert TurnsKept();
      SpotsKept({p}, p);
      Progressed(p, true);
    }

    twostate lemma KeepProgress(p: Packet)
      requires old(Shape()) && SameShape() && currentId == old(currentId) && p in packets && old(p.at) == Hand
      requires currentTcb != null && currentTcb == old(currentTcb) && IsBlock(currentTcb) && currentId == currentTcb.id
      requires currentTcb.task.Device? && Kept(p) && forall x | x in idles :: x.count == old(x.count)
      ensures Progress(true)
    {
      assert BlockShape(currentId);
      assert TurnsKept();
      SpotsKept({p}, p);
      assert old(Routed()) ==> old(RoutedAt(p, Spot(p)));
      Progressed(p, true);
    }

    /** The packet on its way joined one of the lists of a handler. */
    twostate lemma JoinProgress(p: Packet, new pl: Place)
      requires old(Shape()) && SameShape() && currentId == old(currentId) && p in packets && old(p.at) == Hand && p.at == pl
      requires pl == if p.kind == KIND_WORK then Work(currentId) else Spare(currentId)
      requires IsHandler(currentId) && forall x | x in idles :: x.count == old(x.count)
      requires forall b | b in tcbs :: b.state == old(b.state)
      requires forall x | x in packets :: x.id == old(x.id) && x.a1 == old(x.a1) && (x != p ==> x.at == old(x.at))
      ensures Progress(true)
    {
      assert TurnsKept();
      SpotsKept({p}, p);
      assert old(Routed()) ==> old(RoutedAt(p, Spot(p)));
      Progressed(p, true);
    }

    twostate lemma ForwardProgress(d: DeviceTask, new v: Packet)
      requires old(Serving(null)) && Doing(Device(d)) && old(d.v1) == v && v in packets && SameShape()
      requires currentId == old(currentId) && currentTcb == old(currentTcb)
      requires Sent(v, old(v.id)) && Unmoved({v}) && v.a1 == old(v.a1) && forall x | x in idles :: x.count == old(x.count)
      ensures Progress(true)
    {
      assert BlockShape(currentId) && old(ListOk(Pending(currentId)));
      assert old(lists(Pending(currentId)))[0] == v;
      assert old(Routed()) ==> old(RoutedAt(v, Spot(v)));
      SentProgress(v, old(v.id));
    }

    twostate lemma WorkerProgress(new x: WorkerTask, p: Packet, new i: int)
      requires old(Serving(p)) && Doing(Worker(x)) && p in packets && SameShape() && (i == ID_HANDLER_A || i == ID_HANDLER_B)
      requires currentId == old(currentId) && currentTcb == old(currentTcb)
      requires Sent(p, i) && Unmoved({p}) && p.a1 == 0 && forall x | x in idles :: x.count == old(x.count)
      ensures Progress(true)
    {
      assert BlockShape(currentId);
      assert old(Routed()) ==> old(RoutedAt(p, Spot(p)));
      SentProgress(p, i);
    }

    twostate lemma WorkProgress(new h: HandlerTask, v: Packet)
      requires old(Serving(null)) && Doing(Handler(h)) && SameShape() && currentId == old(currentId) && currentTcb == old(currentTcb)
      requires old(IsHead(v, Work(h.owner))) && old(v.a1) >= DATA_SIZE && Sent(v, old(v.id)) && v.a1 == old(v.a1) && Unmoved({v})
      requires forall x | x in idles :: x.count == old(x.count)
      ensures Progress(false)
    {
      assert BlockShape(currentId);
      assert old(Routed()) ==> old(RoutedAt(v, Spot(v)));
      SentProgress(v, old(v.id));
    }

    twostate lemma SpareProgress(new h: HandlerTask, new w: Packet, v: Packet)
      requires old(Serving(null)) && Doing(Handler(h)) && SameShape() && currentId == old(currentId) && currentTcb == old(currentTcb)
      requires old(IsHead(v, Spare(h.owner))) && Sent(v, old(v.id)) && Unmoved({v, w})
      requires w in packets && w.at == old(w.at) && w.id == old(w.id) && forall x | x in idles :: x.count == old(x.count)
      ensures Progress(false)
    {
      assert BlockShape(currentId);
      assert old(Routed()) ==> old(RoutedAt(v, Spot(v)));
      SentProgress(v, old(v.id));
    }

    twostate lemma AcceptProgress(new h: HandlerTask, p: Packet, new pl: Place)
      requires old(Serving(p)) && Doing(Handler(h)) && p in packets && Joined(p, pl)
      requires pl == if p.kind == KIND_WORK then Work(h.owner) else Spare(h.owner)
      requires currentId == old(currentId) && currentTcb == old(currentTcb)
      ensures Progress(true)
    {
      assert BlockShape(currentId);
      JoinProgress(p, pl);
    }

    twostate lemma HeldProgress(x: IdleTask)
      requires old(Serving(null)) && Doing(Idle(x)) && SameShape() && currentId == old(currentId) && currentTcb == old(currentTcb)
      requires old(x.count) == 1 && forall y | y in idles && y != x :: y.count == old(y.count)
      requires OnlyState(currentTcb, old(currentTcb.state).(held := true))
      requires forall p | p in packets :: p.at == old(p.at) && p.id == old(p.id)
      ensures Progress(false)
    {
      hide Scheduler.Moves;
      hide Scheduler.Rank;
      hide Scheduler.RankAt;
      hide Scheduler.RoutedAt;
      hide Scheduler.AllWakes;
      if old(Routed()) {
        forall j ensures Turns(j) == if j == currentId then 0 else old(Turns(j)) {
          if Registered(j) { assert BlockShape(j); }
        }
        assert old(Turns(currentId)) == 1;
        assert Routed() by {
          forall i | Registered(i) && blocks[i].task.Idle? && !IsHeld(i) ensures Turns(i) > 0 {
            assert BlockShape(i) && !old(IsHeld(i));
          }
        }
      }
    }

    twostate lemma ReleaseProgress(x: IdleTask, new d: int)
      requires old(Serving(null)) && Doing(Idle(x)) && SameShape() && currentId == old(currentId) && currentTcb == old(currentTcb)
      requires x.count == old(x.count) - 1 && old(x.count) != 1 && forall y | y in idles && y != x :: y.count == old(y.count)
      requires (d == ID_DEVICE_A || d == ID_DEVICE_B) && OnlyState(Block(d), old(Block(d).state).(held := false))
      requires forall p | p in packets :: p.at == old(p.at) && p.id == old(p.id)
      ensures Progress(false)
    {
      hide Scheduler.Moves;
      hide Scheduler.Rank;
      hide Scheduler.RankAt;
      hide Scheduler.RoutedAt;
      hide Scheduler.AllWakes;
      if old(Routed()) {
        forall j ensures Turns(j) == old(Turns(j)) - if j == currentId then 1 else 0 {
          if Registered(j) { assert BlockShape(j); }
        }
        assert Routed() by {
          forall i | Registered(i) && blocks[i].task.Idle? && !IsHeld(i) ensures Turns(i) > 0 {
            assert BlockShape(i) && old(Turns(i)) > 0;
          }
        }
      }
    }

    twostate predicate SameMeasure()
      reads `blocks, `stack, `tcbs, `idles, `workers, `handlers, `devices, `list, tcbs`state, idles`count, `currentId
      reads `packets, packets`a1, packets`at, packets`id
    {
      old(Shape()) && Shape() && SameShape() && Routed() == old(Routed()) && Left() == old(Left()).(awake := Left().awake)
    }

    /** Taking a packet from the work list of the current task leaves it at its spot. */
    twostate lemma DequeueKeeps(new b: TaskControlBlock, p: Packet)
      requires old(Shape()) && SameShape() && currentId == old(currentId) == b.id
      requires p in packets && old(p.at) == Worklist(b.id) && p.at == Hand && IsBlock(b)
      requires b.state.held == old(b.state.held) && forall x | x in tcbs && x != b :: x.state == old(x.state)
      requires forall x | x in idles :: x.count == old(x.count)
      requires forall x | x in packets :: x.id == old(x.id) && x.a1 == old(x.a1) && (x != p ==> x.at == old(x.at))
      ensures SameMeasure()
    {
      assert forall x | x in packets :: Spot(x) == old(Spot(x));
      assert TurnsKept();
      forall j ensures Turns(j) == old(Turns(j)) && IsHeld(j) == old(IsHeld(j)) {
        if Registered(j) { assert BlockShape(j); }
      }
      SameRanks();
    }

    /** Every packet is in one list, once; the links from the head of that list lead to it. */
    lemma Conserved(p: Packet)
      requires Valid() && Holding(null) && p in packets
      ensures !p.at.Hand? && p in lists(p.at) && forall q | p in lists(q) :: q == p.at
      ensures forall i, j | 0 <= i < j < |lists(p.at)| :: lists(p.at)[i] != lists(p.at)[j]
      ensures !p.at.Pending? ==> Chain(HeadOf(p.at), lists(p.at))
    {
      assert PacketOk(p) && ListOk(p.at);
      forall q | p in lists(q) ensures q == p.at { assert ListOk(q); }
      if !p.at.Pending? { ChainDistinct(HeadOf(p.at), lists(p.at)); }
    }

    /** A task that runs is the one of the highest priority that is not blocked. */
    lemma StrictPriority(c: TaskControlBlock, i: int)
      requires Valid() && Ahead(c) && Registered(i) && !Waits(i)
      ensures i == c.id || blocks[i].priority < c.priority
    {
      assert BlockShape(i) && BlockShape(c.id);
      if blocks[i].depth < c.depth { assert stack[blocks[i].depth].priority < stack[c.depth].priority; }
    }

    // ---------- the loop ----------

    /** Naming the task that is to run does not move a packet while none is on its way. */
    twostate lemma NamingKeeps()
      requires old(Valid()) && old(Holding(null)) && SameShape()
      requires forall x | x in tcbs :: x.state == old(x.state)
      requires forall x | x in idles :: x.count == old(x.count)
      requires forall x | x in packets :: x.id == old(x.id) && x.a1 == old(x.a1) && x.at == old(x.at)
      ensures SameMeasure() && Left() == old(Left())
    {
      assert forall x | x in packets :: Spot(x) == old(Spot(x));
      forall j ensures Turns(j) == old(Turns(j)) && IsHeld(j) == old(IsHeld(j)) && Wakes(j) == old(Wakes(j)) {
        if Registered(j) { assert BlockShape(j); }
      }
      SameRanks();
    }

    twostate lemma SameRanks()
      requires old(Shape()) && SameShape() && forall j :: IsHeld(j) == old(IsHeld(j))
      requires forall x | x in packets :: x.a1 == old(x.a1) && Spot(x) == old(Spot(x))
      ensures Moves(false) == old(Moves(false)) && Moves(true) == old(Moves(true))
    {
      assert forall x | x in packets :: Rank(x) == old(Rank(x));
    }

    /** One turn of the loop: a blocked task is passed over, any other one runs. */
    method Step()
      requires Valid() && Holding(null) && Ahead(currentTcb) && currentTcb != null
      modifies `currentTcb, `currentId, `queueCount, `holdCount, `lists, packets, tcbs, idles, workers, handlers, devices
      ensures Valid() && Holding(null) && Ahead(currentTcb)
      ensures old(currentTcb.IsHeldOrSuspended()) ==> currentTcb == old(currentTcb.link) && SameMeasure() && Left() == old(Left())
      ensures old(currentTcb.IsHeldOrSuspended()) && currentTcb != null ==> currentTcb.depth < old(currentTcb).depth
      ensures !old(currentTcb.IsHeldOrSuspended()) ==> Progress(false)
      ensures old(Cycling()) ==> Cycling()
    {
      hide IdleTask.Cycled;
      hide Scheduler.Valid;
      hide Scheduler.Shape;
      hide Scheduler.Routed;
      hide Scheduler.Left;
      hide Scheduler.Ahead;
      var b: TaskControlBlock := currentTcb;
      BlockOf(b);
      if b.IsHeldOrSuspended() {
        Skip(b);
        currentTcb := b.link;
        NamingKeeps();
      } else {
        currentId := b.id;
        NamingKeeps();
        currentTcb := b.Run(this);
      }
    }

    lemma BlockOf(b: TaskControlBlock)
      requires Valid() && Ahead(b)
      ensures IsBlock(b)
    {}

    lemma Skip(b: TaskControlBlock)
      requires Valid() && Ahead(b) && b.IsHeldOrSuspended()
      ensures Ahead(b.link) && (b.link != null ==> b.link.depth == b.depth - 1)
    {
      assert BlockShape(b.id) && StackShape(b.depth);
      NextInLine(b);
      if b.depth > 0 { assert StackShape(b.depth - 1); }
    }

    lemma TurnsBounded()
      requires Shape() && Routed()
      ensures Left().turns >= 0 && Left().awake >= 0
    {
      forall i ensures Turns(i) >= 0 { if Registered(i) { assert BlockShape(i); } }
    }

    /** The loop ends, and then every task is blocked. */
    method Schedule()
      requires Valid() && Holding(null) && Routed()
      modifies `currentTcb, `currentId, `queueCount, `holdCount, `lists, packets, tcbs, idles, workers, handlers, devices
      ensures Valid() && Holding(null) && Routed()
      ensures currentTcb == null && forall i | Registered(i) :: Waits(i)
      ensures old(Cycling()) ==> Cycling()
    {
      hide IdleTask.Cycled;
      hide Scheduler.Valid;
      hide Scheduler.Shape;
      hide Scheduler.Routed;
      hide Scheduler.Left;
      hide Scheduler.Ahead;
      hide Scheduler.Holding;
      ValidShape();
      StartAhead();
      currentTcb := list;
      while currentTcb != null
        invariant Shape() && Valid() && Holding(null) && Routed() && Ahead(currentTcb)
        invariant old(Cycling()) ==> Cycling()
        decreases Left().turns, Left().spare, Left().work, Left().awake, if currentTcb == null then 0 else currentTcb.depth + 1
      {
        TurnsBounded();
        Step();
      }
      AllWait();
    }

    lemma ValidShape()
      requires Valid()
      ensures Shape()
    {}

    lemma AllWait()
      requires Valid() && Ahead(null)
      ensures forall i | Registered(i) :: Waits(i)
    {}

    lemma StartAhead()
      requires Valid()
      ensures Ahead(list)
    {
      if list != null { assert StackShape(|stack| - 1); }
      forall i | Registered(i) ensures list != null && blocks[i].priority <= list.priority {
        assert BlockShape(i);
      }
    }

    // ---------- adding tasks ----------

    constructor ()
      ensures Built() && Holding(null) && |blocks| == NUMBER_OF_IDS && stack == [] && packets == {} && tcbs == {}
      ensures idles == {} && workers == {}
      ensures handlers == {} && devices == {} && forall i | 0 <= i < NUMBER_OF_IDS :: blocks[i] == null
    {
      queueCount, holdCount := 0, 0;
      blocks := seq(NUMBER_OF_IDS, _ => null);
      list, currentTcb := null, null;
      currentId := -1;
      stack, tcbs, idles, workers, handlers, devices, packets := [], {}, {}, {}, {}, {}, {};
      lists := _ => [];
    }

    /** Valid, but for ids of tasks that are still to be added. */
    ghost predicate Built()
      reads `blocks, `stack, `tcbs, `idles, `workers, `handlers, `devices, `list, tcbs, handlers, devices, `lists
      reads `packets, packets
    {
      && Shape()
      && (forall pl :: ListOk(pl))
      && (forall p | p in packets :: PacketOk(p))
      && (forall i | Registered(i) :: StateOk(i))
    }

    /** A task that holds nothing yet. */
    ghost predicate Unused(task: Task)
      reads match task case Handler(x) => {x} case _ => {}
      reads match task case Device(x) => {x} case _ => {}
    {
      match task
      case Handler(x) => x.v1 == null && x.v2 == null
      case Device(x) => x.v1 == null
      case _ => true
    }

    ghost predicate BuiltBut(i: int)
      reads `blocks, `stack, `tcbs, `idles, `workers, `handlers, `devices, `list, tcbs, handlers, devices, `lists
      reads `packets, packets
    {
      && Shape()
      && (forall pl :: ListOk(pl))
      && (forall p | p in packets :: PacketOk(p))
      && (forall j | Registered(j) && j != i :: StateOk(j))
    }

    method AddTask(id: int, priority: int, queue: Packet?, task: Task, ghost s: seq<Packet>)
      requires Built() && Holding(null) && Room(id, priority) && Incoming(queue, s) && Owner(task) == id && Unused(task)
      modifies `currentTcb, `list, `blocks, `stack, `tcbs, `idles, `workers, `handlers, `devices, `packets, `lists, s`at
      ensures BuiltBut(id) && Holding(null)
      ensures AddedLast(id, priority, s) && fresh(currentTcb) && currentTcb.task == task && currentTcb.queue == queue
      ensures currentTcb.state == if queue == null then STATE_SUSPENDED else STATE_SUSPENDED_RUNNABLE
    {
      hide Chain;
      hide Linked;
      hide Scheduler.Built;
      hide Scheduler.BuiltBut;
      hide Scheduler.Shape;
      BuiltShape();
      var b := new TaskControlBlock(list, id, priority, queue, task, |stack|);
      PutInFront(b);
      Receive(id, s);
      Added(b, id, s);
    }

    method PutInFront(b: TaskControlBlock)
      requires Shape() && 0 <= b.id < NUMBER_OF_IDS && !Registered(b.id) && b !in tcbs && Owner(b.task) == b.id
      requires b.link == list && b.depth == |stack| && forall d | 0 <= d < |stack| :: stack[d].priority < b.priority
      modifies `currentTcb, `list, `blocks, `stack, `tcbs, `idles, `workers, `handlers, `devices
      ensures NewInFront(b, b.id) && currentTcb == b
    {
      currentTcb := b;
      list := currentTcb;
      blocks := blocks[b.id := currentTcb];
      stack, tcbs := stack + [b], tcbs + {b};
      idles := idles + (match b.task case Idle(x) => {x} case _ => {});
      workers := workers + (match b.task case Worker(x) => {x} case _ => {});
      handlers := handlers + (match b.task case Handler(x) => {x} case _ => {});
      devices := devices + (match b.task case Device(x) => {x} case _ => {});
    }

    ghost method Receive(i: int, s: seq<Packet>)
      modifies `packets, `lists, s`at
      ensures packets == old(packets) + AsSet(s) && forall p | p in s :: p.at == Worklist(i)
      ensures lists(Worklist(i)) == s && forall q | q != Worklist(i) :: lists(q) == old(lists(q))
    {
      packets := packets + AsSet(s);
      lists := With(lists, Worklist(i), s);
      forall p | p in s { p.at := Worklist(i); }
    }

    /** Block b was put in front for id i, the other blocks and tasks are as before. */
    twostate predicate NewInFront(new b: TaskControlBlock, i: int)
      reads `blocks, `stack, `tcbs, `idles, `workers, `handlers, `devices, `list
    {
      && old(Shape()) && 0 <= i < NUMBER_OF_IDS && !old(Registered(i)) && b !in old(tcbs)
      && blocks == old(blocks)[i := b] && stack == old(stack) + [b] && list == b && tcbs == old(tcbs) + {b}
      && b.id == i && b.link == old(list) && b.depth == |old(stack)| && Owner(b.task) == i
      && (forall d | 0 <= d < |old(stack)| :: old(stack)[d].priority < b.priority)
      && idles == old(idles) + (match b.task case Idle(x) => {x} case _ => {})
      && workers == old(workers) + (match b.task case Worker(x) => {x} case _ => {})
      && handlers == old(handlers) + (match b.task case Handler(x) => {x} case _ => {})
      && devices == old(devices) + (match b.task case Device(x) => {x} case _ => {})
    }

    twostate lemma AddedShape(new b: TaskControlBlock, new i: int)
      requires NewInFront(b, i)
      ensures Shape()
    {
      forall j | Registered(j) ensures BlockShape(j) {
        if j != i { assert old(BlockShape(j)); }
      }
      forall d | 0 <= d < |stack| ensures StackShape(d) {
        if d < |old(stack)| { assert old(StackShape(d)); }
      }
    }

    twostate lemma AddedHeads(new b: TaskControlBlock, new i: int)
      requires NewInFront(b, i) && Unused(b.task)
      requires forall x | x in old(tcbs) :: x.queue == old(x.queue)
      requires forall x | x in old(handlers) :: x.v1 == old(x.v1) && x.v2 == old(x.v2)
      requires forall x | x in old(devices) :: x.v1 == old(x.v1)
      ensures Shape()
      ensures forall q :: HeadOf(q) == if q == Worklist(i) then b.queue else old(HeadOf(q))
    {
      AddedShape(b, i);
      forall q ensures HeadOf(q) == if q == Worklist(i) then b.queue else old(HeadOf(q)) {
        if !q.Hand? && Registered(q.id) {
          assert BlockShape(q.id);
          if q.id != i { assert old(BlockShape(q.id)); }
        }
      }
    }

    twostate lemma Added(new b: TaskControlBlock, new i: int, s: seq<Packet>)
      requires old(Built()) && old(Holding(null)) && NewInFront(b, i) && Unused(b.task)
      requires forall x | x in old(tcbs) :: x.queue == old(x.queue) && x.state == old(x.state)
      requires forall x | x in old(handlers) :: x.v1 == old(x.v1) && x.v2 == old(x.v2)
      requires forall x | x in old(devices) :: x.v1 == old(x.v1)
      requires forall x | x in old(packets) :: x.a1 == old(x.a1) && x.a2 == old(x.a2) && x.at == old(x.at) && x.link == old(x.link)
      requires Chain(b.queue, s) && lists(Worklist(i)) == s && forall q | q != Worklist(i) :: lists(q) == old(lists(q))
      requires packets == old(packets) + AsSet(s)
      requires forall p | p in s :: p !in old(packets) && |p.a2| == DATA_SIZE && p.a1 == 0 && p.at == Worklist(i)
      ensures BuiltBut(i) && Holding(null)
    {
      AddedHeads(b, i);
      forall q ensures ListOk(q) {
        assert old(ListOk(q));
        if q != Worklist(i) && !q.Pending? {
          forall k | 0 <= k < |lists(q)| ensures Linked(lists(q), k) { assert old(Linked(lists(q), k)); }
        }
      }
      assert old(ListOk(Worklist(i)));
      forall p | p in packets ensures PacketOk(p) { assert p in old(packets) ==> old(PacketOk(p)); }
      forall j | Registered(j) && j != i ensures StateOk(j) { assert BlockShape(j) && old(StateOk(j)) && old(BlockShape(j)); }
    }

    lemma BuiltShape()
      requires Built()
      ensures Shape()
    {}

    lemma BuiltAgain(i: int)
      requires BuiltBut(i) && Registered(i) && Block(i).Consistent()
      ensures Built()
    {
      assert BlockShape(i);
    }

    /** The last task added. */
    twostate predicate AddedLast(id: int, priority: int, new s: seq<Packet>)
      reads `blocks, `stack, `tcbs, `idles, `workers, `handlers, `devices, `list, `currentTcb, `packets, `lists, s`at
    {
      && lists(Worklist(id)) == s && (forall q | q != Worklist(id) :: lists(q) == old(lists(q)))
      && currentTcb != null && NewInFront(currentTcb, id) && currentTcb.priority == priority
      && packets == old(packets) + AsSet(s) && forall p | p in s :: p.at == Worklist(id)
    }

    /** What was there keeps its place and what it holds. */
    twostate predicate Steady()
      reads `packets, packets, `idles, idles, `workers, workers
    {
      && (forall x | x in idles && x in old(idles) :: x.v1 == old(x.v1) && x.count == old(x.count) && x.shifts == old(x.shifts))
      && (forall x | x in workers && x in old(workers) :: x.v1 == old(x.v1) && x.v2 == old(x.v2))
      && forall p | p in packets && p in old(packets) :: p.at == old(p.at) && p.id == old(p.id)
    }

    ghost predicate Room(id: int, priority: int)
      reads `blocks, `stack
    {
      && |blocks| == NUMBER_OF_IDS && 0 <= id < NUMBER_OF_IDS && !Registered(id)
      && forall d | 0 <= d < |stack| :: stack[d].priority < priority
    }

    ghost predicate Incoming(queue: Packet?, s: seq<Packet>)
      reads `packets, s
    {
      Chain(queue, s) && forall p | p in s :: p !in packets && |p.a2| == DATA_SIZE && p.a1 == 0
    }

    // mark a block without packets as running
    method SetRunning(b: TaskControlBlock)
      requires BuiltBut(b.id) && IsBlock(b) && b.queue == null && (b.task.Device? ==> b.task.device.v1 == null)
      modifies b`state
      ensures Built() && b.state == STATE_RUNNING
    {
      assert BlockShape(b.id);
      b.state := STATE_RUNNING;
      forall j | Registered(j) && j != b.id ensures StateOk(j) { assert BlockShape(j) && old(StateOk(j)); }
      BuiltAgain(b.id);
    }

    method AddIdleTask(id: int, priority: int, count: int)
      requires Built() && Holding(null) && Room(id, priority)
      modifies `currentTcb, `list, `blocks, `stack, `tcbs, `idles, `workers, `handlers, `devices, `packets, `lists
      ensures Built() && Holding(null) && AddedLast(id, priority, []) && currentTcb.state == STATE_RUNNING
      ensures fresh(currentTcb) && currentTcb.task.Idle? && fresh(currentTcb.task.idle) && currentTcb.task.idle.Cycled()
      ensures var x := currentTcb.task.idle; x.count == x.turns == count && x.v1 == x.seed == 1
      ensures Steady()
    {
      hide Scheduler.Built;
      hide Scheduler.BuiltBut;
      var x := new IdleTask(id, 1, count);
      EmptyChain();
      AddTask(id, priority, null, Idle(x), []);
      SetRunning(currentTcb);
    }

    method AddWorkerTask(id: int, priority: int, queue: Packet?, ghost s: seq<Packet>)
      requires Built() && Holding(null) && Room(id, priority) && Incoming(queue, s)
      modifies `currentTcb, `list, `blocks, `stack, `tcbs, `idles, `workers, `handlers, `devices, `packets, `lists, s`at
      ensures Built() && Holding(null) && AddedLast(id, priority, s) && currentTcb.task.Worker?
      ensures fresh(currentTcb) && fresh(currentTcb.task.worker)
      ensures currentTcb.task.worker.v1 == ID_HANDLER_A && currentTcb.task.worker.v2 == 0
      ensures Steady() && forall p | p in s :: p.id == old(p.id)
    {
      hide Scheduler.Built;
      hide Scheduler.BuiltBut;
      var x := new WorkerTask(id, ID_HANDLER_A, 0);
      AddTask(id, priority, queue, Worker(x), s);
      BuiltAgain(id);
    }

    method AddHandlerTask(id: int, priority: int, queue: Packet?, ghost s: seq<Packet>)
      requires Built() && Holding(null) && Room(id, priority) && Incoming(queue, s)
      modifies `currentTcb, `list, `blocks, `stack, `tcbs, `idles, `workers, `handlers, `devices, `packets, `lists, s`at
      ensures Built() && Holding(null) && AddedLast(id, priority, s) && currentTcb.task.Handler?
      ensures fresh(currentTcb) && fresh(currentTcb.task.handler)
      ensures Steady() && forall p | p in s :: p.id == old(p.id)
    {
      hide Scheduler.Built;
      hide Scheduler.BuiltBut;
      var x := new HandlerTask(id);
      AddTask(id, priority, queue, Handler(x), s);
      BuiltAgain(id);
    }

    method AddDeviceTask(id: int, priority: int, queue: Packet?, ghost s: seq<Packet>)
      requires Built() && Holding(null) && Room(id, priority) && Incoming(queue, s)
      modifies `currentTcb, `list, `blocks, `stack, `tcbs, `idles, `workers, `handlers, `devices, `packets, `lists, s`at
      ensures Built() && Holding(null) && AddedLast(id, priority, s) && currentTcb.task.Device?
      ensures fresh(currentTcb) && fresh(currentTcb.task.device)
      ensures Steady() && forall p | p in s :: p.id == old(p.id)
    {
      hide Scheduler.Built;
      hide Scheduler.BuiltBut;
      var x := new DeviceTask(id);
      AddTask(id, priority, queue, Device(x), s);
      BuiltAgain(id);
    }

    /** Once every id has its task, and the packets are addressed to where they are to be sent back. */
    lemma Ready()
      requires Built() && |blocks| == NUMBER_OF_IDS && Registered(ID_IDLE) && blocks[ID_IDLE].task.Idle?
      requires blocks[ID_IDLE].task.idle.count > 0 && IsWorker(ID_WORKER)
      requires IsHandler(ID_HANDLER_A) && IsHandler(ID_HANDLER_B) && IsDevice(ID_DEVICE_A) && IsDevice(ID_DEVICE_B)
      requires forall p | p in packets :: p.at.Worklist? && RoutedAt(p, p.at) && Registered(p.id)
      ensures Valid() && Routed()
    {
      forall i | Registered(i) && blocks[i].task.Idle? && !IsHeld(i) ensures Turns(i) > 0 {
        assert i == ID_IDLE;
      }
    }
  }

  lemma EmptyChain()
    ensures Chain(null, [])
  {}
}
