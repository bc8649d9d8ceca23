/** The tasks and packets that the benchmark sets up, and a whole run (richards.js:330-364). */
module RichardsRun {
  import opened Richards

  // two packets to start with, the second one in front
  method TwoPackets(id: int, kind: int) returns (queue: Packet, ghost s: seq<Packet>)
    ensures Chain(queue, s) && |s| == 2 && (forall k | 0 <= k < 2 :: fresh(s[k])) && forall p | p in s :: Fresh(p, id, kind)
    ensures |AsSet(s)| == |s|
  {
    var a := new Packet(null, id, kind);
    queue := new Packet(a, id, kind);
    s := [queue, a];
    assert Linked(s, 0) && Linked(s, 1);
    assert AsSet(s) == {queue, a};
  }

  method ThreePackets(id: int, kind: int) returns (queue: Packet, ghost s: seq<Packet>)
    ensures Chain(queue, s) && |s| == 3 && (forall k | 0 <= k < 3 :: fresh(s[k])) && forall p | p in s :: Fresh(p, id, kind)
    ensures |AsSet(s)| == |s|
  {
    var a := new Packet(null, id, kind);
    var b := new Packet(a, id, kind);
    queue := new Packet(b, id, kind);
    s := [queue, b, a];
    assert Linked(s, 0) && Linked(s, 1) && Linked(s, 2);
    assert AsSet(s) == {queue, b, a};
  }

  ghost predicate Fresh(p: Packet, id: int, kind: int)
    reads p`id, p`a1, p`a2
  {
    p.id == id && p.kind == kind && |p.a2| == DATA_SIZE && p.a1 == 0
  }

  const COUNT := 1000

  /** The first n tasks of the benchmark are in place, and their packets. */
  ghost predicate Loaded(s: Scheduler, n: int)
    reads s, s.tcbs, s.idles, s.workers, s.handlers, s.devices, s.packets
  {
    Arranged(s, n) && Started(s, n) && Supplied(s, n)
  }

  ghost predicate Arranged(s: Scheduler, n: int)
    reads s, s.tcbs, s.idles, s.handlers, s.devices, s.packets
  {
    && s.Built() && s.Holding(null) && |s.blocks| == NUMBER_OF_IDS && 0 <= n <= NUMBER_OF_IDS && |s.stack| == n
    && (forall i | 0 <= i < NUMBER_OF_IDS :: if i < n then s.blocks[i] == s.stack[i] else s.blocks[i] == null)
    && (forall i | 0 <= i < n :: s.stack[i].priority == 1000 * i && Planned(i, s.stack[i].task))
    && (n > 0 ==> s.stack[0].task.idle in s.idles && s.stack[0].task.idle.count == COUNT)
    && forall p | p in s.packets :: PlannedPacket(p)
  }

  /** They start with what the benchmark gives them. */
  ghost predicate Started(s: Scheduler, n: int)
    reads s, s.idles, s.workers
  {
    && 0 <= n <= |s.stack| && (n <= ID_IDLE ==> s.idles == {})
    && (n > ID_IDLE ==> var t := s.stack[ID_IDLE].task; t.Idle? && s.idles == {t.idle} && Starts(t.idle) && t.idle.Cycled())
    && (n > ID_WORKER ==> var t := s.stack[ID_WORKER].task; t.Worker? && t.worker in s.workers && Unstarted(t.worker))
  }

  ghost predicate Supplied(s: Scheduler, n: int)
    reads s
  {
    n >= 0 && (forall i | 0 <= i < n :: |s.lists(Worklist(i))| == PacketsOf(i)) && |s.packets| == PacketsBefore(n)
  }

  /** The idle task is to have COUNT turns, the register starts from 1. */
  ghost predicate Starts(x: IdleTask)
    reads x
  {
    x.count == x.turns == COUNT && x.seed == 1
  }

  predicate Unstarted(x: WorkerTask)
    reads x
  {
    x.v1 == ID_HANDLER_A && x.v2 == 0
  }

  function PacketsOf(i: int): int {
    if i == ID_WORKER then 2 else if i == ID_HANDLER_A || i == ID_HANDLER_B then 3 else 0
  }

  function PacketsBefore(n: nat): int {
    if n == 0 then 0 else PacketsBefore(n - 1) + PacketsOf(n - 1)
  }

  predicate Planned(i: int, task: Task) {
    if i == ID_IDLE then task.Idle?
    else if i == ID_WORKER then task.Worker?
    else if i == ID_HANDLER_A || i == ID_HANDLER_B then task.Handler?
    else task.Device?
  }

  ghost predicate PlannedPacket(p: Packet)
    reads p`id, p`at
  {
    AddressedIn(p, p.at)
  }

  /** What the packets in a work list are for. */
  predicate AddressedIn(p: Packet, pl: Place)
    reads p`id
  {
    || (pl == Worklist(ID_WORKER) && p.kind == KIND_WORK && p.id == ID_WORKER)
    || (pl == Worklist(ID_HANDLER_A) && p.kind == KIND_DEVICE && p.id == ID_DEVICE_A)
    || (pl == Worklist(ID_HANDLER_B) && p.kind == KIND_DEVICE && p.id == ID_DEVICE_B)
  }

  /** Task n of the plan and its packets were added. */
  twostate lemma ArrangedNext(s: Scheduler, new n: int, new q: seq<Packet>)
    requires old(Arranged(s, n)) && n < NUMBER_OF_IDS && s.Built() && s.Holding(null) && s.AddedLast(n, 1000 * n, q)
    requires Planned(n, s.currentTcb.task) && (n == 0 ==> s.currentTcb.task.idle.count == COUNT)
    requires s.Steady()
    requires forall p | p in q :: AddressedIn(p, Worklist(n))
    ensures Arranged(s, n + 1)
  {
  }

  twostate lemma StartedNext(s: Scheduler, new n: int, new q: seq<Packet>)
    requires old(Started(s, n)) && |old(s.stack)| == n && s.AddedLast(n, 1000 * n, q) && s.Steady()
    requires match s.currentTcb.task
      case Idle(x) => n == ID_IDLE && Starts(x) && x.Cycled()
      case Worker(x) => n == ID_WORKER && Unstarted(x)
      case _ => n != ID_IDLE && n != ID_WORKER
    ensures Started(s, n + 1)
  {}

  twostate lemma SuppliedNext(s: Scheduler, new n: int, new q: seq<Packet>)
    requires old(Supplied(s, n)) && s.AddedLast(n, 1000 * n, q)
    requires |q| == |AsSet(q)| == PacketsOf(n) && forall p | p in q :: p !in old(s.packets)
    ensures Supplied(s, n + 1)
  {
    hide Scheduler.Shape;
    hide Scheduler.NewInFront;
    assert old(s.packets) !! AsSet(q);
    assert |s.packets| == |old(s.packets)| + |AsSet(q)| by { hide AsSet; }
  }

  /** Task n of the plan was added, with its packets; the others are as they were. */
  twostate lemma AddedNext(s: Scheduler, new n: int, new q: seq<Packet>)
    requires old(Loaded(s, n)) && n < NUMBER_OF_IDS
    requires s.Built() && s.Holding(null) && s.AddedLast(n, 1000 * n, q) && Planned(n, s.currentTcb.task)
    requires n == ID_IDLE ==> Starts(s.currentTcb.task.idle) && s.currentTcb.task.idle.Cycled()
    requires n == ID_WORKER ==> Unstarted(s.currentTcb.task.worker)
    requires s.Steady()
    requires |q| == |AsSet(q)| == PacketsOf(n) && forall p | p in q :: p !in old(s.packets) && AddressedIn(p, Worklist(n))
    ensures Loaded(s, n + 1)
  {
    hide Scheduler.Shape;
    hide Scheduler.Built;
    hide Scheduler.Holding;
    hide Scheduler.NewInFront;
    hide Scheduler.Steady;
    hide IdleTask.Cycled;
    hide AddressedIn;
    ArrangedNext(s, n, q);
    StartedNext(s, n, q);
    SuppliedNext(s, n, q);
  }

  /** Everything that scheduler s got was new. */
  twostate predicate Grown(s: Scheduler)
    reads s
  {
    && fresh(s.tcbs - old(s.tcbs)) && fresh(s.idles - old(s.idles)) && fresh(s.workers - old(s.workers))
    && fresh(s.handlers - old(s.handlers)) && fresh(s.devices - old(s.devices)) && fresh(s.packets - old(s.packets))
  }

  /** What else adding a task changed. */
  twostate lemma AddedSets(s: Scheduler, new n: int, new q: seq<Packet>)
    requires s.AddedLast(n, 1000 * n, q)
    ensures s.currentTcb != null && s.tcbs == old(s.tcbs) + {s.currentTcb} && s.packets == old(s.packets) + AsSet(q)
    ensures match s.currentTcb.task
      case Idle(x) => s.idles == old(s.idles) + {x} && s.workers == old(s.workers) && s.handlers == old(s.handlers) && s.devices == old(s.devices)
      case Worker(x) => s.workers == old(s.workers) + {x} && s.idles == old(s.idles) && s.handlers == old(s.handlers) && s.devices == old(s.devices)
      case Handler(x) => s.handlers == old(s.handlers) + {x} && s.idles == old(s.idles) && s.workers == old(s.workers) && s.devices == old(s.devices)
      case Device(x) => s.devices == old(s.devices) + {x} && s.idles == old(s.idles) && s.workers == old(s.workers) && s.handlers == old(s.handlers)
  {}

  method LoadIdle(s: Scheduler)
    requires Loaded(s, ID_IDLE)
    modifies s
    ensures Loaded(s, ID_WORKER) && Grown(s)
  {
    hide Loaded;
    hide Scheduler.AddedLast;
    PutIdle(s);
    AddedSets(s, ID_IDLE, []);
  }

  method PutIdle(s: Scheduler)
    requires Loaded(s, ID_IDLE)
    modifies s
    ensures Loaded(s, ID_WORKER) && s.AddedLast(ID_IDLE, 0, [])
    ensures fresh(s.currentTcb) && s.currentTcb.task.Idle? && fresh(s.currentTcb.task.idle)
  {
    HasRoom(s, ID_IDLE);
    assert AsSet([]) == {};
    hide Loaded;
    hide AsSet;
    hide Scheduler.Shape;
    hide Scheduler.Holding;
    hide Scheduler.Room;
    hide IdleTask.Cycled;
    hide Scheduler.AddedLast;
    hide Scheduler.NewInFront;
    hide Scheduler.Steady;
    hide Scheduler.Built;
    s.AddIdleTask(ID_IDLE, 0, COUNT);
    AddedNext(s, ID_IDLE, []);
  }

  lemma HasRoom(s: Scheduler, n: int)
    requires Loaded(s, n) && n < NUMBER_OF_IDS
    ensures s.Built() && s.Holding(null) && s.Room(n, 1000 * n) && |s.stack| == n
  {}

  /** New packets for task id. */
  ghost predicate Delivery(s: Scheduler, id: int, queue: Packet, q: seq<Packet>)
    reads s`packets, q
  {
    s.Incoming(queue, q) && |q| == |AsSet(q)| == PacketsOf(id)
    && forall p | p in q :: p !in s.packets && AddressedIn(p, Worklist(id))
  }

  method LoadWorker(s: Scheduler)
    requires Loaded(s, ID_WORKER)
    modifies s
    ensures Loaded(s, ID_HANDLER_A) && Grown(s)
  {
    hide Loaded;
    hide Chain;
    hide Scheduler.Built;
    hide Scheduler.AddedLast;
    var queue, q := TwoPackets(ID_WORKER, KIND_WORK);
    assert Delivery(s, ID_WORKER, queue, q);
    label put:
    PutWorker(s, queue, q);
    AddedSets@put(s, ID_WORKER, q);
  }

  method PutWorker(s: Scheduler, queue: Packet, ghost q: seq<Packet>)
    requires Loaded(s, ID_WORKER) && Delivery(s, ID_WORKER, queue, q)
    modifies s, q`at
    ensures Loaded(s, ID_HANDLER_A) && s.AddedLast(ID_WORKER, 1000, q)
    ensures fresh(s.currentTcb) && s.currentTcb.task.Worker? && fresh(s.currentTcb.task.worker)
  {
    HasRoom(s, ID_WORKER);
    hide Loaded;
    hide AsSet;
    hide Scheduler.Shape;
    hide Scheduler.Holding;
    hide Scheduler.Room;
    hide Scheduler.Incoming;
    hide Scheduler.AddedLast;
    hide Scheduler.NewInFront;
    hide Scheduler.Steady;
    hide Scheduler.Built;
    hide AddressedIn;
    s.AddWorkerTask(ID_WORKER, 1000, queue, q);
    AddedNext(s, ID_WORKER, q);
  }

  method LoadHandler(s: Scheduler, id: int, device: int, priority: int)
    requires Loaded(s, id) && priority == 1000 * id
    requires (id == ID_HANDLER_A && device == ID_DEVICE_A) || (id == ID_HANDLER_B && device == ID_DEVICE_B)
    modifies s
    ensures Loaded(s, id + 1) && Grown(s)
  {
    hide Loaded;
    hide Chain;
    hide Scheduler.Built;
    hide Scheduler.AddedLast;
    var queue, q := ThreePackets(device, KIND_DEVICE);
    assert Delivery(s, id, queue, q);
    label put:
    PutHandler(s, id, priority, queue, q);
    AddedSets@put(s, id, q);
  }

  method PutHandler(s: Scheduler, id: int, priority: int, queue: Packet, ghost q: seq<Packet>)
    requires Loaded(s, id) && priority == 1000 * id && (id == ID_HANDLER_A || id == ID_HANDLER_B) && Delivery(s, id, queue, q)
    modifies s, q`at
    ensures Loaded(s, id + 1) && s.AddedLast(id, priority, q)
    ensures fresh(s.currentTcb) && s.currentTcb.task.Handler? && fresh(s.currentTcb.task.handler)
  {
    HasRoom(s, id);
    hide Loaded;
    hide AsSet;
    hide Scheduler.Shape;
    hide Scheduler.Holding;
    hide Scheduler.Room;
    hide Scheduler.Incoming;
    hide Scheduler.AddedLast;
    hide Scheduler.NewInFront;
    hide Scheduler.Steady;
    hide Scheduler.Built;
    s.AddHandlerTask(id, priority, queue, q);
    AddedNext(s, id, q);
  }

  method LoadDevice(s: Scheduler, id: int, priority: int)
    requires Loaded(s, id) && priority == 1000 * id && (id == ID_DEVICE_A || id == ID_DEVICE_B)
    modifies s
    ensures Loaded(s, id + 1) && Grown(s)
  {
    hide Loaded;
    hide Scheduler.AddedLast;
    PutDevice(s, id, priority);
    AddedSets(s, id, []);
  }

  method PutDevice(s: Scheduler, id: int, priority: int)
    requires Loaded(s, id) && priority == 1000 * id && (id == ID_DEVICE_A || id == ID_DEVICE_B)
    modifies s
    ensures Loaded(s, id + 1) && s.AddedLast(id, priority, [])
    ensures fresh(s.currentTcb) && s.currentTcb.task.Device? && fresh(s.currentTcb.task.device)
  {
    HasRoom(s, id);
    EmptyChain();
    assert s.Incoming(null, []);
    hide Loaded;
    assert AsSet([]) == {};
    hide AsSet;
    hide Scheduler.Incoming;
    hide Scheduler.Shape;
    hide Scheduler.Holding;
    hide Scheduler.Room;
    hide IdleTask.Cycled;
    hide Scheduler.AddedLast;
    hide Scheduler.NewInFront;
    hide Scheduler.Steady;
    hide Scheduler.Built;
    s.AddDeviceTask(id, priority, null, []);
    AddedNext(s, id, []);
  }

  method NewScheduler() returns (s: Scheduler)
    ensures fresh(s) && Loaded(s, 0) && s.packets == {} && s.tcbs == {} && s.idles == {} && s.workers == {}
    ensures s.handlers == {} && s.devices == {}
  {
    s := new Scheduler();
  }

  method LoadDevices(s: Scheduler)
    requires Loaded(s, ID_DEVICE_A)
    modifies s
    ensures Loaded(s, NUMBER_OF_IDS) && Grown(s)
  {
    hide Loaded;
    LoadDevice(s, ID_DEVICE_A, 4000);
    LoadDevice(s, ID_DEVICE_B, 5000);
  }

  method LoadHandlers(s: Scheduler)
    requires Loaded(s, ID_HANDLER_A)
    modifies s
    ensures Loaded(s, ID_DEVICE_A) && Grown(s)
  {
    hide Loaded;
    LoadHandler(s, ID_HANDLER_A, ID_DEVICE_A, 2000);
    LoadHandler(s, ID_HANDLER_B, ID_DEVICE_B, 3000);
  }

  // all tasks and packets that the benchmark sets up
  method Setup() returns (s: Scheduler)
    ensures fresh(s) && fresh(s.tcbs) && fresh(s.idles) && fresh(s.workers) && fresh(s.handlers) && fresh(s.devices)
    ensures fresh(s.packets) && Loaded(s, NUMBER_OF_IDS)
  {
    s := NewScheduler();
    hide Loaded;
    LoadIdle(s);
    LoadWorker(s);
    LoadHandlers(s);
    LoadDevices(s);
  }

  /** The benchmark ends, with every task blocked and every packet still in one of the lists. */
  method RunRichards() returns (s: Scheduler)
    ensures fresh(s) && Finished(s)
  {
    hide Loaded;
    hide Finished;
    s := Setup();
    RunLoaded(s);
  }

  ghost predicate Finished(s: Scheduler)
    reads s, s.tcbs, s.idles, s.workers, s.handlers, s.devices, s.packets
  {
    && s.Valid() && s.Holding(null) && s.currentTcb == null && (forall i | 0 <= i < NUMBER_OF_IDS :: s.Registered(i) && s.Waits(i))
    && |s.packets| == 8 && (forall p | p in s.packets :: !p.at.Hand? && p in s.lists(p.at))
    && s.Block(ID_IDLE).task.Idle? && var x := s.Block(ID_IDLE).task.idle; x.Cycled() && x.seed == 1 && x.turns == COUNT
  }

  method RunLoaded(s: Scheduler)
    requires Loaded(s, NUMBER_OF_IDS)
    modifies s, s.packets, s.tcbs, s.idles, s.workers, s.handlers, s.devices
    ensures Finished(s)
  {
    AllLoaded(s);
    hide Loaded;
    s.Schedule();
    InTheirLists(s);
  }

  lemma InTheirLists(s: Scheduler)
    requires s.Valid() && s.Holding(null)
    ensures forall p | p in s.packets :: !p.at.Hand? && p in s.lists(p.at)
  {
    forall p | p in s.packets ensures !p.at.Hand? && p in s.lists(p.at) { s.Conserved(p); }
  }

  lemma AllLoaded(s: Scheduler)
    requires Loaded(s, NUMBER_OF_IDS)
    ensures s.Valid() && s.Holding(null) && s.Routed() && forall i | 0 <= i < NUMBER_OF_IDS :: s.Registered(i)
    ensures s.Cycling() && |s.packets| == 8 && s.Block(ID_IDLE).task.Idle?
    ensures var x := s.Block(ID_IDLE).task.idle; x in s.idles && x.seed == 1 && x.turns == COUNT
  {
    assert forall i | 0 <= i < NUMBER_OF_IDS :: Planned(i, s.blocks[i].task);
    s.Ready();
  }
}
