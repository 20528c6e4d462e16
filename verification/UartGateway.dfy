/**
 The Ethernet-to-UART gateway (network.c, and the receive path of server.c) as a small concurrent system: TCP data is
 queued per connection in a pool of three slots, the main loop hands the queues to the UART one chunk at a time by
 DMA, and the interrupt at the end of a transfer lets it go on. check_uart_data_pool is broken at every point where
 an interrupt could come between two accesses to what they share.
 */
module UartGateway {
  import opened Packets

  const SLOTS: nat := 3

  datatype Conn = Conn(ip: nat, port: nat)
  datatype Chunk = Chunk(conn: Conn, data: seq<bv8>)
  datatype Slot = Slot(dirty: bool, ongoing: bool, conn: Conn, queue: seq<Chunk>)

  // The transmit channel: enabled, its interrupt enabled, the transfer over, and what it was loaded with.
  datatype Dma = Dma(enabled: bool, irq: bool, ended: bool, chunk: Chunk)

  datatype Cursor = Null | At(slot: nat)

  // Where the main loop is in check_uart_data_pool; Rest is outside it.
  datatype Pc = Rest | Release | Resume | Load | Arm | Pick

  // `received` and `credited` count bytes taken from TCP and reported back with tcp_recved; `pbufs` and `pbufsFreed`
  // name the buffers they came in. `arrived` lists the chunks queued, `wire` those transmitted, `freed` those released.
  datatype Log = Log(received: nat, credited: nat, pbufs: seq<nat>, pbufsFreed: seq<nat>,
                     arrived: seq<Chunk>, wire: seq<Chunk>, freed: seq<Chunk>)

  datatype Gateway = Gateway(slots: seq<Slot>, cur: Cursor, dma: Dma, pc: Pc, log: Log)

  datatype Event = Main | Finish | Interrupt | Receive(conn: Conn, packet: Packet, mallocOk: bool)

  predicate Shaped(g: Gateway) {
    |g.slots| == SLOTS && (g.cur.At? ==> g.cur.slot < SLOTS)
  }

  function Blank(): Slot {
    Slot(false, false, Conn(0, 0), [])
  }

  function Initial(): Gateway {
    Gateway([Blank(), Blank(), Blank()], Null, Dma(false, false, false, Chunk(Conn(0, 0), [])), Rest,
            Log(0, 0, [], [], [], [], []))
  }

  /* The main loop. */

  // The first dirty slot from i on, or SLOTS.
  function FirstDirty(slots: seq<Slot>, i: nat): (k: nat)
    requires i <= |slots|
    ensures i <= k <= |slots|
    ensures k < |slots| ==> slots[k].dirty
    ensures forall j :: i <= j < k ==> !slots[j].dirty
    decreases |slots| - i
  {
    if i == |slots| || slots[i].dirty then i else FirstDirty(slots, i + 1)
  }

  function MainStep(g: Gateway): (r: Gateway)
    requires Shaped(g)
    ensures Shaped(r)
  {
    match g.pc
    case Rest =>
      if g.cur.Null? then g.(pc := Pick)
      else if g.slots[g.cur.slot].dirty && !g.slots[g.cur.slot].ongoing then g.(pc := Release)
      else g
    case Release =>
      if g.cur.Null? || g.slots[g.cur.slot].queue == [] then g.(pc := Resume)
      else
        var s := g.slots[g.cur.slot];
        g.(slots := g.slots[g.cur.slot := s.(queue := s.queue[1..])], pc := Resume,
           log := g.log.(credited := g.log.credited + |s.queue[0].data|, freed := g.log.freed + [s.queue[0]]))
    case Resume =>
      if g.cur.Null? then g.(pc := Pick)
      else
        var s := g.slots[g.cur.slot];
        if s.queue != [] then g.(slots := g.slots[g.cur.slot := s.(ongoing := true)], pc := Load)
        else g.(slots := g.slots[g.cur.slot := Slot(false, s.ongoing, Conn(0, 0), [])], cur := Null, pc := Pick)
    case Pick =>
      var k := FirstDirty(g.slots, 0);
      if k == SLOTS then g.(pc := Rest)
      else if g.slots[k].queue == [] then g.(cur := At(k), pc := Rest)
      else g.(slots := g.slots[k := g.slots[k].(ongoing := true)], cur := At(k), pc := Load)
    case Load =>
      if g.dma.enabled || g.cur.Null? || g.slots[g.cur.slot].queue == [] then g.(pc := Rest)
      else g.(dma := Dma(true, g.dma.irq, false, g.slots[g.cur.slot].queue[0]), pc := Arm)
    case Arm => g.(dma := g.dma.(irq := true), pc := Rest)
  }

  /* The hardware and the interrupt handler. */

  function FinishTransfer(g: Gateway): Gateway {
    if g.dma.enabled && !g.dma.ended
    then g.(dma := g.dma.(ended := true), log := g.log.(wire := g.log.wire + [g.dma.chunk]))
    else g
  }

  predicate InterruptDue(g: Gateway) {
    g.dma.irq && g.dma.enabled && g.dma.ended
  }

  function Handler(g: Gateway): (r: Gateway)
    requires Shaped(g)
    ensures Shaped(r)
  {
    var slots := if g.cur.At? then g.slots[g.cur.slot := g.slots[g.cur.slot].(ongoing := false)] else g.slots;
    g.(slots := slots, dma := g.dma.(enabled := false, irq := false))
  }

  /* server_recv. */

  // The slot of a connection from i on, or SLOTS.
  function SlotOf(slots: seq<Slot>, conn: Conn, i: nat): (k: nat)
    requires i <= |slots|
    ensures i <= k <= |slots|
    ensures k < |slots| ==> slots[k].dirty && slots[k].conn == conn
    ensures forall j :: i <= j < k ==> !(slots[j].dirty && slots[j].conn == conn)
    decreases |slots| - i
  {
    if i == |slots| || (slots[i].dirty && slots[i].conn == conn) then i else SlotOf(slots, conn, i + 1)
  }

  function FirstClean(slots: seq<Slot>, i: nat): (k: nat)
    requires i <= |slots|
    ensures i <= k <= |slots|
    ensures k < |slots| ==> !slots[k].dirty
    ensures forall j :: i <= j < k ==> slots[j].dirty
    decreases |slots| - i
  {
    if i == |slots| || !slots[i].dirty then i else FirstClean(slots, i + 1)
  }

  function Took(log: Log, packet: Packet): Log {
    log.(received := log.received + |packet.data|, pbufs := log.pbufs + [packet.pbuf])
  }

  function Credited(log: Log, packet: Packet): Log {
    log.(credited := log.credited + |packet.data|)
  }

  function Freed(log: Log, packet: Packet): Log {
    log.(pbufsFreed := log.pbufsFreed + [packet.pbuf])
  }

  // Without a slot, and without memory, the data is credited and the pbuf freed on the spot; an upgrade packet is
  // credited once it has been handled. All but those two returns go through the pbuf_free at the end.
  function Accept(g: Gateway, conn: Conn, packet: Packet, mallocOk: bool): (r: Gateway)
    requires Shaped(g)
    ensures Shaped(r)
  {
    var log := Took(g.log, packet);
    if IsUpgrade(packet) then g.(log := Freed(Credited(log, packet), packet))
    else
      var known := SlotOf(g.slots, conn, 0);
      var k := if known < SLOTS then known else FirstClean(g.slots, 0);
      if k == SLOTS then g.(log := Freed(Credited(log, packet), packet))
      else
        var s := if known < SLOTS then g.slots[k] else g.slots[k].(conn := conn);
        if !mallocOk then g.(slots := g.slots[k := s], log := Freed(Credited(log, packet), packet))
        else
          var chunk := Chunk(conn, packet.data);
          g.(slots := g.slots[k := s.(queue := s.queue + [chunk], dirty := true)],
             log := Freed(log.(arrived := log.arrived + [chunk]), packet))
  }

  // The main loop and the receive callback run in one thread; the interrupt comes whenever it is due.
  function Step(g: Gateway, e: Event): (r: Gateway)
    requires Shaped(g)
    ensures Shaped(r)
  {
    match e
    case Main => MainStep(g)
    case Finish => FinishTransfer(g)
    case Interrupt => if InterruptDue(g) then Handler(g) else g
    case Receive(conn, packet, mallocOk) => if g.pc.Rest? then Accept(g, conn, packet, mallocOk) else g
  }

  function Run(events: seq<Event>): (g: Gateway)
    ensures Shaped(g)
    decreases |events|
  {
    if events == [] then Initial() else Step(Run(events[..|events| - 1]), events[|events| - 1])
  }

  /* The invariant. */

  // The one slot whose queue may be empty while it is dirty: its last chunk has just been released.
  predicate Drained(g: Gateway, i: nat) {
    g.pc.Resume? && g.cur == At(i)
  }

  ghost predicate SlotsWell(g: Gateway)
    requires Shaped(g)
  {
    && (forall i :: 0 <= i < SLOTS ==> (g.slots[i].ongoing ==> g.cur == At(i)))
    && (forall i :: 0 <= i < SLOTS ==> (g.slots[i].queue != [] ==> g.slots[i].dirty))
    && (forall i :: 0 <= i < SLOTS ==> (g.slots[i].dirty ==> g.slots[i].queue != [] || Drained(g, i)))
    && (forall i, j :: 0 <= i < j < SLOTS && g.slots[i].dirty && g.slots[j].dirty ==>
          g.slots[i].conn != g.slots[j].conn)
    && (forall i, k :: 0 <= i < SLOTS && 0 <= k < |g.slots[i].queue| ==> g.slots[i].queue[k].conn == g.slots[i].conn)
    && (g.cur.At? ==> g.slots[g.cur.slot].dirty)
  }

  predicate Ongoing(g: Gateway)
    requires Shaped(g)
  {
    g.cur.At? && g.slots[g.cur.slot].ongoing
  }

  predicate Loaded(g: Gateway)
    requires Shaped(g)
  {
    g.cur.At? && g.slots[g.cur.slot].queue != [] && g.dma.chunk == g.slots[g.cur.slot].queue[0]
  }

  ghost predicate DmaWell(g: Gateway)
    requires Shaped(g)
  {
    match g.pc
    case Rest => g.dma.enabled == g.dma.irq == Ongoing(g) && (g.dma.enabled ==> Loaded(g))
    case Release => g.cur.At? && !Ongoing(g) && !g.dma.enabled && !g.dma.irq
    case Resume => g.cur.At? && !Ongoing(g) && !g.dma.enabled && !g.dma.irq
    case Load => Ongoing(g) && g.slots[g.cur.slot].queue != [] && !g.dma.enabled && !g.dma.irq
    case Arm => Ongoing(g) && g.dma.enabled && !g.dma.irq && Loaded(g)
    case Pick => g.cur.Null? && !g.dma.enabled && !g.dma.irq
  }

  // The head of the current queue has gone out but has not been released.
  predicate HeadSent(g: Gateway)
    requires Shaped(g)
  {
    && g.cur.At? && g.slots[g.cur.slot].queue != []
    && match g.pc
       case Rest => !g.slots[g.cur.slot].ongoing || g.dma.ended
       case Release => true
       case Arm => g.dma.ended
       case _ => false
  }

  predicate WireWell(g: Gateway)
    requires Shaped(g)
  {
    g.log.wire == g.log.freed + if HeadSent(g) then [g.slots[g.cur.slot].queue[0]] else []
  }

  function Bytes(queue: seq<Chunk>): nat
    decreases |queue|
  {
    if queue == [] then 0 else |queue[0].data| + Bytes(queue[1..])
  }

  function Held(slots: seq<Slot>): nat
    requires |slots| == SLOTS
  {
    Bytes(slots[0].queue) + Bytes(slots[1].queue) + Bytes(slots[2].queue)
  }

  // The chunks of one connection, in order.
  function Only(chunks: seq<Chunk>, conn: Conn): seq<Chunk>
    decreases |chunks|
  {
    if chunks == [] then []
    else (if chunks[0].conn == conn then [chunks[0]] else []) + Only(chunks[1..], conn)
  }

  function Waiting(slots: seq<Slot>, conn: Conn): seq<Chunk>
    requires |slots| == SLOTS
  {
    Only(slots[0].queue, conn) + Only(slots[1].queue, conn) + Only(slots[2].queue, conn)
  }

  ghost predicate LogWell(g: Gateway)
    requires Shaped(g)
  {
    && g.log.received == g.log.credited + Held(g.slots)
    && g.log.pbufs == g.log.pbufsFreed
    && forall c :: Only(g.log.arrived, c) == Only(g.log.freed, c) + Waiting(g.slots, c)
  }

  ghost predicate Invariant(g: Gateway) {
    Shaped(g) && SlotsWell(g) && DmaWell(g) && WireWell(g) && LogWell(g)
  }

  /* Queues. */

  lemma {:induction false} OnlyConcat(a: seq<Chunk>, b: seq<Chunk>, conn: Conn)
    ensures Only(a + b, conn) == Only(a, conn) + Only(b, conn)
    decreases |a|
  {
    if a == [] {
      assert a + b == b;
    } else {
      assert (a + b)[1..] == a[1..] + b;
      OnlyConcat(a[1..], b, conn);
    }
  }

  lemma {:induction false} OnlyForeign(queue: seq<Chunk>, conn: Conn)
    requires forall k :: 0 <= k < |queue| ==> queue[k].conn != conn
    ensures Only(queue, conn) == []
    decreases |queue|
  {
    if queue != [] {
      OnlyForeign(queue[1..], conn);
    }
  }

  lemma {:induction false} BytesConcat(a: seq<Chunk>, b: seq<Chunk>)
    ensures Bytes(a + b) == Bytes(a) + Bytes(b)
    decreases |a|
  {
    if a == [] {
      assert a + b == b;
    } else {
      assert (a + b)[1..] == a[1..] + b;
      BytesConcat(a[1..], b);
    }
  }

  // No slot but k holds chunks of the connection.
  lemma OthersForeign(g: Gateway, k: nat, conn: Conn)
    requires Shaped(g) && SlotsWell(g) && k < SLOTS
    requires (g.slots[k].dirty && g.slots[k].conn == conn)
      || forall j :: 0 <= j < SLOTS ==> !(g.slots[j].dirty && g.slots[j].conn == conn)
    ensures forall j :: 0 <= j < SLOTS && j != k ==> Only(g.slots[j].queue, conn) == []
  {
    forall j | 0 <= j < SLOTS && j != k
      ensures Only(g.slots[j].queue, conn) == []
    {
      if g.slots[j].queue != [] {
        assert g.slots[j].conn != conn;
      }
      OnlyForeign(g.slots[j].queue, conn);
    }
  }

  /* Every step keeps the invariant. */

  lemma RestKeeps(g: Gateway)
    requires Invariant(g) && g.pc.Rest?
    ensures Invariant(MainStep(g))
  {
    hide Only, Bytes, Waiting, Held;
  }

  lemma WaitingAlone(slots: seq<Slot>, k: nat, c: Conn)
    requires |slots| == SLOTS && k < SLOTS
    requires forall j :: 0 <= j < SLOTS && j != k ==> Only(slots[j].queue, c) == []
    ensures Waiting(slots, c) == Only(slots[k].queue, c)
  {
    hide Only;
    assert k == 0 || k == 1 || k == 2;
  }

  lemma WaitingUpdate(slots: seq<Slot>, k: nat, s: Slot, c: Conn)
    requires |slots| == SLOTS && k < SLOTS && Only(s.queue, c) == Only(slots[k].queue, c)
    ensures Waiting(slots[k := s], c) == Waiting(slots, c)
  {
    hide Only;
  }

  lemma ReleaseLog(g: Gateway, c: Conn)
    requires Shaped(g) && SlotsWell(g) && g.cur.At? && g.slots[g.cur.slot].queue != []
    ensures
      var k := g.cur.slot;
      var s := g.slots[k];
      Only(g.log.freed + [s.queue[0]], c) + Waiting(g.slots[k := s.(queue := s.queue[1..])], c)
      == Only(g.log.freed, c) + Waiting(g.slots, c)
  {
    hide Only, Waiting;
    var k := g.cur.slot;
    var s := g.slots[k];
    var head := s.queue[0];
    OnlyConcat(g.log.freed, [head], c);
    OnlyHead(s.queue, c);
    OnlyOne(head, c);
    if head.conn == c {
      OthersForeign(g, k, c);
      WaitingAlone(g.slots, k, c);
      WaitingAlone(g.slots[k := s.(queue := s.queue[1..])], k, c);
    } else {
      WaitingUpdate(g.slots, k, s.(queue := s.queue[1..]), c);
    }
  }

  lemma OnlyHead(queue: seq<Chunk>, c: Conn)
    requires queue != []
    ensures Only(queue, c) == (if queue[0].conn == c then [queue[0]] else []) + Only(queue[1..], c)
  {}

  lemma OnlyOne(chunk: Chunk, c: Conn)
    ensures Only([chunk], c) == if chunk.conn == c then [chunk] else []
  {
    assert [chunk][1..] == [];
  }

  lemma ReleaseKeeps(g: Gateway)
    requires Invariant(g) && g.pc.Release?
    ensures Invariant(MainStep(g))
  {
    hide Only, Waiting;
    forall c
      ensures Only(MainStep(g).log.freed, c) + Waiting(MainStep(g).slots, c)
           == Only(g.log.freed, c) + Waiting(g.slots, c)
    {
      ReleaseLog(g, c);
    }
  }

  lemma ResumeKeeps(g: Gateway)
    requires Invariant(g) && g.pc.Resume?
    ensures Invariant(MainStep(g))
  {
    hide Only, Bytes;
  }

  lemma PickKeeps(g: Gateway)
    requires Invariant(g) && g.pc.Pick?
    ensures Invariant(MainStep(g))
  {
    hide Only, Bytes, FirstDirty;
  }

  // pdc_uart_send_data always finds the channel idle.
  lemma ChannelIdle(g: Gateway)
    requires Invariant(g) && g.pc.Load?
    ensures !g.dma.enabled && MainStep(g).pc == Arm && MainStep(g).dma.chunk == g.slots[g.cur.slot].queue[0]
  {}

  lemma LoadKeeps(g: Gateway)
    requires Invariant(g) && (g.pc.Load? || g.pc.Arm?)
    ensures Invariant(MainStep(g))
  {
    hide Only, Bytes, Waiting, Held;
  }

  lemma FinishKeeps(g: Gateway)
    requires Invariant(g)
    ensures Invariant(FinishTransfer(g))
  {
    hide Only, Bytes, Waiting, Held;
  }

  lemma HandlerKeeps(g: Gateway)
    requires Invariant(g) && InterruptDue(g)
    ensures Invariant(Handler(g))
  {
    hide Only, Bytes;
  }

  /* Receiving. */

  lemma AcceptLog(g: Gateway, k: nat, chunk: Chunk, c: Conn)
    requires Shaped(g) && SlotsWell(g) && k < SLOTS
    requires (g.slots[k].dirty && g.slots[k].conn == chunk.conn)
      || (!g.slots[k].dirty && forall j :: 0 <= j < SLOTS ==> !(g.slots[j].dirty && g.slots[j].conn == chunk.conn))
    ensures
      var s := g.slots[k];
      Only(g.log.freed, c) + Waiting(g.slots[k := Slot(true, s.ongoing, chunk.conn, s.queue + [chunk])], c)
      == Only(g.log.freed, c) + Waiting(g.slots, c) + if chunk.conn == c then [chunk] else []
  {
    hide Only, Waiting;
    var s := g.slots[k];
    var s' := Slot(true, s.ongoing, chunk.conn, s.queue + [chunk]);
    OnlyConcat(s.queue, [chunk], c);
    OnlyOne(chunk, c);
    if chunk.conn == c {
      OthersForeign(g, k, c);
      WaitingAlone(g.slots, k, c);
      WaitingAlone(g.slots[k := s'], k, c);
    } else {
      WaitingUpdate(g.slots, k, s', c);
    }
  }

  lemma HeldUpdate(slots: seq<Slot>, k: nat, s: Slot)
    requires |slots| == SLOTS && k < SLOTS
    ensures Held(slots[k := s]) == Held(slots) - Bytes(slots[k].queue) + Bytes(s.queue)
  {
    hide Bytes;
  }

  lemma AcceptQueues(g: Gateway, k: nat, chunk: Chunk, pbuf: nat)
    requires Invariant(g) && g.pc.Rest? && k < SLOTS
    requires (g.slots[k].dirty && g.slots[k].conn == chunk.conn)
      || (!g.slots[k].dirty && forall j :: 0 <= j < SLOTS ==> !(g.slots[j].dirty && g.slots[j].conn == chunk.conn))
    ensures
      var s := g.slots[k];
      Invariant(g.(slots := g.slots[k := Slot(true, s.ongoing, chunk.conn, s.queue + [chunk])],
                   log := g.log.(received := g.log.received + |chunk.data|, arrived := g.log.arrived + [chunk],
                                 pbufs := g.log.pbufs + [pbuf], pbufsFreed := g.log.pbufsFreed + [pbuf])))
  {
    hide Only, Bytes, Waiting, Held;
    var s := g.slots[k];
    var s' := Slot(true, s.ongoing, chunk.conn, s.queue + [chunk]);
    BytesConcat(s.queue, [chunk]);
    BytesOne(chunk);
    HeldUpdate(g.slots, k, s');
    forall c
      ensures Only(g.log.arrived + [chunk], c) == Only(g.log.freed, c) + Waiting(g.slots[k := s'], c)
    {
      AcceptLog(g, k, chunk, c);
      OnlyConcat(g.log.arrived, [chunk], c);
      OnlyOne(chunk, c);
    }
  }

  lemma BytesOne(chunk: Chunk)
    ensures Bytes([chunk]) == |chunk.data|
  {}

  // An address written into a clean slot that then gets no chunk changes nothing.
  lemma MarkKeeps(g: Gateway, k: nat, conn: Conn, log: Log)
    requires Invariant(g) && g.pc.Rest? && k < SLOTS && (g.slots[k].dirty ==> g.slots[k].conn == conn)
    requires log == g.log.(received := log.received, credited := log.credited, pbufs := log.pbufs,
                           pbufsFreed := log.pbufsFreed)
    requires log.received - g.log.received == log.credited - g.log.credited && log.pbufs == log.pbufsFreed
    ensures Invariant(g.(slots := g.slots[k := g.slots[k].(conn := conn)], log := log))
  {
    hide LogWell, WireWell, SlotsWell;
    var r := g.(slots := g.slots[k := g.slots[k].(conn := conn)], log := log);
    assert forall i :: 0 <= i < SLOTS ==> r.slots[i].queue == g.slots[i].queue;
    MarkSlots(g, k, conn, log);
    MarkLog(g, r);
  }

  lemma MarkSlots(g: Gateway, k: nat, conn: Conn, log: Log)
    requires Shaped(g) && SlotsWell(g) && g.pc.Rest? && k < SLOTS && (g.slots[k].dirty ==> g.slots[k].conn == conn)
    ensures SlotsWell(g.(slots := g.slots[k := g.slots[k].(conn := conn)], log := log))
  {}

  lemma MarkLog(g: Gateway, r: Gateway)
    requires Shaped(g) && LogWell(g) && WireWell(g) && Shaped(r)
    requires r.cur == g.cur && r.dma == g.dma && r.pc == g.pc
    requires forall i :: 0 <= i < SLOTS ==>
      r.slots[i].queue == g.slots[i].queue && r.slots[i].ongoing == g.slots[i].ongoing
    requires r.log == g.log.(received := r.log.received, credited := r.log.credited, pbufs := r.log.pbufs,
                             pbufsFreed := r.log.pbufsFreed)
    requires r.log.received - g.log.received == r.log.credited - g.log.credited && r.log.pbufs == r.log.pbufsFreed
    ensures LogWell(r) && WireWell(r)
  {
    hide Only, Bytes;
  }

  lemma AcceptKeeps(g: Gateway, conn: Conn, packet: Packet, mallocOk: bool)
    requires Invariant(g) && g.pc.Rest?
    ensures Invariant(Accept(g, conn, packet, mallocOk))
  {
    hide SlotOf, FirstClean, IsUpgrade, SlotsWell, DmaWell, WireWell, LogWell;
    var known := SlotOf(g.slots, conn, 0);
    var k := if known < SLOTS then known else FirstClean(g.slots, 0);
    BuffersMatch(g);
    DropKeeps(g, packet);
    if k < SLOTS {
      AcceptQueues(g, k, Chunk(conn, packet.data), packet.pbuf);
      MarkKeeps(g, k, conn, Freed(Credited(Took(g.log, packet), packet), packet));
    }
  }

  lemma BuffersMatch(g: Gateway)
    requires Invariant(g)
    ensures g.log.pbufs == g.log.pbufsFreed
  {
    hide SlotsWell, DmaWell, WireWell, Held, Only;
  }

  lemma DropKeeps(g: Gateway, packet: Packet)
    requires Invariant(g)
    ensures Invariant(g.(log := Freed(Credited(Took(g.log, packet), packet), packet)))
  {
    hide LogWell, WireWell;
    BuffersMatch(g);
    MarkLog(g, g.(log := Freed(Credited(Took(g.log, packet), packet), packet)));
  }

  predicate Room(g: Gateway, conn: Conn)
    requires Shaped(g)
  {
    exists i :: 0 <= i < SLOTS && (!g.slots[i].dirty || g.slots[i].conn == conn)
  }

  // Data is queued exactly when the eight bytes of memory at its start are not the header, some slot is clean or
  // already serves the connection, and there is memory; in particular when one of its own first bytes differs from the
  // header. Otherwise nothing that was queued changes and the bytes are credited at once.
  lemma AcceptsExactly(g: Gateway, conn: Conn, packet: Packet, mallocOk: bool)
    requires Shaped(g)
    ensures
      var r := Accept(g, conn, packet, mallocOk);
      var header := [0x5B, 0x55, 0x50, 0x47, 0x52, 0x41, 0x44, 0x45];
      var queued := r.log.arrived == g.log.arrived + [Chunk(conn, packet.data)] && r.log.credited == g.log.credited;
      && ((exists i :: 0 <= i < 8 && MemoryAt(packet, i) != header[i]) && Room(g, conn) && mallocOk <==> queued)
      && ((exists i :: 0 <= i < 8 && i < packet.first && packet.data[i] != header[i]) && Room(g, conn) && mallocOk
          ==> queued)
      && (!queued ==>
            && r.log.arrived == g.log.arrived && r.log.credited == g.log.credited + |packet.data|
            && forall i :: 0 <= i < SLOTS ==>
                 r.slots[i].queue == g.slots[i].queue && r.slots[i].dirty == g.slots[i].dirty)
  {
    hide IsUpgrade, MemoryAt;
    UpgradeExactly(packet);
  }

  lemma StepKeeps(g: Gateway, e: Event)
    requires Invariant(g)
    ensures Invariant(Step(g, e))
  {
    hide SlotsWell, DmaWell, WireWell, LogWell, MainStep, FinishTransfer, Handler, Accept, InterruptDue;
    match e
    case Main =>
      match g.pc {
        case Rest => RestKeeps(g);
        case Release => ReleaseKeeps(g);
        case Resume => ResumeKeeps(g);
        case Load => LoadKeeps(g);
        case Arm => LoadKeeps(g);
        case Pick => PickKeeps(g);
      }
    case Finish => FinishKeeps(g);
    case Interrupt =>
      if InterruptDue(g) {
        HandlerKeeps(g);
      }
    case Receive(conn, packet, mallocOk) =>
      if g.pc.Rest? {
        AcceptKeeps(g, conn, packet, mallocOk);
      }
  }

  lemma InitialWell()
    ensures Invariant(Initial())
  {
    hide LogWell;
    InitialLog();
  }

  lemma InitialLog()
    ensures LogWell(Initial())
  {}

  // The invariant holds after every interleaving of the main loop, receptions, transfer ends and interrupts.
  lemma {:induction false} RunKeeps(events: seq<Event>)
    ensures Invariant(Run(events))
    decreases |events|
  {
    hide Invariant, Step;
    if events == [] {
      InitialWell();
    } else {
      RunKeeps(events[..|events| - 1]);
      StepKeeps(Run(events[..|events| - 1]), events[|events| - 1]);
    }
  }

  /* What it gives. */

  // A queue that has run empty gives its slot back with no address in it; a slot that holds chunks keeps its own.
  lemma EmptySlotCleared(events: seq<Event>)
    requires Run(events).pc.Resume?
    ensures
      var g := Run(events);
      && g.cur.At?
      && var s := g.slots[g.cur.slot];
      var r := Step(g, Main).slots[g.cur.slot];
      if s.queue == [] then r == Slot(false, false, Conn(0, 0), []) else r == Slot(true, true, s.conn, s.queue)
  {
    hide Run, LogWell, WireWell;
    RunKeeps(events);
  }

  // At most one slot is ongoing, and it is the current one; outside check_uart_data_pool the channel is enabled, and
  // its interrupt with it, exactly while it is.
  lemma OneOngoing(events: seq<Event>)
    ensures
      var g := Run(events);
      && (forall i :: 0 <= i < SLOTS && g.slots[i].ongoing ==> g.cur == At(i))
      && (g.pc.Rest? ==> g.dma.enabled == g.dma.irq == Ongoing(g))
  {
    RunKeeps(events);
  }

  // No interrupt is due anywhere inside check_uart_data_pool, so the function runs as one step.
  lemma PoolCheckIsAtomic(events: seq<Event>)
    requires !Run(events).pc.Rest?
    ensures !InterruptDue(Run(events)) && Step(Run(events), Interrupt) == Run(events)
  {
    RunKeeps(events);
  }

  // Chunks are released in the order in which they were transmitted, and only after their transfer.
  lemma FreedAfterSent(events: seq<Event>)
    ensures Run(events).log.freed <= Run(events).log.wire
    ensures |Run(events).log.wire| <= |Run(events).log.freed| + 1
  {
    RunKeeps(events);
  }

  // What has gone out for a connection is, at every moment, the beginning of what arrived on it: each chunk once, in
  // order, none left out.
  lemma InOrderPerConnection(events: seq<Event>, conn: Conn)
    ensures
      var log := Run(events).log;
      Only(log.wire, conn) <= Only(log.arrived, conn)
  {
    hide Invariant;
    RunKeeps(events);
    WireIsPrefix(Run(events), conn);
  }

  lemma WireIsPrefix(g: Gateway, conn: Conn)
    requires Invariant(g)
    ensures Only(g.log.wire, conn) <= Only(g.log.arrived, conn)
  {
    hide Only, Waiting, DmaWell, SlotsWell;
    assert Only(g.log.arrived, conn) == Only(g.log.freed, conn) + Waiting(g.slots, conn);
    if HeadSent(g) {
      var head := g.slots[g.cur.slot].queue[0];
      OnlyConcat(g.log.freed, [head], conn);
      OnlyOne(head, conn);
      if head.conn == conn {
        HeadWaits(g, conn);
      }
    } else {
      assert g.log.wire == g.log.freed;
    }
  }

  lemma HeadWaits(g: Gateway, conn: Conn)
    requires Invariant(g) && g.cur.At? && g.slots[g.cur.slot].queue != []
    requires g.slots[g.cur.slot].queue[0].conn == conn
    ensures [g.slots[g.cur.slot].queue[0]] <= Waiting(g.slots, conn)
  {
    hide Only, Waiting;
    var k := g.cur.slot;
    OthersForeign(g, k, conn);
    WaitingAlone(g.slots, k, conn);
    OnlyHead(g.slots[k].queue, conn);
  }

  // Every byte received is credited to the sender's window or still queued, every buffer has been freed once, a slot
  // is dirty exactly while it holds chunks, and no two dirty slots serve the same connection.
  lemma WindowConserved(events: seq<Event>)
    ensures
      var g := Run(events);
      && g.log.received == g.log.credited + Held(g.slots) && g.log.pbufs == g.log.pbufsFreed
      && (g.pc.Rest? ==> forall i :: 0 <= i < SLOTS ==> (g.slots[i].dirty <==> g.slots[i].queue != []))
      && (forall i, j :: 0 <= i < j < SLOTS && g.slots[i].dirty && g.slots[j].dirty ==>
            g.slots[i].conn != g.slots[j].conn)
  {
    hide Held;
    RunKeeps(events);
  }

  // Once no slot is dirty, everything that arrived on a connection has gone out.
  lemma NothingLost(events: seq<Event>, conn: Conn)
    requires forall i :: 0 <= i < SLOTS ==> !Run(events).slots[i].dirty
    ensures Only(Run(events).log.wire, conn) == Only(Run(events).log.arrived, conn)
  {
    hide Only, Run;
    RunKeeps(events);
    var g := Run(events);
    forall j | 0 <= j < SLOTS
      ensures Only(g.slots[j].queue, conn) == []
    {
      OnlyForeign(g.slots[j].queue, conn);
    }
    WaitingAlone(g.slots, 0, conn);
    assert Only(g.log.arrived, conn) == Only(g.log.freed, conn) + Waiting(g.slots, conn);
    assert g.log.wire == g.log.freed;
  }

  /* Progress. */

  predicate SomeDirty(g: Gateway) {
    exists i :: 0 <= i < |g.slots| && g.slots[i].dirty
  }

  function Chunks(g: Gateway): nat
    requires Shaped(g)
  {
    |g.slots[0].queue| + |g.slots[1].queue| + |g.slots[2].queue|
  }

  // Steps left before the head of the queue in hand is released.
  function Phase(g: Gateway): nat
    requires Shaped(g)
  {
    match g.pc
    case Rest => if g.cur.Null? then 7 else if !Ongoing(g) then 1 else if g.dma.ended then 2 else 3
    case Release => 0
    case Resume => 7
    case Pick => 6
    case Load => 5
    case Arm => if g.dma.ended then 3 else 4
  }

  function Remaining(g: Gateway): nat
    requires Shaped(g)
  {
    8 * Chunks(g) + Phase(g)
  }

  lemma ReleaseProgresses(g: Gateway)
    requires Invariant(g) && SomeDirty(g) && (g.pc.Release? || g.pc.Resume?)
    ensures Remaining(MainStep(g)) < Remaining(g)
  {
    hide LogWell, WireWell;
    var k := g.cur.slot;
    assert k == 0 || k == 1 || k == 2;
  }

  lemma PickProgresses(g: Gateway)
    requires Invariant(g) && SomeDirty(g) && g.pc.Pick?
    ensures Remaining(MainStep(g)) < Remaining(g)
  {
    hide LogWell, WireWell;
    var k := FirstDirty(g.slots, 0);
    assert k == 0 || k == 1 || k == 2;
  }

  lemma RestProgresses(g: Gateway)
    requires Invariant(g) && (g.pc.Rest? || g.pc.Load? || g.pc.Arm?) && MainStep(g) != g
    ensures Remaining(MainStep(g)) < Remaining(g)
  {
    hide LogWell, WireWell, SlotsWell;
  }

  lemma MainProgresses(g: Gateway)
    requires Invariant(g) && SomeDirty(g) && MainStep(g) != g
    ensures Remaining(MainStep(g)) < Remaining(g)
  {
    hide Invariant, MainStep, Remaining;
    match g.pc
    case Release => ReleaseProgresses(g);
    case Resume => ReleaseProgresses(g);
    case Pick => PickProgresses(g);
    case _ => RestProgresses(g);
  }

  // While a slot is dirty the system is never stuck: some step that is not a reception changes the state, and every
  // such step that does brings it closer to having sent everything.
  lemma NeverStuck(g: Gateway)
    requires Invariant(g) && SomeDirty(g)
    ensures Step(g, Main) != g || Step(g, Finish) != g || Step(g, Interrupt) != g
    ensures forall e: Event :: !e.Receive? && Step(g, e) != g ==> Remaining(Step(g, e)) < Remaining(g)
  {
    hide LogWell, WireWell, SlotsWell, MainStep;
    if MainStep(g) != g {
      MainProgresses(g);
    } else {
      StuckOnlyOngoing(g);
    }
  }

  lemma StuckOnlyOngoing(g: Gateway)
    requires Invariant(g) && SomeDirty(g) && MainStep(g) == g
    ensures g.pc.Rest? && Ongoing(g)
  {
    hide LogWell, WireWell;
  }

  function RunFrom(g: Gateway, events: seq<Event>): (r: Gateway)
    requires Shaped(g)
    ensures Shaped(r)
    decreases |events|
  {
    if events == [] then g else Step(RunFrom(g, events[..|events| - 1]), events[|events| - 1])
  }

  // How many of the events changed the state.
  function Effective(g: Gateway, events: seq<Event>): nat
    requires Shaped(g)
    decreases |events|
  {
    if events == [] then 0
    else
      var before := events[..|events| - 1];
      Effective(g, before) + if RunFrom(g, events) != RunFrom(g, before) then 1 else 0
  }

  predicate NoReceptions(events: seq<Event>) {
    forall i :: 0 <= i < |events| ==> !events[i].Receive?
  }

  // Nothing but a reception makes a slot dirty.
  lemma StaysClean(g: Gateway, e: Event)
    requires Invariant(g) && !e.Receive? && SomeDirty(Step(g, e))
    ensures SomeDirty(g)
  {
    hide LogWell, WireWell, DmaWell;
    assert exists i :: 0 <= i < SLOTS && Step(g, e).slots[i].dirty;
  }

  lemma DirtyRemains(g: Gateway)
    requires Invariant(g) && SomeDirty(g)
    ensures Remaining(g) > 0
  {
    hide LogWell, WireWell;
    var i :| 0 <= i < |g.slots| && g.slots[i].dirty;
    assert i == 0 || i == 1 || i == 2;
  }

  // From any reachable state, with no more receptions, in whatever order the other steps come: once as many of them
  // have had an effect as Remaining counts, no slot is dirty any more.
  lemma {:induction false} DrainsWithin(g: Gateway, events: seq<Event>)
    requires Shaped(g) && Invariant(g) && NoReceptions(events)
    ensures Invariant(RunFrom(g, events))
    ensures SomeDirty(RunFrom(g, events)) ==> Effective(g, events) + Remaining(RunFrom(g, events)) <= Remaining(g)
    ensures Effective(g, events) >= Remaining(g) ==> !SomeDirty(RunFrom(g, events))
    decreases |events|
  {
    hide Invariant, Step, SomeDirty, Remaining;
    if events != [] {
      var before := events[..|events| - 1];
      var e := events[|events| - 1];
      DrainsWithin(g, before);
      var h := RunFrom(g, before);
      StepKeeps(h, e);
      if SomeDirty(Step(h, e)) {
        StaysClean(h, e);
        NeverStuck(h);
      }
    }
    if SomeDirty(RunFrom(g, events)) {
      DirtyRemains(RunFrom(g, events));
    }
  }

  lemma EmptyRun(g: Gateway, e: Event)
    requires Shaped(g)
    ensures RunFrom(g, [e]) == Step(g, e)
  {
    assert [e][..0] == [];
  }

  lemma {:induction false} RunFromConcat(g: Gateway, a: seq<Event>, b: seq<Event>)
    requires Shaped(g)
    ensures RunFrom(g, a + b) == RunFrom(RunFrom(g, a), b)
    decreases |b|
  {
    hide Step;
    if b == [] {
      assert a + b == a;
    } else {
      assert (a + b)[..|a + b| - 1] == a + b[..|b| - 1];
      RunFromConcat(g, a, b[..|b| - 1]);
    }
  }

  // And it can always come to that.
  lemma {:induction false} CanDrain(g: Gateway) returns (events: seq<Event>)
    requires Shaped(g) && Invariant(g)
    ensures NoReceptions(events) && |events| <= Remaining(g) && !SomeDirty(RunFrom(g, events))
    decreases Remaining(g)
  {
    hide Invariant, Step, SomeDirty, Remaining;
    events := [];
    if SomeDirty(g) {
      NeverStuck(g);
      var e := if Step(g, Main) != g then Main else if Step(g, Finish) != g then Finish else Interrupt;
      StepKeeps(g, e);
      var rest := CanDrain(Step(g, e));
      EmptyRun(g, e);
      RunFromConcat(g, [e], rest);
      events := [e] + rest;
    }
  }
}
