/**
 The application as a whole (server.c server_recv and server_sent, eth_app.c): one receive callback that hands upgrade
 packets to the session and queues an acknowledgement for each, and passes everything else to the UART pool; one main
 loop that serves the pool and the switching timer. A switch that fires restarts all of it.
 */
module Server {
  import opened NorFlash
  import opened Packets
  import Frame
  import Gcm
  import Clock
  import Upgrade
  import UartGateway
  import SendQueue
  import UpgradeDriver
  import UpgradeIntegrity
  import PoolDriver

  type Conn = UartGateway.Conn

  datatype System = System(node: Upgrade.Node, pool: UartGateway.Gateway, clients: map<Conn, SendQueue.Connection>)

  // `mallocOk` is for the copy of a longer chain or the chunk, `queueOk` for the acknowledgement.
  datatype Event =
    | Received(conn: Conn, packet: Packet, mallocOk: bool, gcmOk: bool, time: nat, queueOk: bool,
               sndbuf: nat, tries: seq<SendQueue.Err>)
    | Acknowledged(conn: Conn, len: nat, sndbuf: nat, tries: seq<SendQueue.Err>)
    | Piped(event: UartGateway.Event)
    | Polled(time: nat)

  ghost predicate Valid(s: System) {
    && Upgrade.Ready(s.node) && UartGateway.Shaped(s.pool)
    && forall conn :: conn in s.clients ==> SendQueue.Valid(s.clients[conn])
  }

  function Start(dev: Device): (s: System)
    ensures dev.Valid() ==> Valid(s)
  {
    System(Upgrade.Boot(dev), UartGateway.Initial(), map[])
  }

  function ClientOf(s: System, conn: Conn): SendQueue.Connection {
    if conn in s.clients then s.clients[conn] else SendQueue.Fresh()
  }

  // The packet gets to handle_upgrade_packet.
  predicate IsHandled(s: System, e: Event) {
    e.Received? && s.pool.pc.Rest? && IsUpgrade(e.packet) && (e.packet.Chained() ==> e.mallocOk)
  }

  function Handled(cipher: Gcm.Cipher, s: System, e: Event): (a: Upgrade.Answer)
    requires Upgrade.Ready(s.node) && e.Received?
    ensures Upgrade.Ready(a.node)
  {
    hide Upgrade.Handle;
    Upgrade.Handle(cipher, s.node, ViewOf(e.packet), e.gcmOk, Clock.Tick(e.time))
  }

  predicate Restarts(s: System, e: Event)
    requires Upgrade.Ready(s.node)
  {
    e.Polled? && s.pool.pc.Rest? && Upgrade.Fires(s.node.timer, Clock.Tick(e.time))
  }

  // What the event means to the queue of a connection.
  function ToQueue(cipher: Gcm.Cipher, s: System, e: Event, conn: Conn): seq<SendQueue.Event>
    requires Upgrade.Ready(s.node)
  {
    if IsHandled(s, e) && e.conn == conn then
      [SendQueue.Reply(Frame.AckFrame(Handled(cipher, s, e).ack), e.queueOk, e.sndbuf, e.tries)]
    else if e.Acknowledged? && s.pool.pc.Rest? && e.conn == conn then [SendQueue.Ack(e.len, e.sndbuf, e.tries)]
    else []
  }

  function Fed(c: SendQueue.Connection, events: seq<SendQueue.Event>): (r: SendQueue.Connection)
    requires SendQueue.Valid(c) && |events| <= 1
    ensures SendQueue.Valid(r)
  {
    if events == [] then c else SendQueue.Step(c, events[0])
  }

  // The callbacks and the timer run outside check_uart_data_pool; the pool's own events come at any time.
  function Step(cipher: Gcm.Cipher, s: System, e: Event): (r: System)
    requires Valid(s)
    ensures Valid(r)
  {
    hide Upgrade.Poll, Upgrade.Fires, UartGateway.Step, SendQueue.Step, Upgrade.CodeSwitching;
    match e
    case Received(conn, packet, mallocOk, _, _, _, _, _) =>
      var t := s.(pool := UartGateway.Step(s.pool, UartGateway.Receive(conn, packet, mallocOk)));
      if IsHandled(s, e)
      then t.(node := Handled(cipher, s, e).node,
              clients := s.clients[conn := Fed(ClientOf(s, conn), ToQueue(cipher, s, e, conn))])
      else t
    case Acknowledged(conn, _, _, _) =>
      s.(clients := s.clients[conn := Fed(ClientOf(s, conn), ToQueue(cipher, s, e, conn))])
    case Piped(event) => if event.Receive? then s else s.(pool := UartGateway.Step(s.pool, event))
    case Polled(time) =>
      if !s.pool.pc.Rest? then s
      else if Restarts(s, e) then Start(Upgrade.Poll(s.node, Clock.Tick(time)).dev)
      else s.(node := Upgrade.Poll(s.node, Clock.Tick(time)))
  }

  function Run(cipher: Gcm.Cipher, dev: Device, events: seq<Event>): (s: System)
    requires dev.Valid()
    ensures Valid(s)
    decreases |events|
  {
    if events == [] then Start(dev)
    else Step(cipher, Run(cipher, dev, events[..|events| - 1]), events[|events| - 1])
  }

  /* One event, in the terms of the parts. */

  // Data received outside the pool check does to the pool, the session and the queue what Application.ServerRecv does:
  // by the eight bytes of memory at its start it goes one way or the other.
  lemma ReceptionStep(cipher: Gcm.Cipher, s: System, e: Event)
    requires Valid(s) && e.Received? && s.pool.pc.Rest?
    ensures
      var r := Step(cipher, s, e);
      var c := ClientOf(s, e.conn);
      && r.pool == UartGateway.Accept(s.pool, e.conn, e.packet, e.mallocOk)
      && (if (forall i :: 0 <= i < 8 ==>
                MemoryAt(e.packet, i) == [0x5B, 0x55, 0x50, 0x47, 0x52, 0x41, 0x44, 0x45][i])
             && (e.packet.first < |e.packet.data| ==> e.mallocOk) then
            var a := Upgrade.Handle(cipher, s.node, ViewOf(e.packet), e.gcmOk, Clock.Tick(e.time));
            && r.node == a.node
            && ClientOf(r, e.conn)
               == (if c.failed then c
                   else SendQueue.Send(c, Frame.AckFrame(a.ack), e.queueOk, e.sndbuf, e.tries))
          else r.node == s.node && ClientOf(r, e.conn) == c)
      && forall conn :: conn != e.conn ==> ClientOf(r, conn) == ClientOf(s, conn)
  {
    hide Upgrade.Handle, UartGateway.Accept, SendQueue.Send, IsUpgrade, ViewOf, MemoryAt, Frame.AckFrame;
    UpgradeExactly(e.packet);
  }

  // A poll outside the pool check moves the timer of the session; if that fires, everything begins again on the flash
  // as the switch has left it. Pool events and acknowledgements touch their own part alone.
  lemma OtherSteps(cipher: Gcm.Cipher, s: System, e: Event)
    requires Valid(s) && !e.Received?
    ensures
      var r := Step(cipher, s, e);
      match e
      case Polled(time) =>
        if !s.pool.pc.Rest? then r == s
        else
          && r.node == Upgrade.Poll(s.node, Clock.Tick(time))
          && if Upgrade.Fires(s.node.timer, Clock.Tick(time))
             then r.pool == UartGateway.Initial() && r.clients == map[]
             else r.pool == s.pool && r.clients == s.clients
      case Piped(event) =>
        r.node == s.node && r.clients == s.clients
        && r.pool == if event.Receive? then s.pool else UartGateway.Step(s.pool, event)
      case Acknowledged(conn, len, sndbuf, tries) =>
        && r.node == s.node && r.pool == s.pool
        && ClientOf(r, conn) == (if s.pool.pc.Rest?
                                 then SendQueue.Step(ClientOf(s, conn), SendQueue.Ack(len, sndbuf, tries))
                                 else ClientOf(s, conn))
        && forall other :: other != conn ==> ClientOf(r, other) == ClientOf(s, other)
      case _ => true
  {
    hide Upgrade.Poll, Upgrade.Fires, Upgrade.CodeSwitching, UartGateway.Step, SendQueue.Step;
    if Restarts(s, e) {
      FiringBoots(s.node, Clock.Tick(e.time));
    }
  }

  /* The parts, each as the run of its own events. */

  function ToUpgrade(s: System, e: Event): seq<Upgrade.Event> {
    if IsHandled(s, e) then [Upgrade.Packet(ViewOf(e.packet), e.gcmOk, e.time)]
    else if e.Polled? && s.pool.pc.Rest? then [Upgrade.Clocked(e.time)]
    else []
  }

  function UpgradeEvents(cipher: Gcm.Cipher, dev: Device, events: seq<Event>): seq<Upgrade.Event>
    requires dev.Valid()
    decreases |events|
  {
    if events == [] then []
    else
      var before := events[..|events| - 1];
      UpgradeEvents(cipher, dev, before) + ToUpgrade(Run(cipher, dev, before), events[|events| - 1])
  }

  function ToPool(e: Event): seq<UartGateway.Event> {
    match e
    case Received(conn, packet, mallocOk, _, _, _, _, _) => [UartGateway.Receive(conn, packet, mallocOk)]
    case Piped(event) => if event.Receive? then [] else [event]
    case _ => []
  }

  // Since the last restart.
  function PoolEvents(cipher: Gcm.Cipher, dev: Device, events: seq<Event>): seq<UartGateway.Event>
    requires dev.Valid()
    decreases |events|
  {
    if events == [] then []
    else
      var before := events[..|events| - 1];
      var e := events[|events| - 1];
      if Restarts(Run(cipher, dev, before), e) then [] else PoolEvents(cipher, dev, before) + ToPool(e)
  }

  // Since the last restart.
  function QueueEvents(cipher: Gcm.Cipher, dev: Device, events: seq<Event>, conn: Conn): seq<SendQueue.Event>
    requires dev.Valid()
    decreases |events|
  {
    if events == [] then []
    else
      var before := events[..|events| - 1];
      var e := events[|events| - 1];
      var s := Run(cipher, dev, before);
      if Restarts(s, e) then [] else QueueEvents(cipher, dev, before, conn) + ToQueue(cipher, s, e, conn)
  }

  lemma UpgradeRunsOn(cipher: Gcm.Cipher, node: Upgrade.Node, events: seq<Upgrade.Event>, more: seq<Upgrade.Event>)
    requires Upgrade.Ready(node) && |more| <= 1
    ensures Upgrade.Run(cipher, node, events + more)
         == (var r := Upgrade.Run(cipher, node, events); if more == [] then r else Upgrade.Step(cipher, r, more[0]))
    ensures Upgrade.Replies(cipher, node, events + more)
         == Upgrade.Replies(cipher, node, events)
            + if more == [] then [] else Upgrade.ReplyTo(cipher, Upgrade.Run(cipher, node, events), more[0])
  {
    hide Upgrade.Step, Upgrade.ReplyTo;
    if more == [] {
      assert events + more == events;
    } else {
      assert (events + more)[..|events + more| - 1] == events;
    }
  }

  lemma PoolRunsOn(events: seq<UartGateway.Event>, more: seq<UartGateway.Event>)
    requires |more| <= 1
    ensures UartGateway.Run(events + more)
         == if more == [] then UartGateway.Run(events) else UartGateway.Step(UartGateway.Run(events), more[0])
  {
    hide UartGateway.Step;
    if more == [] {
      assert events + more == events;
    } else {
      assert (events + more)[..|events + more| - 1] == events;
    }
  }

  lemma QueueRunsOn(events: seq<SendQueue.Event>, more: seq<SendQueue.Event>)
    requires |more| <= 1
    ensures SendQueue.Run(events + more) == Fed(SendQueue.Run(events), more)
    ensures SendQueue.Replied(events + more)
         == SendQueue.Replied(events)
            + if more != [] && more[0].Reply? && more[0].mallocOk then more[0].bytes else []
  {
    hide SendQueue.Step;
    if more == [] {
      assert events + more == events;
    } else {
      assert (events + more)[..|events + more| - 1] == events;
    }
  }

  lemma StepNode(cipher: Gcm.Cipher, s: System, e: Event)
    requires Valid(s)
    ensures
      var more := ToUpgrade(s, e);
      Step(cipher, s, e).node == if more == [] then s.node else Upgrade.Step(cipher, s.node, more[0])
  {
    hide Upgrade.Handle, Upgrade.Poll, UartGateway.Step, SendQueue.Step, IsUpgrade, ViewOf;
    if Restarts(s, e) {
      FiringBoots(s.node, Clock.Tick(e.time));
    }
  }

  lemma FiringBoots(node: Upgrade.Node, now: nat)
    requires Upgrade.Ready(node) && now < Clock.WRAP && Upgrade.Fires(node.timer, now)
    ensures Upgrade.Poll(node, now) == Upgrade.Boot(Upgrade.Poll(node, now).dev)
  {}

  // The upgrade session of the whole application runs as Upgrade does over the packets that reach it and the polls.
  lemma {:induction false} UpgradeProjects(cipher: Gcm.Cipher, dev: Device, events: seq<Event>)
    requires dev.Valid()
    ensures Run(cipher, dev, events).node == Upgrade.Run(cipher, Upgrade.Boot(dev), UpgradeEvents(cipher, dev, events))
    decreases |events|
  {
    hide Step, Upgrade.Step, ToUpgrade, Valid;
    if events != [] {
      var before := events[..|events| - 1];
      var s := Run(cipher, dev, before);
      UpgradeProjects(cipher, dev, before);
      StepNode(cipher, s, events[|events| - 1]);
      AtMostOne(cipher, s, events[|events| - 1]);
      UpgradeRunsOn(cipher, Upgrade.Boot(dev), UpgradeEvents(cipher, dev, before), ToUpgrade(s, events[|events| - 1]));
    }
  }

  lemma AtMostOne(cipher: Gcm.Cipher, s: System, e: Event)
    ensures |ToUpgrade(s, e)| <= 1 && |ToPool(e)| <= 1
  {}

  lemma StepPool(cipher: Gcm.Cipher, s: System, e: Event)
    requires Valid(s) && !Restarts(s, e)
    ensures
      var more := ToPool(e);
      Step(cipher, s, e).pool == if more == [] then s.pool else UartGateway.Step(s.pool, more[0])
  {
    hide Upgrade.Handle, Upgrade.Poll, UartGateway.Step, SendQueue.Step, IsUpgrade, ViewOf;
  }

  // So does the pool, over the receptions and its own events since the last restart.
  lemma {:induction false} PoolProjects(cipher: Gcm.Cipher, dev: Device, events: seq<Event>)
    requires dev.Valid()
    ensures Run(cipher, dev, events).pool == UartGateway.Run(PoolEvents(cipher, dev, events))
    decreases |events|
  {
    hide Step, UartGateway.Step, ToPool, Restarts;
    if events != [] {
      var before := events[..|events| - 1];
      var s := Run(cipher, dev, before);
      var e := events[|events| - 1];
      PoolProjects(cipher, dev, before);
      if Restarts(s, e) {
        RestartClears(cipher, s, e);
      } else {
        StepPool(cipher, s, e);
        AtMostOne(cipher, s, e);
        PoolRunsOn(PoolEvents(cipher, dev, before), ToPool(e));
      }
    }
  }

  lemma RestartClears(cipher: Gcm.Cipher, s: System, e: Event)
    requires Valid(s) && Restarts(s, e)
    ensures Step(cipher, s, e).pool == UartGateway.Initial() && Step(cipher, s, e).clients == map[]
  {
    hide Upgrade.Poll, Upgrade.Fires;
  }

  lemma StepClient(cipher: Gcm.Cipher, s: System, e: Event, conn: Conn)
    requires Valid(s) && !Restarts(s, e)
    ensures ClientOf(Step(cipher, s, e), conn) == Fed(ClientOf(s, conn), ToQueue(cipher, s, e, conn))
  {
    hide Upgrade.Handle, Upgrade.Poll, UartGateway.Step, SendQueue.Step, IsUpgrade, ViewOf, Frame.AckFrame;
  }

  // So does the queue of every connection.
  lemma {:induction false} QueueProjects(cipher: Gcm.Cipher, dev: Device, events: seq<Event>, conn: Conn)
    requires dev.Valid()
    ensures ClientOf(Run(cipher, dev, events), conn) == SendQueue.Run(QueueEvents(cipher, dev, events, conn))
    decreases |events|
  {
    hide Step, SendQueue.Step, ToQueue, Restarts;
    if events != [] {
      var before := events[..|events| - 1];
      var s := Run(cipher, dev, before);
      var e := events[|events| - 1];
      QueueProjects(cipher, dev, before, conn);
      if Restarts(s, e) {
        RestartClears(cipher, s, e);
      } else {
        StepClient(cipher, s, e, conn);
        OneForQueue(cipher, s, e, conn);
        QueueRunsOn(QueueEvents(cipher, dev, before, conn), ToQueue(cipher, s, e, conn));
      }
    }
  }

  lemma OneForQueue(cipher: Gcm.Cipher, s: System, e: Event, conn: Conn)
    requires Upgrade.Ready(s.node)
    ensures |ToQueue(cipher, s, e, conn)| <= 1
  {
    hide Upgrade.Handle, Frame.AckFrame;
  }

  /* One acknowledgement for each packet. */

  datatype Answered = Answered(conn: Conn, queued: bool, ack: bv32)

  // What every packet handled so far was answered with.
  function Answers(cipher: Gcm.Cipher, dev: Device, events: seq<Event>): seq<Answered>
    requires dev.Valid()
    decreases |events|
  {
    if events == [] then []
    else
      var before := events[..|events| - 1];
      var e := events[|events| - 1];
      var s := Run(cipher, dev, before);
      Answers(cipher, dev, before)
      + if IsHandled(s, e) then [Answered(e.conn, e.queueOk, Handled(cipher, s, e).ack)] else []
  }

  // How many of them were before the last restart.
  function Earlier(cipher: Gcm.Cipher, dev: Device, events: seq<Event>): (n: nat)
    requires dev.Valid()
    ensures n <= |Answers(cipher, dev, events)|
    decreases |events|
  {
    if events == [] then 0
    else
      var before := events[..|events| - 1];
      if Restarts(Run(cipher, dev, before), events[|events| - 1]) then |Answers(cipher, dev, events)|
      else Earlier(cipher, dev, before)
  }

  // One frame for each that came from the connection and found memory.
  function AckFrames(answers: seq<Answered>, conn: Conn): seq<bv8>
    decreases |answers|
  {
    if answers == [] then []
    else
      var last := answers[|answers| - 1];
      AckFrames(answers[..|answers| - 1], conn)
      + if last.conn == conn && last.queued then Frame.AckFrame(last.ack) else []
  }

  lemma AckFramesOn(answers: seq<Answered>, from: nat, more: seq<Answered>, conn: Conn)
    requires from <= |answers| && |more| <= 1
    ensures AckFrames((answers + more)[from..], conn)
         == AckFrames(answers[from..], conn)
            + if more != [] && more[0].conn == conn && more[0].queued then Frame.AckFrame(more[0].ack) else []
  {
    hide Frame.AckFrame;
    if more == [] {
      assert answers + more == answers;
    } else {
      assert (answers + more)[from..] == answers[from..] + more;
      assert (answers[from..] + more)[..|answers[from..]|] == answers[from..];
    }
  }

  // The frames queued on a connection are those acknowledgements.
  lemma {:induction false} QueuesAcks(cipher: Gcm.Cipher, dev: Device, events: seq<Event>, conn: Conn)
    requires dev.Valid()
    ensures SendQueue.Replied(QueueEvents(cipher, dev, events, conn))
         == AckFrames(Answers(cipher, dev, events)[Earlier(cipher, dev, events)..], conn)
    decreases |events|
  {
    hide Step, Run, Restarts, Frame.AckFrame, Upgrade.Handle, IsUpgrade, ViewOf, Valid;
    if events != [] {
      var before := events[..|events| - 1];
      var e := events[|events| - 1];
      var s := Run(cipher, dev, before);
      assert Upgrade.Ready(s.node) by { ValidReady(s); }
      QueuesAcks(cipher, dev, before, conn);
      if !Restarts(s, e) {
        var more := if IsHandled(s, e) then [Answered(e.conn, e.queueOk, Handled(cipher, s, e).ack)] else [];
        AckFramesOn(Answers(cipher, dev, before), Earlier(cipher, dev, before), more, conn);
        QueueRunsOn(QueueEvents(cipher, dev, before, conn), ToQueue(cipher, s, e, conn));
      }
    }
  }

  lemma ValidReady(s: System)
    requires Valid(s)
    ensures Upgrade.Ready(s.node)
  {}

  lemma ReplyIsAnswer(cipher: Gcm.Cipher, s: System, e: Event)
    requires Upgrade.Ready(s.node)
    ensures
      var more := ToUpgrade(s, e);
      var replies := if more == [] then [] else Upgrade.ReplyTo(cipher, s.node, more[0]);
      if IsHandled(s, e) then |replies| == 1 && replies[0].ack == Handled(cipher, s, e).ack else replies == []
  {
    hide Upgrade.Handle, IsUpgrade, ViewOf;
  }

  // A packet adds one answer, the session's, exactly if it came outside the pool check, the eight bytes of memory at
  // its start are the header, and a copy of it could be made if it was chained. Nothing else adds any.
  lemma AnswersGrow(cipher: Gcm.Cipher, dev: Device, events: seq<Event>, e: Event)
    requires dev.Valid()
    ensures
      var s := Run(cipher, dev, events);
      var answers := Answers(cipher, dev, events);
      Answers(cipher, dev, events + [e])
      == if e.Received? && s.pool.pc.Rest?
            && (forall i :: 0 <= i < 8 ==>
                  MemoryAt(e.packet, i) == [0x5B, 0x55, 0x50, 0x47, 0x52, 0x41, 0x44, 0x45][i])
            && (e.packet.first < |e.packet.data| ==> e.mallocOk)
         then
           var a := Upgrade.Handle(cipher, s.node, ViewOf(e.packet), e.gcmOk, Clock.Tick(e.time));
           answers + [Answered(e.conn, e.queueOk, a.ack)]
         else answers
  {
    hide Upgrade.Handle, Run, IsUpgrade, ViewOf, MemoryAt;
    assert (events + [e])[..|events|] == events;
    if e.Received? {
      UpgradeExactly(e.packet);
    }
  }

  // And they are the replies of the upgrade session, packet for packet.
  lemma {:induction false} AnswersAreReplies(cipher: Gcm.Cipher, dev: Device, events: seq<Event>)
    requires dev.Valid()
    ensures
      var answers := Answers(cipher, dev, events);
      var replies := Upgrade.Replies(cipher, Upgrade.Boot(dev), UpgradeEvents(cipher, dev, events));
      |answers| == |replies| && forall i :: 0 <= i < |answers| ==> answers[i].ack == replies[i].ack
    decreases |events|
  {
    hide Step, Run, Upgrade.Step, Upgrade.Run, Upgrade.ReplyTo, ToUpgrade, IsHandled, Handled;
    if events != [] {
      var before := events[..|events| - 1];
      var s := Run(cipher, dev, before);
      AnswersAreReplies(cipher, dev, before);
      UpgradeProjects(cipher, dev, before);
      ReplyIsAnswer(cipher, s, events[|events| - 1]);
      AtMostOne(cipher, s, events[|events| - 1]);
      UpgradeRunsOn(cipher, Upgrade.Boot(dev), UpgradeEvents(cipher, dev, before), ToUpgrade(s, events[|events| - 1]));
    }
  }

  // Over every run of the application: each upgrade packet that was received without error and found memory has queued
  // exactly one acknowledgement, the one the session gave it; until a write on its connection fails for good, what TCP
  // has been handed is the beginning of these frames one after the other, and all of it once the queue is empty.
  lemma AcksReachTcpInOrder(cipher: Gcm.Cipher, dev: Device, events: seq<Event>, conn: Conn)
    requires dev.Valid() && SendQueue.PossibleRun(QueueEvents(cipher, dev, events, conn))
    requires !ClientOf(Run(cipher, dev, events), conn).failed
    ensures
      var c := ClientOf(Run(cipher, dev, events), conn);
      var acks := AckFrames(Answers(cipher, dev, events)[Earlier(cipher, dev, events)..], conn);
      && c.queued == acks && c.written <= acks
      && SendQueue.Contents(c.released) <= acks
      && (c.list == [] ==> c.written == acks)
  {
    hide Run, QueueEvents, Answers, Earlier, AckFrames, SendQueue.Run, SendQueue.Replied, SendQueue.PossibleRun;
    QueueProjects(cipher, dev, events, conn);
    SendQueue.QueueInOrder(QueueEvents(cipher, dev, events, conn));
    SendQueue.QueuedExactly(QueueEvents(cipher, dev, events, conn));
    QueuesAcks(cipher, dev, events, conn);
  }

  predicate HasRoom(e: Event, conn: Conn) {
    (e.Received? || e.Acknowledged?) && e.conn == conn ==> e.sndbuf > 0
  }

  // And while the send buffer has room the queue never stalls: something is on its way whenever anything is queued.
  lemma AcksNeverStall(cipher: Gcm.Cipher, dev: Device, events: seq<Event>, conn: Conn)
    requires dev.Valid() && SendQueue.PossibleRun(QueueEvents(cipher, dev, events, conn))
    requires forall i :: 0 <= i < |events| ==> HasRoom(events[i], conn)
    requires !ClientOf(Run(cipher, dev, events), conn).failed
    ensures
      var c := ClientOf(Run(cipher, dev, events), conn);
      (c.list != [] ==> c.acked < |c.written|) && (c.list == [] <==> c.acked == |c.queued|)
  {
    hide Run, SendQueue.Run, SendQueue.PossibleRun, QueueEvents;
    QueueProjects(cipher, dev, events, conn);
    QueueLively(cipher, dev, events, conn);
    SendQueue.NeverStalls(QueueEvents(cipher, dev, events, conn));
  }

  lemma {:induction false} QueueLively(cipher: Gcm.Cipher, dev: Device, events: seq<Event>, conn: Conn)
    requires dev.Valid()
    requires forall i :: 0 <= i < |events| ==> HasRoom(events[i], conn)
    ensures SendQueue.AllLively(QueueEvents(cipher, dev, events, conn))
    decreases |events|
  {
    hide Run, Restarts, ToQueue, SendQueue.Lively;
    if events != [] {
      var before := events[..|events| - 1];
      QueueLively(cipher, dev, before, conn);
      var more := ToQueue(cipher, Run(cipher, dev, before), events[|events| - 1], conn);
      ToQueueLively(cipher, Run(cipher, dev, before), events[|events| - 1], conn);
      LivelyConcat(QueueEvents(cipher, dev, before, conn), more);
    }
  }

  lemma LivelyConcat(a: seq<SendQueue.Event>, b: seq<SendQueue.Event>)
    requires SendQueue.AllLively(a) && SendQueue.AllLively(b)
    ensures SendQueue.AllLively(a + b) && SendQueue.AllLively([])
  {}

  lemma ToQueueLively(cipher: Gcm.Cipher, s: System, e: Event, conn: Conn)
    requires Upgrade.Ready(s.node) && HasRoom(e, conn)
    ensures SendQueue.AllLively(ToQueue(cipher, s, e, conn))
  {
    hide Handled, Frame.AckFrame;
  }

  // What is proved of the parts holds in the whole: the frames a session has accepted are in the spare bank, whatever
  // failed; and the pool sends the chunks of each connection in order, without losing window or buffers.
  lemma PartsKeepTheirPromises(cipher: Gcm.Cipher, dev: Device, events: seq<Event>, conn: Conn)
    requires dev.Valid()
    ensures
      var s := Run(cipher, dev, events);
      && UpgradeIntegrity.Stored(s.node, UpgradeIntegrity.TakenIn(cipher, dev, UpgradeEvents(cipher, dev, events)))
      && UartGateway.Invariant(s.pool)
      && UartGateway.Only(s.pool.log.wire, conn) <= UartGateway.Only(s.pool.log.arrived, conn)
  {
    hide Run, UpgradeEvents, PoolEvents, Upgrade.Run, UpgradeIntegrity.Stored, UpgradeIntegrity.TakenIn;
    hide UartGateway.Run, UartGateway.Invariant, UartGateway.Only;
    UpgradeProjects(cipher, dev, events);
    UpgradeIntegrity.RunStores(cipher, dev, UpgradeEvents(cipher, dev, events));
    PoolProjects(cipher, dev, events);
    UartGateway.RunKeeps(PoolEvents(cipher, dev, events));
    UartGateway.InOrderPerConnection(PoolEvents(cipher, dev, events), conn);
  }

  /* In place. */

  class Application {
    const updater: UpgradeDriver.Updater
    const pool: PoolDriver.UartPool

    constructor (updater: UpgradeDriver.Updater, pool: PoolDriver.UartPool)
      ensures this.updater == updater && this.pool == pool
    {
      this.updater, this.pool := updater, pool;
    }

    // server_recv for data received without error, on the connection whose queue is `client`.
    method ServerRecv(client: SendQueue.Client, conn: Conn, packet: Packet, mallocOk: bool, gcmOk: bool, now: nat,
                      queueOk: bool, sndbuf: nat, tries: seq<SendQueue.Err>)
      requires updater.Valid() && pool.Valid() && SendQueue.Valid(client.State())
      requires now < Clock.WRAP
      modifies updater, updater.flash`dev, updater.flash.pageBuffer, updater.plaintext, updater.cryptoIv
      modifies pool, pool.slots, client
      ensures updater.Valid() && pool.Valid() && updater.cipherFound == old(updater.cipherFound)
      ensures pool.State() == UartGateway.Accept(old(pool.State()), conn, packet, mallocOk)
      ensures
        if IsUpgrade(packet) && (packet.Chained() ==> mallocOk) then
          var a := if updater.cipherFound
                   then Upgrade.Handle(updater.cipher, old(updater.State()), ViewOf(packet), gcmOk, now)
                   else Upgrade.HandleUnready(old(updater.State()), ViewOf(packet));
          && updater.State() == a.node
          && client.State()
             == SendQueue.Send(old(client.State()), Frame.AckFrame(a.ack), queueOk, sndbuf, tries)
        else updater.State() == old(updater.State()) && client.State() == old(client.State())
    {
      hide IsUpgrade, ViewOf, UartGateway.Accept, Upgrade.Handle, Upgrade.HandleUnready, SendQueue.Send, Frame.AckFrame;
      var upgrade := IsUpgrade(packet);
      if upgrade && (!packet.Chained() || mallocOk) {
        var rc, ack := updater.HandleUpgradePacket(ViewOf(packet), gcmOk, now);
        var ackFrame := new bv8[15](_ => 0);
        Frame.GenerateAckFrame(ackFrame, ack);
        client.SendData(ackFrame[..], queueOk, sndbuf, tries);
      }
      pool.ServerRecv(conn, packet, mallocOk);
    }
  }
}
