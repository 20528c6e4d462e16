/**
 The pool in the form network.c and server.c give it: an array of slots, the current one, and routines that change
 them in place. check_uart_data_pool as a whole is the steps of UartGateway run to the end, which no interrupt divides.
 */
module PoolDriver {
  import opened Packets
  import opened UartGateway

  function Rank(pc: Pc): nat {
    match pc
    case Rest => 0
    case Arm => 1
    case Load => 2
    case Pick => 3
    case Resume => 4
    case Release => 5
  }

  // The steps of the main loop until it is out of check_uart_data_pool again.
  function Settle(g: Gateway): (r: Gateway)
    requires Shaped(g)
    ensures Shaped(r) && r.pc.Rest?
    decreases Rank(g.pc)
  {
    if g.pc.Rest? then g else Settle(MainStep(g))
  }

  function PoolChecked(g: Gateway): (r: Gateway)
    requires Shaped(g)
    ensures Shaped(r) && r.pc.Rest?
  {
    Settle(MainStep(g))
  }

  lemma {:induction false} SettleKeeps(g: Gateway)
    requires Invariant(g)
    ensures Invariant(Settle(g))
    decreases Rank(g.pc)
  {
    hide SlotsWell, DmaWell, WireWell, LogWell, MainStep;
    if !g.pc.Rest? {
      StepKeeps(g, Main);
      RankFalls(g);
      SettleKeeps(MainStep(g));
    }
  }

  lemma RankFalls(g: Gateway)
    requires Shaped(g) && !g.pc.Rest?
    ensures Rank(MainStep(g).pc) < Rank(g.pc)
  {}

  // After the call: either the channel has been loaded with the head of a queue, or nothing is waiting.
  predicate Underway(r: Gateway)
    requires Shaped(r)
  {
    if SomeDirty(r) then Ongoing(r) && Loaded(r) && r.dma.enabled && r.dma.irq && !r.dma.ended
    else r.cur.Null? && !r.dma.enabled
  }

  lemma LoadSettles(g: Gateway)
    requires Invariant(g) && g.pc.Load?
    ensures Underway(Settle(g)) && Settle(g).log == g.log
  {
    hide LogWell, WireWell;
    ChannelIdle(g);
    assert Settle(MainStep(g)) == MainStep(MainStep(g));
    assert g.slots[g.cur.slot].dirty;
  }

  lemma PickSettles(g: Gateway)
    requires Invariant(g) && g.pc.Pick?
    ensures Underway(Settle(g)) && Settle(g).log == g.log
  {
    hide LogWell, WireWell;
    StepKeeps(g, Main);
    if MainStep(g).pc.Load? {
      LoadSettles(MainStep(g));
    } else {
      assert FirstDirty(g.slots, 0) == SLOTS;
    }
  }

  lemma ResumeSettles(g: Gateway)
    requires Invariant(g) && g.pc.Resume?
    ensures Underway(Settle(g)) && Settle(g).log == g.log
  {
    hide LogWell, WireWell, Settle;
    StepKeeps(g, Main);
    SettleStep(g);
    if MainStep(g).pc.Load? {
      LoadSettles(MainStep(g));
    } else {
      PickSettles(MainStep(g));
    }
  }

  lemma SettleStep(g: Gateway)
    requires Shaped(g)
    ensures Settle(g) == if g.pc.Rest? then g else Settle(MainStep(g))
  {}

  // One call of check_uart_data_pool moves the gateway on by one chunk: the one whose transfer has ended, if any, is
  // credited and released, and if another is waiting the channel is loaded with it.
  lemma CheckMovesOn(g: Gateway)
    requires Invariant(g) && g.pc.Rest? && !Ongoing(g)
    ensures
      var r := PoolChecked(g);
      && Underway(r)
      && r.log.freed == g.log.freed + (if g.cur.At? then [g.slots[g.cur.slot].queue[0]] else [])
  {
    hide LogWell, WireWell, Settle;
    StepKeeps(g, Main);
    var g1 := MainStep(g);
    if g.cur.Null? {
      PickSettles(g1);
    } else {
      StepKeeps(g1, Main);
      SettleStep(g1);
      ResumeSettles(MainStep(g1));
    }
  }

  class UartPool {
    const slots: array<Slot>
    var cur: Cursor
    var dma: Dma
    var log: Log

    ghost predicate Valid()
      reads this
    {
      slots.Length == SLOTS && (cur.At? ==> cur.slot < SLOTS)
    }

    ghost function State(): (g: Gateway)
      requires Valid()
      ensures Shaped(g)
      reads this, slots
    {
      Gateway(slots[..], cur, dma, Pc.Rest, log)
    }

    constructor ()
      ensures Valid() && State() == Initial() && fresh(slots)
    {
      slots := new Slot[SLOTS](_ => Blank());
      cur, dma := Null, Dma(false, false, false, Chunk(Conn(0, 0), []));
      log := Log(0, 0, [], [], [], [], []);
      new;
      assert slots[..] == [Blank(), Blank(), Blank()];
    }

    // UART1_Handler
    method UartHandler()
      requires Valid()
      modifies this, slots
      ensures Valid() && State() == if old(dma.ended) then Handler(old(State())) else old(State())
    {
      if dma.ended {
        if cur.At? {
          slots[cur.slot] := slots[cur.slot].(ongoing := false);
        }
        dma := dma.(enabled := false, irq := false);
      }
    }

    // pdc_uart_send_data
    method SendByDma(chunk: Chunk)
      requires Valid()
      modifies this`dma
      ensures dma == if old(dma.enabled) then old(dma) else Dma(true, true, false, chunk)
    {
      if !dma.enabled {
        dma := Dma(true, dma.irq, false, chunk);
        dma := dma.(irq := true);
      }
    }

    // The scan for the next slot, at the end of check_uart_data_pool.
    method PickSlot()
      requires Valid() && cur.Null?
      modifies this, slots
      ensures Valid() && State() == Settle(old(State()).(pc := Pick))
    {
      ghost var g := State().(pc := Pick);
      SettleStep(g);
      SettleStep(MainStep(g));
      var i := 0;
      while i < SLOTS && !slots[i].dirty
        invariant i <= SLOTS && FirstDirty(slots[..], i) == FirstDirty(slots[..], 0)
      {
        i := i + 1;
      }
      if i < SLOTS {
        cur := At(i);
        if slots[i].queue != [] {
          slots[i] := slots[i].(ongoing := true);
          SendByDma(slots[i].queue[0]);
        }
      }
    }

    // Take the chunk whose transfer has ended off the current queue.
    method ReleaseHead()
      requires Valid() && cur.At?
      modifies this, slots
      ensures Valid() && cur == old(cur)
      ensures State().(pc := Resume) == MainStep(old(State()).(pc := Release))
    {
      var s := slots[cur.slot];
      if s.queue != [] {
        var head := s.queue[0];
        log := log.(credited := log.credited + |head.data|, freed := log.freed + [head]);
        slots[cur.slot] := s.(queue := s.queue[1..]);
      }
    }

    // check_uart_data_pool
    method CheckPool()
      requires Valid()
      modifies this, slots
      ensures Valid() && State() == PoolChecked(old(State()))
    {
      if cur.At? && slots[cur.slot].dirty {
        if slots[cur.slot].ongoing {
          return;
        }
        ghost var g := State().(pc := Release);
        SettleStep(g);
        ReleaseHead();
        ghost var h := State().(pc := Resume);
        SettleStep(h);
        SettleStep(MainStep(h));
        var s := slots[cur.slot];
        if s.queue != [] {
          slots[cur.slot] := s.(ongoing := true);
          SendByDma(s.queue[0]);
          return;
        }
        slots[cur.slot] := Slot(false, s.ongoing, Conn(0, 0), []);
        cur := Null;
      }
      if cur.Null? {
        PickSlot();
      }
    }

    // The receive callback, for data that came without error; what becomes of an upgrade packet is in Server.
    method ServerRecv(conn: Conn, packet: Packet, mallocOk: bool)
      requires Valid()
      modifies this, slots
      ensures Valid() && State() == Accept(old(State()), conn, packet, mallocOk)
    {
      hide IsUpgrade;
      log := Took(log, packet);
      if IsUpgrade(packet) {
        log := Credited(log, packet);
      } else {
        var k := 0;
        while k < SLOTS && !(slots[k].dirty && slots[k].conn == conn)
          invariant k <= SLOTS && SlotOf(slots[..], conn, k) == SlotOf(slots[..], conn, 0)
        {
          k := k + 1;
        }
        if k == SLOTS {
          k := 0;
          while k < SLOTS && slots[k].dirty
            invariant k <= SLOTS && FirstClean(slots[..], k) == FirstClean(slots[..], 0)
          {
            k := k + 1;
          }
          if k == SLOTS {
            log := Freed(Credited(log, packet), packet);
            return;
          }
          slots[k] := slots[k].(conn := conn);
        }
        if !mallocOk {
          log := Freed(Credited(log, packet), packet);
          return;
        }
        slots[k] := slots[k].(queue := slots[k].queue + [Chunk(conn, packet.data)], dirty := true);
        log := log.(arrived := log.arrived + [Chunk(conn, packet.data)]);
      }
      log := Freed(log, packet);
    }
  }
}
