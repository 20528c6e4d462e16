/**
 Replies queued on a TCP connection (server.c send_data, send_data_to_client, server_sent): a list of buffers whose
 head is handed to tcp_write piece by piece and released once every byte of it has been acknowledged.
 */
module SendQueue {
  import opened Numbers

  datatype Err = Ok | Mem | Fatal

  // `left` bytes of `data` have still to be written, `acked` have been acknowledged.
  datatype Buffer = Buffer(data: seq<bv8>, left: nat, acked: nat) {
    predicate Valid() {
      left <= |data|
    }

    function Unwritten(): seq<bv8>
      requires Valid()
    {
      data[|data| - left..]
    }
  }

  // The list, and a record: bytes queued so far, bytes tcp_write has taken, bytes acknowledged, buffers released. After
  // a write that failed for good the list has been freed under the connection.
  datatype Connection = Connection(list: seq<Buffer>, queued: seq<bv8>, written: seq<bv8>, acked: nat,
                                   released: seq<Buffer>, failed: bool)

  function Fresh(): Connection {
    Connection([], [], [], 0, [], false)
  }

  datatype Attempt = Attempt(err: Err, len: nat)

  // The outcomes of successive calls to tcp_write; past the end they succeed.
  function Outcome(tries: seq<Err>): Err {
    if tries == [] then Ok else tries[0]
  }

  function Later(tries: seq<Err>): seq<Err> {
    if tries == [] then [] else tries[1..]
  }

  // The loop that halves the length while memory is short.
  function Try(len: nat, tries: seq<Err>): (a: Attempt)
    ensures a.len <= len
    decreases len
  {
    if Outcome(tries) != Mem then Attempt(Outcome(tries), len)
    else if len / 2 > 1 then Try(len / 2, Later(tries))
    else Attempt(Mem, len / 2)
  }

  predicate Valid(c: Connection) {
    forall i :: 0 <= i < |c.list| ==> c.list[i].Valid()
  }

  function SendHead(c: Connection, sndbuf: nat, tries: seq<Err>): (r: Connection)
    requires Valid(c) && c.list != []
    ensures Valid(r)
  {
    var head := c.list[0];
    var a := Try(Min(sndbuf, head.left), tries);
    if a.err != Ok then c.(list := [], failed := true)
    else
      var piece := head.Unwritten()[..a.len];
      c.(list := [head.(left := head.left - a.len)] + c.list[1..], written := c.written + piece)
  }

  function Send(c: Connection, bytes: seq<bv8>, mallocOk: bool, sndbuf: nat, tries: seq<Err>): (r: Connection)
    requires Valid(c)
    ensures Valid(r)
  {
    if !mallocOk then c
    else
      var d := c.(list := c.list + [Buffer(bytes, |bytes|, 0)], queued := c.queued + bytes);
      if c.list != [] then d else SendHead(d, sndbuf, tries)
  }

  function Acknowledged(c: Connection, len: nat, sndbuf: nat, tries: seq<Err>): (r: Connection)
    requires Valid(c)
    ensures Valid(r)
  {
    if c.list == [] then c
    else
      var head := c.list[0].(acked := c.list[0].acked + len);
      var d := c.(list := [head] + c.list[1..], acked := c.acked + len);
      if head.left > 0 then SendHead(d, sndbuf, tries)
      else if head.acked < |head.data| then d
      else
        var e := d.(list := c.list[1..], released := c.released + [head]);
        if e.list != [] then SendHead(e, sndbuf, tries) else e
  }

  datatype Event =
    | Reply(bytes: seq<bv8>, mallocOk: bool, sndbuf: nat, tries: seq<Err>)
    | Ack(len: nat, sndbuf: nat, tries: seq<Err>)

  // TCP acknowledges bytes that were written and not acknowledged before.
  predicate Possible(c: Connection, e: Event) {
    e.Ack? ==> c.acked + e.len <= |c.written|
  }

  function Step(c: Connection, e: Event): (r: Connection)
    requires Valid(c)
    ensures Valid(r)
  {
    if c.failed then c
    else
      match e
      case Reply(bytes, mallocOk, sndbuf, tries) => Send(c, bytes, mallocOk, sndbuf, tries)
      case Ack(len, sndbuf, tries) => Acknowledged(c, len, sndbuf, tries)
  }

  function Run(events: seq<Event>): (c: Connection)
    ensures Valid(c)
    decreases |events|
  {
    if events == [] then Fresh() else Step(Run(events[..|events| - 1]), events[|events| - 1])
  }

  predicate PossibleRun(events: seq<Event>)
    decreases |events|
  {
    events == []
    || (PossibleRun(events[..|events| - 1]) && Possible(Run(events[..|events| - 1]), events[|events| - 1]))
  }

  /* The halving loop. */

  function OutcomeAt(tries: seq<Err>, k: nat): Err {
    if k < |tries| then tries[k] else Ok
  }

  function Halved(len: nat, k: nat): nat
    decreases k
  {
    if k == 0 then len else Halved(len / 2, k - 1)
  }

  // Memory is short k times and then no more: the loop ends with that answer and the length halved k times, unless the
  // length has come down to 1 before; then it has given up.
  lemma {:induction false} TryHalves(len: nat, tries: seq<Err>, k: nat)
    requires forall i :: 0 <= i < k ==> OutcomeAt(tries, i) == Mem
    requires OutcomeAt(tries, k) != Mem
    ensures k == 0 || Halved(len, k) > 1 ==> Try(len, tries) == Attempt(OutcomeAt(tries, k), Halved(len, k))
    ensures k > 0 && Halved(len, k) <= 1 ==> Try(len, tries).err == Mem
    decreases k
  {
    if k > 0 {
      assert OutcomeAt(tries, 0) == Mem;
      assert forall i :: 0 <= i < k ==> OutcomeAt(Later(tries), i) == OutcomeAt(tries, i + 1);
      HalvedFalls(len / 2, k - 1);
      if len / 2 > 1 {
        TryHalves(len / 2, Later(tries), k - 1);
      }
    }
  }

  lemma {:induction false} HalvedFalls(len: nat, k: nat)
    ensures Halved(len, k) <= len
    decreases k
  {
    if k > 0 {
      HalvedFalls(len / 2, k - 1);
    }
  }

  // What one call hands to TCP: as much of the head as the send buffer takes, halved for every refusal.
  lemma WritesWhatFits(c: Connection, sndbuf: nat, tries: seq<Err>, k: nat)
    requires Valid(c) && c.list != [] && !c.failed
    requires forall i :: 0 <= i < k ==> OutcomeAt(tries, i) == Mem
    requires OutcomeAt(tries, k) != Mem
    ensures
      var r := SendHead(c, sndbuf, tries);
      var size := Halved(Min(sndbuf, c.list[0].left), k);
      && (r.failed <==> OutcomeAt(tries, k) == Fatal || (k > 0 && size <= 1))
      && (!r.failed ==>
            && size <= c.list[0].left
            && r.written == c.written + c.list[0].Unwritten()[..size]
            && r.list[0].Unwritten() == c.list[0].Unwritten()[size..]
            && r.list[1..] == c.list[1..])
  {
    hide Try, Halved;
    TryHalves(Min(sndbuf, c.list[0].left), tries, k);
    HalvedFalls(Min(sndbuf, c.list[0].left), k);
  }

  /* The invariant. */

  function Unwritten(list: seq<Buffer>): seq<bv8>
    requires forall i :: 0 <= i < |list| ==> list[i].Valid()
    decreases |list|
  {
    if list == [] then [] else list[0].Unwritten() + Unwritten(list[1..])
  }

  function Contents(list: seq<Buffer>): seq<bv8>
    decreases |list|
  {
    if list == [] then [] else list[0].data + Contents(list[1..])
  }

  predicate Whole(b: Buffer) {
    b.left == |b.data| && b.acked == 0
  }

  ghost predicate Invariant(c: Connection) {
    && Valid(c)
    && c.queued == c.written + Unwritten(c.list)
    && c.queued == Contents(c.released) + Contents(c.list)
    && (forall i :: 1 <= i < |c.list| ==> Whole(c.list[i]))
    && (forall i :: 0 <= i < |c.released| ==> c.released[i].left == 0 && c.released[i].acked == |c.released[i].data|)
    && (if c.list == [] then c.acked == |c.written|
        else
          var head := c.list[0];
          && head.acked <= |head.data| - head.left
          && |c.written| - c.acked == |head.data| - head.left - head.acked)
  }

  lemma {:induction false} ContentsConcat(a: seq<Buffer>, b: seq<Buffer>)
    ensures Contents(a + b) == Contents(a) + Contents(b)
    decreases |a|
  {
    if a == [] {
      assert a + b == b;
    } else {
      assert (a + b)[1..] == a[1..] + b;
      ContentsConcat(a[1..], b);
    }
  }

  lemma {:induction false} UnwrittenConcat(a: seq<Buffer>, b: seq<Buffer>)
    requires forall i :: 0 <= i < |a| ==> a[i].Valid()
    requires forall i :: 0 <= i < |b| ==> b[i].Valid()
    ensures Unwritten(a + b) == Unwritten(a) + Unwritten(b)
    decreases |a|
  {
    if a == [] {
      assert a + b == b;
    } else {
      assert (a + b)[1..] == a[1..] + b;
      UnwrittenConcat(a[1..], b);
    }
  }

  // Putting another head on the list, with the same data.
  lemma NewHead(list: seq<Buffer>, head: Buffer)
    requires list != [] && head.data == list[0].data && head.Valid()
    requires forall i :: 0 <= i < |list| ==> list[i].Valid()
    ensures
      var after := [head] + list[1..];
      && after[1..] == list[1..]
      && Contents(after) == Contents(list)
      && Unwritten(after) == head.Unwritten() + Unwritten(list[1..])
      && Unwritten(list) == list[0].Unwritten() + Unwritten(list[1..])
  {
    assert ([head] + list[1..])[1..] == list[1..];
  }

  lemma SendHeadKeeps(c: Connection, sndbuf: nat, tries: seq<Err>)
    requires Invariant(c) && c.list != []
    ensures var r := SendHead(c, sndbuf, tries); r.failed || Invariant(r)
  {
    hide Contents, Unwritten, Try;
    var head := c.list[0];
    var a := Try(Min(sndbuf, head.left), tries);
    var after := head.(left := head.left - a.len);
    NewHead(c.list, after);
    assert after.Unwritten() == head.Unwritten()[a.len..];
    Regroup(c.written, head.Unwritten(), Unwritten(c.list[1..]), a.len);
  }

  lemma Regroup(written: seq<bv8>, head: seq<bv8>, rest: seq<bv8>, len: nat)
    requires len <= |head|
    ensures written + (head + rest) == (written + head[..len]) + (head[len..] + rest)
  {
  }

  function Appended(c: Connection, b: Buffer): Connection {
    c.(list := c.list + [b], queued := c.queued + b.data)
  }

  lemma AppendedKeeps(c: Connection, bytes: seq<bv8>)
    requires Invariant(c)
    ensures Invariant(Appended(c, Buffer(bytes, |bytes|, 0)))
  {
    hide Contents, Unwritten;
    var b := Buffer(bytes, |bytes|, 0);
    UnwrittenConcat(c.list, [b]);
    ContentsConcat(c.list, [b]);
    One(b);
    Associates(c.written, Unwritten(c.list), bytes);
    Associates(Contents(c.released), Contents(c.list), bytes);
  }

  lemma Associates(a: seq<bv8>, b: seq<bv8>, c: seq<bv8>)
    ensures (a + b) + c == a + (b + c)
  {}

  lemma SendKeeps(c: Connection, bytes: seq<bv8>, mallocOk: bool, sndbuf: nat, tries: seq<Err>)
    requires Valid(c) && Invariant(c)
    ensures var r := Send(c, bytes, mallocOk, sndbuf, tries); r.failed || Invariant(r)
  {
    hide Invariant, SendHead;
    AppendedKeeps(c, bytes);
    if mallocOk && c.list == [] {
      SendHeadKeeps(Appended(c, Buffer(bytes, |bytes|, 0)), sndbuf, tries);
    }
  }

  lemma One(b: Buffer)
    ensures Contents([b]) == b.data
    ensures b.Valid() ==> Unwritten([b]) == b.Unwritten()
  {
    assert [b][1..] == [];
  }

  // The head has been acknowledged further.
  lemma CountKeeps(c: Connection, len: nat)
    requires Invariant(c) && c.list != [] && c.acked + len <= |c.written|
    ensures Invariant(Counted(c, len))
  {
    hide Contents, Unwritten;
    NewHead(c.list, c.list[0].(acked := c.list[0].acked + len));
  }

  function Counted(c: Connection, len: nat): Connection
    requires c.list != []
  {
    c.(list := [c.list[0].(acked := c.list[0].acked + len)] + c.list[1..], acked := c.acked + len)
  }

  // The head, fully acknowledged, is released.
  lemma ReleaseKeeps(c: Connection)
    requires Invariant(c) && c.list != [] && c.list[0].left == 0 && c.list[0].acked >= |c.list[0].data|
    ensures Invariant(c.(list := c.list[1..], released := c.released + [c.list[0]]))
  {
    hide Contents, Unwritten;
    var head := c.list[0];
    NewHead(c.list, head);
    ContentsConcat(c.released, [head]);
    ContentsConcat([head], c.list[1..]);
    assert [head] + c.list[1..] == c.list;
    One(head);
    assert c.written + Unwritten(c.list[1..]) == c.written + (head.Unwritten() + Unwritten(c.list[1..]));
  }

  lemma AcknowledgedKeeps(c: Connection, len: nat, sndbuf: nat, tries: seq<Err>)
    requires Invariant(c) && c.acked + len <= |c.written|
    ensures var r := Acknowledged(c, len, sndbuf, tries); r.failed || Invariant(r)
  {
    hide Contents, Unwritten, SendHead, Invariant;
    if c.list != [] {
      var d := Counted(c, len);
      CountKeeps(c, len);
      if c.list[0].left > 0 {
        SendHeadKeeps(d, sndbuf, tries);
      } else if d.list[0].acked >= |d.list[0].data| {
        ReleaseKeeps(d);
        var e := d.(list := d.list[1..], released := d.released + [d.list[0]]);
        assert d.list[1..] == c.list[1..];
        if e.list != [] {
          SendHeadKeeps(e, sndbuf, tries);
        }
      }
    }
  }

  // The head still waits for an acknowledgement.
  predicate Unfinished(c: Connection) {
    c.list != [] && c.list[0].data != [] ==> c.list[0].acked < |c.list[0].data|
  }

  lemma SendHeadUnfinished(c: Connection, sndbuf: nat, tries: seq<Err>)
    requires Valid(c) && c.list != [] && Unfinished(c)
    ensures Unfinished(SendHead(c, sndbuf, tries))
  {
    hide Try;
  }

  lemma SendUnfinished(c: Connection, bytes: seq<bv8>, mallocOk: bool, sndbuf: nat, tries: seq<Err>)
    requires Valid(c) && Unfinished(c)
    ensures Unfinished(Send(c, bytes, mallocOk, sndbuf, tries))
  {
    hide SendHead;
    if mallocOk && c.list == [] {
      SendHeadUnfinished(c.(list := c.list + [Buffer(bytes, |bytes|, 0)], queued := c.queued + bytes), sndbuf, tries);
    }
  }

  lemma AcknowledgedUnfinished(c: Connection, len: nat, sndbuf: nat, tries: seq<Err>)
    requires Invariant(c) && Unfinished(c) && c.acked + len <= |c.written|
    ensures Unfinished(Acknowledged(c, len, sndbuf, tries))
  {
    hide SendHead, Contents, Unwritten;
    if c.list != [] {
      var d := Counted(c, len);
      if d.list[0].left > 0 {
        SendHeadUnfinished(d, sndbuf, tries);
      } else if d.list[0].acked >= |d.list[0].data| && |c.list| > 1 {
        SendHeadUnfinished(d.(list := c.list[1..], released := c.released + [d.list[0]]), sndbuf, tries);
      }
    }
  }

  lemma {:induction false} RunKeeps(events: seq<Event>)
    requires PossibleRun(events)
    ensures Run(events).failed || (Invariant(Run(events)) && Unfinished(Run(events)))
    decreases |events|
  {
    hide Invariant, Unfinished, Send, Acknowledged;
    if events == [] {
      FreshWell();
    } else {
      var before := events[..|events| - 1];
      RunKeeps(before);
      if !Run(before).failed {
        match events[|events| - 1]
        case Reply(bytes, mallocOk, sndbuf, tries) =>
          SendKeeps(Run(before), bytes, mallocOk, sndbuf, tries);
          SendUnfinished(Run(before), bytes, mallocOk, sndbuf, tries);
        case Ack(len, sndbuf, tries) =>
          AcknowledgedKeeps(Run(before), len, sndbuf, tries);
          AcknowledgedUnfinished(Run(before), len, sndbuf, tries);
      }
    }
  }

  lemma FreshWell()
    ensures Invariant(Fresh()) && Unfinished(Fresh())
  {}

  // Unless a write fails for good: what has been written is the beginning of all that was queued, only the head of the
  // list is partly written, acknowledgements never run ahead of it, and the buffers released are the first ones, each
  // with every byte written and acknowledged. A buffer whose last byte has been acknowledged is released at once.
  lemma QueueInOrder(events: seq<Event>)
    requires PossibleRun(events) && !Run(events).failed
    ensures
      var c := Run(events);
      && c.written <= c.queued
      && Contents(c.released) <= c.queued
      && (forall i :: 1 <= i < |c.list| ==> Whole(c.list[i]))
      && (c.list != [] ==> c.list[0].acked <= |c.list[0].data| - c.list[0].left)
      && (c.list != [] && c.list[0].data != [] ==> c.list[0].acked < |c.list[0].data|)
      && (forall i :: 0 <= i < |c.released| ==> c.released[i].left == 0 && c.released[i].acked == |c.released[i].data|)
      && (c.list == [] ==> c.written == c.queued && c.acked == |c.queued|)
  {
    RunKeeps(events);
    assert Run(events).list == [] ==> Unwritten(Run(events).list) == [];
  }

  /* Never at a standstill. */

  // Something written has still to be acknowledged, so TCP will be back.
  predicate InFlight(c: Connection) {
    c.acked < |c.written|
  }

  predicate AllFull(list: seq<Buffer>) {
    forall i :: 0 <= i < |list| ==> list[i].data != []
  }

  // A reply has bytes, and the send buffer room for one.
  predicate Lively(e: Event) {
    e.sndbuf > 0 && (e.Reply? ==> e.bytes != [])
  }

  predicate AllLively(events: seq<Event>) {
    forall i :: 0 <= i < |events| ==> Lively(events[i])
  }

  lemma {:induction false} TryHandsOver(len: nat, tries: seq<Err>)
    requires len > 0 && Try(len, tries).err == Ok
    ensures Try(len, tries).len > 0
    decreases len
  {
    if Outcome(tries) == Mem {
      TryHandsOver(len / 2, Later(tries));
    }
  }

  lemma SendHeadGoesOn(c: Connection, sndbuf: nat, tries: seq<Err>)
    requires Valid(c) && c.list != [] && c.list[0].left > 0 && sndbuf > 0
    requires c.acked <= |c.written| && AllFull(c.list)
    ensures var r := SendHead(c, sndbuf, tries); r.failed || (InFlight(r) && AllFull(r.list))
  {
    hide Try;
    var size := Min(sndbuf, c.list[0].left);
    if Try(size, tries).err == Ok {
      TryHandsOver(size, tries);
    }
  }

  lemma SendGoesOn(c: Connection, bytes: seq<bv8>, mallocOk: bool, sndbuf: nat, tries: seq<Err>)
    requires Invariant(c) && AllFull(c.list) && (c.list != [] ==> InFlight(c)) && sndbuf > 0 && bytes != []
    ensures var r := Send(c, bytes, mallocOk, sndbuf, tries);
      r.failed || (AllFull(r.list) && (r.list != [] ==> InFlight(r)))
  {
    hide SendHead, Contents, Unwritten;
    if mallocOk && c.list == [] {
      SendHeadGoesOn(Appended(c, Buffer(bytes, |bytes|, 0)), sndbuf, tries);
    }
  }

  lemma AcknowledgedGoesOn(c: Connection, len: nat, sndbuf: nat, tries: seq<Err>)
    requires Invariant(c) && AllFull(c.list) && c.acked + len <= |c.written| && sndbuf > 0
    ensures var r := Acknowledged(c, len, sndbuf, tries);
      r.failed || (AllFull(r.list) && (r.list != [] ==> InFlight(r)))
  {
    hide SendHead, Contents, Unwritten;
    if c.list != [] {
      var d := Counted(c, len);
      if d.list[0].left > 0 {
        SendHeadGoesOn(d, sndbuf, tries);
      } else if d.list[0].acked >= |d.list[0].data| && |c.list| > 1 {
        SendHeadGoesOn(d.(list := c.list[1..], released := c.released + [d.list[0]]), sndbuf, tries);
      }
    }
  }

  // The queue never stalls: as long as replies have bytes, the send buffer has room for one and no write fails for
  // good, there is something on its way to the peer whenever anything is queued. So the queue is empty exactly when
  // everything ever queued has been acknowledged.
  lemma {:induction false} NeverStalls(events: seq<Event>)
    requires PossibleRun(events) && AllLively(events)
    ensures
      var c := Run(events);
      !c.failed ==>
        && AllFull(c.list) && (c.list != [] ==> InFlight(c))
        && (c.list == [] <==> c.acked == |c.queued|)
    decreases |events|
  {
    hide Invariant, Send, Acknowledged, InFlight, AllFull;
    if events == [] {
      NothingQueued();
    } else {
      var before := events[..|events| - 1];
      NeverStalls(before);
      RunKeeps(before);
      if !Run(before).failed {
        match events[|events| - 1]
        case Reply(bytes, mallocOk, sndbuf, tries) => SendGoesOn(Run(before), bytes, mallocOk, sndbuf, tries);
        case Ack(len, sndbuf, tries) => AcknowledgedGoesOn(Run(before), len, sndbuf, tries);
      }
      RunKeeps(events);
      if !Run(events).failed {
        EmptyExactly(Run(events));
      }
    }
  }

  lemma NothingQueued()
    ensures AllFull(Fresh().list)
  {}

  lemma EmptyExactly(c: Connection)
    requires Invariant(c) && (c.list != [] ==> InFlight(c))
    ensures c.list == [] <==> c.acked == |c.queued|
  {
    hide Contents;
  }

  predicate Succeeding(tries: seq<Err>) {
    forall k :: 0 <= k < |tries| ==> tries[k] == Ok
  }

  lemma SendHeadSucceeds(c: Connection, sndbuf: nat, tries: seq<Err>)
    requires Valid(c) && c.list != [] && !c.failed && Succeeding(tries)
    ensures !SendHead(c, sndbuf, tries).failed
  {}

  // Nothing but a write can fail: not a lack of memory for a reply, and no acknowledgement.
  lemma {:induction false} FailsByWritingOnly(events: seq<Event>)
    requires forall i :: 0 <= i < |events| ==> Succeeding(events[i].tries)
    ensures !Run(events).failed
    decreases |events|
  {
    hide SendHead;
    if events != [] {
      var before := events[..|events| - 1];
      var e := events[|events| - 1];
      FailsByWritingOnly(before);
      var c := Run(before);
      if e.Reply? && c.list == [] {
        SendHeadSucceeds(c.(list := c.list + [Buffer(e.bytes, |e.bytes|, 0)], queued := c.queued + e.bytes), e.sndbuf,
                         e.tries);
      } else if e.Ack? && c.list != [] {
        var d := Counted(c, e.len);
        SendHeadSucceeds(d, e.sndbuf, e.tries);
        if |c.list| > 1 {
          SendHeadSucceeds(d.(list := c.list[1..], released := c.released + [d.list[0]]), e.sndbuf, e.tries);
        }
      }
    }
  }

  // The replies there was memory for.
  function Replied(events: seq<Event>): seq<bv8>
    decreases |events|
  {
    if events == [] then []
    else
      var e := events[|events| - 1];
      Replied(events[..|events| - 1]) + if e.Reply? && e.mallocOk then e.bytes else []
  }

  lemma SendQueued(c: Connection, bytes: seq<bv8>, mallocOk: bool, sndbuf: nat, tries: seq<Err>)
    requires Valid(c)
    ensures
      var r := Send(c, bytes, mallocOk, sndbuf, tries);
      r.failed || r.queued == if mallocOk then c.queued + bytes else c.queued
  {
    hide Try;
  }

  lemma AcknowledgedQueued(c: Connection, len: nat, sndbuf: nat, tries: seq<Err>)
    requires Valid(c)
    ensures Acknowledged(c, len, sndbuf, tries).queued == c.queued
  {
    hide Try;
  }

  // Until a write fails for good, exactly those have been queued, one after the other.
  lemma {:induction false} QueuedExactly(events: seq<Event>)
    ensures Run(events).failed || Run(events).queued == Replied(events)
    decreases |events|
  {
    hide Send, Acknowledged;
    if events != [] {
      var before := events[..|events| - 1];
      QueuedExactly(before);
      match events[|events| - 1]
      case Reply(bytes, mallocOk, sndbuf, tries) => SendQueued(Run(before), bytes, mallocOk, sndbuf, tries);
      case Ack(len, sndbuf, tries) => AcknowledgedQueued(Run(before), len, sndbuf, tries);
    }
  }

  /* In place. */

  class Client {
    var list: seq<Buffer>
    ghost var queued: seq<bv8>
    var written: seq<bv8>
    var acked: nat
    var released: seq<Buffer>
    var failed: bool

    ghost function State(): Connection
      reads this
    {
      Connection(list, queued, written, acked, released, failed)
    }

    constructor ()
      ensures State() == Fresh()
    {
      list, queued, written, acked, released, failed := [], [], [], 0, [], false;
    }

    method SendDataToClient(sndbuf: nat, tries: seq<Err>)
      requires Valid(State()) && list != []
      modifies this
      ensures State() == SendHead(old(State()), sndbuf, tries)
    {
      var head := list[0];
      var len: nat := if sndbuf < head.left then sndbuf else head.left;
      ghost var first := Try(len, tries);
      var rest := tries;
      var err := Outcome(rest);
      rest := Later(rest);
      if err == Mem {
        len := len / 2;
      }
      while err == Mem && len > 1
        invariant len <= head.left
        invariant first == if err == Mem && len > 1 then Try(len, rest) else Attempt(err, len)
        decreases err == Mem, len
      {
        err := Outcome(rest);
        rest := Later(rest);
        if err == Mem {
          len := len / 2;
        }
      }
      if err == Ok {
        written := written + head.Unwritten()[..len];
        list := [head.(left := head.left - len)] + list[1..];
      } else {
        list, failed := [], true;
      }
    }

    method SendData(bytes: seq<bv8>, mallocOk: bool, sndbuf: nat, tries: seq<Err>)
      requires Valid(State())
      modifies this
      ensures State() == Send(old(State()), bytes, mallocOk, sndbuf, tries)
    {
      if mallocOk {
        var busy := list != [];
        list := list + [Buffer(bytes, |bytes|, 0)];
        queued := queued + bytes;
        if !busy {
          SendDataToClient(sndbuf, tries);
        }
      }
    }

    method ServerSent(len: nat, sndbuf: nat, tries: seq<Err>)
      requires Valid(State())
      modifies this
      ensures State() == Acknowledged(old(State()), len, sndbuf, tries)
    {
      hide SendHead;
      if list != [] {
        var head := list[0].(acked := list[0].acked + len);
        list := [head] + list[1..];
        acked := acked + len;
        if head.left > 0 {
          SendDataToClient(sndbuf, tries);
        } else if head.acked < |head.data| {
          return;
        } else {
          released := released + [head];
          list := list[1..];
          if list != [] {
            SendDataToClient(sndbuf, tries);
          }
        }
      }
    }
  }
}
