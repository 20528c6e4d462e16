/**
 Interrupt dispatch of the parallel I/O controllers (pio_handler.c). A 32-bit register is the set of its bits.
 */
module PioHandler {
  const MAX_INTERRUPT_SOURCES: nat := 7

  type Bits = s: set<nat> | forall b :: b in s ==> b < 32

  datatype Source = Source(id: nat, mask: Bits, attr: nat)

  // The handlers called, by index; or the scan has left the registered sources with bits still pending.
  datatype Scan = Ended(calls: seq<nat>) | Overran

  predicate Hit(s: Source, id: nat, status: set<nat>) {
    s.id == id && status * s.mask != {}
  }

  // The scan from source i on.
  function Dispatch(sources: seq<Source>, id: nat, i: nat, status: set<nat>): Scan
    requires i <= |sources|
    decreases |sources| - i
  {
    if status == {} then Ended([])
    else if i == |sources| then Overran
    else if Hit(sources[i], id, status) then
      match Dispatch(sources, id, i + 1, status - sources[i].mask)
      case Ended(calls) => Ended([i] + calls)
      case Overran => Overran
    else Dispatch(sources, id, i + 1, status)
  }

  class Registry {
    const sources: array<Source>
    var count: nat

    ghost predicate Valid()
      reads this
    {
      sources.Length == MAX_INTERRUPT_SOURCES && count <= MAX_INTERRUPT_SOURCES
    }

    ghost function Registered(): seq<Source>
      requires Valid()
      reads this, sources
    {
      sources[..count]
    }

    constructor ()
      ensures Valid() && fresh(sources) && Registered() == []
    {
      sources := new Source[MAX_INTERRUPT_SOURCES](_ => Source(0, {}, 0));
      count := 0;
    }

    // pio_handler_set: 1 when the table is full.
    method Set(id: nat, mask: Bits, attr: nat) returns (rc: nat)
      requires Valid()
      modifies this, sources
      ensures Valid()
      ensures rc == if |old(Registered())| == MAX_INTERRUPT_SOURCES then 1 else 0
      ensures Registered() == if rc == 0 then old(Registered()) + [Source(id, mask, attr)] else old(Registered())
    {
      if count >= MAX_INTERRUPT_SOURCES {
        return 1;
      }
      sources[count] := Source(id, mask, attr);
      count := count + 1;
      return 0;
    }

    // pio_handler_process on the pending enabled bits of one controller. The loop has no bound of its own: that it
    // stays inside the registered sources rests on every pending bit belonging to one of them.
    method Process(id: nat, pending: Bits) returns (called: seq<nat>)
      requires Valid() && Covered(Registered(), id, 0, pending)
      ensures Dispatch(Registered(), id, 0, pending) == Ended(called)
    {
      hide Dispatch, Covered;
      var status: set<nat> := pending;
      var i: nat := 0;
      called := [];
      EndsExactlyWhenCovered(Registered(), id, 0, pending);
      ghost var whole := Dispatch(Registered(), id, 0, pending);
      while status != {}
        invariant i <= count && Dispatch(Registered(), id, i, status).Ended?
        invariant whole == Ended(called + Dispatch(Registered(), id, i, status).calls)
        decreases count - i
      {
        DispatchStep(Registered(), id, i, status);
        if sources[i].id == id {
          if status * sources[i].mask != {} {
            called := called + [i];
            status := status - sources[i].mask;
          }
        }
        i := i + 1;
      }
      DispatchNothing(Registered(), id, i);
    }
  }

  predicate Matches(sources: seq<Source>, id: nat, k: nat, b: nat) {
    k < |sources| && sources[k].id == id && b in sources[k].mask
  }

  // Every bit belongs to a source of the controller, from source i on.
  ghost predicate Covered(sources: seq<Source>, id: nat, i: nat, status: set<nat>) {
    forall b :: b in status ==> exists k: nat :: i <= k && Matches(sources, id, k, b)
  }

  // Source k is the first one from source i on that has bit b.
  ghost predicate First(sources: seq<Source>, id: nat, i: nat, k: nat, b: nat) {
    i <= k && Matches(sources, id, k, b) && forall j: nat :: i <= j < k ==> !Matches(sources, id, j, b)
  }

  // Source k is the first match of some bit of the status.
  ghost predicate FirstOfSome(sources: seq<Source>, id: nat, i: nat, status: set<nat>, k: nat) {
    exists b :: b in status && First(sources, id, i, k, b)
  }

  // What is left of the status after source i has been looked at.
  function Left(sources: seq<Source>, id: nat, i: nat, status: set<nat>): set<nat>
    requires i < |sources|
  {
    if Hit(sources[i], id, status) then status - sources[i].mask else status
  }

  lemma DispatchStep(sources: seq<Source>, id: nat, i: nat, status: set<nat>)
    requires i <= |sources| && status != {} && Dispatch(sources, id, i, status).Ended?
    ensures
      && i < |sources|
      && var rest := Dispatch(sources, id, i + 1, Left(sources, id, i, status));
      && rest.Ended?
      && Dispatch(sources, id, i, status).calls == (if Hit(sources[i], id, status) then [i] else []) + rest.calls
  {
  }

  lemma DispatchNothing(sources: seq<Source>, id: nat, i: nat)
    requires i <= |sources|
    ensures Dispatch(sources, id, i, {}) == Ended([])
  {
  }

  lemma NextMisses(sources: seq<Source>, id: nat, i: nat, status: set<nat>, b: nat)
    requires i < |sources| && b in Left(sources, id, i, status)
    ensures !Matches(sources, id, i, b)
  {
    assert b in sources[i].mask ==> b in status * sources[i].mask;
  }

  lemma CoveredStep(sources: seq<Source>, id: nat, i: nat, status: set<nat>)
    requires i < |sources|
    ensures
      Covered(sources, id, i, status)
      <==> Covered(sources, id, i + 1, Left(sources, id, i, status))
  {
    var next := Left(sources, id, i, status);
    if Covered(sources, id, i, status) {
      forall b | b in next
        ensures exists k: nat :: i + 1 <= k && Matches(sources, id, k, b)
      {
        var k: nat :| i <= k && Matches(sources, id, k, b);
        NextMisses(sources, id, i, status, b);
      }
    }
    if Covered(sources, id, i + 1, next) {
      forall b | b in status
        ensures exists k: nat :: i <= k && Matches(sources, id, k, b)
      {
        if b in next {
          var k: nat :| i + 1 <= k && Matches(sources, id, k, b);
        } else {
          assert Matches(sources, id, i, b);
        }
      }
    }
  }

  // The scan ends inside the registered sources exactly when every pending bit belongs to one of them.
  lemma {:induction false} EndsExactlyWhenCovered(sources: seq<Source>, id: nat, i: nat, status: set<nat>)
    requires i <= |sources|
    ensures Dispatch(sources, id, i, status).Ended? <==> Covered(sources, id, i, status)
    decreases |sources| - i
  {
    if status != {} {
      if i == |sources| {
        var b :| b in status;
        assert forall k: nat :: i <= k ==> !Matches(sources, id, k, b);
      } else {
        CoveredStep(sources, id, i, status);
        EndsExactlyWhenCovered(sources, id, i + 1, Left(sources, id, i, status));
      }
    }
  }

  // Called once each, in order, are exactly the sources that are the first match of some pending bit.
  lemma {:induction false} CallsAreFirstMatches(sources: seq<Source>, id: nat, i: nat, status: set<nat>)
    requires i <= |sources| && Dispatch(sources, id, i, status).Ended?
    ensures
      var calls := Dispatch(sources, id, i, status).calls;
      && (forall k: nat :: k in calls <==> FirstOfSome(sources, id, i, status, k))
      && (forall x, y :: 0 <= x < y < |calls| ==> calls[x] < calls[y])
    decreases |sources| - i
  {
    if status != {} {
      CallsAreFirstMatches(sources, id, i + 1, Left(sources, id, i, status));
      forall k: nat
        ensures FirstOfSome(sources, id, i, status, k)
           <==> ((Hit(sources[i], id, status) && k == i)
                 || FirstOfSome(sources, id, i + 1, Left(sources, id, i, status), k))
      {
        FirstStep(sources, id, i, status, k);
      }
      var rest := Dispatch(sources, id, i + 1, Left(sources, id, i, status)).calls;
      assert forall x :: 0 <= x < |rest| ==> rest[x] in rest && rest[x] > i;
      assert Dispatch(sources, id, i, status).calls == (if Hit(sources[i], id, status) then [i] + rest else rest);
    }
  }

  lemma FirstStep(sources: seq<Source>, id: nat, i: nat, status: set<nat>, k: nat)
    requires i < |sources|
    ensures FirstOfSome(sources, id, i, status, k)
       <==> ((Hit(sources[i], id, status) && k == i)
             || FirstOfSome(sources, id, i + 1, Left(sources, id, i, status), k))
  {
    var hit := Hit(sources[i], id, status);
    var next := Left(sources, id, i, status);
    if b :| b in status && First(sources, id, i, k, b) {
      if k == i {
        assert b in status * sources[i].mask;
      } else {
        assert !Matches(sources, id, i, b);
        assert First(sources, id, i + 1, k, b);
      }
    }
    if hit && k == i {
      var b :| b in status * sources[i].mask;
      assert First(sources, id, i, i, b);
    }
    if b :| b in next && First(sources, id, i + 1, k, b) {
      NextMisses(sources, id, i, status, b);
      assert First(sources, id, i, k, b);
    }
  }
}
