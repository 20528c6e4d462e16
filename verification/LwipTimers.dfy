/**
 The timer table that drives lwIP without an operating system (ethernet.c timers_update): each poll adds the time
 since the last one to every entry and runs an entry's callback when it has gone past its interval.
 */
module LwipTimers {
  import opened Clock

  // `runs` records how often the callback has been called.
  datatype Entry = Entry(timer: nat, interval: nat, runs: nat)

  function Advance(e: Entry, diff: nat): Entry {
    var t := (e.timer + diff) % WRAP;
    if t > e.interval then Entry(t - e.interval, e.interval, e.runs + 1) else e.(timer := t)
  }

  class Timers {
    var lastTime: nat
    const table: array<Entry>

    constructor (intervals: seq<nat>)
      ensures fresh(table) && lastTime == 0 && table.Length == |intervals|
      ensures forall i :: 0 <= i < |intervals| ==> table[i] == Entry(0, intervals[i], 0)
    {
      lastTime := 0;
      table := new Entry[|intervals|](i requires 0 <= i < |intervals| => Entry(0, intervals[i], 0));
    }

    method Update(now: nat)
      requires now < WRAP && lastTime < WRAP
      modifies this, table
      ensures lastTime == if Elapsed(old(lastTime), now) == 0 then old(lastTime) else now
      ensures forall i :: 0 <= i < table.Length ==>
        table[i] == if Elapsed(old(lastTime), now) == 0 then old(table[i])
                    else Advance(old(table[i]), Elapsed(old(lastTime), now))
    {
      var diff := if now >= lastTime then now - lastTime else WRAP - 1 - lastTime + now;
      if diff != 0 {
        lastTime := now;
        for i := 0 to table.Length
          invariant lastTime == now
          invariant forall k :: 0 <= k < i ==> table[k] == Advance(old(table[k]), diff)
          invariant forall k :: i <= k < table.Length ==> table[k] == old(table[k])
        {
          var e := table[i].(timer := (table[i].timer + diff) % WRAP);
          if e.timer > e.interval {
            e := e.(timer := e.timer - e.interval, runs := e.runs + 1);
          }
          table[i] := e;
        }
      }
    }
  }

  /* Runs of one entry, poll by poll. A poll that sees no time pass leaves everything as it was. */

  datatype State = State(last: nat, entry: Entry, counted: nat)

  function Poll(s: State, time: nat): State
    requires s.last < WRAP
  {
    var d := Elapsed(s.last, Tick(time));
    if d == 0 then s else State(Tick(time), Advance(s.entry, d), s.counted + d)
  }

  function After(interval: nat, polls: seq<nat>): (s: State)
    ensures s.last < WRAP && s.entry.interval == interval
    decreases |polls|
  {
    if polls == [] then State(0, Entry(0, interval, 0), 0)
    else Poll(After(interval, polls[..|polls| - 1]), polls[|polls| - 1])
  }

  // A poll runs the callback once at most, exactly if the entry has then held more than its interval; what it lags
  // behind is left for the polls to come.
  lemma OncePerPoll(s: State, time: nat)
    requires s.last < WRAP && s.entry.timer < WRAP
    ensures
      var r := Poll(s, time).entry;
      var d := Elapsed(s.last, Tick(time));
      && s.entry.runs <= r.runs <= s.entry.runs + 1
      && (r.runs == s.entry.runs + 1 <==> d > 0 && (s.entry.timer + d) % 0x1_0000_0000 > s.entry.interval)
  {}

  // How often the 32-bit sum has wrapped.
  function Overflows(interval: nat, polls: seq<nat>): nat
    decreases |polls|
  {
    if polls == [] then 0
    else
      var before := polls[..|polls| - 1];
      var s := After(interval, before);
      var d := Elapsed(s.last, Tick(polls[|polls| - 1]));
      Overflows(interval, before) + if s.entry.timer + d >= WRAP then 1 else 0
  }

  lemma AdvanceConserves(e: Entry, d: nat)
    requires e.timer < WRAP && d < WRAP
    ensures
      var a := Advance(e, d);
      && a.timer < WRAP
      && a.runs * e.interval + a.timer + (if e.timer + d >= WRAP then WRAP else 0) == e.runs * e.interval + e.timer + d
  {
    assert (e.runs + 1) * e.interval == e.runs * e.interval + e.interval;
    if e.timer + d >= WRAP {
      assert (e.timer + d) % WRAP == e.timer + d - WRAP;
    }
  }

  // Over every sequence of polls: interval times runs, plus what the entry still holds, plus 2^32 for each time its
  // sum has wrapped, is the time counted.
  lemma {:induction false} TimeConserved(interval: nat, polls: seq<nat>)
    ensures
      var s := After(interval, polls);
      && s.entry.timer < WRAP
      && s.entry.runs * interval + s.entry.timer + WRAP * Overflows(interval, polls) == s.counted
    decreases |polls|
  {
    hide Advance, Elapsed;
    if polls != [] {
      var before := polls[..|polls| - 1];
      TimeConserved(interval, before);
      var s := After(interval, before);
      AdvanceConserves(s.entry, Elapsed(s.last, Tick(polls[|polls| - 1])));
    }
  }

  // Every poll came within the interval, by the firmware's own count.
  predicate Prompt(interval: nat, polls: seq<nat>)
    decreases |polls|
  {
    polls == []
    || (&& Prompt(interval, polls[..|polls| - 1])
        && Elapsed(After(interval, polls[..|polls| - 1]).last, Tick(polls[|polls| - 1])) <= interval)
  }

  lemma {:induction false} PromptBounds(interval: nat, polls: seq<nat>)
    requires Prompt(interval, polls) && 0 < interval && 2 * interval < WRAP
    ensures
      var s := After(interval, polls);
      && s.entry.timer <= interval && Overflows(interval, polls) == 0
      && (s.counted > 0 ==> s.entry.timer > 0)
    decreases |polls|
  {
    hide Elapsed, Tick, Advance;
    if polls != [] {
      var before := polls[..|polls| - 1];
      var s := After(interval, before);
      PromptBounds(interval, before);
      AdvanceBounds(s.entry, Elapsed(s.last, Tick(polls[|polls| - 1])));
    }
  }

  lemma AdvanceBounds(e: Entry, d: nat)
    requires e.timer <= e.interval && d <= e.interval && 2 * e.interval < WRAP
    ensures Advance(e, d).timer <= e.interval && e.timer + d < WRAP
    ensures d > 0 ==> Advance(e, d).timer > 0
  {}

  // Then nothing is lost, and after counted time T > 0 the callback has run exactly (T - 1) div interval times.
  lemma RunsExactly(interval: nat, polls: seq<nat>)
    requires Prompt(interval, polls) && 0 < interval && 2 * interval < WRAP
    ensures
      var s := After(interval, polls);
      && s.entry.runs * interval + s.entry.timer == s.counted
      && s.entry.runs == (if s.counted == 0 then 0 else (s.counted - 1) / interval)
  {
    PromptBounds(interval, polls);
    TimeConserved(interval, polls);
    var s := After(interval, polls);
    if s.counted > 0 {
      Quotient(s.entry.runs, interval, s.entry.timer - 1);
    } else {
      Gap(0, s.entry.runs, interval);
    }
  }

  lemma {:induction false} Gap(q: nat, k: nat, d: nat)
    ensures k > q ==> k * d >= q * d + d
    decreases k
  {
    if k > q + 1 {
      Gap(q, k - 1, d);
      assert k * d == (k - 1) * d + d;
    } else if k == q + 1 {
      assert k * d == q * d + d;
    }
  }

  lemma Quotient(q: nat, d: nat, r: nat)
    requires r < d
    ensures (q * d + r) / d == q
  {
    var x := q * d + r;
    var k, m := x / d, x % d;
    assert x == k * d + m;
    Gap(q, k, d);
    Gap(k, q, d);
  }

  // Polls in order, less than 2^32 - 1 ms apart: the time counted is real time less one per wrap of the counter.
  predicate InOrder(polls: seq<nat>) {
    && (polls != [] ==> polls[0] < WRAP - 1)
    && forall i :: 0 <= i < |polls| - 1 ==> polls[i] <= polls[i + 1] && polls[i + 1] - polls[i] < WRAP - 1
  }

  lemma {:induction false} CountsRealTime(interval: nat, polls: seq<nat>)
    requires InOrder(polls)
    ensures
      var now := if polls == [] then 0 else polls[|polls| - 1];
      After(interval, polls).counted == Counted(0, now) && Marks(After(interval, polls).last, now)
    decreases |polls|
  {
    hide Counted, Marks, Elapsed, Advance;
    if polls == [] {
      MarksStart();
    } else {
      var before := polls[..|polls| - 1];
      CountsRealTime(interval, before);
      var previous := if before == [] then 0 else before[|before| - 1];
      var now := polls[|polls| - 1];
      assert previous <= now && now - previous < WRAP - 1;
      MarkedElapsed(After(interval, before).last, previous, now);
      CountedAdds(0, previous, now);
      TickMarks(now);
    }
  }

  // No two polls, and no poll and the start, are further apart than the interval.
  predicate GapsWithin(interval: nat, polls: seq<nat>) {
    && (polls != [] ==> polls[0] <= interval)
    && forall i :: 0 <= i < |polls| - 1 ==> polls[i + 1] - polls[i] <= interval
  }

  lemma {:induction false} GapsPrompt(interval: nat, polls: seq<nat>)
    requires InOrder(polls) && GapsWithin(interval, polls)
    ensures Prompt(interval, polls)
    decreases |polls|
  {
    hide Counted, Marks, Elapsed, After;
    if polls != [] {
      var before := polls[..|polls| - 1];
      GapsPrompt(interval, before);
      CountsRealTime(interval, before);
      var previous := if before == [] then 0 else before[|before| - 1];
      var now := polls[|polls| - 1];
      assert now - previous <= interval && now - previous < WRAP - 1;
      MarkedElapsed(After(interval, before).last, previous, now);
      CountedAtMost(previous, now);
    }
  }

  // In real time: if no gap between polls exceeds the interval, the callback has run exactly (T - 1) div interval times
  // at a poll, T > 0 being the time since the start less one millisecond for each wrap of the counter.
  lemma RunsInRealTime(interval: nat, polls: seq<nat>)
    requires InOrder(polls) && GapsWithin(interval, polls) && 0 < interval && 2 * interval < WRAP
    ensures
      var time := Counted(0, if polls == [] then 0 else polls[|polls| - 1]);
      After(interval, polls).entry.runs == (if time == 0 then 0 else (time - 1) / interval)
  {
    hide Counted, GapsWithin, After, Prompt;
    GapsPrompt(interval, polls);
    CountsRealTime(interval, polls);
    RunsExactly(interval, polls);
  }

  lemma MarksStart()
    ensures Counted(0, 0) == 0 && Marks(0, 0)
  {}
}
