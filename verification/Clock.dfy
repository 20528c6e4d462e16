/**
 The millisecond counter and the way both timer services measure the time between two readings of it
 (ethernet.c timers_update, upgrade.c switching_timer_update).
 */
module Clock {
  const WRAP: nat := 0x1_0000_0000

  function Tick(time: nat): (t: nat)
    ensures t < WRAP
  {
    time % WRAP
  }

  // The difference the firmware computes: one short whenever the counter wrapped in between.
  function Elapsed(last: nat, now: nat): (d: nat)
    requires last < WRAP && now < WRAP
    ensures d < WRAP
  {
    if now >= last then now - last else WRAP - 1 - last + now
  }

  function Wraps(from: nat, to: nat): int {
    to / WRAP - from / WRAP
  }

  // Real time less one per wrap of the counter.
  function Counted(from: nat, to: nat): int {
    to - from - Wraps(from, to)
  }

  lemma ElapsedCounts(last: nat, now: nat)
    requires last <= now && now - last < WRAP
    ensures Elapsed(Tick(last), Tick(now)) == Counted(last, now)
  {
    var q := last / WRAP;
    assert last == q * WRAP + last % WRAP;
    if now / WRAP != q {
      assert now / WRAP == q + 1;
    }
  }

  // Never more than what has really passed, however long the gap.
  lemma ElapsedAtMost(last: nat, now: nat)
    requires last <= now
    ensures Elapsed(Tick(last), Tick(now)) <= now - last
  {
    assert last == (last / WRAP) * WRAP + last % WRAP;
    assert now == (now / WRAP) * WRAP + now % WRAP;
  }

  // A reading of the counter as the services keep it: that of the last poll, or, if the counter wrapped between
  // two polls a millisecond apart, the one before, because a difference of zero is not stored.
  predicate Marks(last: nat, polled: nat) {
    last == Tick(polled) || (Tick(polled) == 0 && polled > 0 && last == WRAP - 1)
  }

  lemma TickMarks(time: nat)
    ensures Marks(Tick(time), time)
  {}

  lemma MarkedElapsed(last: nat, polled: nat, now: nat)
    requires Marks(last, polled) && polled <= now && now - polled < WRAP - 1
    ensures Elapsed(last, Tick(now)) == Counted(polled, now)
    ensures Elapsed(last, Tick(now)) == 0 ==> Marks(last, now)
  {
    assert polled == (polled / WRAP) * WRAP + polled % WRAP;
    assert now == (now / WRAP) * WRAP + now % WRAP;
    if last == Tick(polled) {
      ElapsedCounts(polled, now);
    }
  }

  lemma CountedAtMost(from: nat, to: nat)
    requires from <= to
    ensures Counted(from, to) <= to - from
  {}

  lemma CountedAdds(a: nat, b: nat, c: nat)
    ensures Counted(a, c) == Counted(a, b) + Counted(b, c)
  {}
}
