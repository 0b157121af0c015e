// The delay measurement is exact: the theorem about Clocks.ConfigDc on a segment in which no slave without
// a clock splits, port 0 faces the master, cables are symmetric and forwarding is free.
module Delays {
  import opened Wiring
  import opened Topology
  import opened Clocks

  /** What a clock with this offset shows at a time. */
  function Clock(offset: int, time: int): int {
    Wrap32(time + offset)
  }

  /** The receive times latched along `t` by a frame that leaves for it at time `at`: in a slave with a clock the first
      arrival in register 0 and each return in the register of its port. Clocks have any offset; none runs over while
      the frame is beyond its slave. */
  ghost predicate Latches(link: seq<Link>, latch: seq<Latch>, offset: seq<int>, t: Tree, self: nat, at: int) {
    t.Slave? ==>
      && self < |link| == |latch| == |offset|
      && var here := at + t.cable;
         var back3 := here + RoundTrip(t.p3);
         var back1 := back3 + RoundTrip(t.p1);
         var back2 := back1 + RoundTrip(t.p2);
         && (link[self].hasdc ==>
              && latch[self].time0 == Clock(offset[self], here)
              && (t.p3.Slave? ==> latch[self].time3 == Clock(offset[self], back3))
              && (t.p1.Slave? ==> latch[self].time1 == Clock(offset[self], back1))
              && (t.p2.Slave? ==> latch[self].time2 == Clock(offset[self], back2))
              && Clock(offset[self], here) + (back2 - here) < 0x8000_0000)
         && Latches(link, latch, offset, t.p3, First3(self), here)
         && Latches(link, latch, offset, t.p1, First1(t, self), back3)
         && Latches(link, latch, offset, t.p2, First2(t, self), back1)
  }

  /** Every slave of `t` with a clock has as delay the time at which the frame first reaches it, hangs on the port
      recorded for it, and was entered through port 0. The frame leaves the clock parent, or the slave without a clock
      that stands in between, at `at`. */
  ghost predicate Measured(link: seq<Link>, dc: seq<Dc>, t: Tree, self: nat, at: int, port: nat) {
    t.Slave? ==>
      && self < |dc| == |link|
      && (link[self].hasdc ==>
           dc[self].pdelay == at + t.cable && dc[self].entryport == 0 && dc[self].parentport == port)
      && var clock := link[self].hasdc;
         && Measured(link, dc, t.p3, First3(self), at + t.cable, if clock then 3 else port)
         && Measured(link, dc, t.p1, First1(t, self), at + t.cable + RoundTrip(t.p3), if clock then 1 else port)
         && Measured(link, dc, t.p2, First2(t, self), at + t.cable + RoundTrip(t.p3) + RoundTrip(t.p1), if clock then 2 else port)
  }

  /** The same for the branches of a slave with a clock that the frame reaches at time `here`. */
  ghost predicate MeasuredBeyond(link: seq<Link>, dc: seq<Dc>, t: Tree, self: nat, here: int)
    requires t.Slave?
  {
    && Measured(link, dc, t.p3, First3(self), here, 3)
    && Measured(link, dc, t.p1, First1(t, self), here + RoundTrip(t.p3), 1)
    && Measured(link, dc, t.p2, First2(t, self), here + RoundTrip(t.p3) + RoundTrip(t.p1), 2)
  }

  /** The same for a segment: delays count from the arrival at the first slave with a clock, which has delay 0. */
  ghost predicate MeasuredFromFirst(link: seq<Link>, dc: seq<Dc>, t: Tree, self: nat) {
    t.Slave? ==>
      && self < |dc| == |link|
      && if link[self].hasdc then dc[self].pdelay == 0 && dc[self].entryport == 0 && MeasuredBeyond(link, dc, t, self, 0)
         else MeasuredFromFirst(link, dc, Only(t), self + 1)
  }

  /** No slave without a clock splits. */
  ghost predicate Unsplit(link: seq<Link>, t: Tree, self: nat) {
    t.Slave? ==>
      && self < |link| && (link[self].hasdc || Links(t) <= 2)
      && Unsplit(link, t.p3, First3(self)) && Unsplit(link, t.p1, First1(t, self)) && Unsplit(link, t.p2, First2(t, self))
  }

  /** Some slave of `t` has a clock. */
  ghost predicate Alive(link: seq<Link>, t: Tree, self: nat) {
    t.Slave? && self < |link| &&
    (link[self].hasdc || Alive(link, t.p3, First3(self)) || Alive(link, t.p1, First1(t, self)) ||
     Alive(link, t.p2, First2(t, self)))
  }

  /** The branch of a slave that has only one, Open if it has none. */
  function Only(t: Tree): (r: Tree)
    requires t.Slave?
    ensures r < t
  {
    if t.p3.Slave? then t.p3 else if t.p1.Slave? then t.p1 else t.p2
  }

  /** The stamps of a slave as they should be, and its entry port. */
  ghost predicate Fresh(d: Dc, t: Tree)
    requires t.Slave?
  {
    && d.entryport == 0
    && var below := RoundTrip(t.p3) + RoundTrip(t.p1) + RoundTrip(t.p2);
       && 0 <= below < 0x8000_0000
       && (t.p3.Slave? ==> d.rtD == d.rtA + RoundTrip(t.p3))
       && (t.p1.Slave? ==> d.rtB == d.rtA + RoundTrip(t.p3) + RoundTrip(t.p1))
       && (t.p2.Slave? ==> d.rtC == d.rtA + below)
  }

  /** The stamps of the clock parent tell the round trip of the branch that begins with slave `first` and hangs on its
      port `port`, and the time `gone` spent in earlier ones. `t` is the branch or what is left of it after cables of
      length `walked`, and the frame enters `t` at time `at`. */
  ghost predicate Offers(link: seq<Link>, dc: seq<Dc>, t: Tree, first: nat, parent: nat, port: nat, at: int,
                         walked: nat, gone: int) {
    && 1 <= parent < first && parent < |link| == |dc|
    && link[parent].topology > 1 && link[parent].hasdc
    && var up := dc[parent];
       && PortGap(link[parent].activeports, up, port) == 2 * walked + RoundTrip(t) < 0x8000_0000
       && EntryGap(link[parent].activeports, up, port) == gone
       && 0 <= gone < 0x8000_0000
       && (first - parent == 1 ==> gone == 0)
       && up.pdelay == at - gone - walked
       && 0 <= up.pdelay && at + walked + RoundTrip(t) < 0x8000_0000
  }

  /** Within one round trip a clock advances by the time that passes. */
  lemma {:induction false} ClockAdvances(offset: int, here: int, passed: int)
    requires 0 <= passed && Clock(offset, here) + passed < 0x8000_0000
    ensures Clock(offset, here + passed) == Clock(offset, here) + passed
  {
  }

  /** A frame enters through port 0 when no other active port was reached earlier. */
  lemma {:induction false} EnteredAtZero(active: set<nat>, d: Dc)
    requires 0 in active
    requires 3 in active ==> d.rtA <= d.rtD
    requires 1 in active ==> d.rtA <= d.rtB
    requires 2 in active ==> d.rtA <= d.rtC
    ensures EntryPort(active, d) == 0
  {
    var l := ActiveList(active);
    assert l[0] == 0;
    assert forall k :: 0 <= k < |l| ==> d.rtA <= PortTime(d, l[k]);
  }

  /** The registers of the first slave of `t`. */
  lemma {:induction false} LatchedHere(link: seq<Link>, latch: seq<Latch>, offset: seq<int>, t: Tree, self: nat, at: int)
    requires t.Slave? && Latches(link, latch, offset, t, self, at) && self < |link| && link[self].hasdc
    ensures self < |latch| == |offset|
    ensures var l, o, here := latch[self], offset[self], at + t.cable;
            var r3, r1, r2 := RoundTrip(t.p3), RoundTrip(t.p1), RoundTrip(t.p2);
            && RoundTrip(t) == 2 * t.cable + r3 + r1 + r2
            && l.time0 == Clock(o, here)
            && (t.p3.Slave? ==> l.time3 == Clock(o, here + r3))
            && (t.p1.Slave? ==> l.time1 == Clock(o, here + r3 + r1))
            && (t.p2.Slave? ==> l.time2 == Clock(o, here + r3 + r1 + r2))
            && Clock(o, here) + (r3 + r1 + r2) < 0x8000_0000
  {
  }

  /** The stamps of a slave, read by the source, are those of Fresh. */
  lemma {:induction false} StampsAreFresh(link: seq<Link>, latch: seq<Latch>, offset: seq<int>, t: Tree, self: nat,
                                          at: int, d: Dc)
    requires t.Slave? && Latches(link, latch, offset, t, self, at) && self < |link| == |latch| && link[self].hasdc
    requires RoundTrip(t) < 0x8000_0000
    ensures var r := Stamped(d, Ports(t), latch[self]);
            Fresh(r, t) && r == r.(consumedports := Ports(t) - {0}, parentport := d.parentport, pdelay := d.pdelay)
  {
    hide Wrap32, RoundTrip, Latches;
    LatchedHere(link, latch, offset, t, self, at);
    var here := at + t.cable;
    var r3, r1, r2 := RoundTrip(t.p3), RoundTrip(t.p1), RoundTrip(t.p2);
    ClockAdvances(offset[self], here, r3);
    ClockAdvances(offset[self], here, r3 + r1);
    ClockAdvances(offset[self], here, r3 + r1 + r2);
    var l := latch[self];
    EnteredAtZero(Ports(t), d.(rtA := l.time0, rtB := l.time1, rtC := l.time2, rtD := l.time3));
  }

  lemma {:induction false} EntryGapIs(active: set<nat>, d: Dc, port: nat, gap: int)
    requires PortTime(d, PrevPort(active, port)) == PortTime(d, d.entryport) + gap
    requires 0 <= gap < 0x8000_0000
    ensures EntryGap(active, d, port) == gap
  {
    NoWrap(gap);
  }

  lemma {:induction false} PortGapIs(active: set<nat>, d: Dc, port: nat, gap: int)
    requires PortTime(d, port) == PortTime(d, PrevPort(active, port)) + gap
    requires 0 <= gap < 0x8000_0000
    ensures PortGap(active, d, port) == gap
  {
    NoWrap(gap);
  }

  /** The last port a frame comes back through before it leaves by port 0. */
  lemma {:induction false} BelowFromStamps(d: Dc, t: Tree)
    requires t.Slave? && Fresh(d, t) && Links(t) > 1
    ensures EntryGap(Ports(t), d, 0) == RoundTrip(t) - 2 * t.cable
  {
    var below := RoundTrip(t.p3) + RoundTrip(t.p1) + RoundTrip(t.p2);
    var last := if t.p2.Slave? then 2 else if t.p1.Slave? then 1 else 3;
    assert PrevPort(Ports(t), 0) == last;
    assert PortTime(d, last) == d.rtA + below;
    EntryGapIs(Ports(t), d, 0, below);
  }

  lemma {:induction false} CombineExact(cable: nat, below: nat, earlier: nat, parentDelay: int)
    requires 0 <= parentDelay
    requires parentDelay + earlier + 2 * cable + below < 0x8000_0000
    ensures Combine(2 * cable + below, below, earlier, parentDelay) == parentDelay + earlier + cable
  {
    NoWrap(2 * cable);
    NoWrap(cable + earlier + parentDelay);
  }

  lemma {:induction false} RoundTripSplits(t: Tree)
    requires t.Slave?
    ensures RoundTrip(t) >= 2 * t.cable && (Links(t) == 1 ==> RoundTrip(t) == 2 * t.cable)
  {
  }

  lemma {:induction false} FreshEntry(d: Dc, t: Tree)
    requires t.Slave? && Fresh(d, t)
    ensures d.entryport == 0
  {
  }

  /**
   * The delay formula for slaves entered through any port: when the stamps of the clock parent show `earlier` between its
   * entry and the port before this one and then a round trip over `cable` and all that is behind the slave, and the
   * slave's own stamps show `below` from its entry to the last port before it, the delay is that of the parent and the
   * way to the slave.
   */
  lemma {:induction false} DelayForAnyEntry(link: seq<Link>, dc: seq<Dc>, self: nat, first: nat, parent: nat, port: nat,
                                            cable: nat, below: nat, earlier: nat)
    requires self < |link| == |dc| && parent < |link| && parent < first
    requires var up, before := dc[parent], PrevPort(link[parent].activeports, port);
             && PortTime(up, port) == PortTime(up, before) + 2 * cable + below
             && (first - parent > 1 ==> PortTime(up, before) == PortTime(up, up.entryport) + earlier)
             && (first - parent == 1 ==> earlier == 0)
    requires var me, last := dc[self], PrevPort(link[self].activeports, dc[self].entryport);
             if link[self].topology > 1 then PortTime(me, last) == PortTime(me, me.entryport) + below else below == 0
    requires 0 <= dc[parent].pdelay && dc[parent].pdelay + earlier + 2 * cable + below < 0x8000_0000
    ensures Delay(link, dc, self, first, parent, port) == dc[parent].pdelay + earlier + cable
  {
    hide PortTime, PrevPort, Combine, Wrap32;
    NoWrap(2 * cable + below);
    NoWrap(below);
    NoWrap(earlier);
    CombineExact(cable, below, earlier, dc[parent].pdelay);
  }

  /** The delay formula on exact stamps. */
  lemma {:induction false} DelayIsArrival(link: seq<Link>, dc: seq<Dc>, t: Tree, self: nat, first: nat, parent: nat,
                                          port: nat,
                                          at: int, walked: nat, gone: int)
    requires t.Slave? && |link| == |dc| && self < |link|
    requires link[self].topology == Links(t) && link[self].activeports == Ports(t)
    requires Fresh(dc[self], t)
    requires Offers(link, dc, t, first, parent, port, at, walked, gone)
    ensures Delay(link, dc, self, first, parent, port) == at + t.cable
  {
    hide EntryGap, PortGap, RoundTrip, Combine, Fresh;
    RoundTripSplits(t);
    if Links(t) > 1 {
      BelowFromStamps(dc[self], t);
    }
    FreshEntry(dc[self], t);
    CombineExact(walked + t.cable, RoundTrip(t) - 2 * t.cable, gone, dc[parent].pdelay);
  }

  /**
   * Where a slave without a clock splits, its clock parent's stamps also count the way through its other branches. The
   * delay of a clock behind it is then exact if and only if those take no time.
   */
  lemma {:induction false} DelayIsArrivalIff(link: seq<Link>, dc: seq<Dc>, t: Tree, self: nat, first: nat,
                                             parent: nat, port: nat,
                                             at: int, walked: nat, gone: nat, others: nat)
    requires t.Slave? && |link| == |dc| && self < |link| && parent < first && parent < |link|
    requires link[self].topology == Links(t) && link[self].activeports == Ports(t)
    requires Fresh(dc[self], t)
    requires PortGap(link[parent].activeports, dc[parent], port) == 2 * walked + RoundTrip(t) + 2 * others
    requires EntryGap(link[parent].activeports, dc[parent], port) == gone && (first - parent == 1 ==> gone == 0)
    requires dc[parent].pdelay == at - gone - walked >= 0 && at + walked + RoundTrip(t) + 2 * others < 0x8000_0000
    ensures Delay(link, dc, self, first, parent, port) == at + t.cable <==> others == 0
  {
    hide EntryGap, PortGap, RoundTrip, Combine, Fresh;
    RoundTripSplits(t);
    if Links(t) > 1 {
      BelowFromStamps(dc[self], t);
    }
    FreshEntry(dc[self], t);
    CombineExact(walked + t.cable + others, RoundTrip(t) - 2 * t.cable, gone, dc[parent].pdelay);
  }

  /** A slave whose stamps are right can take its branches one after the other. */
  ghost predicate Parental(link: seq<Link>, dc: seq<Dc>, t: Tree, self: nat, here: int) {
    && t.Slave? && 1 <= self < |link| == |dc|
    && link[self].topology == Links(t) && link[self].activeports == Ports(t) && link[self].hasdc
    && Fresh(dc[self], t) && dc[self].pdelay == here
    && 0 <= here && here + RoundTrip(t.p3) + RoundTrip(t.p1) + RoundTrip(t.p2) < 0x8000_0000
  }

  // ---------------------------------------------------------------- one step

  /** The climb from below a slave. */
  lemma {:induction false} ClimbsFrom(link: seq<Link>, i: nat, self: nat)
    requires Descending(link) && 1 <= i < |link| && link[i].parent == self
    ensures Climb(link, i) == if self == 0 || link[self].hasdc then (i, self) else Climb(link, self)
  {
  }

  /** Taking the port away leaves its stamps and those of the entry port. */
  lemma {:induction false} OffersConsumed(link: seq<Link>, dc: seq<Dc>, dc': seq<Dc>, t: Tree, first: nat,
                                          parent: nat, port: nat,
                                          at: int, walked: nat, gone: int)
    requires Offers(link, dc, t, first, parent, port, at, walked, gone) && |dc'| == |dc|
    requires dc'[parent] == dc[parent].(consumedports := dc'[parent].consumedports)
    ensures Offers(link, dc', t, first, parent, port, at, walked, gone)
  {
    hide RoundTrip, OpenPort;
  }

  lemma {:induction false} OffersBasics(link: seq<Link>, dc: seq<Dc>, t: Tree, first: nat, parent: nat, port: nat,
                                        at: int, walked: nat, gone: int)
    requires Offers(link, dc, t, first, parent, port, at, walked, gone)
    ensures 1 <= parent < first && parent < |link| == |dc| && link[parent].topology > 1
    ensures RoundTrip(t) < 0x8000_0000 && 0 <= at && at + walked + RoundTrip(t) < 0x8000_0000
  {
  }

  lemma {:induction false} MeasureOne(link: seq<Link>, dc: seq<Dc>, t: Tree, self: nat, first: nat, parent: nat, port: nat,
                                      at: int, walked: nat, gone: int)
    requires t.Slave? && Descending(link) && 1 <= self < |link| == |dc|
    requires link[self].topology == Links(t) && link[self].activeports == Ports(t) && Climb(link, self) == (first, parent)
    requires Fresh(dc[self], t) && parent < |dc| && OpenPort(dc[parent].consumedports) == port
    requires Offers(link, dc, t, first, parent, port, at, walked, gone)
    ensures Measure(link, dc, self)
         == Consume(dc, parent)[self := dc[self].(parentport := port, pdelay := at + t.cable)]
  {
    hide Climb, Delay, Offers, Fresh, Descending;
    OffersBasics(link, dc, t, first, parent, port, at, walked, gone);
    OffersConsumed(link, dc, Consume(dc, parent), t, first, parent, port, at, walked, gone);
    DelayIsArrival(link, Consume(dc, parent), t, self, first, parent, port, at, walked, gone);
  }

  /** What the step of the first slave of `t` does if it has a clock: its record becomes Fresh with the true delay, the
      clock parent loses the port, all other records stay. */
  lemma {:induction false} StepMeasures(link: seq<Link>, latch: seq<Latch>, offset: seq<int>, t: Tree, self: nat,
                     first: nat, parent: nat, port: nat, at: int, origin: int, walked: nat, gone: int, st: State)
    requires t.Slave? && Shaped(link, latch, st) && 1 <= self < |link| && link[self].hasdc &&
             Climb(link, self) == (first, parent)
    requires link[self].topology == Links(t) && link[self].activeports == Ports(t) && parent < self
    requires Latches(link, latch, offset, t, self, at + origin)
    requires OpenPort(st.dc[parent].consumedports) == port
    requires Offers(link, st.dc, t, first, parent, port, at, walked, gone)
    ensures var s := Step(link, latch, st, self);
            var r := s.dc;
            && s.hold == 0 && Parental(link, r, t, self, at + t.cable)
            && r[self].consumedports == Ports(t) - {0} && r[self].parentport == port
            && r[self].entryport == 0 && r[self].pdelay == at + t.cable
            && r == st.dc[parent := st.dc[parent].(consumedports := st.dc[parent].consumedports - {port})][self := r[self]]
  {
    hide Climb, Offers, Latches, Fresh, Measure, Parental, RoundTrip;
    OffersBasics(link, st.dc, t, first, parent, port, at, walked, gone);
    StampsAreFresh(link, latch, offset, t, self, at + origin, st.dc[self]);
    var dc := st.dc[self := Stamped(st.dc[self], link[self].activeports, latch[self])];
    OffersConsumed(link, st.dc, dc, t, first, parent, port, at, walked, gone);
    MeasureOne(link, dc, t, self, first, parent, port, at, walked, gone);
    RoundTripParts(t);
    FreshEntry(dc[self], t);
    BecomesParental(link, dc[self], Measure(link, dc, self), t, self, at + t.cable, port);
  }

  lemma {:induction false} BecomesParental(link: seq<Link>, d: Dc, dc: seq<Dc>, t: Tree, self: nat, here: int, port: nat)
    requires t.Slave? && 1 <= self < |link| == |dc|
    requires link[self].topology == Links(t) && link[self].activeports == Ports(t) && link[self].hasdc
    requires Fresh(d, t) && dc[self] == d.(parentport := port, pdelay := here)
    requires 0 <= here && here + RoundTrip(t.p3) + RoundTrip(t.p1) + RoundTrip(t.p2) < 0x8000_0000
    ensures Parental(link, dc, t, self, here)
  {
  }

  lemma {:induction false} RoundTripParts(t: Tree)
    requires t.Slave?
    ensures RoundTrip(t) == 2 * t.cable + RoundTrip(t.p3) + RoundTrip(t.p1) + RoundTrip(t.p2)
  {
  }

  /** The first slave with a clock has no clock parent: its delay stays what it was. */
  lemma {:induction false} StepFirst(link: seq<Link>, latch: seq<Latch>, offset: seq<int>, t: Tree, self: nat,
                                     at: int, st: State)
    requires t.Slave? && Shaped(link, latch, st) && 1 <= self < |link| && link[self].hasdc && Climb(link, self).1 == 0
    requires link[self].topology == Links(t) && link[self].activeports == Ports(t)
    requires st.dc[self].pdelay == 0
    requires Latches(link, latch, offset, t, self, at) && RoundTrip(t) < 0x8000_0000
    ensures var s := Step(link, latch, st, self);
            && s.hold == 0 && Parental(link, s.dc, t, self, 0) && s.dc[self].consumedports == Ports(t) - {0}
            && s.dc[self].entryport == 0 && s.dc[self].pdelay == 0 && s.dc == st.dc[self := s.dc[self]]
  {
    hide Climb, Latches;
    StampsAreFresh(link, latch, offset, t, self, at, st.dc[self]);
  }

  /** A slave without a clock: its record is cleared, and if its branch ends the slave that is held gives up a port. */
  lemma {:induction false} StepClockless(link: seq<Link>, latch: seq<Latch>, st: State, self: nat)
    requires Shaped(link, latch, st) && 1 <= self < |link| && !link[self].hasdc && link[self].parent < |link|
    ensures var s := Step(link, latch, st, self);
            var held := Held(link, link[self].parent, st.hold);
            var d := st.dc[self].(consumedports := link[self].activeports, rtA := 0, rtB := 0, rtC := 0, rtD := 0);
            var dc := st.dc[self := d];
            && held < |dc|
            && (if held > 0 && link[self].topology == 1 then s.dc == Consume(dc, held) && s.hold == 0
                else s.dc == dc && s.hold == held)
  {
  }

  // ---------------------------------------------------------------- whole branches

  lemma {:induction false} RunSplit(link: seq<Link>, latch: seq<Latch>, st: State, a: nat, b: nat, c: nat)
    requires Shaped(link, latch, st) && 1 <= a <= b <= c <= |link|
    ensures Run(link, latch, Run(link, latch, st, a, b), b, c) == Run(link, latch, st, a, c)
    decreases c
  {
    hide Step, Descending;
    if b < c {
      RunSplit(link, latch, st, a, b, c - 1);
    }
  }

  lemma {:induction false} RunOne(link: seq<Link>, latch: seq<Latch>, st: State, a: nat, c: nat)
    requires Shaped(link, latch, st) && 1 <= a < c <= |link|
    ensures Run(link, latch, Step(link, latch, st, a), a + 1, c) == Run(link, latch, st, a, c)
  {
    hide Step, Descending;
    assert Run(link, latch, st, a, a + 1) == Step(link, latch, Run(link, latch, st, a, a), a);
    RunSplit(link, latch, st, a, a + 1, c);
  }

  /** Later slaves do not disturb a measured branch. */
  lemma {:induction false} MeasuredStays(link: seq<Link>, dc: seq<Dc>, dc': seq<Dc>, t: Tree, self: nat, at: int, port: nat)
    requires |dc| == |dc'| && Measured(link, dc, t, self, at, port)
    requires forall j :: self <= j < self + Size(t) && j < |dc| ==> dc[j] == dc'[j]
    ensures Measured(link, dc', t, self, at, port)
    decreases t
  {
    hide RoundTrip;
    if t.Slave? {
      var here, clock := at + t.cable, link[self].hasdc;
      MeasuredStays(link, dc, dc', t.p3, First3(self), here, if clock then 3 else port);
      MeasuredStays(link, dc, dc', t.p1, First1(t, self), here + RoundTrip(t.p3), if clock then 1 else port);
      MeasuredStays(link, dc, dc', t.p2, First2(t, self), here + RoundTrip(t.p3) + RoundTrip(t.p1), if clock then 2 else port);
    }
  }

  lemma {:induction false} Offers3(link: seq<Link>, dc: seq<Dc>, t: Tree, self: nat, here: int)
    requires Parental(link, dc, t, self, here) && t.p3.Slave?
    ensures OpenPort(Ports(t) - {0}) == 3
    ensures Offers(link, dc, t.p3, First3(self), self, 3, here, 0, 0)
  {
    assert PrevPort(Ports(t), 3) == 0;
    PortGapIs(Ports(t), dc[self], 3, RoundTrip(t.p3));
    EntryGapIs(Ports(t), dc[self], 3, 0);
  }

  lemma {:induction false} Offers1(link: seq<Link>, dc: seq<Dc>, t: Tree, self: nat, here: int)
    requires Parental(link, dc, t, self, here) && t.p1.Slave?
    ensures OpenPort(Ports(t) - {0, 3}) == 1
    ensures Offers(link, dc, t.p1, First1(t, self), self, 1, here + RoundTrip(t.p3), 0, RoundTrip(t.p3))
  {
    assert PrevPort(Ports(t), 1) == if t.p3.Slave? then 3 else 0;
    PortGapIs(Ports(t), dc[self], 1, RoundTrip(t.p1));
    EntryGapIs(Ports(t), dc[self], 1, RoundTrip(t.p3));
  }

  lemma {:induction false} Offers2(link: seq<Link>, dc: seq<Dc>, t: Tree, self: nat, here: int)
    requires Parental(link, dc, t, self, here) && t.p2.Slave?
    ensures OpenPort(Ports(t) - {0, 3, 1}) == 2
    ensures var gone := RoundTrip(t.p3) + RoundTrip(t.p1);
            Offers(link, dc, t.p2, First2(t, self), self, 2, here + gone, 0, gone)
  {
    assert PrevPort(Ports(t), 2) == if t.p1.Slave? then 1 else if t.p3.Slave? then 3 else 0;
    PortGapIs(Ports(t), dc[self], 2, RoundTrip(t.p2));
    EntryGapIs(Ports(t), dc[self], 2, RoundTrip(t.p3) + RoundTrip(t.p1));
  }

  /** Only records of the branch itself and the ports of its clock parent change. */
  ghost predicate OnlyBranch(dc: seq<Dc>, dc': seq<Dc>, self: nat, size: nat, parent: nat) {
    |dc| == |dc'| && forall j :: 0 <= j < |dc| && !(self <= j < self + size) && j != parent ==> dc[j] == dc'[j]
  }

  lemma {:induction false} OwnStepThenBranches(dc: seq<Dc>, x: Dc, y: Dc, one: seq<Dc>, r: seq<Dc>, self: nat,
                                               size: nat, parent: nat)
    requires parent < self < self + size <= |dc|
    requires one == dc[parent := x][self := y] && OnlyBranch(one, r, self + 1, size - 1, self)
    ensures OnlyBranch(dc, r, self, size, parent) && r[parent] == x
  {
  }

  lemma {:induction false} OwnStepThenBranch(dc: seq<Dc>, y: Dc, one: seq<Dc>, r: seq<Dc>, self: nat, size: nat,
                                             parent: nat)
    requires parent < self < self + size <= |dc|
    requires one == dc[self := y] && OnlyBranch(one, r, self + 1, size - 1, parent)
    ensures OnlyBranch(dc, r, self, size, parent) && one[parent] == dc[parent]
  {
  }

  lemma {:induction false} NothingChanged(dc: seq<Dc>, self: nat, size: nat, parent: nat)
    ensures OnlyBranch(dc, dc, self, size, parent)
  {
  }

  lemma {:induction false} BranchesInTurn(d0: seq<Dc>, d1: seq<Dc>, d2: seq<Dc>, from: nat, n1: nat, n2: nat, parent: nat)
    requires OnlyBranch(d0, d1, from, n1, parent) && OnlyBranch(d1, d2, from + n1, n2, parent)
    ensures OnlyBranch(d0, d2, from, n1 + n2, parent)
  {
  }

  lemma {:induction false} MeasuredFrom(link: seq<Link>, dc: seq<Dc>, d: Dc, t: Tree, self: nat, at: int, port: nat)
    requires t.Slave? && self < |dc| == |link| && link[self].hasdc && MeasuredBeyond(link, dc, t, self, at + t.cable)
    requires d.pdelay == at + t.cable && d.entryport == 0 && d.parentport == port
    requires dc[self] == d.(consumedports := dc[self].consumedports)
    ensures Measured(link, dc, t, self, at, port)
  {
  }

  /** A slave without a clock passes the measurement on. */
  lemma {:induction false} MeasuredThrough(link: seq<Link>, dc: seq<Dc>, t: Tree, self: nat, at: int, port: nat)
    requires t.Slave? && Links(t) <= 2 && self < |dc| == |link| && !link[self].hasdc
    requires Only(t).Slave? ==> Measured(link, dc, Only(t), self + 1, at + t.cable, port)
    ensures Measured(link, dc, t, self, at, port)
  {
  }

  lemma {:induction false} MeasuredBeforeStays(link: seq<Link>, dc: seq<Dc>, dc': seq<Dc>, t: Tree, self: nat,
                                               at: int, port: nat,
                            later: nat, size: nat, parent: nat)
    requires Measured(link, dc, t, self, at, port) && OnlyBranch(dc, dc', later, size, parent)
    requires parent < self && self + Size(t) <= later
    ensures Measured(link, dc', t, self, at, port)
  {
    hide Measured;
    MeasuredStays(link, dc, dc', t, self, at, port);
  }

  /** Giving a port away changes nothing else about a slave. */
  lemma {:induction false} ParentalStays(link: seq<Link>, dc: seq<Dc>, dc': seq<Dc>, t: Tree, self: nat, here: int)
    requires Parental(link, dc, t, self, here) && |dc| == |dc'|
    requires dc'[self] == dc[self].(consumedports := dc'[self].consumedports)
    ensures Parental(link, dc', t, self, here)
  {
  }

  /** A slave that has a branch left after another one is a split. */
  lemma {:induction false} SplitsBefore(link: seq<Link>, dc: seq<Dc>, t: Tree, self: nat, here: int)
    requires Parental(link, dc, t, self, here)
    ensures 1 <= self < |link| && link[self].hasdc && link[self].topology == Links(t)
    ensures t.p3.Slave? && t.p1.Slave? ==> link[self].topology > 2
    ensures t.p2.Slave? && (t.p3.Slave? || t.p1.Slave?) ==> link[self].topology > 2
  {
  }

  /** The wiring and the latched times of a slave, one level down. */
  lemma {:induction false} OneLevel(link: seq<Link>, latch: seq<Latch>, offset: seq<int>, t: Tree, self: nat,
                                    above: nat, at: int)
    requires t.Slave? && Plugged(link, t, self, above) && Latches(link, latch, offset, t, self, at) &&
             Unsplit(link, t, self)
    ensures 1 <= self < |link| && link[self].topology == Links(t) && link[self].activeports == Ports(t)
    ensures link[self].parent == above
    ensures First2(t, self) + Size(t.p2) == self + Size(t) && Size(t) >= 1
    ensures Plugged(link, t.p3, First3(self), self)
    ensures Plugged(link, t.p1, First1(t, self), self)
    ensures Plugged(link, t.p2, First2(t, self), self)
    ensures Unsplit(link, t.p3, First3(self)) && Unsplit(link, t.p1, First1(t, self)) &&
            Unsplit(link, t.p2, First2(t, self))
    ensures var here := at + t.cable;
            && Latches(link, latch, offset, t.p3, First3(self), here)
            && Latches(link, latch, offset, t.p1, First1(t, self), here + RoundTrip(t.p3))
            && Latches(link, latch, offset, t.p2, First2(t, self), here + RoundTrip(t.p3) + RoundTrip(t.p1))
  {
  }

  /** The same below a slave without a clock, which has at most one branch. */
  lemma {:induction false} OneLevelLine(link: seq<Link>, latch: seq<Latch>, offset: seq<int>, t: Tree, self: nat,
                                        above: nat, at: int)
    requires t.Slave? && Plugged(link, t, self, above) && Latches(link, latch, offset, t, self, at) && Unsplit(link, t, self)
    requires !link[self].hasdc
    ensures 1 <= self < |link| && link[self].topology == Links(t) <= 2 && link[self].parent == above
    ensures Links(t) == if Only(t).Slave? then 2 else 1
    ensures Size(t) == 1 + Size(Only(t)) && RoundTrip(t) == 2 * t.cable + RoundTrip(Only(t))
    ensures Plugged(link, Only(t), self + 1, self) && Unsplit(link, Only(t), self + 1)
    ensures Latches(link, latch, offset, Only(t), self + 1, at + t.cable)
    ensures Only(t).Slave? ==> self + 1 < |link| && link[self + 1].parent == self
    ensures Alive(link, t, self) <==> Only(t).Slave? && Alive(link, Only(t), self + 1)
  {
    hide Alive, Latches, RoundTrip, Plugged, Unsplit, Size, Only, Links;
    OneLevel(link, latch, offset, t, self, above, at);
    UnsplitHere(link, t, self);
    AliveLine(link, t, self);
    LineShape(t);
    LineBelow(link, latch, offset, t, self, at);
    if Only(t).Slave? {
      PluggedHere(link, Only(t), self + 1, self);
    }
  }

  lemma {:induction false} UnsplitHere(link: seq<Link>, t: Tree, self: nat)
    requires t.Slave? && Unsplit(link, t, self)
    ensures self < |link| && (link[self].hasdc || Links(t) <= 2)
  {
  }

  lemma {:induction false} PluggedHere(link: seq<Link>, t: Tree, self: nat, above: nat)
    requires t.Slave? && Plugged(link, t, self, above)
    ensures self < |link| && link[self].parent == above
  {
  }

  lemma {:induction false} LineShape(t: Tree)
    requires t.Slave? && Links(t) <= 2
    ensures Links(t) == if Only(t).Slave? then 2 else 1
    ensures Size(t) == 1 + Size(Only(t)) && RoundTrip(t) == 2 * t.cable + RoundTrip(Only(t))
  {
  }

  /** The one branch begins with the next slave and is entered at once. */
  lemma {:induction false} LineBelow(link: seq<Link>, latch: seq<Latch>, offset: seq<int>, t: Tree, self: nat, at: int)
    requires t.Slave? && Links(t) <= 2
    requires Plugged(link, t.p3, First3(self), self) && Unsplit(link, t.p3, First3(self)) &&
             Latches(link, latch, offset, t.p3, First3(self), at + t.cable)
    requires Plugged(link, t.p1, First1(t, self), self) && Unsplit(link, t.p1, First1(t, self)) &&
             Latches(link, latch, offset, t.p1, First1(t, self), at + t.cable + RoundTrip(t.p3))
    requires Plugged(link, t.p2, First2(t, self), self) && Unsplit(link, t.p2, First2(t, self)) &&
             Latches(link, latch, offset, t.p2, First2(t, self), at + t.cable + RoundTrip(t.p3) + RoundTrip(t.p1))
    ensures Plugged(link, Only(t), self + 1, self) && Unsplit(link, Only(t), self + 1)
    ensures Latches(link, latch, offset, Only(t), self + 1, at + t.cable)
  {
    hide Plugged, Unsplit, Latches;
    if t.p3.Open? {
      assert First1(t, self) == self + 1 && RoundTrip(t.p3) == 0;
      if t.p1.Open? {
        assert First2(t, self) == self + 1 && RoundTrip(t.p1) == 0;
      }
    }
  }

  lemma {:induction false} AliveLine(link: seq<Link>, t: Tree, self: nat)
    requires t.Slave? && self < |link| && !link[self].hasdc && Links(t) <= 2
    ensures Alive(link, t, self) <==> Only(t).Slave? && Alive(link, Only(t), self + 1)
  {
  }

  lemma {:induction false} RunNothing(link: seq<Link>, latch: seq<Latch>, st: State, a: nat, n: nat)
    requires Shaped(link, latch, st) && 1 <= a <= |link| && n == 0
    ensures Run(link, latch, st, a, a + n) == st
  {
  }

  /** What remains of the branch behind a slave without a clock. */
  lemma {:induction false} OffersThrough(link: seq<Link>, dc: seq<Dc>, dc': seq<Dc>, t: Tree, first: nat, parent: nat,
                                         port: nat,
                                         at: int, walked: nat, gone: int)
    requires t.Slave? && RoundTrip(t) == 2 * t.cable + RoundTrip(Only(t))
    requires Offers(link, dc, t, first, parent, port, at, walked, gone) && |dc'| == |dc| && dc'[parent] == dc[parent]
    ensures Offers(link, dc', Only(t), first, parent, port, at + t.cable, walked + t.cable, gone)
  {
    hide RoundTrip, PortGap, EntryGap;
  }

  /** A branch, or what is left of it after slaves without a clock, that hangs on `port` of the clock parent. */
  ghost predicate Waiting(link: seq<Link>, st: State, t: Tree, self: nat, above: nat, first: nat, parent: nat, port: nat,
                          at: int, walked: nat, gone: int)
    requires Descending(link)
  {
    t.Slave? ==>
      && 1 <= parent <= above < self < |link| && Climb(link, self) == (first, parent)
      && link[parent].hasdc && above < |link| && parent < |st.dc|
      && Held(link, above, st.hold) == (if link[parent].topology > 2 then parent else 0)
      && OpenPort(st.dc[parent].consumedports) == port
      && Offers(link, st.dc, t, first, parent, port, at, walked, gone)
  }

  /** What the run over a branch leaves behind: exact delays, a port less at the parent and nobody held. */
  ghost predicate Served(link: seq<Link>, st: State, r: State, t: Tree, self: nat, parent: nat, port: nat, at: int) {
    && Measured(link, r.dc, t, self, at, port)
    && OnlyBranch(st.dc, r.dc, self, Size(t), parent)
    && r.hold == (if t.Slave? then 0 else st.hold)
    && parent < |r.dc| && parent < |link|
    && r.dc[parent] == if t.Slave? && (Alive(link, t, self) || link[parent].topology > 2)
                       then st.dc[parent].(consumedports := st.dc[parent].consumedports - {port})
                       else st.dc[parent]
  }

  /** One branch of a clock, with or without clocks in it. */
  lemma {:induction false} RunBranch(link: seq<Link>, latch: seq<Latch>, offset: seq<int>, t: Tree, self: nat, above: nat,
                                     first: nat, parent: nat, port: nat, at: int, origin: int, walked: nat, gone: int, st: State)
    requires Shaped(link, latch, st) && 1 <= parent < self && self + Size(t) <= |link| && Unsplit(link, t, self)
    requires Plugged(link, t, self, above) && Latches(link, latch, offset, t, self, at + origin)
    requires Waiting(link, st, t, self, above, first, parent, port, at, walked, gone)
    ensures Served(link, st, Run(link, latch, st, self, self + Size(t)), t, self, parent, port, at)
    decreases t, 3
  {
    hide Run, Step, Shaped, Descending, Plugged, Latches, Unsplit, Waiting, Size;
    if t.Open? {
      BranchAbsent(link, latch, t, self, parent, port, at, st);
    } else if link[self].hasdc {
      RunClock(link, latch, offset, t, self, above, first, parent, port, at, origin, walked, gone, st);
    } else {
      RunLine(link, latch, offset, t, self, above, first, parent, port, at, origin, walked, gone, st);
    }
  }

  lemma {:induction false} BranchAbsent(link: seq<Link>, latch: seq<Latch>, t: Tree, self: nat, parent: nat,
                                        port: nat, at: int, st: State)
    requires t.Open? && Shaped(link, latch, st) && 1 <= parent < self <= |link|
    ensures Served(link, st, Run(link, latch, st, self, self + Size(t)), t, self, parent, port, at)
  {
    hide Step;
    RunNothing(link, latch, st, self, Size(t));
  }

  lemma {:induction false} RunClock(link: seq<Link>, latch: seq<Latch>, offset: seq<int>, t: Tree, self: nat, above: nat,
                                    first: nat, parent: nat, port: nat, at: int, origin: int, walked: nat, gone: int, st: State)
    requires t.Slave? && Shaped(link, latch, st) && 1 <= parent < self && self + Size(t) <= |link| && Unsplit(link, t, self)
    requires Plugged(link, t, self, above) && Latches(link, latch, offset, t, self, at + origin)
    requires Waiting(link, st, t, self, above, first, parent, port, at, walked, gone) && link[self].hasdc
    ensures Served(link, st, Run(link, latch, st, self, self + Size(t)), t, self, parent, port, at)
    decreases t, 2
  {
    hide Wrap32, Step, Offers, Latches, Fresh, OpenPort, RoundTrip, Descending, Ports, Parental;
    hide OnlyBranch, Run, Plugged, Shaped, MeasuredBeyond, Measured, Size, Links, Unsplit, Climb;
    Lengths(link, latch, st);
    OneLevel(link, latch, offset, t, self, above, at + origin);
    StepMeasures(link, latch, offset, t, self, first, parent, port, at, origin, walked, gone, st);
    RunOne(link, latch, st, self, self + Size(t));
    var one := Step(link, latch, st, self);
    RunChildren(link, latch, offset, t, self, at, origin, one);
    OwnStepThenBranches(st.dc, st.dc[parent].(consumedports := st.dc[parent].consumedports - {port}), one.dc[self],
                        one.dc, Run(link, latch, one, self + 1, self + Size(t)).dc, self, Size(t), parent);
    MeasuredFrom(link, Run(link, latch, st, self, self + Size(t)).dc, one.dc[self], t, self, at, port);
  }

  /** A slave without a clock: the rest of its branch takes its place, or its branch ends. */
  lemma {:induction false} RunLine(link: seq<Link>, latch: seq<Latch>, offset: seq<int>, t: Tree, self: nat, above: nat,
                                   first: nat, parent: nat, port: nat, at: int, origin: int, walked: nat, gone: int, st: State)
    requires t.Slave? && Shaped(link, latch, st) && 1 <= parent < self && self + Size(t) <= |link| && Unsplit(link, t, self)
    requires Plugged(link, t, self, above) && Latches(link, latch, offset, t, self, at + origin)
    requires Waiting(link, st, t, self, above, first, parent, port, at, walked, gone) && !link[self].hasdc
    ensures Served(link, st, Run(link, latch, st, self, self + Size(t)), t, self, parent, port, at)
    decreases t, 2
  {
    hide Wrap32, Step, Latches, RoundTrip, Descending, Offers, OpenPort, Links;
    hide OnlyBranch, Run, Plugged, Shaped, Measured, Size, Unsplit, Climb, Alive, Only;
    Lengths(link, latch, st);
    OneLevelLine(link, latch, offset, t, self, above, at + origin);
    StepClockless(link, latch, st, self);
    RunOne(link, latch, st, self, self + Size(t));
    var one := Step(link, latch, st, self);
    if Only(t).Slave? {
      StaysWaiting(link, latch, t, self, above, first, parent, port, at, walked, gone, st);
      RunBranch(link, latch, offset, Only(t), self + 1, self, first, parent, port, at + t.cable, origin, walked + t.cable, gone, one);
      OwnStepThenBranch(st.dc, one.dc[self], one.dc, Run(link, latch, one, self + 1, self + Size(t)).dc, self, Size(t), parent);
    } else {
      RunNothing(link, latch, one, self + 1, Size(Only(t)));
      LineEnds(link, latch, t, self, above, first, parent, port, at, walked, gone, st);
    }
    MeasuredThrough(link, Run(link, latch, st, self, self + Size(t)).dc, t, self, at, port);
  }

  lemma {:induction false} StaysWaiting(link: seq<Link>, latch: seq<Latch>, t: Tree, self: nat, above: nat,
                                        first: nat, parent: nat, port: nat, at: int, walked: nat, gone: int, st: State)
    requires t.Slave? && Shaped(link, latch, st) && Waiting(link, st, t, self, above, first, parent, port, at, walked, gone)
    requires self + 1 < |link| && !link[self].hasdc && link[self].topology == 2
    requires link[self].parent == above && link[self + 1].parent == self
    requires RoundTrip(t) == 2 * t.cable + RoundTrip(Only(t))
    ensures var one := Step(link, latch, st, self);
            && one.dc == st.dc[self := one.dc[self]]
            && Waiting(link, one, Only(t), self + 1, self, first, parent, port, at + t.cable, walked + t.cable, gone)
  {
    hide Step, Offers, RoundTrip, OpenPort, Climb, Only, Alive;
    Lengths(link, latch, st);
    StepClockless(link, latch, st, self);
    var one := Step(link, latch, st, self);
    ClimbsFrom(link, self + 1, self);
    OffersThrough(link, st.dc, one.dc, t, first, parent, port, at, walked, gone);
  }

  lemma {:induction false} LineEnds(link: seq<Link>, latch: seq<Latch>, t: Tree, self: nat, above: nat,
                                    first: nat, parent: nat, port: nat, at: int, walked: nat, gone: int, st: State)
    requires t.Slave? && Shaped(link, latch, st) && Waiting(link, st, t, self, above, first, parent, port, at, walked, gone)
    requires !link[self].hasdc && link[self].topology == 1 && link[self].parent == above
    ensures var one := Step(link, latch, st, self);
            && |one.dc| == |st.dc| == |link| && OnlyBranch(st.dc, one.dc, self, 1, parent) && one.hold == 0
            && one.dc[parent] == if link[parent].topology > 2
                                 then st.dc[parent].(consumedports := st.dc[parent].consumedports - {port})
                                 else st.dc[parent]
  {
    hide Step, Offers, RoundTrip, OpenPort, Climb, Only, Alive;
    Lengths(link, latch, st);
    StepClockless(link, latch, st, self);
  }

  /** A branch of a clock begins in the state the source expects. */
  lemma {:induction false} BranchBegins(link: seq<Link>, latch: seq<Latch>, t: Tree, self: nat, parent: nat, port: nat,
                                        at: int, gone: int, st: State)
    requires Shaped(link, latch, st) && Plugged(link, t, self, parent) && 1 <= parent < self && parent < |link|
    requires link[parent].hasdc && st.hold == 0
    requires t.Slave? ==> OpenPort(st.dc[parent].consumedports) == port && Offers(link, st.dc, t, self, parent, port, at, 0, gone)
    ensures Waiting(link, st, t, self, parent, self, parent, port, at, 0, gone)
  {
    hide Offers, RoundTrip, OpenPort, Climb;
    if t.Slave? {
      ClimbsFrom(link, self, parent);
    }
  }

  lemma {:induction false} RunChildren(link: seq<Link>, latch: seq<Latch>, offset: seq<int>, t: Tree, self: nat,
                                       at: int, origin: int, st: State)
    requires t.Slave? && Shaped(link, latch, st) && self + Size(t) <= |link| && Unsplit(link, t, self) && st.hold == 0
    requires Parental(link, st.dc, t, self, at + t.cable) && st.dc[self].consumedports == Ports(t) - {0}
    requires Plugged(link, t, self, link[self].parent) && Latches(link, latch, offset, t, self, at + origin)
    ensures var r := Run(link, latch, st, self + 1, self + Size(t));
            && MeasuredBeyond(link, r.dc, t, self, at + t.cable)
            && OnlyBranch(st.dc, r.dc, self + 1, Size(t) - 1, self) && r.hold == 0
            && r.dc[self] == st.dc[self].(consumedports := r.dc[self].consumedports)
    decreases t, 1
  {
    hide Wrap32, Step, Run, Offers, Latches, Fresh, Parental, OpenPort, Measured, RoundTrip, OnlyBranch,
         Plugged, Descending, Unsplit, Size, Shaped, Links, Ports, Alive, Waiting;
    var here := at + t.cable;
    var q3, q1, q2 := First3(self), First1(t, self), First2(t, self);
    var at1 := here + RoundTrip(t.p3);
    var at2 := at1 + RoundTrip(t.p1);
    var stop := q2 + Size(t.p2);
    Lengths(link, latch, st);
    OneLevel(link, latch, offset, t, self, link[self].parent, at + origin);
    RunTwoChildren(link, latch, offset, t, self, at, origin, st);
    var s1 := Run(link, latch, st, q3, q2);
    Lengths(link, latch, s1);
    ParentalStays(link, st.dc, s1.dc, t, self, here);
    SplitsBefore(link, s1.dc, t, self, here);
    if t.p2.Slave? { Offers2(link, s1.dc, t, self, here); }
    BranchBegins(link, latch, t.p2, q2, self, 2, at2, at2 - here, s1);
    RunBranch(link, latch, offset, t.p2, q2, self, q2, self, 2, at2, origin, 0, at2 - here, s1);
    var s2 := Run(link, latch, s1, q2, stop);
    RunSplit(link, latch, st, q3, q2, stop);
    BranchesInTurn(st.dc, s1.dc, s2.dc, q3, Size(t.p3) + Size(t.p1), Size(t.p2), self);
    MeasuredBeforeStays(link, s1.dc, s2.dc, t.p3, q3, here, 3, q2, Size(t.p2), self);
    MeasuredBeforeStays(link, s1.dc, s2.dc, t.p1, q1, at1, 1, q2, Size(t.p2), self);
  }

  /** The first two of the three branches of a slave. */
  lemma {:induction false} RunTwoChildren(link: seq<Link>, latch: seq<Latch>, offset: seq<int>, t: Tree, self: nat,
                                          at: int, origin: int, st: State)
    requires t.Slave? && Shaped(link, latch, st) && self + Size(t) <= |link| && Unsplit(link, t, self) && st.hold == 0
    requires Parental(link, st.dc, t, self, at + t.cable) && st.dc[self].consumedports == Ports(t) - {0}
    requires Plugged(link, t, self, link[self].parent) && Latches(link, latch, offset, t, self, at + origin)
    ensures var r := Run(link, latch, st, First3(self), First2(t, self));
            var here := at + t.cable;
            && Measured(link, r.dc, t.p3, First3(self), here, 3)
            && Measured(link, r.dc, t.p1, First1(t, self), here + RoundTrip(t.p3), 1)
            && OnlyBranch(st.dc, r.dc, First3(self), Size(t.p3) + Size(t.p1), self) && r.hold == 0
            && r.dc[self] == st.dc[self].(consumedports := r.dc[self].consumedports)
            && (t.p2.Slave? ==> r.dc[self].consumedports == Ports(t) - {0, 3, 1})
    decreases t, 0
  {
    hide Wrap32, Step, Run, Offers, Latches, Fresh, Parental, OpenPort, Measured, RoundTrip, OnlyBranch,
         Plugged, Descending, Unsplit, Size, Shaped, Links, Ports, Alive, Waiting;
    var here := at + t.cable;
    var q3, q1, q2 := First3(self), First1(t, self), First2(t, self);
    var at1 := here + RoundTrip(t.p3);
    Lengths(link, latch, st);
    OneLevel(link, latch, offset, t, self, link[self].parent, at + origin);
    SplitsBefore(link, st.dc, t, self, here);
    if t.p3.Slave? { Offers3(link, st.dc, t, self, here); }
    BranchBegins(link, latch, t.p3, q3, self, 3, here, 0, st);
    RunBranch(link, latch, offset, t.p3, q3, self, q3, self, 3, here, origin, 0, 0, st);
    var s3 := Run(link, latch, st, q3, q1);
    Lengths(link, latch, s3);
    assert t.p1.Slave? || t.p2.Slave? ==> s3.dc[self].consumedports == Ports(t) - {0, 3};
    ParentalStays(link, st.dc, s3.dc, t, self, here);
    if t.p1.Slave? { Offers1(link, s3.dc, t, self, here); }
    BranchBegins(link, latch, t.p1, q1, self, 1, at1, at1 - here, s3);
    RunBranch(link, latch, offset, t.p1, q1, self, q1, self, 1, at1, origin, 0, at1 - here, s3);
    var s1 := Run(link, latch, s3, q1, q2);
    Lengths(link, latch, s1);
    assert t.p2.Slave? ==> s1.dc[self].consumedports == Ports(t) - {0, 3, 1};
    RunSplit(link, latch, st, q3, q1, q2);
    BranchesInTurn(st.dc, s3.dc, s1.dc, q3, Size(t.p3), Size(t.p1), self);
    MeasuredBeforeStays(link, s3.dc, s1.dc, t.p3, q3, here, 3, q1, Size(t.p1), self);
  }

  // ---------------------------------------------------------------- whole segments

  /** Slaves that nothing with a clock lies above keep the delay they were given before: none. */
  predicate FirstHasNoDelay(link: seq<Link>, dc: seq<Dc>)
    requires Descending(link)
  {
    forall s :: 1 <= s < |link| && s < |dc| && link[s].hasdc && Climb(link, s).1 == 0 ==> dc[s].pdelay == 0
  }

  lemma {:induction false} Descends(link: seq<Link>, latch: seq<Latch>, st: State)
    requires Shaped(link, latch, st)
    ensures Descending(link)
  {
  }

  lemma {:induction false} ClearedKeepsDelays(link: seq<Link>, dc: seq<Dc>, dc': seq<Dc>, self: nat)
    requires Descending(link) && FirstHasNoDelay(link, dc) && self < |link| == |dc| && !link[self].hasdc &&
             |dc'| == |dc| && dc' == dc[self := dc'[self]]
    ensures FirstHasNoDelay(link, dc')
  {
    hide Climb;
  }

  lemma {:induction false} FirstDelay(link: seq<Link>, dc: seq<Dc>, self: nat)
    requires Descending(link) && FirstHasNoDelay(link, dc) && 1 <= self < |link| == |dc| && link[self].hasdc &&
             Climb(link, self).1 == 0
    ensures dc[self].pdelay == 0
  {
  }

  /** A segment, or what is left of it after slaves without a clock. */
  lemma {:induction false} RunSegment(link: seq<Link>, latch: seq<Latch>, offset: seq<int>, t: Tree, self: nat, above: nat,
                                      at: int, st: State)
    requires Shaped(link, latch, st) && 1 <= self && self + Size(t) == |link| && Unsplit(link, t, self) && st.hold == 0
    requires Plugged(link, t, self, above) && Latches(link, latch, offset, t, self, at) && RoundTrip(t) < 0x8000_0000
    requires t.Slave? ==> above < self && Climb(link, self).1 == 0 && (above > 0 ==> link[above].topology <= 2)
    requires FirstHasNoDelay(link, st.dc)
    ensures MeasuredFromFirst(link, Run(link, latch, st, self, |link|).dc, t, self)
    decreases t
  {
    hide Wrap32, Step, Run, Latches, RoundTrip, Plugged, Unsplit, Shaped, Climb, Descending, FirstHasNoDelay, Only, Links, Ports, Size;
    Lengths(link, latch, st);
    if t.Slave? {
      OneLevel(link, latch, offset, t, self, above, at);
      if link[self].hasdc {
        RunFromFirst(link, latch, offset, t, self, at, st);
      } else {
        RunOne(link, latch, st, self, |link|);
        OneLevelLine(link, latch, offset, t, self, above, at);
        var one := Step(link, latch, st, self);
        NoClockYet(link, latch, offset, t, self, above, at, st);
        RunSegment(link, latch, offset, Only(t), self + 1, self, at + t.cable, one);
        Lengths(link, latch, Run(link, latch, st, self, |link|));
      }
    }
  }

  lemma {:induction false} RunFromFirst(link: seq<Link>, latch: seq<Latch>, offset: seq<int>, t: Tree, self: nat,
                                        at: int, st: State)
    requires t.Slave? && Shaped(link, latch, st) && 1 <= self && self + Size(t) == |link| && Unsplit(link, t, self)
    requires Plugged(link, t, self, link[self].parent) && Latches(link, latch, offset, t, self, at) &&
             RoundTrip(t) < 0x8000_0000
    requires Climb(link, self).1 == 0 && link[self].hasdc && FirstHasNoDelay(link, st.dc)
    ensures MeasuredFromFirst(link, Run(link, latch, st, self, |link|).dc, t, self)
  {
    hide Wrap32, Step, Run, Latches, RoundTrip, Plugged, Unsplit, Shaped, Climb, Descending, FirstHasNoDelay;
    hide Size, OnlyBranch, MeasuredBeyond, MeasuredFromFirst, Parental, Ports, Links;
    Lengths(link, latch, st);
    Descends(link, latch, st);
    OneLevel(link, latch, offset, t, self, link[self].parent, at);
    FirstDelay(link, st.dc, self);
    StepFirst(link, latch, offset, t, self, at, st);
    RunOne(link, latch, st, self, |link|);
    assert (0 - t.cable) + (at + t.cable) == at;
    var one := Step(link, latch, st, self);
    RunChildren(link, latch, offset, t, self, 0 - t.cable, at + t.cable, one);
    Lengths(link, latch, one);
    Lengths(link, latch, Run(link, latch, st, self, |link|));
    OwnStepFirst(link, one.dc, Run(link, latch, st, self, |link|).dc, t, self);
  }

  /** A slave without a clock in front of all clocks. */
  lemma {:induction false} NoClockYet(link: seq<Link>, latch: seq<Latch>, offset: seq<int>, t: Tree, self: nat, above: nat,
                                      at: int, st: State)
    requires t.Slave? && Shaped(link, latch, st) && 1 <= self && Unsplit(link, t, self) && st.hold == 0
    requires Plugged(link, t, self, above) && Latches(link, latch, offset, t, self, at)
    requires above < self && Climb(link, self).1 == 0 && (above > 0 ==> link[above].topology <= 2)
    requires FirstHasNoDelay(link, st.dc) && !link[self].hasdc
    ensures var one := Step(link, latch, st, self);
            && one.hold == 0 && FirstHasNoDelay(link, one.dc) && link[self].topology <= 2
            && (Only(t).Slave? ==> self + 1 < |link| && Climb(link, self + 1).1 == 0)
  {
    hide Step, Latches, RoundTrip, Unsplit, Shaped, Climb, FirstHasNoDelay, Descending, Only, Links;
    Lengths(link, latch, st);
    Descends(link, latch, st);
    OneLevelLine(link, latch, offset, t, self, above, at);
    StepClockless(link, latch, st, self);
    ClearedKeepsDelays(link, st.dc, Step(link, latch, st, self).dc, self);
    if Only(t).Slave? {
      ClimbsFrom(link, self + 1, self);
    }
  }

  lemma {:induction false} OwnStepFirst(link: seq<Link>, one: seq<Dc>, r: seq<Dc>, t: Tree, self: nat)
    requires t.Slave? && self < |link| == |one| == |r| && link[self].hasdc && MeasuredBeyond(link, r, t, self, 0)
    requires one[self].pdelay == 0 && one[self].entryport == 0 &&
             r[self] == one[self].(consumedports := r[self].consumedports)
    ensures MeasuredFromFirst(link, r, t, self)
  {
  }

  /**
   * Delay measurement is exact: whatever the offsets of the clocks, ConfigDc stores for every slave with a clock the
   * time from the frame's first arrival at the first clock to its first arrival there, also when slaves without a clock
   * stand in between or a branch has none, as long as no slave without a clock splits.
   */
  lemma {:induction false} DelaysAreExact(link: seq<Link>, latch: seq<Latch>, offset: seq<int>, t: Tree, at: int, st: State)
    requires t.Slave? && |link| == Size(t) + 1
    requires Shaped(link, latch, st) && Plugged(link, t, 1, 0) && Unsplit(link, t, 1)
    requires Latches(link, latch, offset, t, 1, at) && RoundTrip(t) < 0x8000_0000
    requires st.hold == 0 && FirstHasNoDelay(link, st.dc)
    ensures MeasuredFromFirst(link, Run(link, latch, st, 1, |link|).dc, t, 1)
  {
    hide Wrap32, Step, Latches, RoundTrip, Run, FirstHasNoDelay, Unsplit, MeasuredFromFirst;
    ClimbsFrom(link, 1, 0);
    RunSegment(link, latch, offset, t, 1, 0, at, st);
  }

  /** From registers to delays: when the data link status registers report the cabling `t`, detection followed by the
      measurement is exact. */
  lemma {:induction false} RegistersToDelays(link: seq<Link>, dlstat: seq<nat>, dcsupport: seq<bool>,
                          latch: seq<Latch>, offset: seq<int>, t: Tree, at: int, st: State)
    requires t.Slave? && Size(t) + 1 == |link| == |dlstat| == |dcsupport| == |latch|
    requires |st.dc| == |st.next| == |st.previous| == |link| && st.last == 0 == st.hold
    requires forall s :: 1 <= s < |link| ==> link[s] == Detected(dlstat, dcsupport, s)
    requires Reports(dlstat, t, 1) && Unsplit(link, t, 1)
    requires Latches(link, latch, offset, t, 1, at) && RoundTrip(t) < 0x8000_0000
    requires forall s :: 1 <= s < |link| ==> st.dc[s].pdelay == 0
    ensures Shaped(link, latch, st)
    ensures MeasuredFromFirst(link, Run(link, latch, st, 1, |link|).dc, t, 1)
  {
    hide Latches, RoundTrip, Run, Scan, Climb, Unsplit, MeasuredFromFirst;
    DetectionDescribesWiring(link, dlstat, dcsupport, t);
    assert FirstHasNoDelay(link, st.dc);
    DelaysAreExact(link, latch, offset, t, at, st);
  }

  /** A clock that runs over shows less than before. */
  lemma {:induction false} ClockRunsOver(offset: int, here: int, passed: nat)
    requires passed < 0x8000_0000 && Clock(offset, here) + passed >= 0x8000_0000
    ensures Clock(offset, here + passed) < Clock(offset, here)
  {
    var x := here + offset + 0x8000_0000;
    assert (x + passed) % 0x1_0000_0000 == x % 0x1_0000_0000 + passed - 0x1_0000_0000;
  }

  lemma {:induction false} ZeroIsLowest(active: set<nat>, d: Dc, port: nat)
    requires 0 in active && port in active && port in {1, 2, 3} && EntryPort(active, d) == 0
    ensures d.rtA <= PortTime(d, port)
  {
    var l := ActiveList(active);
    assert l[0] == 0;
    assert port in l;
  }

  /**
   * The measurement needs clocks that do not run over meanwhile: whatever hangs on a slave, it recognises port 0 as its
   * entry exactly when its clock does not run over before the frame is back from its last branch.
   */
  lemma {:induction false} EntryNeedsNoWrap(t: Tree, offset: int, here: int, d: Dc)
    requires t.Slave? && RoundTrip(t.p3) + RoundTrip(t.p1) + RoundTrip(t.p2) < 0x8000_0000
    requires d.rtA == Clock(offset, here)
    requires t.p3.Slave? ==> d.rtD == Clock(offset, here + RoundTrip(t.p3))
    requires t.p1.Slave? ==> d.rtB == Clock(offset, here + RoundTrip(t.p3) + RoundTrip(t.p1))
    requires t.p2.Slave? ==> d.rtC == Clock(offset, here + RoundTrip(t.p3) + RoundTrip(t.p1) + RoundTrip(t.p2))
    ensures EntryPort(Ports(t), d) == 0
       <==> Clock(offset, here) + RoundTrip(t.p3) + RoundTrip(t.p1) + RoundTrip(t.p2) < 0x8000_0000
  {
    hide EntryPort, Clock;
    var r3, r1, r2 := RoundTrip(t.p3), RoundTrip(t.p1), RoundTrip(t.p2);
    if Clock(offset, here) + (r3 + r1 + r2) < 0x8000_0000 {
      ClockAdvances(offset, here, r3);
      ClockAdvances(offset, here, r3 + r1);
      ClockAdvances(offset, here, r3 + r1 + r2);
      EnteredAtZero(Ports(t), d);
    } else {
      ClockRunsOver(offset, here, r3 + r1 + r2);
      ClockRange(offset, here);
      var last := if t.p2.Slave? then 2 else if t.p1.Slave? then 1 else 3;
      if EntryPort(Ports(t), d) == 0 {
        ZeroIsLowest(Ports(t), d, last);
      }
    }
  }

  lemma {:induction false} ClockRange(offset: int, time: int)
    ensures -0x8000_0000 <= Clock(offset, time) < 0x8000_0000
  {
  }
}
