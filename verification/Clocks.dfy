// Distributed clocks: chaining the slaves that have one and measuring how long a frame takes
// to reach each of them (ecx_configdc and its helpers).
module Clocks {
  import opened Wiring
  import opened Topology

  /** What ecx_configdc keeps for a slave, apart from the chain. */
  datatype Dc = Dc(consumedports: set<nat>, entryport: nat, parentport: nat,
                   rtA: int, rtB: int, rtC: int, rtD: int, pdelay: int)

  /** The four receive time registers of a slave, latched by one frame. */
  datatype Latch = Latch(time0: int, time1: int, time2: int, time3: int)

  /** Two's complement 32-bit arithmetic. */
  function Wrap32(x: int): int {
    (x + 0x8000_0000) % 0x1_0000_0000 - 0x8000_0000
  }

  /** Division by two as the source does it, towards zero. */
  function Half(x: int): int {
    if x >= 0 then x / 2 else -(-x / 2)
  }

  function PortTime(d: Dc, port: nat): int {
    if port == 0 then d.rtA
    else if port == 1 then d.rtB
    else if port == 2 then d.rtC
    else if port == 3 then d.rtD
    else 0
  }

  function FirstOf(ports: set<nat>, a: nat, b: nat, c: nat, otherwise: nat): nat {
    if a in ports then a else if b in ports then b else if c in ports then c else otherwise
  }

  function PrevPort(active: set<nat>, port: nat): nat {
    if port == 0 then FirstOf(active, 2, 1, 3, port)
    else if port == 1 then FirstOf(active, 3, 0, 2, port)
    else if port == 2 then FirstOf(active, 1, 3, 0, port)
    else if port == 3 then FirstOf(active, 0, 2, 1, port)
    else port
  }

  /** The port that ecx_parentport takes next. */
  function OpenPort(consumed: set<nat>): nat {
    FirstOf(consumed, 3, 1, 2, 0)
  }

  /** Active ports in the order in which a frame that came in at port 0 visits them. */
  function ActiveList(active: set<nat>): seq<nat> {
    (if 0 in active then [0] else []) + (if 3 in active then [3] else [])
    + (if 1 in active then [1] else []) + (if 2 in active then [2] else [])
  }

  /** The active port with the lowest time stamp, the earlier one on a tie. (Without any active
      port the source reads an unset entry; a slave that answers has one.) */
  function EntryPort(active: set<nat>, d: Dc): nat {
    var l := ActiveList(active);
    if l == [] then 0 else
      var e0 := l[0];
      var e1 := if |l| > 1 && PortTime(d, l[1]) < PortTime(d, e0) then l[1] else e0;
      var e2 := if |l| > 2 && PortTime(d, l[2]) < PortTime(d, e1) then l[2] else e1;
      if |l| > 3 && PortTime(d, l[3]) < PortTime(d, e2) then l[3] else e2
  }

  /** The position of a port on the way of a frame through a slave. */
  function Place(port: nat): nat {
    if port == 0 then 0 else if port == 3 then 1 else if port == 1 then 2 else 3
  }

  /** How many ports further on `q` lies, going round. */
  function StepsTo(p: nat, q: nat): nat {
    if Place(p) <= Place(q) then Place(q) - Place(p) else 4 + Place(q) - Place(p)
  }

  /** PrevPort is the active port that a frame passed last before `port`, going round. */
  lemma {:induction false} PrevPortIsLastBefore(active: set<nat>, port: nat)
    requires port <= 3 && port in active
    ensures var q := PrevPort(active, port);
            && q in active && q <= 3
            && forall p :: p in active && p <= 3 && p != port ==> q != port && StepsTo(q, port) <= StepsTo(p, port)
  {
  }

  /** `l` holds the active ports from place `from` on, in order. */
  ghost predicate Visits(l: seq<nat>, active: set<nat>, from: nat) {
    && |l| + from <= 4
    && (forall p :: p in active && p <= 3 && Place(p) >= from ==> p in l)
    && (forall k :: 0 <= k < |l| ==> l[k] in active && l[k] <= 3 && Place(l[k]) >= from)
    && forall j, k :: 0 <= j < k < |l| ==> Place(l[j]) < Place(l[k])
  }

  lemma {:induction false} VisitsOneMore(l: seq<nat>, active: set<nat>, port: nat)
    requires port <= 3 && Visits(l, active, Place(port) + 1)
    ensures Visits((if port in active then [port] else []) + l, active, Place(port))
  {
  }

  lemma {:induction false} ActiveListInOrder(active: set<nat>)
    ensures Visits(ActiveList(active), active, 0)
  {
    hide Visits;
    assert Visits([], active, 4) by { EmptyVisits(active); }
    VisitsOneMore([], active, 2);
    var l2 := if 2 in active then [2] else [];
    assert l2 + [] == l2;
    VisitsOneMore(l2, active, 1);
    var l1 := (if 1 in active then [1] else []) + l2;
    VisitsOneMore(l1, active, 3);
    var l3 := (if 3 in active then [3] else []) + l1;
    VisitsOneMore(l3, active, 0);
    assert ActiveList(active) == (if 0 in active then [0] else []) + l3;
  }

  lemma {:induction false} EmptyVisits(active: set<nat>)
    ensures Visits([], active, 4)
  {
  }

  lemma {:induction false} EarliestInList(active: set<nat>, d: Dc) returns (k: nat)
    requires 0 < |ActiveList(active)| <= 4
    ensures var l := ActiveList(active);
            && k < |l| && EntryPort(active, d) == l[k]
            && forall j :: 0 <= j < |l| ==> if j < k then PortTime(d, l[k]) < PortTime(d, l[j]) else PortTime(d, l[k]) <= PortTime(d, l[j])
  {
    hide ActiveList, PortTime;
    var l := ActiveList(active);
    k := 0;
    if |l| > 1 && PortTime(d, l[1]) < PortTime(d, l[k]) { k := 1; }
    if |l| > 2 && PortTime(d, l[2]) < PortTime(d, l[k]) { k := 2; }
    if |l| > 3 && PortTime(d, l[3]) < PortTime(d, l[k]) { k := 3; }
  }

  /** The entry port is the active port reached first; of ports with the same stamp the one passed first. */
  lemma {:induction false} EntryPortIsReachedFirst(active: set<nat>, d: Dc)
    requires exists p :: p in active && p <= 3
    ensures var e := EntryPort(active, d);
            && e in active && e <= 3
            && forall p :: p in active && p <= 3 ==>
                 PortTime(d, e) <= PortTime(d, p) && (PortTime(d, e) == PortTime(d, p) ==> Place(e) <= Place(p))
  {
    hide ActiveList, PortTime, EntryPort, Place;
    ActiveListInOrder(active);
    var _ := EarliestInList(active, d);
  }

  predicate Descending(link: seq<Link>) {
    forall s :: 1 <= s < |link| ==> link[s].parent < s
  }

  /** The nearest ancestor with a clock (0 when there is none) and the slave below it. */
  function Climb(link: seq<Link>, slave: nat): (r: (nat, nat))
    requires Descending(link) && 1 <= slave < |link|
    ensures r.1 < r.0 <= slave
  {
    var parent := link[slave].parent;
    if parent == 0 || link[parent].hasdc then (slave, parent) else Climb(link, parent)
  }

  /** The k-fold parent of a slave, the master being its own. */
  function Up(link: seq<Link>, slave: nat, k: nat): (r: nat)
    requires Descending(link) && slave < |link|
    ensures r <= slave
  {
    if k == 0 then slave
    else
      var s := Up(link, slave, k - 1);
      if s == 0 then 0 else link[s].parent
  }

  /** The k-fold parent has a clock or is the master, and no ancestor before it has one. */
  ghost predicate FirstClockAt(link: seq<Link>, slave: nat, k: nat)
    requires Descending(link) && 1 <= slave < |link|
  {
    && k >= 1 && (Up(link, slave, k) == 0 || link[Up(link, slave, k)].hasdc)
    && forall j :: 0 < j < k ==> Up(link, slave, j) > 0 && !link[Up(link, slave, j)].hasdc
  }

  /** `parent` is the nearest ancestor with a clock, the master if there is none, and `child` the ancestor just before it. */
  ghost predicate NearestClock(link: seq<Link>, slave: nat, child: nat, parent: nat)
    requires Descending(link) && 1 <= slave < |link|
  {
    exists k: nat :: FirstClockAt(link, slave, k) && child == Up(link, slave, k - 1) && parent == Up(link, slave, k)
  }

  lemma {:induction false} UpFromParent(link: seq<Link>, slave: nat, k: nat)
    requires Descending(link) && 1 <= slave < |link|
    ensures Up(link, slave, k + 1) == Up(link, link[slave].parent, k)
  {
    hide Descending;
    if k > 0 {
      UpFromParent(link, slave, k - 1);
    }
  }

  /** The climb passes only slaves without a clock and ends at one with a clock or at the master; the child it yields is
      the last one before. */
  lemma {:induction false} ClimbEnds(link: seq<Link>, slave: nat) returns (k: nat)
    requires Descending(link) && 1 <= slave < |link|
    ensures FirstClockAt(link, slave, k) && Climb(link, slave) == (Up(link, slave, k - 1), Up(link, slave, k))
    decreases slave
  {
    hide Descending, Up;
    UpNone(link, slave);
    ParentIsBelow(link, slave);
    var parent := link[slave].parent;
    if parent == 0 || link[parent].hasdc {
      UpFromParent(link, slave, 0);
      UpNone(link, parent);
      k := 1;
    } else {
      k := ClimbEnds(link, parent);
      UpFromParent(link, slave, k);
      UpFromParent(link, slave, k - 1);
      UpNone(link, parent);
      forall j | 0 < j < k + 1 ensures Up(link, slave, j) > 0 && !link[Up(link, slave, j)].hasdc {
        UpFromParent(link, slave, j - 1);
      }
      k := k + 1;
    }
  }

  lemma {:induction false} ParentIsBelow(link: seq<Link>, slave: nat)
    requires Descending(link) && 1 <= slave < |link|
    ensures link[slave].parent < slave
  {
  }

  lemma {:induction false} UpNone(link: seq<Link>, slave: nat)
    requires Descending(link) && slave < |link|
    ensures Up(link, slave, 0) == slave
  {
  }

  /** Time between the stamps of a port and of the active port before it. */
  function PortGap(active: set<nat>, d: Dc, port: nat): int {
    Wrap32(PortTime(d, port) - PortTime(d, PrevPort(active, port)))
  }

  /** Time between the stamps of the port before `port` and of the entry port. */
  function EntryGap(active: set<nat>, d: Dc, port: nat): int {
    Wrap32(PortTime(d, PrevPort(active, port)) - PortTime(d, d.entryport))
  }

  /** The delay computed for a slave that hangs on `port` of its clock parent. */
  function Delay(link: seq<Link>, dc: seq<Dc>, slave: nat, child: nat, parent: nat, port: nat): int
    requires slave < |link| == |dc| && parent < |link|
  {
    var me, up := dc[slave], dc[parent];
    var below := if link[slave].topology > 1 then EntryGap(link[slave].activeports, me, me.entryport) else 0;
    var earlier := if child - parent > 1 then EntryGap(link[parent].activeports, up, port) else 0;
    Combine(PortGap(link[parent].activeports, up, port), below, earlier, up.pdelay)
  }

  /** Own round trip `dt3`, of which `below` is spent further on, after `earlier` branches. */
  function Combine(dt3: int, below: int, earlier: int, parentDelay: int): int {
    var dt1 := if below > dt3 then Wrap32(-below) else below;
    var dt2 := if earlier < 0 then Wrap32(-earlier) else earlier;
    Wrap32(Half(Wrap32(dt3 - dt1)) + dt2 + parentDelay)
  }

  lemma {:induction false} NoWrap(x: int)
    requires -0x8000_0000 <= x < 0x8000_0000
    ensures Wrap32(x) == x
  {
  }

  lemma {:induction false} HalfBothDirections(x: nat)
    ensures Half(0 - x) == 0 - Half(x) && 0 <= x - 2 * Half(x) <= 1
  {
  }

  lemma {:induction false} EarlierBothDirections(dt3: int, below: int, earlier: nat, parentDelay: int)
    requires earlier < 0x8000_0000
    ensures Combine(dt3, below, 0 - earlier, parentDelay) == Combine(dt3, below, earlier, parentDelay)
  {
    hide Wrap32, Half;
    NoWrap(earlier);
  }

  lemma {:induction false} BelowBothDirections(dt3: nat, below: nat, earlier: int, parentDelay: int)
    requires dt3 + 2 * below < 0x8000_0000 && below > dt3
    ensures Combine(dt3, below, earlier, parentDelay) == Combine(dt3 + 2 * below, below, earlier, parentDelay)
  {
    hide Wrap32, Half;
    NoWrap(0 - below);
  }

  /** The source takes a negative time for a measurement in the other direction: the sign of `earlier` does not matter,
      and a `below` longer than the round trip adds to it instead. Half drops a half, in either direction. */
  lemma {:induction false} CombineBothDirections(dt3: nat, below: nat, earlier: nat, parentDelay: int)
    requires dt3 + 2 * below < 0x8000_0000 && earlier < 0x8000_0000
    ensures Combine(dt3, below, 0 - earlier, parentDelay) == Combine(dt3, below, earlier, parentDelay)
    ensures below > dt3 ==> Combine(dt3, below, earlier, parentDelay) == Combine(dt3 + 2 * below, below, earlier, parentDelay)
    ensures Half(0 - dt3) == 0 - Half(dt3) && 0 <= dt3 - 2 * Half(dt3) <= 1
  {
    hide Combine, Half;
    EarlierBothDirections(dt3, below, earlier, parentDelay);
    if below > dt3 {
      BelowBothDirections(dt3, below, earlier, parentDelay);
    }
    HalfBothDirections(dt3);
  }

  /** Everything ecx_configdc changes while it walks over the slaves. */
  datatype State = State(dc: seq<Dc>, next: seq<nat>, previous: seq<nat>, last: nat, hold: nat)

  ghost predicate Shaped(link: seq<Link>, latch: seq<Latch>, st: State) {
    && |link| == |latch| == |st.dc| == |st.next| == |st.previous|
    && Descending(link)
    && st.last < |link| && st.hold < |link|
  }

  lemma {:induction false} Lengths(link: seq<Link>, latch: seq<Latch>, st: State)
    requires Shaped(link, latch, st)
    ensures |st.dc| == |st.next| == |st.previous| == |link|
  {
  }

  function Consume(dc: seq<Dc>, slave: nat): seq<Dc>
    requires slave < |dc|
  {
    dc[slave := dc[slave].(consumedports := dc[slave].consumedports - {OpenPort(dc[slave].consumedports)})]
  }

  /** The record of a slave once its stamps are read and its entry port is known. */
  function Stamped(d: Dc, active: set<nat>, t: Latch): Dc {
    var d := d.(rtA := t.time0, rtB := t.time1, rtC := t.time2, rtD := t.time3);
    var entry := EntryPort(active, d);
    d.(entryport := entry, consumedports := active - {entry})
  }

  function Measure(link: seq<Link>, dc: seq<Dc>, i: nat): (r: seq<Dc>)
    requires Descending(link) && 1 <= i < |link| == |dc|
    ensures |r| == |dc|
  {
    var (child, parent) := Climb(link, i);
    if parent == 0 then dc
    else
      var port := if link[parent].topology == 1 then dc[parent].entryport else OpenPort(dc[parent].consumedports);
      var dc := Consume(dc, parent);
      dc[i := dc[i].(parentport := port, pdelay := Delay(link, dc, i, child, parent, port))]
  }

  /** The slave that would have to give up a port if a slave behind `parent` ended a branch. */
  function Held(link: seq<Link>, parent: nat, held: nat): nat
    requires parent < |link|
  {
    if parent > 0 && link[parent].topology > 2 then parent else held
  }

  /** A branch without any clock uses up one port of the slave at which it splits off. */
  function Hold(link: seq<Link>, dc: seq<Dc>, i: nat, held: nat): (r: (seq<Dc>, nat))
    requires Descending(link) && 1 <= i < |link| == |dc| && held < |link|
    ensures |r.0| == |dc| && r.1 < |link|
  {
    var hold := Held(link, link[i].parent, held);
    if hold > 0 && link[i].topology == 1 then (Consume(dc, hold), 0) else (dc, hold)
  }

  function Step(link: seq<Link>, latch: seq<Latch>, st: State, i: nat): (r: State)
    requires Shaped(link, latch, st) && 1 <= i < |link|
    ensures Shaped(link, latch, r)
  {
    if link[i].hasdc then
      var dc := st.dc[i := Stamped(st.dc[i], link[i].activeports, latch[i])];
      State(Measure(link, dc, i), st.next[st.last := i], st.previous[i := st.last], i, 0)
    else
      var dc := st.dc[i := st.dc[i].(consumedports := link[i].activeports, rtA := 0, rtB := 0, rtC := 0, rtD := 0)];
      var (dc, hold) := Hold(link, dc, i, st.hold);
      State(dc, st.next, st.previous, st.last, hold)
  }

  function Run(link: seq<Link>, latch: seq<Latch>, st: State, from: nat, until: nat): (r: State)
    requires Shaped(link, latch, st) && 1 <= from <= until <= |link|
    ensures Shaped(link, latch, r)
    decreases until
  {
    if from == until then st else Step(link, latch, Run(link, latch, st, from, until - 1), until - 1)
  }

  /** After the walk a slave with a clock has its four latched times, one without has zeros. */
  lemma {:induction false} StampsAreRead(link: seq<Link>, latch: seq<Latch>, st: State, until: nat)
    requires Shaped(link, latch, st) && 1 <= until <= |link|
    ensures var r := Run(link, latch, st, 1, until).dc;
            && |r| == |link|
            && forall s :: 1 <= s < until ==>
                 var t := if link[s].hasdc then latch[s] else Latch(0, 0, 0, 0);
                 r[s].rtA == t.time0 && r[s].rtB == t.time1 && r[s].rtC == t.time2 && r[s].rtD == t.time3
    decreases until
  {
    hide Delay, OpenPort, Climb, EntryPort, Descending, Held;
    if until > 1 {
      StampsAreRead(link, latch, st, until - 1);
    }
  }

  /** What is unconsumed are active ports. A slave without a clock that does not split keeps all of them. */
  ghost predicate PortsLeft(link: seq<Link>, dc: seq<Dc>, until: nat) {
    until <= |link| == |dc| && forall s :: 1 <= s < until ==>
      && dc[s].consumedports <= link[s].activeports
      && (!link[s].hasdc && link[s].topology <= 2 ==> dc[s].consumedports == link[s].activeports)
      && (link[s].hasdc ==> dc[s].entryport !in dc[s].consumedports)
  }

  lemma {:induction false} ConsumeLeaves(link: seq<Link>, dc: seq<Dc>, until: nat, slave: nat)
    requires PortsLeft(link, dc, until) && slave < |dc| && (slave == 0 || link[slave].hasdc || link[slave].topology > 2)
    ensures PortsLeft(link, Consume(dc, slave), until)
  {
    hide OpenPort;
  }

  /** A slave is held only if it is a split. */
  ghost predicate HeldSplits(link: seq<Link>, hold: nat) {
    hold < |link| && (hold == 0 || link[hold].topology > 2)
  }

  lemma {:induction false} StepLeavesPorts(link: seq<Link>, latch: seq<Latch>, st: State, i: nat)
    requires Shaped(link, latch, st) && 1 <= i < |link| && PortsLeft(link, st.dc, i) && HeldSplits(link, st.hold)
    ensures var r := Step(link, latch, st, i); PortsLeft(link, r.dc, i + 1) && HeldSplits(link, r.hold)
  {
    hide OpenPort, Delay, Climb, EntryPort, Consume, PrevPort;
    if link[i].hasdc {
      var dc := st.dc[i := Stamped(st.dc[i], link[i].activeports, latch[i])];
      assert PortsLeft(link, dc, i + 1);
      var k := ClimbEnds(link, i);
      var parent := Climb(link, i).1;
      if parent > 0 {
        ConsumeLeaves(link, dc, i + 1, parent);
      }
    } else {
      var dc := st.dc[i := st.dc[i].(consumedports := link[i].activeports, rtA := 0, rtB := 0, rtC := 0, rtD := 0)];
      assert PortsLeft(link, dc, i + 1);
      ConsumeLeaves(link, dc, i + 1, Held(link, link[i].parent, st.hold));
    }
  }

  /** Whatever the link counts and stamps are, ports are only ever given up: the entry port of a clock is never left, and
      only clocks and splits give up any other. */
  lemma {:induction false} PortsAreOnlyGivenUp(link: seq<Link>, latch: seq<Latch>, st: State, until: nat)
    requires Shaped(link, latch, st) && 1 <= until <= |link| && st.hold == 0
    ensures var r := Run(link, latch, st, 1, until); PortsLeft(link, r.dc, until) && HeldSplits(link, r.hold)
    decreases until
  {
    hide Step, Descending, PortsLeft;
    if until > 1 {
      PortsAreOnlyGivenUp(link, latch, st, until - 1);
      StepLeavesPorts(link, latch, Run(link, latch, st, 1, until - 1), until - 1);
    } else {
      NoPortsYet(link, latch, st);
    }
  }

  lemma {:induction false} NoPortsYet(link: seq<Link>, latch: seq<Latch>, st: State)
    requires Shaped(link, latch, st) && 1 <= |link|
    ensures PortsLeft(link, st.dc, 1)
  {
  }

  /** A clock parent with a single link takes its child on its entry port. */
  lemma {:induction false} SingleLinkParent(link: seq<Link>, dc: seq<Dc>, i: nat)
    requires Descending(link) && 1 <= i < |link| == |dc|
    ensures var parent := Climb(link, i).1;
            parent > 0 && link[parent].topology == 1 ==> Measure(link, dc, i)[i].parentport == dc[parent].entryport
  {
    hide Delay, Descending;
  }

  method ParentPort(dc: array<Dc>, parent: nat) returns (parentport: nat)
    requires parent < dc.Length
    modifies dc
    ensures parentport == OpenPort(old(dc[parent].consumedports))
    ensures dc[..] == Consume(old(dc[..]), parent)
  {
    parentport := 0;
    var b := dc[parent].consumedports;
    if 3 in b { parentport := 3; b := b - {3}; }
    else if 1 in b { parentport := 1; b := b - {1}; }
    else if 2 in b { parentport := 2; b := b - {2}; }
    else if 0 in b { parentport := 0; b := b - {0}; }
    assert b == dc[parent].consumedports - {parentport};
    dc[parent] := dc[parent].(consumedports := b);
  }

  /** Searching upwards for a slave with a clock. */
  method ClockParent(link: array<Link>, i: nat) returns (child: nat, parent: nat)
    requires 1 <= i < link.Length && Descending(link[..])
    ensures (child, parent) == Climb(link[..], i) && NearestClock(link[..], i, child, parent)
  {
    ghost var k := ClimbEnds(link[..], i);
    assert FirstClockAt(link[..], i, k);
    child, parent := i, link[i].parent;
    while !(parent == 0 || link[parent].hasdc)
      invariant parent < child <= i && parent == link[child].parent
      invariant Climb(link[..], i) == Climb(link[..], child)
    {
      child := parent;
      parent := link[parent].parent;
    }
  }

  /** Combines the delta times of a slave and of its clock parent. */
  method ComputeDelay(link: array<Link>, dc: array<Dc>, i: nat, child: nat, parent: nat, parentport: nat)
    returns (pdelay: int)
    requires i < link.Length == dc.Length && parent < link.Length
    ensures pdelay == Delay(link[..], dc[..], i, child, parent, parentport)
  {
    hide Wrap32, PortTime, PrevPort, Half;
    var before := PrevPort(link[parent].activeports, parentport);
    var dt1, dt2 := 0, 0;
    var dt3 := Wrap32(PortTime(dc[parent], parentport) - PortTime(dc[parent], before));
    if link[i].topology > 1 {
      dt1 := Wrap32(PortTime(dc[i], PrevPort(link[i].activeports, dc[i].entryport)) - PortTime(dc[i], dc[i].entryport));
    }
    if dt1 > dt3 { dt1 := Wrap32(-dt1); }
    if child - parent > 1 {
      dt2 := Wrap32(PortTime(dc[parent], before) - PortTime(dc[parent], dc[parent].entryport));
    }
    if dt2 < 0 { dt2 := Wrap32(-dt2); }
    pdelay := Wrap32(Half(Wrap32(dt3 - dt1)) + dt2 + dc[parent].pdelay);
  }

  /** The part of the loop body that finds the clock parent and computes the delay. */
  method Locate(link: array<Link>, dc: array<Dc>, i: nat)
    requires 1 <= i < link.Length == dc.Length
    requires Descending(link[..])
    modifies dc
    ensures dc[..] == Measure(link[..], old(dc[..]), i)
  {
    var child, parent := ClockParent(link, i);
    if parent > 0 {
      var parentport := ParentPort(dc, parent);
      if link[parent].topology == 1 {
        parentport := dc[parent].entryport;
      }
      var pdelay := ComputeDelay(link, dc, i, child, parent, parentport);
      dc[i] := dc[i].(parentport := parentport, pdelay := pdelay);
    }
  }

  /** Reads the latched times of slave `i` and settles its entry port. */
  method ReadStamps(link: array<Link>, t: Latch, dc: array<Dc>, i: nat)
    requires 1 <= i < link.Length == dc.Length
    modifies dc
    ensures dc[..] == old(dc[..])[i := Stamped(old(dc[i]), link[i].activeports, t)]
  {
    dc[i] := dc[i].(consumedports := link[i].activeports);
    dc[i] := dc[i].(rtA := t.time0, rtB := t.time1, rtC := t.time2, rtD := t.time3);
    var entryport := EntryPort(link[i].activeports, dc[i]);
    dc[i] := dc[i].(entryport := entryport, consumedports := dc[i].consumedports - {entryport});
  }

  /** A slave without a clock: its branch may have to give up a port of the branch root. */
  method HoldBranch(link: array<Link>, dc: array<Dc>, i: nat, held: nat) returns (parenthold: nat)
    requires 1 <= i < link.Length == dc.Length && held < link.Length
    requires Descending(link[..])
    modifies dc
    ensures (dc[..], parenthold) == Hold(link[..], old(dc[..]), i, held)
  {
    parenthold := held;
    var parent := link[i].parent;
    if parent > 0 && link[parent].topology > 2 {
      parenthold := parent;
    }
    if parenthold > 0 && link[i].topology == 1 {
      var _ := ParentPort(dc, parenthold);
      parenthold := 0;
    }
  }

  /** One slave with a clock: joins the chain, is stamped and measured. */
  method ConfigClock(link: array<Link>, latch: seq<Latch>, dc: array<Dc>, next: array<nat>, previous: array<nat>,
                     i: nat, prevDc: nat, ghost hold: nat)
    requires link.Length == |latch| == dc.Length == next.Length == previous.Length && next != previous
    requires Descending(link[..]) && 1 <= i < link.Length && prevDc < link.Length && hold < link.Length
    requires link[i].hasdc
    modifies dc, next, previous
    ensures State(dc[..], next[..], previous[..], i, 0)
         == Step(link[..], latch, State(old(dc[..]), old(next[..]), old(previous[..]), prevDc, hold), i)
  {
    next[prevDc] := i;
    previous[i] := prevDc;
    ReadStamps(link, latch[i], dc, i);
    Locate(link, dc, i);
  }

  /** ecx_configdc; the registers of the slaves are in `latch`, entry 0 of a table is the master.
      (The source tells the first clock apart only to set group flags: with no clock found yet,
      the previous clock is the master.) */
  method ConfigDc(link: array<Link>, latch: seq<Latch>, dc: array<Dc>, next: array<nat>, previous: array<nat>)
    returns (hasdc: bool)
    requires link.Length == |latch| == dc.Length == next.Length == previous.Length > 0
    requires Descending(link[..])
    requires next != previous
    modifies dc, next, previous
    ensures var r := Run(link[..], latch, State(old(dc[..]), old(next[..]), old(previous[..]), 0, 0), 1, link.Length);
            dc[..] == r.dc && next[..] == r.next && previous[..] == r.previous && (hasdc <==> r.last > 0)
  {
    hasdc := false;
    var parenthold: nat, prevDc: nat := 0, 0;
    ghost var st := State(dc[..], next[..], previous[..], 0, 0);
    for i := 1 to link.Length
      invariant prevDc < link.Length && parenthold < link.Length
      invariant hasdc <==> prevDc > 0
      invariant State(dc[..], next[..], previous[..], prevDc, parenthold) == Run(link[..], latch, st, 1, i)
    {
      ghost var was := State(dc[..], next[..], previous[..], prevDc, parenthold);
      if link[i].hasdc {
        ConfigClock(link, latch, dc, next, previous, i, prevDc, parenthold);
        hasdc, parenthold, prevDc := true, 0, i;
      } else {
        dc[i] := dc[i].(consumedports := link[i].activeports, rtA := 0, rtB := 0, rtC := 0, rtD := 0);
        assert dc[..] == was.dc[i := was.dc[i].(consumedports := link[i].activeports, rtA := 0, rtB := 0, rtC := 0, rtD := 0)];
        parenthold := HoldBranch(link, dc, i, parenthold);
      }
    }
  }
}
