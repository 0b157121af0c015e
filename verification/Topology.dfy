// Rebuilding the tree from link counts: the parent search of ecx_config_init.
module Topology {
  import opened Wiring

  /** What the master learns of a slave before distributed clocks are measured. */
  datatype Link = Link(topology: nat, activeports: set<nat>, hasdc: bool, parent: nat)

  /** Ports that the data link status register reports open with communication established. */
  function OpenPorts(dlstat: nat): set<nat> {
    (if dlstat / 0x100 % 4 == 2 then {0} else {})
    + (if dlstat / 0x400 % 4 == 2 then {1} else {})
    + (if dlstat / 0x1000 % 4 == 2 then {2} else {})
    + (if dlstat / 0x4000 % 4 == 2 then {3} else {})
  }

  function CountPorts(ports: set<nat>): nat {
    (if 0 in ports then 1 else 0) + (if 1 in ports then 1 else 0)
    + (if 2 in ports then 1 else 0) + (if 3 in ports then 1 else 0)
  }

  /**
   * The data link status register holds two bits for each port, from bit 8 on in the order of the port numbers; 2 means
   * that the loop is open and the port communicates. OpenPorts is the set of exactly these ports.
   */
  lemma {:induction false} OpenPortsReadPortStates(low: nat, state0: nat, state1: nat, state2: nat, state3: nat)
    requires low < 0x100 && state0 < 4 && state1 < 4 && state2 < 4 && state3 < 4
    ensures var ports := OpenPorts(low + 0x100 * (state0 + 4 * (state1 + 4 * (state2 + 4 * state3))));
            && (0 in ports <==> state0 == 2) && (1 in ports <==> state1 == 2)
            && (2 in ports <==> state2 == 2) && (3 in ports <==> state3 == 2)
            && ports <= {0, 1, 2, 3}
  {
    var r3 := state3;
    var r2 := state2 + 4 * r3;
    var r1 := state1 + 4 * r2;
    var dlstat := low + 0x100 * (state0 + 4 * r1);
    assert dlstat / 0x100 == state0 + 4 * r1;
    assert dlstat / 0x400 == r1;
    assert dlstat / 0x1000 == r2;
    assert dlstat / 0x4000 == r3;
  }

  /** How an end point, a split or a cross changes the branch counter. */
  function Weight(topology: nat): int {
    if topology == 1 then -1 else if topology == 3 then 1 else if topology == 4 then 2 else 0
  }

  /** Where the backward scan that stands at slave `slavec` with counter `topoc` stops. */
  function Scan(top: seq<nat>, slavec: nat, topoc: int): (parent: nat)
    requires 1 <= slavec < |top|
    ensures 1 <= parent <= slavec
  {
    var count := topoc + Weight(top[slavec]);
    if (count >= 0 && top[slavec] > 1) || slavec == 1 then slavec
    else Scan(top, slavec - 1, count)
  }

  function FoundParent(top: seq<nat>, slave: nat): (parent: nat)
    requires 1 <= slave < |top|
    ensures parent < slave
    ensures slave > 1 ==> parent >= 1
  {
    if slave == 1 then 0 else Scan(top, slave - 1, 0)
  }

  /** The do-while loop of the source; `top` names the link counts it reads. */
  method SearchParent(link: array<Link>, slave: nat, ghost top: seq<nat>) returns (parent: nat)
    requires 1 <= slave < link.Length == |top|
    requires forall j :: 1 <= j < slave ==> top[j] == link[j].topology
    ensures parent == FoundParent(top, slave)
  {
    parent := 0;
    if slave > 1 {
      var topoc: int := 0;
      var slavec := slave - 1;
      while slavec > 0
        invariant 0 <= slavec < slave
        invariant FoundParent(top, slave) == if slavec == 0 then parent else Scan(top, slavec, topoc)
      {
        var topology := link[slavec].topology;
        if topology == 1 { topoc := topoc - 1; }
        if topology == 3 { topoc := topoc + 1; }
        if topology == 4 { topoc := topoc + 2; }
        if (topoc >= 0 && topology > 1) || slavec == 1 {
          parent := slavec;
          slavec := 1;
        }
        slavec := slavec - 1;
      }
    }
  }

  function LinkCountsOf(dlstat: seq<nat>): (top: seq<nat>)
    ensures |top| == |dlstat|
  {
    seq(|dlstat|, j requires 0 <= j < |dlstat| => CountPorts(OpenPorts(dlstat[j])))
  }

  /** The link record that belongs to a slave, given everybody's registers. */
  function Detected(dlstat: seq<nat>, dcsupport: seq<bool>, slave: nat): Link
    requires 1 <= slave < |dlstat| == |dcsupport|
  {
    var ports := OpenPorts(dlstat[slave]);
    Link(CountPorts(ports), ports, dcsupport[slave], FoundParent(LinkCountsOf(dlstat), slave))
  }

  /** Entry 0 of every table is the master. */
  method ConfigLinks(link: array<Link>, dlstat: seq<nat>, dcsupport: seq<bool>)
    requires link.Length == |dlstat| == |dcsupport| && link.Length > 0
    modifies link
    ensures link[0] == old(link[0])
    ensures forall s :: 1 <= s < link.Length ==> link[s] == Detected(dlstat, dcsupport, s)
  {
    hide Scan;
    ghost var top := LinkCountsOf(dlstat);
    for slave := 1 to link.Length
      invariant link[0] == old(link[0])
      invariant forall s :: 1 <= s < slave ==> link[s].topology == top[s]
      invariant forall s :: 1 <= s < slave ==> link[s] == Detected(dlstat, dcsupport, s)
    {
      var ports := OpenPorts(dlstat[slave]);
      var parent := SearchParent(link, slave, top);
      link[slave] := Link(CountPorts(ports), ports, dcsupport[slave], parent);
      assert link[slave] == Detected(dlstat, dcsupport, slave);
    }
  }

  // ---------------------------------------------------------------- the scan finds the parent

  /** The table holds the link counts of the slaves of `t`, in frame order, from `self` on. */
  ghost predicate Lists(top: seq<nat>, t: Tree, self: nat) {
    t.Slave? ==>
      && self < |top| && top[self] == Links(t)
      && Lists(top, t.p3, First3(self))
      && Lists(top, t.p1, First1(t, self))
      && Lists(top, t.p2, First2(t, self))
  }

  /** The scan gives every slave of `t` the slave it is really plugged into. */
  ghost predicate FindsParents(top: seq<nat>, t: Tree, self: nat, parent: nat) {
    t.Slave? ==>
      && 1 <= self < |top| && FoundParent(top, self) == parent
      && FindsParents(top, t.p3, First3(self), self)
      && FindsParents(top, t.p1, First1(t, self), self)
      && FindsParents(top, t.p2, First2(t, self), self)
  }

  lemma {:induction false} ListsOneLevel(top: seq<nat>, t: Tree, self: nat)
    requires t.Slave? && Lists(top, t, self)
    ensures self < |top| && top[self] == Links(t)
    ensures Lists(top, t.p3, First3(self)) && Lists(top, t.p1, First1(t, self)) && Lists(top, t.p2, First2(t, self))
    ensures First2(t, self) + Size(t.p2) == self + Size(t)
  {
  }

  lemma {:induction false} SizeSplits(t: Tree)
    requires t.Slave?
    ensures Size(t) == 1 + Size(t.p3) + Size(t.p1) + Size(t.p2)
  {
  }

  /** A scan that has paid for all branches of a slave goes on. */
  lemma {:induction false} ScanPasses(top: seq<nat>, t: Tree, self: nat, topoc: int)
    requires t.Slave? && 2 <= self < |top| && top[self] == Links(t)
    requires topoc <= 1 - Links(t)
    ensures Scan(top, self, topoc) == Scan(top, self - 1, topoc + Links(t) - 2)
  {
    assert Weight(top[self]) == Links(t) - 2;
  }

  /** A complete branch, scanned from its last slave with no credit, costs exactly one. */
  lemma {:induction false} ScanBranch(top: seq<nat>, t: Tree, self: nat, topoc: int)
    requires 2 <= self && self + Size(t) <= |top|
    requires Lists(top, t, self)
    requires topoc <= 0
    ensures Scan(top, self + Size(t) - 1, topoc) == Scan(top, self - 1, topoc - Present(t))
  {
    hide Scan, Weight, Lists, Size;
    if t.Slave? {
      ListsOneLevel(top, t, self);
      ScanBranch(top, t.p2, First2(t, self), topoc);
      ScanBranch(top, t.p1, First1(t, self), topoc - Present(t.p2));
      ScanBranch(top, t.p3, First3(self), topoc - Present(t.p2) - Present(t.p1));
      ScanPasses(top, t, self, topoc - Present(t.p2) - Present(t.p1) - Present(t.p3));
    }
  }

  /** A scan that has paid for fewer branches than the slave has ends at that slave. */
  lemma {:induction false} ScanStops(top: seq<nat>, t: Tree, self: nat, paid: int)
    requires t.Slave? && 1 <= self < |top| && top[self] == Links(t)
    requires 0 <= paid <= Links(t) - 2
    ensures Scan(top, self, 0 - paid) == self
  {
    assert Weight(top[self]) == Links(t) - 2;
  }

  /** The first slave behind a port finds its parent across the finished branches before it. */
  lemma {:induction false} FirstOfBranch1(top: seq<nat>, t: Tree, self: nat)
    requires t.Slave? && t.p1.Slave? && 1 <= self && self + Size(t) <= |top|
    requires top[self] == Links(t) && Lists(top, t.p3, First3(self))
    ensures FoundParent(top, First1(t, self)) == self
  {
    hide Scan, Weight, Lists, Size;
    SizeSplits(t);
    ScanBranch(top, t.p3, First3(self), 0);
    ScanStops(top, t, self, Present(t.p3));
  }

  lemma {:induction false} FirstOfBranch2(top: seq<nat>, t: Tree, self: nat)
    requires t.Slave? && t.p2.Slave? && 1 <= self && self + Size(t) <= |top|
    requires top[self] == Links(t) && Lists(top, t.p3, First3(self)) && Lists(top, t.p1, First1(t, self))
    ensures FoundParent(top, First2(t, self)) == self
  {
    hide Scan, Weight, Lists, Size;
    SizeSplits(t);
    ScanBranch(top, t.p1, First1(t, self), 0);
    ScanBranch(top, t.p3, First3(self), 0 - Present(t.p1));
    ScanStops(top, t, self, Present(t.p3) + Present(t.p1));
  }

  lemma {:induction false} BranchParents(top: seq<nat>, t: Tree, self: nat, parent: nat)
    requires 1 <= self && self + Size(t) <= |top|
    requires Lists(top, t, self)
    requires t.Slave? ==> FoundParent(top, self) == parent
    ensures FindsParents(top, t, self, parent)
  {
    if t.Slave? {
      if t.p3.Slave? { ScanStops(top, t, self, 0); }
      if t.p1.Slave? { FirstOfBranch1(top, t, self); }
      if t.p2.Slave? { FirstOfBranch2(top, t, self); }
      BranchParents(top, t.p3, First3(self), self);
      BranchParents(top, t.p1, First1(t, self), self);
      BranchParents(top, t.p2, First2(t, self), self);
    }
  }

  /** For every wiring, the link counts alone give the scan the true tree back. */
  lemma {:induction false} ScanRebuildsTree(top: seq<nat>, t: Tree)
    requires |top| == Size(t) + 1 && Lists(top, t, 1)
    ensures FindsParents(top, t, 1, 0)
  {
    BranchParents(top, t, 1, 0);
  }

  // ---------------------------------------------------------------- from registers to records

  /** The link records describe `t`. */
  ghost predicate Plugged(link: seq<Link>, t: Tree, self: nat, parent: nat) {
    t.Slave? ==>
      && 1 <= self < |link|
      && link[self].topology == Links(t) && link[self].activeports == Ports(t) && link[self].parent == parent
      && Plugged(link, t.p3, First3(self), self)
      && Plugged(link, t.p1, First1(t, self), self)
      && Plugged(link, t.p2, First2(t, self), self)
  }

  /** Every slave of `t` reports the ports that have a cable. */
  ghost predicate Reports(dlstat: seq<nat>, t: Tree, self: nat) {
    t.Slave? ==>
      && self < |dlstat| && OpenPorts(dlstat[self]) == Ports(t)
      && Reports(dlstat, t.p3, First3(self))
      && Reports(dlstat, t.p1, First1(t, self))
      && Reports(dlstat, t.p2, First2(t, self))
  }

  lemma {:induction false} ReportedCounts(dlstat: seq<nat>, t: Tree, self: nat)
    requires Reports(dlstat, t, self)
    ensures Lists(LinkCountsOf(dlstat), t, self)
  {
    if t.Slave? {
      assert CountPorts(Ports(t)) == Links(t);
      ReportedCounts(dlstat, t.p3, First3(self));
      ReportedCounts(dlstat, t.p1, First1(t, self));
      ReportedCounts(dlstat, t.p2, First2(t, self));
    }
  }

  lemma {:induction false} DetectedBranch(link: seq<Link>, dlstat: seq<nat>, dcsupport: seq<bool>,
                                          t: Tree, self: nat, parent: nat)
    requires 1 <= |link| == |dlstat| == |dcsupport|
    requires forall s :: 1 <= s < |link| ==> link[s] == Detected(dlstat, dcsupport, s)
    requires Reports(dlstat, t, self) && FindsParents(LinkCountsOf(dlstat), t, self, parent)
    ensures Plugged(link, t, self, parent)
  {
    if t.Slave? {
      assert CountPorts(Ports(t)) == Links(t);
      DetectedBranch(link, dlstat, dcsupport, t.p3, First3(self), self);
      DetectedBranch(link, dlstat, dcsupport, t.p1, First1(t, self), self);
      DetectedBranch(link, dlstat, dcsupport, t.p2, First2(t, self), self);
    }
  }

  /** What ConfigLinks leaves behind describes the wiring that the registers reported. */
  lemma {:induction false} DetectionDescribesWiring(link: seq<Link>, dlstat: seq<nat>, dcsupport: seq<bool>, t: Tree)
    requires |link| == |dlstat| == |dcsupport| == Size(t) + 1
    requires forall s :: 1 <= s < |link| ==> link[s] == Detected(dlstat, dcsupport, s)
    requires Reports(dlstat, t, 1)
    ensures Plugged(link, t, 1, 0)
  {
    ReportedCounts(dlstat, t, 1);
    ScanRebuildsTree(LinkCountsOf(dlstat), t);
    DetectedBranch(link, dlstat, dcsupport, t, 1, 0);
  }
}
