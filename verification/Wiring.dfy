// The cabling of an EtherCAT segment and what a frame experiences on it.
//
// A slave has four ports. Port 0 faces the master; a frame that entered through port 0
// visits what hangs on port 3, then port 1, then port 2, and leaves through port 0 again.
// The slaves of a branch are numbered in the order in which the frame first reaches them,
// so slave numbers are the preorder of this tree. Slave 0 is the master.
module Wiring {

  /** What is plugged into a port: nothing, or a cable of some length to a further slave. */
  datatype Tree = Open | Slave(cable: nat, p3: Tree, p1: Tree, p2: Tree)

  function Size(t: Tree): (n: nat)
    ensures t.Open? <==> n == 0
  {
    match t
    case Open => 0
    case Slave(_, p3, p1, p2) => 1 + Size(p3) + Size(p1) + Size(p2)
  }

  function Present(t: Tree): nat {
    if t.Open? then 0 else 1
  }

  /** Ports with a link, and how many there are. */
  function Ports(t: Tree): (s: set<nat>)
    requires t.Slave?
    ensures 0 in s && (3 in s <==> t.p3.Slave?) && (1 in s <==> t.p1.Slave?) && (2 in s <==> t.p2.Slave?)
  {
    {0} + (if t.p3.Slave? then {3} else {})
        + (if t.p1.Slave? then {1} else {})
        + (if t.p2.Slave? then {2} else {})
  }

  function Links(t: Tree): nat
    requires t.Slave?
  {
    1 + Present(t.p3) + Present(t.p1) + Present(t.p2)
  }

  /** Slave numbers at which the branches of the slave numbered `self` begin. */
  function First3(self: nat): nat {
    self + 1
  }

  function First1(t: Tree, self: nat): nat
    requires t.Slave?
  {
    self + 1 + Size(t.p3)
  }

  function First2(t: Tree, self: nat): nat
    requires t.Slave?
  {
    self + 1 + Size(t.p3) + Size(t.p1)
  }

  /** Time from leaving a port towards `t` until the frame is back at that port:
      forwarding costs nothing and a cable is as slow in one direction as in the other. */
  function RoundTrip(t: Tree): nat {
    match t
    case Open => 0
    case Slave(cable, p3, p1, p2) => 2 * cable + RoundTrip(p3) + RoundTrip(p1) + RoundTrip(p2)
  }
}
