// Branches without any clock in ecx_configdc: such a branch is to use up the port of the slave at
// which it splits off, so that later branches find theirs. It does so only when it does not split.
module Clockless {
  import opened Wiring
  import opened Topology
  import opened Clocks
  import opened Delays

  /** No slave of `t` has a clock. */
  predicate NoClocks(link: seq<Link>, t: Tree, self: nat) {
    t.Slave? ==>
      && self < |link| && !link[self].hasdc
      && NoClocks(link, t.p3, First3(self)) && NoClocks(link, t.p1, First1(t, self)) && NoClocks(link, t.p2, First2(t, self))
  }

  /** Slaves one behind the other, without a split. */
  predicate Line(t: Tree) {
    t.Slave? ==> Links(t) <= 2 && Line(t.p3) && Line(t.p1) && Line(t.p2)
  }

  /** A clockless slave: what its step does to the record of `root` and to the slave held. */
  lemma {:induction false} StepWithoutClock(link: seq<Link>, latch: seq<Latch>, st: State, self: nat, root: nat)
    requires Shaped(link, latch, st) && 1 <= root < self < |link| && !link[self].hasdc
    ensures var r := Step(link, latch, st, self);
            var held := Held(link, link[self].parent, st.hold);
            var ends := held > 0 && link[self].topology == 1;
            Shaped(link, latch, r) && r.hold == (if ends then 0 else held) && |r.dc| == |st.dc| == |link| &&
            r.dc[root] == if ends && held == root then Consume(st.dc, root)[root] else st.dc[root]
  {
  }

  lemma {:induction false} BranchInside(link: seq<Link>, t: Tree, self: nat, parent: nat)
    requires t.Slave? && Plugged(link, t, self, parent)
    ensures 1 <= self < |link| && link[self].parent == parent && link[self].topology == Links(t)
    ensures Plugged(link, t.p3, First3(self), self) && Plugged(link, t.p1, First1(t, self), self)
    ensures Plugged(link, t.p2, First2(t, self), self)
  {
  }

  lemma {:induction false} RunNone(link: seq<Link>, latch: seq<Latch>, st: State, at: nat)
    requires Shaped(link, latch, st) && 1 <= at <= |link|
    ensures Run(link, latch, st, at, at) == st
  {
    hide Step, Descending;
  }

  /** The branches of a slave one after the other. */
  lemma {:induction false} RunBranches(link: seq<Link>, latch: seq<Latch>, t: Tree, self: nat, a: State)
    requires t.Slave? && Shaped(link, latch, a) && 1 <= self && self + Size(t) <= |link|
    ensures var b := Run(link, latch, a, First3(self), First3(self) + Size(t.p3));
            var c := Run(link, latch, b, First1(t, self), First1(t, self) + Size(t.p1));
            Run(link, latch, c, First2(t, self), First2(t, self) + Size(t.p2)) == Run(link, latch, a, self + 1, self + Size(t))
  {
    hide Step, Run, Shaped, Descending;
    RunSplit(link, latch, a, First3(self), First1(t, self), First2(t, self));
    RunSplit(link, latch, a, First3(self), First2(t, self), self + Size(t));
  }

  /** What the run over a branch does to `root` and to the slave held. */
  predicate Leaves(st: State, r: State, root: nat, some: bool) {
    |r.dc| == |st.dc| && root < |r.dc| && r.dc[root] == st.dc[root] && if some then r.hold != root else r.hold == st.hold
  }

  /** A branch that does not hold `root` leaves it alone. */
  lemma {:induction false} OthersKeepRoot(link: seq<Link>, latch: seq<Latch>, t: Tree, self: nat, parent: nat,
                                          root: nat, st: State)
    requires Shaped(link, latch, st) && 1 <= root < self && parent < self && self + Size(t) <= |link|
    requires Plugged(link, t, self, parent) && NoClocks(link, t, self)
    requires Held(link, parent, st.hold) != root
    ensures Leaves(st, Run(link, latch, st, self, self + Size(t)), root, t.Slave?)
    decreases t, 1
  {
    hide Step, Run, Shaped, Descending, Plugged;
    Lengths(link, latch, st);
    if t.Open? {
      RunNone(link, latch, st, self);
    } else {
      BranchInside(link, t, self, parent);
      StepWithoutClock(link, latch, st, self, root);
      RunOne(link, latch, st, self, self + Size(t));
      var a := Step(link, latch, st, self);
      if Links(t) == 1 {
        RunNone(link, latch, a, self + 1);
      } else {
        BranchesKeepRoot(link, latch, t, self, root, a);
      }
    }
  }

  /** So do the branches of a slave that holds another one, or splits and so holds itself. */
  lemma {:induction false} BranchesKeepRoot(link: seq<Link>, latch: seq<Latch>, t: Tree, self: nat, root: nat, a: State)
    requires t.Slave? && Shaped(link, latch, a) && 1 <= root < self && self + Size(t) <= |link|
    requires NoClocks(link, t, self) && Held(link, self, a.hold) != root && Links(t) > 1
    requires Plugged(link, t.p3, First3(self), self) && Plugged(link, t.p1, First1(t, self), self)
    requires Plugged(link, t.p2, First2(t, self), self)
    ensures Leaves(a, Run(link, latch, a, self + 1, self + Size(t)), root, true)
    decreases t, 0
  {
    hide Step, Run, Shaped, Descending, Plugged, NoClocks, Links;
    SomeBranch(link, t, self);
    RunBranches(link, latch, t, self, a);
    OthersKeepRoot(link, latch, t.p3, First3(self), self, root, a);
    var b := Run(link, latch, a, First3(self), First3(self) + Size(t.p3));
    OthersKeepRoot(link, latch, t.p1, First1(t, self), self, root, b);
    var c := Run(link, latch, b, First1(t, self), First1(t, self) + Size(t.p1));
    OthersKeepRoot(link, latch, t.p2, First2(t, self), self, root, c);
  }

  lemma {:induction false} SomeBranch(link: seq<Link>, t: Tree, self: nat)
    requires t.Slave? && Links(t) > 1 && NoClocks(link, t, self)
    ensures t.p3.Slave? || t.p1.Slave? || t.p2.Slave?
    ensures NoClocks(link, t.p3, First3(self)) && NoClocks(link, t.p1, First1(t, self)) &&
            NoClocks(link, t.p2, First2(t, self))
  {
  }

  lemma {:induction false} OnlyOneBranch(link: seq<Link>, t: Tree, self: nat, parent: nat)
    requires t.Slave? && Plugged(link, t, self, parent) && NoClocks(link, t, self) && Links(t) == 2
    ensures Only(t).Slave? && Plugged(link, Only(t), self + 1, self) && NoClocks(link, Only(t), self + 1)
    ensures Size(t) == 1 + Size(Only(t)) && (Line(t) <==> Line(Only(t))) && Only(t) < t
  {
  }

  /** A branch that holds `root`: at its end, or at its first split, it is decided. */
  lemma {:induction false} HeldBranch(link: seq<Link>, latch: seq<Latch>, t: Tree, self: nat, parent: nat, root: nat,
                                      st: State)
    requires t.Slave? && Shaped(link, latch, st) && 1 <= root < self && parent < self && self + Size(t) <= |link|
    requires Plugged(link, t, self, parent) && NoClocks(link, t, self) && Held(link, parent, st.hold) == root
    ensures var r := Run(link, latch, st, self, self + Size(t));
            |r.dc| == |st.dc| == |link| && r.dc[root] == if Line(t) then Consume(st.dc, root)[root] else st.dc[root]
    decreases t
  {
    hide Step, Run, Shaped, Descending, Plugged, Line, Only, Links, OpenPort, Size;
    Lengths(link, latch, st);
    BranchInside(link, t, self, parent);
    StepWithoutClock(link, latch, st, self, root);
    RunOne(link, latch, st, self, self + Size(t));
    var a := Step(link, latch, st, self);
    ShortLines(t);
    if Links(t) == 2 {
      OnlyOneBranch(link, t, self, parent);
      HeldBranch(link, latch, Only(t), self + 1, self, root, a);
    } else if Links(t) == 1 {
      RunNone(link, latch, a, self + 1);
    } else {
      BranchesKeepRoot(link, latch, t, self, root, a);
    }
  }

  lemma {:induction false} ShortLines(t: Tree)
    requires t.Slave?
    ensures Links(t) >= 1 && (Links(t) == 1 ==> Line(t) && Size(t) == 1)
    ensures Links(t) > 2 ==> !Line(t)
  {
  }

  /**
   * A branch without clocks on a split slave makes that slave give up the port the branch hangs on, as the measurement
   * of later branches needs, if and only if the branch itself does not split.
   */
  lemma {:induction false} GivesUpItsPortIffALine(link: seq<Link>, latch: seq<Latch>, t: Tree, self: nat, root: nat,
                                                  st: State)
    requires t.Slave? && Shaped(link, latch, st) && 1 <= root < self && self + Size(t) <= |link|
    requires Plugged(link, t, self, root) && NoClocks(link, t, self) && link[root].topology > 2
    requires OpenPort(st.dc[root].consumedports) in st.dc[root].consumedports
    ensures var r := Run(link, latch, st, self, self + Size(t));
            var ports := st.dc[root].consumedports;
            |r.dc| == |link| && r.dc[root] == st.dc[root].(consumedports := r.dc[root].consumedports) &&
            (r.dc[root].consumedports == ports - {OpenPort(ports)} <==> Line(t)) &&
            (r.dc[root].consumedports == ports <==> !Line(t))
  {
    hide Step, Run, Descending, Plugged, Line, OpenPort;
    HeldBranch(link, latch, t, self, root, root, st);
  }
}
