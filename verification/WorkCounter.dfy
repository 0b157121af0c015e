// What the work counter of a cycle says: it is twice the number of slaves with outputs plus the
// number of slaves with inputs exactly when no datagram boundary cuts a slave's data.
module WorkCounter {
  import opened Devices
  import opened Exchange

  /** How many of the datagrams that can do so read (`reading`) or write the window. */
  function Reached(w: Window, logStart: nat, ts: seq<Tile>, reading: bool): nat {
    if ts == [] then 0
    else
      var t := ts[|ts| - 1];
      Reached(w, logStart, ts[..|ts| - 1], reading)
      + if (if reading then Reads(t.command) else Writes(t.command)) && Meet(w, TileSpan(logStart, t)) then 1 else 0
  }

  function ByDevice(ds: seq<Device>, logStart: nat, ts: seq<Tile>): nat
    decreases |ds|
  {
    if ds == [] then 0
    else Reached(ds[0].inp, logStart, ts, true) + 2 * Reached(ds[0].out, logStart, ts, false) + ByDevice(ds[1..], logStart, ts)
  }

  /** Summing over datagrams and over slaves is the same: outputs count two in either mode. */
  lemma {:induction false} CountByDevice(ds: seq<Device>, logStart: nat, ts: seq<Tile>)
    ensures Count(ds, logStart, ts) == ByDevice(ds, logStart, ts)
    decreases |ts|
  {
    if ts == [] {
      NoDatagrams(ds, logStart);
    } else {
      CountByDevice(ds, logStart, ts[..|ts| - 1]);
      LastDatagram(ds, logStart, ts);
    }
  }

  lemma {:induction false} NoDatagrams(ds: seq<Device>, logStart: nat)
    ensures ByDevice(ds, logStart, []) == 0
    decreases |ds|
  {
    if ds != [] {
      NoDatagrams(ds[1..], logStart);
    }
  }

  lemma {:induction false} LastDatagram(ds: seq<Device>, logStart: nat, ts: seq<Tile>)
    requires ts != []
    ensures var t := ts[|ts| - 1];
            ByDevice(ds, logStart, ts) == ByDevice(ds, logStart, ts[..|ts| - 1])
              + (if Reads(t.command) then 1 else 2) * Hits(ds, t.command, TileSpan(logStart, t))
    decreases |ds|
  {
    if ds != [] {
      LastDatagram(ds[1..], logStart, ts);
    }
  }

  lemma {:induction false} ReachedConcat(w: Window, logStart: nat, ts: seq<Tile>, us: seq<Tile>, reading: bool)
    ensures Reached(w, logStart, ts + us, reading) == Reached(w, logStart, ts, reading) + Reached(w, logStart, us, reading)
    decreases |us|
  {
    if us == [] {
      assert ts + us == ts;
    } else {
      ReachedConcat(w, logStart, ts, us[..|us| - 1], reading);
      assert (ts + us)[..|ts + us| - 1] == ts + us[..|us| - 1];
    }
  }

  lemma {:induction false} ReachedByOthers(w: Window, logStart: nat, ts: seq<Tile>, c: Command, from: nat, until: nat,
                                           reading: bool)
    requires Tiled(ts, c, from, until) && !(if reading then Reads(c) else Writes(c))
    ensures Reached(w, logStart, ts, reading) == 0
    decreases |ts|
  {
    if ts != [] {
      ReachedByOthers(w, logStart, ts[..|ts| - 1], c, from, ts[|ts| - 1].offset, reading);
    }
  }

  predicate Empty(w: Window) {
    w.from >= w.until
  }

  predicate Within(w: Window, v: Window) {
    v.from <= w.from && w.until <= v.until
  }

  /** One datagram carries the whole window. */
  ghost predicate Uncut(w: Window, logStart: nat, ts: seq<Tile>) {
    exists p :: 0 <= p < |ts| && Within(w, TileSpan(logStart, ts[p]))
  }

  function Region(logStart: nat, from: nat, until: nat): Window {
    Window(8 * (logStart + from), 8 * (logStart + until))
  }

  /** In a run of datagrams without gap, a window behind it is not reached, a window that meets it is
      reached, and a window in it is reached exactly once if and only if it is not cut. */
  lemma {:induction false} ReachedOnceIffUncut(w: Window, logStart: nat, ts: seq<Tile>, c: Command, from: nat,
                                               until: nat, reading: bool)
    requires Tiled(ts, c, from, until) && (if reading then Reads(c) else Writes(c)) && !Empty(w)
    ensures Region(logStart, from, until).until <= w.from ==> Reached(w, logStart, ts, reading) == 0
    ensures Meet(w, Region(logStart, from, until)) ==> Reached(w, logStart, ts, reading) >= 1
    ensures Within(w, Region(logStart, from, until)) ==> (Reached(w, logStart, ts, reading) == 1 <==> Uncut(w, logStart, ts))
    decreases |ts|
  {
    if ts != [] {
      var t, rest := ts[|ts| - 1], ts[..|ts| - 1];
      TiledEnds(rest, c, from, t.offset);
      ReachedOnceIffUncut(w, logStart, rest, c, from, t.offset, reading);
      if Within(w, Region(logStart, from, until)) {
        UncutLast(w, logStart, ts);
        RestRegion(w, logStart, rest, c, from, t.offset);
      }
    }
  }

  lemma {:induction false} UncutLast(w: Window, logStart: nat, ts: seq<Tile>)
    requires ts != []
    ensures Uncut(w, logStart, ts) <==> Uncut(w, logStart, ts[..|ts| - 1]) || Within(w, TileSpan(logStart, ts[|ts| - 1]))
  {
    if Uncut(w, logStart, ts[..|ts| - 1]) {
      var p :| 0 <= p < |ts| - 1 && Within(w, TileSpan(logStart, ts[..|ts| - 1][p]));
      assert Within(w, TileSpan(logStart, ts[p]));
    }
    if Uncut(w, logStart, ts) {
      var p :| 0 <= p < |ts| && Within(w, TileSpan(logStart, ts[p]));
      if p < |ts| - 1 {
        assert Within(w, TileSpan(logStart, ts[..|ts| - 1][p]));
      }
    }
  }

  /** A window carried whole by one datagram of a run lies in the run. */
  lemma {:induction false} RestRegion(w: Window, logStart: nat, ts: seq<Tile>, c: Command, from: nat, until: nat)
    requires Tiled(ts, c, from, until)
    ensures Uncut(w, logStart, ts) ==> Within(w, Region(logStart, from, until))
  {
    if Uncut(w, logStart, ts) {
      var p :| 0 <= p < |ts| && Within(w, TileSpan(logStart, ts[p]));
      TiledAt(ts, c, from, until, p);
    }
  }

  lemma {:induction false} EmptyIsNotReached(w: Window, logStart: nat, ts: seq<Tile>, reading: bool)
    requires Empty(w)
    ensures Reached(w, logStart, ts, reading) == 0
    decreases |ts|
  {
    if ts != [] {
      EmptyIsNotReached(w, logStart, ts[..|ts| - 1], reading);
    }
  }

  /** Slaves with outputs, and with inputs. */
  function WithOutputs(ds: seq<Device>): nat {
    if ds == [] then 0 else (if Empty(ds[0].out) then 0 else 1) + WithOutputs(ds[1..])
  }

  function WithInputs(ds: seq<Device>): nat {
    if ds == [] then 0 else (if Empty(ds[0].inp) then 0 else 1) + WithInputs(ds[1..])
  }

  /** No slave's data is cut by a datagram boundary. */
  ghost predicate NothingCut(ds: seq<Device>, logStart: nat, rs: seq<Tile>, ws: seq<Tile>) {
    forall k :: 0 <= k < |ds| ==> Whole(ds[k], logStart, rs, ws)
  }

  ghost predicate Whole(d: Device, logStart: nat, rs: seq<Tile>, ws: seq<Tile>) {
    (Empty(d.inp) || Uncut(d.inp, logStart, rs)) && (Empty(d.out) || Uncut(d.out, logStart, ws))
  }

  /** The datagrams that write: the LWR ones, or the LRW ones. */
  function Writing(g: Group, rs: seq<Tile>, ws: seq<Tile>): seq<Tile> {
    if g.blockLRW then ws else rs
  }

  lemma {:induction false} OneDevice(g: Group, d: Device, rs: seq<Tile>, ws: seq<Tile>)
    requires g.Isegment <= |g.IOsegment| && Cut(g, rs, ws) && Mapped(g, [d])
    ensures var n := Reached(d.inp, g.logStart, rs + ws, true) + 2 * Reached(d.out, g.logStart, rs + ws, false);
            var expected := (if Empty(d.inp) then 0 else 1) + (if Empty(d.out) then 0 else 2);
            n >= expected && (n == expected <==> Whole(d, g.logStart, rs, Writing(g, rs, ws)))
  {
    hide Reached, Uncut, Follows, Tiled;
    assert [d][0] == d;
    var all := g.Obytes + g.Ibytes;
    ReachedConcat(d.inp, g.logStart, rs, ws, true);
    ReachedConcat(d.out, g.logStart, rs, ws, false);
    EmptyReached(d, g.logStart, rs + ws);
    TiledNothing(LWR, 0);
    if g.blockLRW {
      ReachedByOthers(d.inp, g.logStart, ws, LWR, 0, g.Obytes, true);
      ReachedByOthers(d.out, g.logStart, rs, LRD, g.Obytes, all, false);
      if !Empty(d.inp) { ReachedOnceIffUncut(d.inp, g.logStart, rs, LRD, g.Obytes, all, true); }
      if !Empty(d.out) { ReachedOnceIffUncut(d.out, g.logStart, ws, LWR, 0, g.Obytes, false); }
    } else {
      ReachedByOthers(d.inp, g.logStart, ws, LWR, 0, 0, true);
      NothingReached(d.out, g.logStart);
      if !Empty(d.inp) { ReachedOnceIffUncut(d.inp, g.logStart, rs, LRW, 0, all, true); }
      if !Empty(d.out) { ReachedOnceIffUncut(d.out, g.logStart, rs, LRW, 0, all, false); }
    }
  }

  lemma {:induction false} NothingReached(w: Window, logStart: nat)
    ensures Reached(w, logStart, [], false) == 0
  {
  }

  lemma {:induction false} EmptyReached(d: Device, logStart: nat, ts: seq<Tile>)
    ensures Empty(d.inp) ==> Reached(d.inp, logStart, ts, true) == 0
    ensures Empty(d.out) ==> Reached(d.out, logStart, ts, false) == 0
  {
    if Empty(d.inp) { EmptyIsNotReached(d.inp, logStart, ts, true); }
    if Empty(d.out) { EmptyIsNotReached(d.out, logStart, ts, false); }
  }

  lemma {:induction false} DevicesInTurn(g: Group, ds: seq<Device>, rs: seq<Tile>, ws: seq<Tile>)
    requires g.Isegment <= |g.IOsegment| && Cut(g, rs, ws) && Mapped(g, ds)
    ensures var n, expected := ByDevice(ds, g.logStart, rs + ws), 2 * WithOutputs(ds) + WithInputs(ds);
            n >= expected && (n == expected <==> NothingCut(ds, g.logStart, rs, Writing(g, rs, ws)))
    decreases |ds|
  {
    hide Reached, Whole, Cut;
    if ds != [] {
      assert Mapped(g, ds[1..]) && Mapped(g, [ds[0]]);
      DevicesInTurn(g, ds[1..], rs, ws);
      OneDevice(g, ds[0], rs, ws);
      NothingCutInTurn(ds, g.logStart, rs, Writing(g, rs, ws));
    }
  }

  lemma {:induction false} NothingCutInTurn(ds: seq<Device>, logStart: nat, rs: seq<Tile>, ws: seq<Tile>)
    requires ds != []
    ensures NothingCut(ds, logStart, rs, ws) <==> Whole(ds[0], logStart, rs, ws) && NothingCut(ds[1..], logStart, rs, ws)
  {
    hide Whole;
    if Whole(ds[0], logStart, rs, ws) && NothingCut(ds[1..], logStart, rs, ws) {
      forall k | 0 <= k < |ds| ensures Whole(ds[k], logStart, rs, ws) {
        if k > 0 { assert ds[k] == ds[1..][k - 1]; }
      }
    }
    if NothingCut(ds, logStart, rs, ws) {
      forall k | 0 <= k < |ds[1..]| ensures Whole(ds[1..][k], logStart, rs, ws) {
        assert ds[1..][k] == ds[k + 1];
      }
    }
  }

  /** The counter of a cycle is the expected one, in LRW as in LRD/LWR mode and for any segments,
      if and only if no slave's data is cut. It is never lower. */
  lemma {:induction false} CounterIsExpectedIffNothingCut(g: Group, ds: seq<Device>, rs: seq<Tile>, ws: seq<Tile>)
    requires g.Isegment <= |g.IOsegment| && Cut(g, rs, ws) && Mapped(g, ds)
    ensures Count(ds, g.logStart, rs + ws) >= 2 * WithOutputs(ds) + WithInputs(ds)
    ensures Count(ds, g.logStart, rs + ws) == 2 * WithOutputs(ds) + WithInputs(ds)
            <==> NothingCut(ds, g.logStart, rs, Writing(g, rs, ws))
  {
    hide Cut, Mapped, NothingCut;
    CountByDevice(ds, g.logStart, rs + ws);
    DevicesInTurn(g, ds, rs, ws);
  }
}
