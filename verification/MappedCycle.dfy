// From the layout to the cycle: a group mapped by IoMap meets what Exchange asks for, and with forced
// byte alignment the work counter of every cycle is the expected one.
module MappedCycle {
  import opened Segments
  import opened Fmmus
  import opened IoMap
  import opened Devices
  import opened Exchange
  import opened WorkCounter

  /** The logical bits of slave `k`, none if it has no data. */
  function WindowOf(bits: seq<nat>, k: nat, base: nat, force: bool): Window
    requires k < |bits|
  {
    var start := StartBit(bits[k], Cursor(bits, k, base, force));
    if bits[k] == 0 then Window(0, 0) else Window(start, start + Width(bits[k]))
  }

  /** The sizes, contributions and segments of a layout from logical address `logStart` on. */
  datatype Layout = Layout(out: seq<nat>, inp: seq<nat>, logStart: nat, force: bool)

  ghost predicate Laid(l: Layout, g: Group) {
    && |l.out| == |l.inp| && g.logStart == l.logStart
    && 8 * (l.logStart + g.Obytes) == RoundUp(Cursor(l.out, |l.out|, 8 * l.logStart, l.force))
    && 8 * (l.logStart + g.Obytes + g.Ibytes) == RoundUp(Cursor(l.inp, |l.inp|, 8 * (l.logStart + g.Obytes), l.force))
    && g.nsegments == |g.IOsegment|
    && g.IOsegment == Pack(AllOf(l, g.Obytes), EC_MAXIOSEGMENTS)
  }

  function OutContributions(l: Layout): seq<nat> {
    AllContributions(l.out, 8 * l.logStart, l.force)
  }

  function InContributions(l: Layout, Obytes: nat): seq<nat> {
    AllContributions(l.inp, 8 * (l.logStart + Obytes), l.force)
  }

  function AllOf(l: Layout, Obytes: nat): seq<nat> {
    OutContributions(l) + InContributions(l, Obytes)
  }

  /** The group entry that the mapper leaves behind. */
  ghost function GroupOf(m: GroupMap, logStart: nat, blockLRW: bool, hasdc: bool): Group
    requires m.IOsegment.Length == EC_MAXIOSEGMENTS && m.nsegments <= EC_MAXIOSEGMENTS
    reads m, m.IOsegment
  {
    Group(logStart, m.Obytes, m.Ibytes, m.nsegments, m.Isegment, m.Ioffset, m.IOsegment[..m.nsegments], blockLRW, hasdc)
  }

  /** A layout in which every contribution fits a datagram and 64 segments suffice is one that the
      exchange can use. */
  lemma {:induction false} LayoutIsUsable(m: GroupMap, l: Layout, blockLRW: bool, hasdc: bool)
    requires |l.out| == |l.inp| == m.outputFmmu.Length == m.inputFmmu.Length && m.IOsegment.Length == EC_MAXIOSEGMENTS
    requires m.LaidOut(l.out, l.inp, l.logStart, l.force)
    requires Segments.AllFit(AllOf(l, m.Obytes)) && |PackAll(AllOf(l, m.Obytes))| <= EC_MAXIOSEGMENTS
    ensures var g := GroupOf(m, l.logStart, blockLRW, hasdc);
            Segmented(g) && Laid(l, g)
  {
    hide Cursor, AllContributions, RoundUp, Sum, Pack, PackAll, Placed, WithData;
    var d, e := OutContributions(l), InContributions(l, m.Obytes);
    assert AllOf(l, m.Obytes)[..|d|] == d;
    FewerForPrefix(AllOf(l, m.Obytes), |d|);
    FitsPrefix(d, e);
    SegmentsPartitionImage(m, l.out, l.inp, l.logStart, l.force);
    InputsAreLocated(m, l.out, l.inp, l.logStart, l.force);
    assert m.IOsegment[..m.nsegments][..m.Isegment] == m.IOsegment[..m.Isegment];
  }

  lemma {:induction false} FitsPrefix(d: seq<nat>, e: seq<nat>)
    requires Segments.AllFit(d + e)
    ensures Segments.AllFit(d)
  {
    forall k | 0 <= k < |d| ensures d[k] <= SEGMENT_LIMIT {
      assert d[k] == (d + e)[k];
    }
  }

  /** The slaves as they were mapped. */
  ghost predicate MappedAs(l: Layout, Obytes: nat, ds: seq<Device>) {
    |ds| == |l.out| == |l.inp| && forall k :: 0 <= k < |ds| ==>
      && ds[k].out == WindowOf(l.out, k, 8 * l.logStart, l.force)
      && ds[k].inp == WindowOf(l.inp, k, 8 * (l.logStart + Obytes), l.force)
  }

  lemma {:induction false} WindowIn(bits: seq<nat>, k: nat, base: nat, force: bool)
    requires k < |bits| && bits[k] > 0
    ensures var w := WindowOf(bits, k, base, force);
            && base <= Cursor(bits, k, base, force) <= w.from < w.until <= Cursor(bits, k + 1, base, force)
            && Cursor(bits, k + 1, base, force) <= Cursor(bits, |bits|, base, force)
  {
    CursorGrows(bits, 0, k, base, force);
    CursorGrows(bits, k + 1, |bits|, base, force);
    SlaveBeforeNext(bits, k, base, force);
    WidthPositive(bits[k]);
  }

  lemma {:induction false} WidthPositive(bits: nat)
    requires bits > 0
    ensures Width(bits) > 0
  {
  }

  lemma {:induction false} WindowsApart(bits: seq<nat>, j: nat, k: nat, base: nat, force: bool)
    requires j < k < |bits|
    ensures !Meet(WindowOf(bits, j, base, force), WindowOf(bits, k, base, force))
  {
    hide Cursor;
    if bits[j] > 0 && bits[k] > 0 {
      WindowIn(bits, j, base, force);
      WindowIn(bits, k, base, force);
      CursorGrows(bits, j + 1, k, base, force);
    }
  }

  /** The layout puts every slave where the exchange expects it. */
  lemma {:induction false} LayoutIsMapped(l: Layout, g: Group, ds: seq<Device>)
    requires Laid(l, g) && MappedAs(l, g.Obytes, ds)
    ensures Mapped(g, ds) && Apart(ds)
  {
    hide WindowOf, Pack, AllOf;
    forall k | 0 <= k < |ds| ensures InPlace(g, ds[k]) {
      SlaveInPlace(l, g, k);
    }
    forall j, k | 0 <= j < k < |ds| ensures !Meet(ds[j].inp, ds[k].inp) {
      WindowsApart(l.inp, j, k, 8 * (l.logStart + g.Obytes), l.force);
    }
    forall j, k | 0 <= j < |ds| && 0 <= k < |ds| ensures !Meet(ds[j].inp, ds[k].out) {
      assert InPlace(g, ds[j]) && InPlace(g, ds[k]);
    }
  }

  ghost predicate InPlace(g: Group, d: Device) {
    && (d.out.from < d.out.until ==> 8 * g.logStart <= d.out.from && d.out.until <= 8 * (g.logStart + g.Obytes))
    && (d.inp.from < d.inp.until ==>
         8 * (g.logStart + g.Obytes) <= d.inp.from && d.inp.until <= 8 * (g.logStart + g.Obytes + g.Ibytes))
  }

  lemma {:induction false} SlaveInPlace(l: Layout, g: Group, k: nat)
    requires Laid(l, g) && k < |l.out|
    ensures var o, i := WindowOf(l.out, k, 8 * l.logStart, l.force), WindowOf(l.inp, k, 8 * (l.logStart + g.Obytes), l.force);
            && (o.from < o.until ==> 8 * g.logStart <= o.from && o.until <= 8 * (g.logStart + g.Obytes))
            && (i.from < i.until ==>
                 8 * (g.logStart + g.Obytes) <= i.from && i.until <= 8 * (g.logStart + g.Obytes + g.Ibytes))
  {
    hide Cursor, Pack, AllOf;
    CursorRises(l.out, 8 * l.logStart, l.force);
    CursorRises(l.inp, 8 * (l.logStart + g.Obytes), l.force);
    if l.out[k] > 0 { WindowIn(l.out, k, 8 * l.logStart, l.force); }
    if l.inp[k] > 0 { WindowIn(l.inp, k, 8 * (l.logStart + g.Obytes), l.force); }
  }

  // ---------------------------------------------------------------- nothing is cut

  /** A window inside one segment is carried whole by the datagram for that segment. */
  lemma {:induction false} UncutInSegment(w: Window, g: Group, ts: seq<Tile>, c: Command, s: nat, from: nat, until: nat,
                                          j: nat, x: nat, y: nat)
    requires Tiled(ts, c, from, until) && Follows(ts, g.IOsegment, s, from, until)
    requires !Empty(w) && Within(w, Region(g.logStart, from, until)) && Within(w, Region(g.logStart, x, y))
    requires Holds(g.IOsegment, j, x, y) && s <= |g.IOsegment| && Sum(g.IOsegment[..s]) <= from
    ensures Uncut(w, g.logStart, ts)
  {
    hide Sum;
    var seg := g.IOsegment;
    TiledEnds(ts, c, from, until);
    SumStep(seg, j);
    if j < s {
      SumGrows(seg, j + 1, s);
    }
    if j >= s + |ts| && |ts| > 0 {
      assert Carries(ts[|ts| - 1], seg, s + |ts| - 1, from, until);
      SumGrows(seg, s + |ts|, j);
    }
    assert s <= j < s + |ts|;
    assert Carries(ts[j - s], seg, s + (j - s), from, until);
    assert Within(w, TileSpan(g.logStart, ts[j - s]));
  }

  /** Under forced byte alignment slave `k` of a direction lies inside one segment. */
  lemma {:induction false} SlaveInSegment(bits: seq<nat>, k: nat, start: nat, logStart: nat, e: seq<nat>, f: seq<nat>,
                                          seg: seq<nat>)
    returns (j: nat, x: nat, y: nat)
    requires k < |bits| && bits[k] > 0 && logStart + Sum(e) == start
    requires |PackAll(e + AllContributions(bits, 8 * start, true) + f)| <= EC_MAXIOSEGMENTS
    requires seg == Pack(e + AllContributions(bits, 8 * start, true) + f, EC_MAXIOSEGMENTS)
    ensures Holds(seg, j, x, y) && Within(WindowOf(bits, k, 8 * start, true), Region(logStart, x, y))
  {
    hide Sum, Pack, PackAll, AllContributions, Cursor, Holds;
    j := SlaveStaysInSegment(bits, k, 8 * start, e, f);
    var from := Sum(e) + Cursor(bits, k, 8 * start, true) / 8 - 8 * start / 8;
    var until := Sum(e) + Cursor(bits, k + 1, 8 * start, true) / 8 - 8 * start / 8;
    WindowIn(bits, k, 8 * start, true);
    AlignedCursor(bits, k, 8 * start);
    AlignedCursor(bits, k + 1, 8 * start);
    x, y := Cursor(bits, k, 8 * start, true) / 8 - logStart, Cursor(bits, k + 1, 8 * start, true) / 8 - logStart;
  }

  lemma {:induction false} WholeSlave(l: Layout, g: Group, d: Device, k: nat, rs: seq<Tile>, ws: seq<Tile>)
    requires l.force && Laid(l, g) && Segmented(g) && k < |l.out|
    requires |PackAll(AllOf(l, g.Obytes))| <= EC_MAXIOSEGMENTS && Cut(g, rs, ws)
    requires d.out == WindowOf(l.out, k, 8 * l.logStart, true) &&
             d.inp == WindowOf(l.inp, k, 8 * (l.logStart + g.Obytes), true)
    ensures Whole(d, g.logStart, rs, Writing(g, rs, ws))
  {
    hide Sum, Pack, PackAll, AllContributions, Cursor, Holds, Uncut, Tiled, Follows, WindowOf;
    var o, i, all := OutContributions(l), InContributions(l, g.Obytes), g.Obytes + g.Ibytes;
    DirectionBytes(l.out, l.logStart, g.Obytes, true);
    SlaveInPlace(l, g, k);
    SumNothing(g.IOsegment);
    SumOfNone();
    EmptyWindow(l.out, k, 8 * l.logStart);
    EmptyWindow(l.inp, k, 8 * (l.logStart + g.Obytes));
    assert o + i + [] == o + i == [] + o + i;
    if !Empty(d.out) {
      var j, x, y := SlaveInSegment(l.out, k, l.logStart, l.logStart, [], i, g.IOsegment);
      if g.blockLRW {
        UncutInSegment(d.out, g, ws, LWR, 0, 0, g.Obytes, j, x, y);
      } else {
        UncutInSegment(d.out, g, rs, LRW, 0, 0, all, j, x, y);
      }
    }
    if !Empty(d.inp) {
      var j, x, y := SlaveInSegment(l.inp, k, l.logStart + g.Obytes, l.logStart, o, [], g.IOsegment);
      if g.blockLRW {
        UncutInSegment(d.inp, g, rs, LRD, g.Isegment, g.Obytes, all, j, x, y);
      } else {
        UncutInSegment(d.inp, g, rs, LRW, 0, 0, all, j, x, y);
      }
    }
  }

  lemma {:induction false} SumOfNone()
    ensures Sum([]) == 0
  {
  }

  lemma {:induction false} EmptyWindow(bits: seq<nat>, k: nat, base: nat)
    requires k < |bits|
    ensures bits[k] == 0 <==> Empty(WindowOf(bits, k, base, true))
  {
    if bits[k] > 0 {
      WidthPositive(bits[k]);
    }
  }

  /** With the byte-aligned map the counter of a cycle is 2 * outputsWKC + inputsWKC for any slaves
      and any segmentation, with or without the clock datagram, in LRW and in LRD/LWR mode. */
  lemma {:induction false} AlignedCounter(l: Layout, g: Group, ds: seq<Device>, rs: seq<Tile>, ws: seq<Tile>)
    requires l.force && Laid(l, g) && Segmented(g) && MappedAs(l, g.Obytes, ds)
    requires |PackAll(AllOf(l, g.Obytes))| <= EC_MAXIOSEGMENTS && Cut(g, rs, ws)
    ensures Count(ds, g.logStart, rs + ws) == 2 * WithData(l.out, |l.out|) + WithData(l.inp, |l.inp|)
  {
    hide Whole, Laid, Cut, PackAll, AllOf, WindowOf, Segmented, Count, WithOutputs, WithInputs, WithData;
    LayoutIsMapped(l, g, ds);
    forall k | 0 <= k < |ds| ensures Whole(ds[k], g.logStart, rs, Writing(g, rs, ws)) {
      WholeSlave(l, g, ds[k], k, rs, ws);
    }
    SegmentedHas(g);
    CounterIsExpectedIffNothingCut(g, ds, rs, ws);
    WithAll(l, g.Obytes, ds);
  }

  lemma {:induction false} SegmentedHas(g: Group)
    requires Segmented(g)
    ensures g.Isegment <= |g.IOsegment|
  {
  }

  lemma {:induction false} WithAll(l: Layout, Obytes: nat, ds: seq<Device>)
    requires MappedAs(l, Obytes, ds) && l.force
    ensures WithOutputs(ds) == WithData(l.out, |l.out|) && WithInputs(ds) == WithData(l.inp, |l.inp|)
  {
    hide WindowOf;
    forall k | 0 <= k < |ds| ensures (l.out[k] > 0 <==> !Empty(ds[k].out)) && (l.inp[k] > 0 <==> !Empty(ds[k].inp)) {
      EmptyWindow(l.out, k, 8 * l.logStart);
      EmptyWindow(l.inp, k, 8 * (l.logStart + Obytes));
    }
    CountsFrom(l.out, l.inp, ds, |ds|);
    assert ds[..|ds|] == ds;
  }

  lemma {:induction false} CountsFrom(out: seq<nat>, inp: seq<nat>, ds: seq<Device>, n: nat)
    requires |out| == |inp| == |ds| && n <= |ds|
    requires forall k :: 0 <= k < |ds| ==> (out[k] > 0 <==> !Empty(ds[k].out)) && (inp[k] > 0 <==> !Empty(ds[k].inp))
    ensures WithOutputs(ds[..n]) == WithData(out, n) && WithInputs(ds[..n]) == WithData(inp, n)
    decreases n
  {
    if n > 0 {
      CountsFrom(out, inp, ds, n - 1);
      assert ds[..n] == ds[..n - 1] + [ds[n - 1]];
      WithOneMore(ds[..n - 1], ds[n - 1]);
    }
  }

  lemma {:induction false} WithOneMore(ds: seq<Device>, d: Device)
    ensures WithOutputs(ds + [d]) == WithOutputs(ds) + if Empty(d.out) then 0 else 1
    ensures WithInputs(ds + [d]) == WithInputs(ds) + if Empty(d.inp) then 0 else 1
    decreases |ds|
  {
    if ds != [] {
      WithOneMore(ds[1..], d);
      assert (ds + [d])[1..] == ds[1..] + [d];
    }
  }
}
