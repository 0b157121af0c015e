// The cyclic exchange of process data with the sequential map: ecx_main_send_processdata and
// ecx_receive_processdata_group, with the index stack that joins them.
module Exchange {
  import opened Segments
  import opened Devices
  import Wire = Frame

  const EC_MAXBUF: nat := 16

  /** The entry of the group, in bytes; inputs follow the outputs in the image. */
  datatype Group = Group(logStart: nat, Obytes: nat, Ibytes: nat, nsegments: nat, Isegment: nat, Ioffset: nat,
                         IOsegment: seq<nat>, blockLRW: bool, hasdc: bool)

  /** The layout that mapping the group promises. */
  ghost predicate Segmented(g: Group) {
    && |g.IOsegment| == g.nsegments && g.Isegment < g.nsegments
    && Sum(g.IOsegment) == g.Obytes + g.Ibytes
    && g.Ioffset <= g.IOsegment[g.Isegment]
    && Sum(g.IOsegment[..g.Isegment]) + g.Ioffset == g.Obytes
  }

  /** One datagram of the exchange: which bytes of the image it carries, and how. */
  datatype Tile = Tile(command: Command, offset: nat, length: nat)

  /** Datagrams that carry `from` up to `until` in order without gap. */
  ghost predicate Tiled(ts: seq<Tile>, c: Command, from: nat, until: nat)
    decreases |ts|
  {
    if ts == [] then from == until
    else
      var t := ts[|ts| - 1];
      t.command == c && t.offset + t.length == until && Tiled(ts[..|ts| - 1], c, from, t.offset)
  }

  /** Tile p carries what segment `s + p` has in common with bytes `from` up to `until`. */
  ghost predicate Follows(ts: seq<Tile>, segment: seq<nat>, s: nat, from: nat, until: nat) {
    s + |ts| <= |segment| &&
    forall p :: 0 <= p < |ts| ==> Carries(ts[p], segment, s + p, from, until)
  }

  ghost predicate Carries(t: Tile, segment: seq<nat>, k: nat, from: nat, until: nat) {
    && k < |segment|
    && t.offset == (if Sum(segment[..k]) < from then from else Sum(segment[..k]))
    && t.offset + t.length == if Sum(segment[..k + 1]) > until then until else Sum(segment[..k + 1])
  }

  /** The datagrams of a cycle: reading ones `rs` and then, if LRW is blocked, writing ones `ws`. */
  ghost predicate Cut(g: Group, rs: seq<Tile>, ws: seq<Tile>)
    requires g.Isegment <= |g.IOsegment|
  {
    var all := g.Obytes + g.Ibytes;
    if g.blockLRW then
      && Tiled(rs, LRD, g.Obytes, all) && Follows(rs, g.IOsegment, g.Isegment, g.Obytes, all)
      && Tiled(ws, LWR, 0, g.Obytes) && Follows(ws, g.IOsegment, 0, 0, g.Obytes)
    else Tiled(rs, LRW, 0, all) && Follows(rs, g.IOsegment, 0, 0, all) && ws == []
  }

  lemma {:induction false} FollowsAppend(ts: seq<Tile>, segment: seq<nat>, s: nat, from: nat, until: nat, t: Tile)
    requires Follows(ts, segment, s, from, until) && Carries(t, segment, s + |ts|, from, until)
    ensures Follows(ts + [t], segment, s, from, until)
  {
    hide Sum;
  }

  lemma {:induction false} FollowsNothing(segment: seq<nat>, s: nat, from: nat, until: nat)
    requires s <= |segment|
    ensures Follows([], segment, s, from, until)
  {
  }

  lemma {:induction false} TiledNothing(c: Command, at: nat)
    ensures Tiled([], c, at, at)
  {
  }

  lemma {:induction false} TiledAppend(ts: seq<Tile>, c: Command, from: nat, offset: nat, length: nat)
    requires Tiled(ts, c, from, offset)
    ensures Tiled(ts + [Tile(c, offset, length)], c, from, offset + length)
  {
    assert (ts + [Tile(c, offset, length)])[..|ts|] == ts;
  }

  /** The datagram of a tile as it leaves the master: read commands carry zeros. */
  function Outgoing(logStart: nat, image: Bits, t: Tile): Datagram
    requires 8 * (t.offset + t.length) <= |image|
  {
    Datagram(t.command, 8 * (logStart + t.offset),
             if t.command == LRD then seq(8 * t.length, _ => false)
             else image[8 * t.offset..8 * (t.offset + t.length)],
             0)
  }

  /** A returned frame; the clock datagram rides in the first one of a cycle. */
  datatype Clock = NoClock | ClockReply(time: int, wkc: nat)

  datatype Frame = Frame(main: Datagram, clock: Clock)

  datatype Entry = Entry(idx: nat, offset: nat, length: nat, dcoffset: nat)

  /** Sizes of the datagram header and of the work counter. */
  const EC_HEADERSIZE: nat := 12
  const EC_ELENGTHSIZE: nat := 2
  const EC_WKCSIZE: nat := 2

  /** Where the clock's eight bytes lie in the received frame, behind a datagram with `length` bytes. */
  function ClockOffset(length: nat): nat {
    EC_HEADERSIZE + length + EC_WKCSIZE + EC_HEADERSIZE - EC_ELENGTHSIZE
  }

  /** The process data begins behind the first header, its work counter follows it, and the pushed offset is that of the
      data of the second datagram, as the frame builder lays them out. */
  lemma {:induction false} OffsetsAreThoseOfTheFrame(main: Wire.Datagram, clock: Wire.Datagram)
    ensures var ds := [main, clock];
            && Wire.DataOffset(ds, 0) == EC_HEADERSIZE
            && Wire.DataOffset(ds, 1) == ClockOffset(|main.data|)
            && Wire.FIRST + Wire.Extent(ds[..1]) == Wire.ETH_HEADERSIZE + EC_HEADERSIZE + |main.data| + EC_WKCSIZE
  {
    var ds := [main, clock];
    assert ds[..1] == [main] && ds[..0] == [] && [main][1..] == [];
    assert Wire.Extent([main]) == Wire.EC_HEADERSIZE + |main.data|;
  }

  /** SEGMENT_LIMIT is exactly what fits: with the clock datagram behind it a datagram with that many bytes, and no longer
      one, makes a frame of at most 1518 bytes, the four bytes of the frame check sequence included. */
  lemma {:induction false} SegmentAndClockFitIff(main: Wire.Datagram, clock: Wire.Datagram)
    requires |clock.data| == 8
    ensures Wire.FIRST + Wire.Extent([main, clock]) + 4 <= EC_MAXECATFRAME <==> |main.data| <= SEGMENT_LIMIT
  {
    var ds := [main, clock];
    assert ds[1..] == [clock] && [clock][1..] == [];
    assert Wire.Extent([clock]) == Wire.EC_HEADERSIZE + 8;
  }

  /** The clock replies under way carry this time. */
  ghost predicate Timed(rx: map<nat, Frame>, time: int) {
    forall i :: i in rx && rx[i].clock.ClockReply? ==> rx[i].clock.time == time
  }

  function Below(n: nat): (s: set<nat>)
    ensures forall i: nat :: i in s <==> i < n
    ensures |s| == n
  {
    if n == 0 then {} else Below(n - 1) + {n - 1}
  }

  lemma {:induction false} AllTaken(rx: map<nat, Frame>, n: nat)
    requires forall i :: 0 <= i < n ==> i in rx
    ensures |rx| >= n
  {
    assert rx.Keys == Below(n) + (rx.Keys - Below(n));
  }

  /** With fewer than 16 frames outstanding a frame index is free. */
  lemma {:induction false} FreeIndex(rx: map<nat, Frame>, n: nat)
    requires |rx| < n
    ensures exists i :: 0 <= i < n && i !in rx
  {
    if forall i :: 0 <= i < n ==> i in rx {
      AllTaken(rx, n);
    }
  }

  /** Entry `e` waits for the answer to tile `t`; the first one of a cycle has the clock with it. */
  ghost predicate Waits(g: Group, rx: map<nat, Frame>, e: Entry, t: Tile, clock: bool, ds: seq<Device>, bits: Bits)
    requires Sound(ds)
  {
    && 8 * (t.offset + t.length) <= |bits|
    && e.offset == t.offset && e.length == t.length && e.idx in rx
    && rx[e.idx].main == Answer(ds, Outgoing(g.logStart, bits, t))
    && (rx[e.idx].clock.ClockReply? <==> clock) && e.dcoffset == (if clock then ClockOffset(t.length) else 0)
  }

  /** The entries wait for the answers to the tiles, all under different indices. */
  ghost predicate Outstanding(g: Group, rx: map<nat, Frame>, stack: seq<Entry>, ts: seq<Tile>, ds: seq<Device>, bits: Bits)
    requires Sound(ds)
  {
    && |stack| == |ts| == |rx|
    && (forall p, q :: 0 <= p < q < |stack| ==> stack[p].idx != stack[q].idx)
    && forall p :: 0 <= p < |ts| ==> Waits(g, rx, stack[p], ts[p], p == 0 && g.hasdc, ds, bits)
  }

  lemma {:induction false} OneMore(g: Group, rx: map<nat, Frame>, stack: seq<Entry>, ts: seq<Tile>, ds: seq<Device>,
                                   bits: Bits,
                                   e: Entry, f: Frame, t: Tile)
    requires Sound(ds) && Outstanding(g, rx, stack, ts, ds, bits) && e.idx !in rx
    requires Waits(g, rx[e.idx := f], e, t, ts == [] && g.hasdc, ds, bits)
    ensures Outstanding(g, rx[e.idx := f], stack + [e], ts + [t], ds, bits)
  {
    hide Answer, Waits;
    var more := rx[e.idx := f];
    assert more.Keys == rx.Keys + {e.idx};
    forall p | 0 <= p < |ts|
      ensures Waits(g, more, stack[p], ts[p], p == 0 && g.hasdc, ds, bits)
    {
      assert Waits(g, rx, stack[p], ts[p], p == 0 && g.hasdc, ds, bits);
      StillWaits(g, rx, stack[p], ts[p], p == 0 && g.hasdc, ds, bits, e.idx, f);
    }
    WaitsAt(g, rx, stack, ts, ds, bits, e.idx);
  }

  lemma {:induction false} StillWaits(g: Group, rx: map<nat, Frame>, e: Entry, t: Tile, clock: bool, ds: seq<Device>,
                                      bits: Bits,
                                      idx: nat, f: Frame)
    requires Sound(ds) && Waits(g, rx, e, t, clock, ds, bits) && idx !in rx
    ensures Waits(g, rx[idx := f], e, t, clock, ds, bits)
  {
    hide Answer, Outgoing;
  }

  /** A free index belongs to no entry. */
  lemma {:induction false} WaitsAt(g: Group, rx: map<nat, Frame>, stack: seq<Entry>, ts: seq<Tile>, ds: seq<Device>,
                                   bits: Bits, idx: nat)
    requires Sound(ds) && Outstanding(g, rx, stack, ts, ds, bits) && idx !in rx
    ensures forall p :: 0 <= p < |stack| ==> stack[p].idx != idx
  {
    hide Answer, Outgoing;
    forall p | 0 <= p < |stack| ensures stack[p].idx != idx {
      assert Waits(g, rx, stack[p], ts[p], p == 0 && g.hasdc, ds, bits);
    }
  }

  class Master {
    const group: Group
    const image: array<bool>
    var devices: seq<Device>
    var rx: map<nat, Frame>
    var stack: seq<Entry>
    var pulled: nat
    var DCtime: int

    constructor (group: Group, image: array<bool>, devices: seq<Device>)
      ensures this.group == group && this.image == image && this.devices == devices
      ensures rx == map[] && stack == [] && pulled == 0
    {
      this.group, this.image, this.devices := group, image, devices;
      rx, stack, pulled, DCtime := map[], [], 0, 0;
    }

    /** Free for a new cycle. */
    ghost predicate Idle()
      reads this
    {
      && Segmented(group) && image.Length == 8 * (group.Obytes + group.Ibytes)
      && Sound(devices) && Apart(devices)
      && stack == [] && pulled == 0 && rx == map[]
    }

    /** Sends one datagram, in the first frame of the cycle followed by the clock datagram, and
        pushes it. The frame passes the slaves and its answer is kept under its index. */
    method SendDatagram(c: Command, offset: nat, length: nat, first: bool, clockTime: int, clockWkc: nat,
                        ghost ts: seq<Tile>, ghost ds: seq<Device>, ghost bits: Bits)
      requires Sound(devices) && Sound(ds) && Apart(ds) && SameExceptOutputs(ds, devices)
      requires image[..] == bits && 8 * (offset + length) <= |bits|
      requires Outstanding(group, rx, stack, ts, ds, bits) && |ts| < EC_MAXBUF
      requires first <==> ts == [] && group.hasdc
      requires Timed(rx, clockTime)
      modifies `devices, `rx, `stack
      ensures Sound(devices) && SameExceptOutputs(ds, devices)
      ensures Received(old(devices), devices, Outgoing(group.logStart, bits, Tile(c, offset, length)))
      ensures Outstanding(group, rx, stack, ts + [Tile(c, offset, length)], ds, bits)
      ensures Timed(rx, clockTime)
    {
      hide Answer, Tour, Hits, Fill, Apart, Received;
      FreeIndex(rx, EC_MAXBUF);
      var idx: nat :| idx < EC_MAXBUF && idx !in rx;
      var data := if c == LRD then seq(8 * length, _ => false) else image[8 * offset..8 * (offset + length)];
      var datagram := Datagram(c, 8 * (group.logStart + offset), data, 0);
      var dco := if first then EC_HEADERSIZE + length + EC_WKCSIZE + EC_HEADERSIZE - EC_ELENGTHSIZE else 0;
      ghost var t := Tile(c, offset, length);
      assert datagram == Outgoing(group.logStart, bits, t);
      Sent(ds, devices, datagram);
      var (after, answer) := Tour(devices, datagram);
      devices := after;
      var frame := Frame(answer, if first then ClockReply(clockTime, clockWkc) else NoClock);
      var entry := Entry(idx, offset, length, dco);
      OneMore(group, rx, stack, ts, ds, bits, entry, frame, t);
      rx := rx[idx := frame];
      stack := stack + [entry];
    }

    /** The outputs of the image as LWR datagrams. */
    method SendOutputs(clock0: bool, clockTime: int, clockWkc: nat,
                       ghost ts0: seq<Tile>, ghost ds: seq<Device>, ghost bits: Bits)
      returns (ghost ts: seq<Tile>)
      requires Segmented(group) && group.Obytes > 0 && image[..] == bits && |bits| == 8 * (group.Obytes + group.Ibytes)
      requires Sound(devices) && Sound(ds) && Apart(ds) && Delivered(ds, devices, bits, group.logStart, 0, 0)
      requires Outstanding(group, rx, stack, ts0, ds, bits) && |ts0| + group.Isegment + 1 <= EC_MAXBUF
      requires clock0 <==> ts0 == [] && group.hasdc
      requires Timed(rx, clockTime)
      modifies `devices, `rx, `stack
      ensures Timed(rx, clockTime)
      ensures Sound(devices) && Delivered(ds, devices, bits, group.logStart, 0, group.Obytes)
      ensures Tiled(ts, LWR, 0, group.Obytes) && Outstanding(group, rx, stack, ts0 + ts, ds, bits)
      ensures Follows(ts, group.IOsegment, 0, 0, group.Obytes)
    {
      hide Outstanding, Received, Delivered, Sum, Apart, Sound, Tiled, SameExceptOutputs, Outgoing, Follows, Timed;
      ts := [];
      var first := clock0;
      var length: int, offset: nat, currentsegment: nat := group.Obytes, 0, 0;
      assert ts0 + ts == ts0;
      TiledNothing(LWR, offset);
      FollowsNothing(group.IOsegment, 0, 0, group.Obytes);
      SumNothing(group.IOsegment);
      while length != 0 && currentsegment < group.nsegments
        invariant length == group.Obytes - offset && length >= 0
        invariant currentsegment <= group.nsegments && |ts| == currentsegment
        invariant length > 0 ==> offset == Sum(group.IOsegment[..currentsegment]) && currentsegment <= group.Isegment
        invariant Tiled(ts, LWR, 0, offset) && Outstanding(group, rx, stack, ts0 + ts, ds, bits)
        invariant Follows(ts, group.IOsegment, 0, 0, group.Obytes)
        invariant Sound(devices) && Delivered(ds, devices, bits, group.logStart, 0, offset)
        invariant (first <==> ts0 + ts == [] && group.hasdc) && Timed(rx, clockTime)
        decreases group.nsegments - currentsegment
      {
        var sublength := group.IOsegment[currentsegment];
        OutputsReach(group, currentsegment);
        currentsegment := currentsegment + 1;
        if length - sublength < 0 {
          sublength := length;
        }
        DeliveredIsSame(ds, devices, bits, group.logStart, 0, offset);
        label before:
        SendDatagram(LWR, offset, sublength, first, clockTime, clockWkc, ts0 + ts, ds, bits);
        DeliveredMore(ds, old@before(devices), devices, bits, group.logStart, 0, Tile(LWR, offset, sublength));
        TiledAppend(ts, LWR, 0, offset, sublength);
        assert ts0 + (ts + [Tile(LWR, offset, sublength)]) == ts0 + ts + [Tile(LWR, offset, sublength)];
        FollowsAppend(ts, group.IOsegment, 0, 0, group.Obytes, Tile(LWR, offset, sublength));
        ts := ts + [Tile(LWR, offset, sublength)];
        first := false;
        length := length - sublength;
        offset := offset + sublength;
      }
    }

    /** The inputs of the image as LRD datagrams; the first one takes what the outputs left of
        their last segment. */
    method SendInputs(clock0: bool, clockTime: int, clockWkc: nat, ghost ds: seq<Device>, ghost bits: Bits)
      returns (ghost ts: seq<Tile>)
      requires Segmented(group) && group.Ibytes > 0 && image[..] == bits && |bits| == 8 * (group.Obytes + group.Ibytes)
      requires Sound(devices) && Sound(ds) && Apart(ds) && Delivered(ds, devices, bits, group.logStart, 0, 0)
      requires Outstanding(group, rx, stack, [], ds, bits) && group.nsegments - group.Isegment <= EC_MAXBUF
      requires clock0 == group.hasdc && Timed(rx, clockTime)
      modifies `devices, `rx, `stack
      ensures Timed(rx, clockTime)
      ensures Sound(devices) && Delivered(ds, devices, bits, group.logStart, 0, 0)
      ensures Tiled(ts, LRD, group.Obytes, group.Obytes + group.Ibytes) && Outstanding(group, rx, stack, ts, ds, bits)
      ensures ts != [] && |ts| <= group.nsegments - group.Isegment
      ensures Follows(ts, group.IOsegment, group.Isegment, group.Obytes, group.Obytes + group.Ibytes)
    {
      hide Outstanding, Received, Delivered, Sum, Apart, Sound, SameExceptOutputs, Outgoing, Segmented, Requested, Timed;
      ts := [];
      var first := clock0;
      var length: int, offset: nat, currentsegment: nat := group.Ibytes, group.Obytes, group.Isegment;
      NothingRequested(group);
      while length != 0 && currentsegment < group.nsegments
        invariant group.Isegment <= currentsegment <= group.nsegments && |ts| == currentsegment - group.Isegment
        invariant length == group.Obytes + group.Ibytes - offset && Requested(group, ts, currentsegment, offset)
        invariant Outstanding(group, rx, stack, ts, ds, bits)
        invariant Sound(devices) && Delivered(ds, devices, bits, group.logStart, 0, 0)
        invariant (first <==> ts == [] && group.hasdc) && Timed(rx, clockTime)
        decreases group.nsegments - currentsegment
      {
        RequestNext(group, ts, currentsegment, offset);
        var sublength: nat;
        if currentsegment == group.Isegment {
          sublength := group.IOsegment[currentsegment] - group.Ioffset;
        } else {
          sublength := group.IOsegment[currentsegment];
        }
        currentsegment := currentsegment + 1;
        DeliveredIsSame(ds, devices, bits, group.logStart, 0, 0);
        label before:
        SendDatagram(LRD, offset, sublength, first, clockTime, clockWkc, ts, ds, bits);
        ReadingDelivers(ds, old@before(devices), devices, bits, group.logStart, Tile(LRD, offset, sublength));
        ts := ts + [Tile(LRD, offset, sublength)];
        first := false;
        length := length - sublength;
        offset := offset + sublength;
      }
      AllRequested(group, ts, currentsegment, offset);
    }

    /** The whole image as LRW datagrams. */
    method SendBoth(clock0: bool, clockTime: int, clockWkc: nat, ghost ds: seq<Device>, ghost bits: Bits)
      returns (ghost ts: seq<Tile>)
      requires Segmented(group) && group.Obytes + group.Ibytes > 0
      requires image[..] == bits && |bits| == 8 * (group.Obytes + group.Ibytes)
      requires Sound(devices) && Sound(ds) && Apart(ds) && Delivered(ds, devices, bits, group.logStart, 0, 0)
      requires Outstanding(group, rx, stack, [], ds, bits) && group.nsegments <= EC_MAXBUF
      requires clock0 == group.hasdc && Timed(rx, clockTime)
      modifies `devices, `rx, `stack
      ensures Timed(rx, clockTime)
      ensures Sound(devices) && Delivered(ds, devices, bits, group.logStart, 0, group.Obytes + group.Ibytes)
      ensures Tiled(ts, LRW, 0, group.Obytes + group.Ibytes) && Outstanding(group, rx, stack, ts, ds, bits)
      ensures Follows(ts, group.IOsegment, 0, 0, group.Obytes + group.Ibytes)
      ensures ts != []
    {
      hide Outstanding, Received, Delivered, Sum, Apart, Sound, Tiled, SameExceptOutputs, Outgoing, Follows, Timed;
      ts := [];
      var first := clock0;
      var length: int, offset: nat, currentsegment: nat := group.Obytes + group.Ibytes, 0, 0;
      TiledNothing(LRW, offset);
      FollowsNothing(group.IOsegment, 0, 0, group.Obytes + group.Ibytes);
      SumNothing(group.IOsegment);
      while length != 0 && currentsegment < group.nsegments
        invariant currentsegment <= group.nsegments && |ts| == currentsegment
        invariant length == group.Obytes + group.Ibytes - offset && length >= 0
        invariant offset == Sum(group.IOsegment[..currentsegment])
        invariant Tiled(ts, LRW, 0, offset) && Outstanding(group, rx, stack, ts, ds, bits)
        invariant Follows(ts, group.IOsegment, 0, 0, group.Obytes + group.Ibytes)
        invariant Sound(devices) && Delivered(ds, devices, bits, group.logStart, 0, offset)
        invariant (first <==> ts == [] && group.hasdc) && Timed(rx, clockTime)
        decreases group.nsegments - currentsegment
      {
        SegmentReach(group, currentsegment);
        var sublength := group.IOsegment[currentsegment];
        currentsegment := currentsegment + 1;
        DeliveredIsSame(ds, devices, bits, group.logStart, 0, offset);
        label before:
        SendDatagram(LRW, offset, sublength, first, clockTime, clockWkc, ts, ds, bits);
        DeliveredMore(ds, old@before(devices), devices, bits, group.logStart, 0, Tile(LRW, offset, sublength));
        TiledAppend(ts, LRW, 0, offset, sublength);
        FollowsAppend(ts, group.IOsegment, 0, 0, group.Obytes + group.Ibytes, Tile(LRW, offset, sublength));
        ts := ts + [Tile(LRW, offset, sublength)];
        first := false;
        length := length - sublength;
        offset := offset + sublength;
      }
      AllSegments(group, currentsegment);
    }

    /** How many datagrams a cycle needs at most. */
    function Datagrams(): nat {
      group.nsegments + if group.blockLRW && group.Obytes > 0 && group.Ibytes > 0 then 1 else 0
    }

    /** ecx_main_send_processdata for the sequential map. */
    method SendProcessdata(clockTime: int, clockWkc: nat) returns (wkc: int, ghost rs: seq<Tile>, ghost ws: seq<Tile>)
      requires Idle() && Datagrams() <= EC_MAXBUF
      modifies `devices, `rx, `stack
      ensures Sound(devices)
      ensures Delivered(old(devices), devices, image[..], group.logStart, 0, group.Obytes + if group.blockLRW then 0 else group.Ibytes)
      ensures Outstanding(group, rx, stack, rs + ws, old(devices), image[..]) && Timed(rx, clockTime)
      ensures Cut(group, rs, ws)
      ensures wkc == if group.Obytes + group.Ibytes > 0 then 1 else 0
      ensures group.Obytes + group.Ibytes > 0 <==> rs + ws != []
    {
      hide Sum, Apart, Received, Follows;
      FollowsNothing(group.IOsegment, 0, 0, group.Obytes);
      FollowsNothing(group.IOsegment, 0, 0, group.Obytes + group.Ibytes);
      FollowsNothing(group.IOsegment, group.Isegment, group.Obytes, group.Obytes + group.Ibytes);
      ghost var ds, bits := devices, image[..];
      rs, ws := [], [];
      wkc := 0;
      var first := group.hasdc;
      NothingYet(group, rx, stack, ds, bits);
      if group.Obytes + group.Ibytes > 0 {
        hide Outstanding, Delivered;
        wkc := 1;
        if group.blockLRW {
          if group.Ibytes > 0 {
            rs := SendInputs(first, clockTime, clockWkc, ds, bits);
            first := false;
          }
          assert rs + [] == rs;
          if group.Obytes > 0 {
            ws := SendOutputs(first, clockTime, clockWkc, rs, ds, bits);
          }
        } else {
          rs := SendBoth(first, clockTime, clockWkc, ds, bits);
          assert rs + [] == rs;
        }
      }
    }

    /** ecx_pullindex. */
    method PullIndex() returns (pos: int)
      modifies `pulled
      ensures if old(pulled) < |stack| then pos == old(pulled) && pulled == old(pulled) + 1
              else pos == -1 && pulled == old(pulled)
    {
      pos := -1;
      if pulled < |stack| {
        pos := pulled;
        pulled := pulled + 1;
      }
    }

    /** Copies the data of an answer back into the image. */
    method CopyBack(offset: nat, data: Bits)
      requires 8 * offset + |data| <= image.Length
      modifies image
      ensures image[..] == old(image[..8 * offset]) + data + old(image[8 * offset + |data|..])
    {
      forall j | 0 <= j < |data| {
        image[8 * offset + j] := data[j];
      }
    }

    /** One returned frame: data goes back into the image, the work counter is added up. */
    method TakeFrame(e: Entry, frame: Frame, wkc0: int) returns (wkc: int)
      requires 8 * (e.offset + e.length) <= image.Length
      requires |frame.main.data| == 8 * e.length && (e.dcoffset > 0 <==> frame.clock.ClockReply?)
      modifies `DCtime, image
      ensures image[..] == if Reads(frame.main.command)
                           then old(image[..8 * e.offset]) + frame.main.data + old(image[8 * (e.offset + e.length)..])
                           else old(image[..])
      ensures wkc == (if e.dcoffset > 0 then 0 else wkc0) + (if Reads(frame.main.command) then 1 else 2) * frame.main.wkc
      ensures DCtime == if e.dcoffset > 0 then frame.clock.time else old(DCtime)
    {
      wkc := wkc0;
      var wkc2 := if frame.clock.ClockReply? then frame.clock.wkc else frame.main.wkc;
      if Reads(frame.main.command) {
        CopyBack(e.offset, frame.main.data);
        if e.dcoffset > 0 {
          wkc := frame.main.wkc;
          DCtime := frame.clock.time;
        } else {
          wkc := wkc + wkc2;
        }
      } else {
        if e.dcoffset > 0 {
          wkc := frame.main.wkc * 2;
          DCtime := frame.clock.time;
        } else {
          wkc := wkc + wkc2 * 2;
        }
      }
    }

    /** What holds after `k` of the returned frames have been taken: the rest is still kept, the
        counter is that of the frames taken, the image is filled up to byte `at`, and the clock's time is there. */
    ghost predicate Taken(k: nat, wkc: int, rs: seq<Tile>, ws: seq<Tile>, ds: seq<Device>, bits: Bits, c: Command,
                          from: nat, until: nat, stack0: seq<Entry>, rx0: map<nat, Frame>, time: int, time0: int)
      requires Sound(ds)
      reads this, image
    {
      && DCtime == (if k > 0 && group.hasdc then time else time0)
      && stack == stack0 && k <= |stack| == |rs + ws| && |rx| == |stack| - k && Remaining(rx, rx0, stack, k)
      && wkc == Count(ds, group.logStart, (rs + ws)[..k])
      && var at := if k < |rs| then rs[k].offset else until;
         image.Length == |bits| && from <= at && Filled(ds, group.logStart, bits, image[..], c, from, at)
    }

    method TakeOne(k: nat, wkc0: int, ghost rs: seq<Tile>, ghost ws: seq<Tile>, ghost ds: seq<Device>, ghost bits: Bits,
                   ghost c: Command, ghost from: nat, ghost until: nat, ghost w: nat,
                   ghost stack0: seq<Entry>, ghost rx0: map<nat, Frame>, ghost time: int, ghost time0: int)
      returns (wkc: int)
      requires Sound(ds) && Outstanding(group, rx0, stack0, rs + ws, ds, bits) && k < |stack|
      requires Taken(k, wkc0, rs, ws, ds, bits, c, from, until, stack0, rx0, time, time0) && Timed(rx0, time)
      requires Reads(c) && Tiled(rs, c, from, until) && Tiled(ws, LWR, 0, w)
      modifies `rx, `DCtime, image
      ensures Taken(k + 1, wkc, rs, ws, ds, bits, c, from, until, stack0, rx0, time, time0)
    {
      hide Sound, Answer, Outgoing, Filled, Tiled, Count, Remaining, Outstanding, Waits, Hits, Fill;
      var e := stack[k];
      WaitingAnswer(group, rx0, stack, rs + ws, ds, bits, k);
      Released(rx, rx0, stack, k);
      ghost var t := (rs + ws)[k];
      TileAt(rs, ws, c, from, until, w, k);
      ghost var was := image[..];
      wkc := TakeFrame(e, rx[e.idx], wkc0);
      CountStep(ds, group.logStart, bits, rs + ws, k);
      if k < |rs| {
        FilledMore(ds, group.logStart, bits, was, image[..], from, t);
      }
      rx := rx - {e.idx};
    }

    /** ecx_receive_processdata_group when every frame returns. */
    method ReceiveProcessdata(ghost rs: seq<Tile>, ghost ws: seq<Tile>, ghost ds: seq<Device>, ghost bits: Bits,
                              ghost c: Command, ghost from: nat, ghost until: nat, ghost w: nat, ghost time: int)
      returns (wkc: int)
      requires Sound(ds) && Outstanding(group, rx, stack, rs + ws, ds, bits) && pulled == 0 && image[..] == bits
      requires Timed(rx, time)
      requires Reads(c) && Tiled(rs, c, from, until) && Tiled(ws, LWR, 0, w) && 8 * until <= |bits|
      modifies `rx, `stack, `pulled, `DCtime, image
      ensures stack == [] && pulled == 0 && rx == map[]
      ensures Filled(ds, group.logStart, bits, image[..], c, from, until)
      ensures wkc == if rs + ws == [] then -1 else Count(ds, group.logStart, rs + ws)
      ensures DCtime == if group.hasdc && rs + ws != [] then time else old(DCtime)
    {
      hide Sound, Filled, Tiled, Count, Remaining, Outstanding;
      InitiallyRemaining(group, rx, stack, rs + ws, ds, bits);
      NothingFilled(ds, group.logStart, bits, c, from);
      CountNothing(ds, group.logStart);
      TiledEnds(rs, c, from, until);
      wkc := 0;
      var validWkc := false;
      ghost var rx0, stack0, k := rx, stack, 0;
      assert (rs + ws)[..0] == [];
      var pos := PullIndex();
      while pos >= 0
        invariant Taken(k, wkc, rs, ws, ds, bits, c, from, until, stack0, rx0, time, old(DCtime))
        invariant if pos >= 0 then pos == k < |stack| && pulled == k + 1 else pulled == k == |stack|
        invariant validWkc <==> k > 0
        decreases |stack0| - k
      {
        wkc := TakeOne(pos, wkc, rs, ws, ds, bits, c, from, until, w, stack0, rx0, time, old(DCtime));
        validWkc := true;
        k := k + 1;
        pos := PullIndex();
      }
      assert (rs + ws)[..|rs + ws|] == rs + ws;
      stack, pulled := [], 0;
      if !validWkc {
        wkc := -1;
      }
    }

    /** One cycle in which every frame returns is one big transfer: every slave has received its
        outputs, the image keeps its output bits and holds every slave's inputs; input bits that no slave has
        come back as they were sent, which is zero with LRD. The clock's time is the one that came back. */
    method Cycle(clockTime: int, clockWkc: nat) returns (wkc: int, ghost rs: seq<Tile>, ghost ws: seq<Tile>)
      requires Idle() && Datagrams() <= EC_MAXBUF
      requires Mapped(group, devices)
      modifies this, image
      ensures Idle() && SameExceptOutputs(old(devices), devices)
      ensures forall k, i :: 0 <= k < |devices| && 0 <= i < |devices[k].outputs| ==>
                devices[k].outputs[i] == old(image[devices[k].out.from + i - 8 * group.logStart])
      ensures forall i :: 0 <= i < 8 * group.Obytes ==> image[i] == old(image[i])
      ensures forall k, i :: 0 <= k < |devices| && 0 <= i < |devices[k].inputs| ==>
                image[devices[k].inp.from + i - 8 * group.logStart] == devices[k].inputs[i]
      ensures forall i :: 8 * group.Obytes <= i < image.Length && Unused(devices, 8 * group.logStart + i) ==>
                image[i] == (!group.blockLRW && old(image[i]))
      ensures Cut(group, rs, ws)
      ensures wkc == if group.Obytes + group.Ibytes == 0 then -1 else Count(devices, group.logStart, rs + ws)
      ensures DCtime == if group.hasdc && group.Obytes + group.Ibytes > 0 then clockTime else old(DCtime)
    {
      hide Sum, Apart, Outstanding, Filled, Delivered, Received, Count, Tiled, Follows, Unused;
      ghost var ds, bits := devices, image[..];
      var sent;
      sent, rs, ws := SendProcessdata(clockTime, clockWkc);
      ghost var all := group.Obytes + group.Ibytes;
      ghost var c, from := if group.blockLRW then LRD else LRW, if group.blockLRW then group.Obytes else 0;
      ghost var w := if group.blockLRW then group.Obytes else 0;
      TiledNothing(LWR, 0);
      wkc := ReceiveProcessdata(rs, ws, ds, bits, c, from, all, w, clockTime);
      AllDelivered(group, ds, devices, bits);
      AllFilled(group, ds, bits, image[..], c, from);
      UnusedIgnoresOutputs(ds, devices);
      CountIgnoresOutputs(ds, devices, group.logStart, rs + ws);
      ApartIgnoresOutputs(ds, devices);
    }
  }

  /** The slaves have received bytes `from` up to `until` of the image and nothing else. */
  ghost predicate Delivered(ds: seq<Device>, es: seq<Device>, bits: Bits, logStart: nat, from: nat, until: nat) {
    SameExceptOutputs(ds, es) && Sound(ds) && 8 * until <= |bits| && from <= until &&
    forall k, i :: 0 <= k < |ds| && 0 <= i < |ds[k].outputs| ==>
      var pos := ds[k].out.from + i - 8 * logStart;
      es[k].outputs[i] == if 8 * from <= pos < 8 * until then bits[pos] else ds[k].outputs[i]
  }

  lemma {:induction false} DeliveredIsSame(ds: seq<Device>, es: seq<Device>, bits: Bits, logStart: nat, from: nat,
                                           until: nat)
    requires Delivered(ds, es, bits, logStart, from, until)
    ensures SameExceptOutputs(ds, es)
  {
  }

  lemma {:induction false} DeliveredMore(ds: seq<Device>, es: seq<Device>, fs: seq<Device>, bits: Bits, logStart: nat,
                                         from: nat, t: Tile)
    requires Delivered(ds, es, bits, logStart, from, t.offset) && t.command != LRD
    requires 8 * (t.offset + t.length) <= |bits|
    requires Received(es, fs, Outgoing(logStart, bits, t))
    ensures Delivered(ds, fs, bits, logStart, from, t.offset + t.length)
  {
    hide Apart, Outgoing;
    OutgoingBits(logStart, bits, t);
    forall k, i | 0 <= k < |ds| && 0 <= i < |ds[k].outputs|
      ensures var pos := ds[k].out.from + i - 8 * logStart;
              fs[k].outputs[i] == if 8 * from <= pos < 8 * (t.offset + t.length) then bits[pos] else ds[k].outputs[i]
    {
      var pos := ds[k].out.from + i - 8 * logStart;
      assert es[k].outputs[i] == if 8 * from <= pos < 8 * t.offset then bits[pos] else ds[k].outputs[i];
    }
  }

  lemma {:induction false} SumNothing(s: seq<nat>)
    ensures Sum(s[..0]) == 0
  {
  }

  /** As long as outputs are left, the segments so far end at or before the one with the first input. */
  lemma {:induction false} OutputsReach(g: Group, k: nat)
    requires Segmented(g) && k <= g.Isegment
    ensures Sum(g.IOsegment[..k + 1]) == Sum(g.IOsegment[..k]) + g.IOsegment[k]
    ensures k == g.Isegment ==> Sum(g.IOsegment[..k + 1]) >= g.Obytes
  {
    SumStep(g.IOsegment, k);
  }

  lemma {:induction false} NothingYet(g: Group, rx: map<nat, Frame>, stack: seq<Entry>, ds: seq<Device>, bits: Bits)
    requires Sound(ds) && rx == map[] && stack == []
    ensures Outstanding(g, rx, stack, [], ds, bits) && Delivered(ds, ds, bits, g.logStart, 0, 0)
  {
  }

  lemma {:induction false} ReadingDelivers(ds: seq<Device>, es: seq<Device>, fs: seq<Device>, bits: Bits,
                                           logStart: nat, t: Tile)
    requires Delivered(ds, es, bits, logStart, 0, 0) && t.command == LRD
    requires 8 * (t.offset + t.length) <= |bits|
    requires Received(es, fs, Outgoing(logStart, bits, t))
    ensures Delivered(ds, fs, bits, logStart, 0, 0)
  {
  }

  lemma {:induction false} SegmentReach(g: Group, k: nat)
    requires Segmented(g) && k < g.nsegments
    ensures Sum(g.IOsegment[..k + 1]) == Sum(g.IOsegment[..k]) + g.IOsegment[k] <= g.Obytes + g.Ibytes
  {
    SumStep(g.IOsegment, k);
    SumGrows(g.IOsegment, k + 1, g.nsegments);
    AllSegments(g, g.nsegments);
  }

  lemma {:induction false} AllSegments(g: Group, k: nat)
    requires Segmented(g) && k <= g.nsegments
    ensures k == g.nsegments ==> Sum(g.IOsegment[..k]) == g.Obytes + g.Ibytes
  {
    assert g.IOsegment[..g.nsegments] == g.IOsegment;
  }

  /** The LRD datagrams for the segments before `k` are out; `offset` is where the next one starts. */
  ghost predicate Requested(g: Group, ts: seq<Tile>, k: nat, offset: nat) {
    && Segmented(g) && g.Isegment <= k <= g.nsegments && |ts| == k - g.Isegment && offset <= g.Obytes + g.Ibytes
    && offset == (if ts == [] then g.Obytes else Sum(g.IOsegment[..k]))
    && Tiled(ts, LRD, g.Obytes, offset) && Follows(ts, g.IOsegment, g.Isegment, g.Obytes, g.Obytes + g.Ibytes)
  }

  lemma {:induction false} NothingRequested(g: Group)
    requires Segmented(g)
    ensures Requested(g, [], g.Isegment, g.Obytes) && g.Isegment <= g.nsegments
  {
    hide Sum, Tiled, Follows;
    TiledNothing(LRD, g.Obytes);
    FollowsNothing(g.IOsegment, g.Isegment, g.Obytes, g.Obytes + g.Ibytes);
  }

  lemma {:induction false} RequestNext(g: Group, ts: seq<Tile>, k: nat, offset: nat)
    requires Requested(g, ts, k, offset) && k < g.nsegments
    ensures |g.IOsegment| == g.nsegments && (k == g.Isegment ==> g.Ioffset <= g.IOsegment[k])
    ensures var n := g.IOsegment[k] - if k == g.Isegment then g.Ioffset else 0;
            offset + n <= g.Obytes + g.Ibytes && Requested(g, ts + [Tile(LRD, offset, n)], k + 1, offset + n)
  {
    hide Sum, Tiled, Follows;
    InputsReach(g, k);
    var n := g.IOsegment[k] - if k == g.Isegment then g.Ioffset else 0;
    TiledAppend(ts, LRD, g.Obytes, offset, n);
    FollowsAppend(ts, g.IOsegment, g.Isegment, g.Obytes, g.Obytes + g.Ibytes, Tile(LRD, offset, n));
  }

  lemma {:induction false} AllRequested(g: Group, ts: seq<Tile>, k: nat, offset: nat)
    requires Requested(g, ts, k, offset) && g.Ibytes > 0 && (offset == g.Obytes + g.Ibytes || k == g.nsegments)
    ensures ts != [] && Tiled(ts, LRD, g.Obytes, g.Obytes + g.Ibytes)
    ensures Follows(ts, g.IOsegment, g.Isegment, g.Obytes, g.Obytes + g.Ibytes)
  {
    hide Tiled, Follows;
    AllSegments(g, k);
  }

  lemma {:induction false} InputsReach(g: Group, k: nat)
    requires Segmented(g) && g.Isegment <= k < g.nsegments
    ensures Sum(g.IOsegment[..k + 1]) == Sum(g.IOsegment[..k]) + g.IOsegment[k] <= g.Obytes + g.Ibytes
    ensures k == g.Isegment ==> g.Obytes + (g.IOsegment[k] - g.Ioffset) == Sum(g.IOsegment[..k + 1])
    ensures if k == g.Isegment then Sum(g.IOsegment[..k]) <= g.Obytes else Sum(g.IOsegment[..k]) >= g.Obytes
  {
    SegmentReach(g, k);
    if k > g.Isegment {
      SumStep(g.IOsegment, g.Isegment);
      SumGrows(g.IOsegment, g.Isegment + 1, k);
    }
  }

  /** The entries from `k` on still have their frames, under different indices. */
  ghost predicate Remaining(rx: map<nat, Frame>, rx0: map<nat, Frame>, stack: seq<Entry>, k: nat) {
    (forall p, q :: 0 <= p < q < |stack| ==> stack[p].idx != stack[q].idx) &&
    forall q :: k <= q < |stack| ==> stack[q].idx in rx && stack[q].idx in rx0 && rx[stack[q].idx] == rx0[stack[q].idx]
  }

  lemma {:induction false} InitiallyRemaining(g: Group, rx: map<nat, Frame>, stack: seq<Entry>, ts: seq<Tile>,
                                              ds: seq<Device>, bits: Bits)
    requires Sound(ds) && Outstanding(g, rx, stack, ts, ds, bits)
    ensures Remaining(rx, rx, stack, 0) && |rx| == |stack| == |ts|
  {
    hide Answer, Outgoing;
    forall q | 0 <= q < |stack| ensures stack[q].idx in rx {
      assert Waits(g, rx, stack[q], ts[q], q == 0 && g.hasdc, ds, bits);
    }
  }

  lemma {:induction false} WaitingAnswer(g: Group, rx: map<nat, Frame>, stack: seq<Entry>, ts: seq<Tile>,
                                         ds: seq<Device>, bits: Bits, k: nat)
    requires Sound(ds) && Outstanding(g, rx, stack, ts, ds, bits) && k < |ts|
    ensures k < |stack| && stack[k].idx in rx && 8 * (ts[k].offset + ts[k].length) <= |bits|
    ensures var f, e, t := rx[stack[k].idx], stack[k], ts[k];
            && e.offset == t.offset && e.length == t.length
            && f.main == Answer(ds, Outgoing(g.logStart, bits, t)) && f.main.command == t.command
            && |f.main.data| == 8 * t.length
            && (f.clock.ClockReply? <==> k == 0 && g.hasdc) && (e.dcoffset > 0 <==> k == 0 && g.hasdc)
  {
    hide Fill, Hits;
    assert Waits(g, rx, stack[k], ts[k], k == 0 && g.hasdc, ds, bits);
    AnswerLength(ds, g.logStart, bits, ts[k]);
  }

  lemma {:induction false} Released(rx: map<nat, Frame>, rx0: map<nat, Frame>, stack: seq<Entry>, k: nat)
    requires k < |stack| && Remaining(rx, rx0, stack, k)
    ensures Remaining(rx - {stack[k].idx}, rx0, stack, k + 1)
    ensures stack[k].idx in rx && rx[stack[k].idx] == rx0[stack[k].idx] && |rx - {stack[k].idx}| == |rx| - 1
  {
    assert (rx - {stack[k].idx}).Keys == rx.Keys - {stack[k].idx};
  }

  /** What has come back: bytes `from` up to `until` of the image hold what the slaves put over the
      bits that were sent, all other bytes are as before. */
  ghost predicate Filled(ds: seq<Device>, logStart: nat, bits: Bits, image: Bits, c: Command, from: nat, until: nat)
    requires Sound(ds)
  {
    |image| == |bits| && 8 * until <= |bits| &&
    forall i :: 0 <= i < |bits| ==>
      image[i] == if 8 * from <= i < 8 * until then Fill(ds, 8 * logStart + i, c != LRD && bits[i]) else bits[i]
  }

  /** Work counter of the answers, outputs sent on their own counted twice. */
  function Count(ds: seq<Device>, logStart: nat, ts: seq<Tile>): nat {
    if ts == [] then 0
    else
      var t := ts[|ts| - 1];
      Count(ds, logStart, ts[..|ts| - 1]) + (if Reads(t.command) then 1 else 2) * Hits(ds, t.command, TileSpan(logStart, t))
  }

  function TileSpan(logStart: nat, t: Tile): Window {
    Window(8 * (logStart + t.offset), 8 * (logStart + t.offset + t.length))
  }

  lemma {:induction false} NothingFilled(ds: seq<Device>, logStart: nat, bits: Bits, c: Command, from: nat)
    requires Sound(ds)
    ensures 8 * from <= |bits| ==> Filled(ds, logStart, bits, bits, c, from, from)
  {
  }

  lemma {:induction false} CountNothing(ds: seq<Device>, logStart: nat)
    ensures Count(ds, logStart, []) == 0
  {
  }

  lemma {:induction false} CountStep(ds: seq<Device>, logStart: nat, bits: Bits, ts: seq<Tile>, k: nat)
    requires Sound(ds) && k < |ts| && 8 * (ts[k].offset + ts[k].length) <= |bits|
    ensures Count(ds, logStart, ts[..k + 1]) == Count(ds, logStart, ts[..k])
            + (if Reads(ts[k].command) then 1 else 2) * Answer(ds, Outgoing(logStart, bits, ts[k])).wkc
    ensures k == 0 ==> Count(ds, logStart, ts[..k]) == 0
  {
    assert ts[..k + 1][..k] == ts[..k];
    assert Span(Outgoing(logStart, bits, ts[k])) == TileSpan(logStart, ts[k]);
  }

  lemma {:induction false} AnswerLength(ds: seq<Device>, logStart: nat, bits: Bits, t: Tile)
    requires Sound(ds) && 8 * (t.offset + t.length) <= |bits|
    ensures var a := Answer(ds, Outgoing(logStart, bits, t)); a.command == t.command && |a.data| == 8 * t.length
  {
  }

  lemma {:induction false} TiledEnds(ts: seq<Tile>, c: Command, from: nat, until: nat)
    requires Tiled(ts, c, from, until)
    ensures from <= until
    ensures ts == [] ==> from == until
    ensures ts != [] ==> ts[0].offset == from && ts[|ts| - 1].offset + ts[|ts| - 1].length == until
    decreases |ts|
  {
    if |ts| > 0 {
      TiledEnds(ts[..|ts| - 1], c, from, ts[|ts| - 1].offset);
    }
  }

  /** A tile of a run: where it starts and ends. */
  lemma {:induction false} TiledAt(ts: seq<Tile>, c: Command, from: nat, until: nat, k: nat)
    requires Tiled(ts, c, from, until) && k < |ts|
    ensures ts[k].command == c && from <= ts[k].offset && ts[k].offset + ts[k].length <= until
    ensures ts[k].offset + ts[k].length == if k + 1 < |ts| then ts[k + 1].offset else until
    decreases |ts|
  {
    var last := ts[|ts| - 1];
    TiledEnds(ts[..|ts| - 1], c, from, last.offset);
    if k < |ts| - 1 {
      TiledAt(ts[..|ts| - 1], c, from, last.offset, k);
    }
  }

  lemma {:induction false} TileAt(rs: seq<Tile>, ws: seq<Tile>, c: Command, from: nat, until: nat, w: nat, k: nat)
    requires Tiled(rs, c, from, until) && Tiled(ws, LWR, 0, w) && k < |rs + ws|
    ensures var t := (rs + ws)[k];
            if k < |rs| then t.command == c && from <= t.offset
                          && t.offset + t.length == (if k + 1 < |rs| then rs[k + 1].offset else until)
            else t.command == LWR
  {
    if k < |rs| {
      TiledAt(rs, c, from, until, k);
    } else {
      TiledAt(ws, LWR, 0, w, k - |rs|);
    }
  }

  lemma {:induction false} FilledMore(ds: seq<Device>, logStart: nat, bits: Bits, was: Bits, now: Bits, from: nat, t: Tile)
    requires Sound(ds) && Filled(ds, logStart, bits, was, t.command, from, t.offset) && from <= t.offset
    requires Reads(t.command) && 8 * (t.offset + t.length) <= |bits|
    requires now == was[..8 * t.offset] + Answer(ds, Outgoing(logStart, bits, t)).data + was[8 * (t.offset + t.length)..]
    ensures Filled(ds, logStart, bits, now, t.command, from, t.offset + t.length)
  {
    hide Fill, Hits, Outgoing;
    var g := Outgoing(logStart, bits, t);
    OutgoingBits(logStart, bits, t);
    forall i | 0 <= i < |bits|
      ensures now[i] == if 8 * from <= i < 8 * (t.offset + t.length) then Fill(ds, 8 * logStart + i, t.command != LRD && bits[i])
                        else bits[i]
    {
      if 8 * t.offset <= i < 8 * (t.offset + t.length) {
        var j := i - 8 * t.offset;
        assert now[i] == Answer(ds, g).data[j] == Fill(ds, g.from + j, g.data[j]);
        assert g.from + j == 8 * logStart + i;
      } else {
        assert now[i] == was[i];
      }
    }
  }

  lemma {:induction false} OutgoingBits(logStart: nat, bits: Bits, t: Tile)
    requires 8 * (t.offset + t.length) <= |bits|
    ensures var g := Outgoing(logStart, bits, t);
            g.command == t.command && g.from == 8 * (logStart + t.offset) && |g.data| == 8 * t.length &&
            forall j :: 0 <= j < |g.data| ==> g.data[j] == (t.command != LRD && bits[8 * t.offset + j])
  {
  }

  /** The windows of the slaves are where the group was mapped: outputs under the output bytes,
      inputs under the input bytes, no two slaves' inputs over each other. */
  ghost predicate Mapped(g: Group, ds: seq<Device>) {
    && (forall k :: 0 <= k < |ds| ==>
         && (ds[k].out.from < ds[k].out.until ==>
              8 * g.logStart <= ds[k].out.from && ds[k].out.until <= 8 * (g.logStart + g.Obytes))
         && (ds[k].inp.from < ds[k].inp.until ==>
              8 * (g.logStart + g.Obytes) <= ds[k].inp.from && ds[k].inp.until <= 8 * (g.logStart + g.Obytes + g.Ibytes)))
    && (forall j, k :: 0 <= j < k < |ds| ==> !Meet(ds[j].inp, ds[k].inp))
  }

  lemma {:induction false} AllDelivered(g: Group, ds: seq<Device>, es: seq<Device>, bits: Bits)
    requires Mapped(g, ds) && |bits| == 8 * (g.Obytes + g.Ibytes)
    requires Delivered(ds, es, bits, g.logStart, 0, g.Obytes + if g.blockLRW then 0 else g.Ibytes)
    ensures SameExceptOutputs(ds, es) && Mapped(g, es)
    ensures forall k, i :: 0 <= k < |es| && 0 <= i < |es[k].outputs| ==>
              0 <= es[k].out.from + i - 8 * g.logStart < |bits| && es[k].outputs[i] == bits[es[k].out.from + i - 8 * g.logStart]
  {
    forall k, i | 0 <= k < |es| && 0 <= i < |es[k].outputs|
      ensures 0 <= es[k].out.from + i - 8 * g.logStart < |bits| &&
              es[k].outputs[i] == bits[es[k].out.from + i - 8 * g.logStart]
    {
      assert |ds[k].outputs| == |es[k].outputs|;
    }
  }

  /** Where no slave puts anything the sent bit comes back. */
  lemma {:induction false} FillNothing(ds: seq<Device>, pos: nat, bit: bool)
    requires Sound(ds) && forall k :: 0 <= k < |ds| ==> !Contains(ds[k].inp, pos)
    ensures Fill(ds, pos, bit) == bit
    decreases |ds|
  {
    if ds != [] {
      FillNothing(ds[1..], pos, bit);
    }
  }

  /** Where one slave puts its inputs, they come back. */
  lemma {:induction false} FillOne(ds: seq<Device>, pos: nat, bit: bool, k: nat)
    requires Sound(ds) && k < |ds| && Contains(ds[k].inp, pos)
    requires forall j :: 0 <= j < |ds| && j != k ==> !Contains(ds[j].inp, pos)
    ensures Fill(ds, pos, bit) == ds[k].inputs[pos - ds[k].inp.from]
    decreases |ds|
  {
    if k == 0 {
      FillNothing(ds[1..], pos, ds[0].inputs[pos - ds[0].inp.from]);
    } else {
      FillOne(ds[1..], pos, bit, k - 1);
    }
  }

  /** No slave has an input at this logical bit. */
  ghost predicate Unused(ds: seq<Device>, pos: int) {
    forall k :: 0 <= k < |ds| ==> !Contains(ds[k].inp, pos)
  }

  lemma {:induction false} UnusedIgnoresOutputs(ds: seq<Device>, es: seq<Device>)
    requires SameExceptOutputs(ds, es)
    ensures forall pos :: Unused(ds, pos) <==> Unused(es, pos)
  {
    forall pos ensures Unused(ds, pos) <==> Unused(es, pos) {
      assert forall k :: 0 <= k < |ds| ==> ds[k].inp == es[k].inp;
    }
  }

  lemma {:induction false} AllFilled(g: Group, ds: seq<Device>, bits: Bits, image: Bits, c: Command, from: nat)
    requires Sound(ds) && Mapped(g, ds) && |bits| == 8 * (g.Obytes + g.Ibytes)
    requires Filled(ds, g.logStart, bits, image, c, from, g.Obytes + g.Ibytes)
    requires from <= g.Obytes && (c == LRD ==> from == g.Obytes)
    ensures forall i :: 0 <= i < 8 * g.Obytes ==> image[i] == bits[i]
    ensures forall k, i :: 0 <= k < |ds| && 0 <= i < |ds[k].inputs| ==>
              0 <= ds[k].inp.from + i - 8 * g.logStart < |image| && image[ds[k].inp.from + i - 8 * g.logStart] == ds[k].inputs[i]
    ensures forall i :: 8 * g.Obytes <= i < |image| && Unused(ds, 8 * g.logStart + i) ==> image[i] == (c != LRD && bits[i])
  {
    hide Fill;
    forall i | 8 * g.Obytes <= i < |image| && Unused(ds, 8 * g.logStart + i) ensures image[i] == (c != LRD && bits[i]) {
      FillNothing(ds, 8 * g.logStart + i, c != LRD && bits[i]);
    }
    forall i | 0 <= i < 8 * g.Obytes ensures image[i] == bits[i] {
      FillNothing(ds, 8 * g.logStart + i, c != LRD && bits[i]);
    }
    forall k, i | 0 <= k < |ds| && 0 <= i < |ds[k].inputs|
      ensures 0 <= ds[k].inp.from + i - 8 * g.logStart < |image| &&
              image[ds[k].inp.from + i - 8 * g.logStart] == ds[k].inputs[i]
    {
      var pos := ds[k].inp.from + i;
      OnlyOne(ds, k, pos);
      FillOne(ds, pos, c != LRD && bits[pos - 8 * g.logStart], k);
    }
  }

  lemma {:induction false} OnlyOne(ds: seq<Device>, k: nat, pos: nat)
    requires k < |ds| && Contains(ds[k].inp, pos)
    requires forall j, l :: 0 <= j < l < |ds| ==> !Meet(ds[j].inp, ds[l].inp)
    ensures forall j :: 0 <= j < |ds| && j != k ==> !Contains(ds[j].inp, pos)
  {
    forall j | 0 <= j < |ds| && j != k ensures !Contains(ds[j].inp, pos) {
      assert if j < k then !Meet(ds[j].inp, ds[k].inp) else !Meet(ds[k].inp, ds[j].inp);
    }
  }

  lemma {:induction false} CountIgnoresOutputs(ds: seq<Device>, es: seq<Device>, logStart: nat, ts: seq<Tile>)
    requires SameExceptOutputs(ds, es)
    ensures Count(ds, logStart, ts) == Count(es, logStart, ts)
    decreases |ts|
  {
    hide SameExceptOutputs, Hits;
    if ts != [] {
      CountIgnoresOutputs(ds, es, logStart, ts[..|ts| - 1]);
      HitsIgnoreOutputs(ds, es, ts[|ts| - 1].command, TileSpan(logStart, ts[|ts| - 1]));
    }
  }

  lemma {:induction false} ApartIgnoresOutputs(ds: seq<Device>, es: seq<Device>)
    requires SameExceptOutputs(ds, es) && Apart(ds)
    ensures Apart(es)
  {
  }

  /** Sending does not depend on what the slaves received before. */
  lemma {:induction false} Sent(ds: seq<Device>, es: seq<Device>, g: Datagram)
    requires Sound(ds) && Sound(es) && Apart(ds) && SameExceptOutputs(ds, es)
    ensures Tour(es, g).1 == Answer(ds, g)
    ensures Received(es, Tour(es, g).0, g) && SameExceptOutputs(ds, Tour(es, g).0) && Sound(Tour(es, g).0)
  {
    hide Answer, Tour;
    TourAnswers(es, g);
    AnswerIgnoresOutputs(ds, es, g);
    TourDelivers(es, g, g);
  }
}
