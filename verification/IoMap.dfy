// The process image of a group of slaves: all outputs, then all inputs (ecx_main_config_map_group).
module IoMap {
  import opened Segments
  import opened Fmmus

  datatype IoSlave = IoSlave(group: nat, obits: nat, ibits: nat, sm: seq<Sm>)

  predicate InGroup(s: IoSlave, group: nat) {
    group == 0 || s.group == group
  }

  /** The bits that every slave has to place in one direction, 0 if it is not in the group. */
  function Sizes(slaves: seq<IoSlave>, group: nat, kind: nat): (bits: seq<nat>)
    ensures |bits| == |slaves|
  {
    seq(|slaves|, k requires 0 <= k < |slaves| =>
      if !InGroup(slaves[k], group) then 0
      else if kind == SM_OUTPUTS then slaves[k].obits
      else slaves[k].ibits)
  }

  /** What the mapping loops need of the slaves. */
  ghost predicate Mappable(slaves: seq<IoSlave>, bits: seq<nat>, kind: nat) {
    |bits| == |slaves| &&
    forall k :: 0 <= k < |slaves| && bits[k] > 0 ==>
      Managers(slaves[k].sm) && bits[k] < 0x1_0000 && (bits[k] > 7 ==> CanMap(slaves[k].sm, kind))
  }

  /** Where the cursor stands after a slave. */
  function After(bits: nat, pos: nat, force: bool): nat {
    if bits == 0 then pos
    else
      var end := StartBit(bits, pos) + Width(bits);
      if force then RoundUp(end) else end
  }

  /** Where the cursor stands, in bits, before slave `k`. */
  function Cursor(bits: seq<nat>, k: nat, base: nat, force: bool): nat
    requires k <= |bits|
  {
    if k == 0 then base else After(bits[k - 1], Cursor(bits, k - 1, base, force), force)
  }

  /** Whole bytes by which the first `k` slaves move the cursor, one entry for each that has data. */
  function Contributions(bits: seq<nat>, k: nat, base: nat, force: bool): (d: seq<nat>)
    requires k <= |bits|
  {
    if k == 0 then []
    else
      var d := Contributions(bits, k - 1, base, force);
      CursorGrows(bits, k - 1, k, base, force);
      if bits[k - 1] == 0 then d
      else d + [Cursor(bits, k, base, force) / 8 - Cursor(bits, k - 1, base, force) / 8]
  }

  /** The byte that a direction starts but does not fill. */
  function Closing(pos: nat): seq<nat> {
    if pos % 8 > 0 then [1] else []
  }

  function AllContributions(bits: seq<nat>, base: nat, force: bool): seq<nat> {
    Contributions(bits, |bits|, base, force) + Closing(Cursor(bits, |bits|, base, force))
  }

  function WithData(bits: seq<nat>, k: nat): nat
    requires k <= |bits|
  {
    if k == 0 then 0 else WithData(bits, k - 1) + if bits[k - 1] > 0 then 1 else 0
  }

  lemma {:induction false} CursorGrows(bits: seq<nat>, j: nat, k: nat, base: nat, force: bool)
    requires j <= k <= |bits|
    ensures Cursor(bits, j, base, force) <= Cursor(bits, k, base, force)
    decreases k
  {
    if j < k {
      CursorGrows(bits, j, k - 1, base, force);
    }
  }

  /** Every slave with data has its windows where the cursor was. */
  ghost predicate Placed(bits: seq<nat>, k: nat, base: nat, force: bool, fmmu: seq<seq<Fmmu>>)
    requires k <= |bits| == |fmmu|
  {
    forall j :: 0 <= j < k && bits[j] > 0 ==>
      var start := StartBit(bits[j], Cursor(bits, j, base, force));
      Covers(fmmu[j], start, start + Width(bits[j]))
  }

  /** Every slave with data has windows that point at its sync managers of this type. */
  ghost predicate AllAimed(slaves: seq<IoSlave>, bits: seq<nat>, kind: nat, k: nat, fmmu: seq<seq<Fmmu>>)
    requires k <= |bits| == |fmmu| == |slaves|
  {
    forall j :: 0 <= j < k && bits[j] > 0 ==> fmmu[j] != [] && Aimed(slaves[j].sm, kind, bits[j], fmmu[j])
  }

  lemma {:induction false} AllAimedNext(slaves: seq<IoSlave>, bits: seq<nat>, kind: nat, k: nat, was: seq<seq<Fmmu>>,
                                        fmmu: seq<seq<Fmmu>>)
    requires k < |bits| == |fmmu| == |was| == |slaves| && AllAimed(slaves, bits, kind, k, was) && fmmu == was[k := fmmu[k]]
    requires bits[k] > 0 ==> fmmu[k] != [] && Aimed(slaves[k].sm, kind, bits[k], fmmu[k])
    ensures AllAimed(slaves, bits, kind, k + 1, fmmu)
  {
    hide Aimed;
  }

  /** The windows of one slave, with the byte alignment that may be forced after it. */
  method PlaceSlave(sm: seq<Sm>, kind: nat, bits: nat, force: bool, logAddr0: nat, bitPos0: nat)
    returns (windows: seq<Fmmu>, logAddr: nat, bitPos: nat, counts: bool)
    requires Managers(sm) && 0 < bits < 0x1_0000 && bitPos0 < 8
    requires bits > 7 ==> CanMap(sm, kind)
    ensures bitPos < 8 && counts
    ensures 8 * logAddr + bitPos == After(bits, 8 * logAddr0 + bitPos0, force)
    ensures var start := StartBit(bits, 8 * logAddr0 + bitPos0); Covers(windows, start, start + Width(bits))
    ensures windows != [] && Aimed(sm, kind, bits, windows)
  {
    hide Covers, Managers, CanMap, StartBit, Width, Aimed, IsNext;
    windows, logAddr, bitPos, counts := MapSlave(sm, kind, bits, logAddr0, bitPos0);
    if force {
      if bitPos > 0 {
        logAddr := logAddr + 1;
        bitPos := 0;
      }
    }
  }

  /** How cursor, contributions and placement continue with slave `k`. */
  lemma {:induction false} NextSlave(bits: seq<nat>, k: nat, base: nat, force: bool, d: seq<nat>)
    requires k < |bits|
    ensures var here, next := Cursor(bits, k, base, force), Cursor(bits, k + 1, base, force);
            && here <= next && next == (if bits[k] == 0 then here else After(bits[k], here, force))
            && d + Contributions(bits, k + 1, base, force)
               == if bits[k] == 0 then d + Contributions(bits, k, base, force)
                  else d + Contributions(bits, k, base, force) + [next / 8 - here / 8]
    ensures WithData(bits, k + 1) == WithData(bits, k) + if bits[k] > 0 then 1 else 0
  {
    CursorGrows(bits, k, k + 1, base, force);
  }

  lemma {:induction false} PlacedNext(bits: seq<nat>, k: nat, base: nat, force: bool,
                                      was: seq<seq<Fmmu>>, fmmu: seq<seq<Fmmu>>)
    requires k < |bits| == |fmmu| == |was| && Placed(bits, k, base, force, was)
    requires fmmu == was[k := fmmu[k]]
    requires bits[k] > 0 ==> var start := StartBit(bits[k], Cursor(bits, k, base, force));
                             Covers(fmmu[k], start, start + Width(bits[k]))
    ensures Placed(bits, k + 1, base, force, fmmu)
  {
    hide Covers, StartBit, Width, Cursor;
  }

  /** One direction: windows for all slaves in turn, then the open byte is closed. */
  method MapDirection(slaves: seq<IoSlave>, bits: seq<nat>, kind: nat, force: bool, logAddr0: nat,
                      fmmu: array<seq<Fmmu>>, segment: array<nat>, current0: nat, size0: nat, ghost d: seq<nat>)
    returns (logAddr: nat, current: nat, size: nat, wkc: nat)
    requires Mappable(slaves, bits, kind) && fmmu.Length == |slaves|
    requires segment.Length == EC_MAXIOSEGMENTS && current0 < EC_MAXIOSEGMENTS
    requires segment[..current0] + [size0] == Pack(d, EC_MAXIOSEGMENTS)
    modifies fmmu, segment
    ensures 8 * logAddr == RoundUp(Cursor(bits, |bits|, 8 * logAddr0, force))
    ensures Placed(bits, |bits|, 8 * logAddr0, force, fmmu[..])
    ensures AllAimed(slaves, bits, kind, |bits|, fmmu[..])
    ensures current < EC_MAXIOSEGMENTS
    ensures segment[..current] + [size] == Pack(d + AllContributions(bits, 8 * logAddr0, force), EC_MAXIOSEGMENTS)
    ensures wkc == WithData(bits, |bits|)
  {
    hide Pack, Covers, Managers, CanMap, StartBit, Width, After, Placed, Cursor, Contributions, WithData, AllAimed, Aimed;
    logAddr, current, size, wkc := logAddr0, current0, size0, 0;
    var bitPos: nat := 0;
    var oLogAddr: nat := logAddr0;
    ghost var base := 8 * logAddr0;
    Start(bits, base, force, d, fmmu[..]);
    StartAimed(slaves, bits, kind, fmmu[..]);
    for slave := 0 to |slaves|
      invariant bitPos < 8 && 8 * logAddr + bitPos == Cursor(bits, slave, base, force) && oLogAddr == logAddr
      invariant Placed(bits, slave, base, force, fmmu[..])
      invariant AllAimed(slaves, bits, kind, slave, fmmu[..])
      invariant current < EC_MAXIOSEGMENTS
      invariant segment[..current] + [size] == Pack(d + Contributions(bits, slave, base, force), EC_MAXIOSEGMENTS)
      invariant wkc == WithData(bits, slave)
    {
      NextSlave(bits, slave, base, force, d);
      ghost var was := fmmu[..];
      if bits[slave] > 0 {
        ghost var booked := d + Contributions(bits, slave, base, force);
        var windows, counts;
        windows, logAddr, bitPos, counts := PlaceSlave(slaves[slave].sm, kind, bits[slave], force, logAddr, bitPos);
        fmmu[slave] := windows;
        if counts {
          wkc := wkc + 1;
        }
        var diff := logAddr - oLogAddr;
        oLogAddr := logAddr;
        current, size := Book(segment, current, size, diff, booked);
      }
      PlacedNext(bits, slave, base, force, was, fmmu[..]);
      AllAimedNext(slaves, bits, kind, slave, was, fmmu[..]);
    }
    ghost var booked := d + Contributions(bits, |bits|, base, force);
    if bitPos > 0 {
      logAddr := logAddr + 1;
      current, size := Book(segment, current, size, 1, booked);
      assert booked + [1] == d + AllContributions(bits, base, force);
    } else {
      assert booked == d + AllContributions(bits, base, force);
    }
  }

  lemma {:induction false} StartAimed(slaves: seq<IoSlave>, bits: seq<nat>, kind: nat, fmmu: seq<seq<Fmmu>>)
    requires |fmmu| == |bits| == |slaves|
    ensures AllAimed(slaves, bits, kind, 0, fmmu)
  {
  }

  lemma {:induction false} Start(bits: seq<nat>, base: nat, force: bool, d: seq<nat>, fmmu: seq<seq<Fmmu>>)
    requires |fmmu| == |bits|
    ensures Cursor(bits, 0, base, force) == base && d + Contributions(bits, 0, base, force) == d
    ensures Placed(bits, 0, base, force, fmmu) && WithData(bits, 0) == 0
  {
  }

  /** The entry of a group in the group list, and the windows of all slaves. */
  class GroupMap {
    var Obytes: nat
    var Ibytes: nat
    var nsegments: nat
    var Isegment: nat
    var Ioffset: nat
    var outputsWKC: nat
    var inputsWKC: nat
    const IOsegment: array<nat>
    const outputFmmu: array<seq<Fmmu>>
    const inputFmmu: array<seq<Fmmu>>

    constructor (slaves: nat)
      ensures fresh(IOsegment) && fresh(outputFmmu) && fresh(inputFmmu) && outputFmmu != inputFmmu
      ensures IOsegment.Length == EC_MAXIOSEGMENTS && outputFmmu.Length == inputFmmu.Length == slaves
    {
      Obytes, Ibytes, nsegments, Isegment, Ioffset, outputsWKC, inputsWKC := 0, 0, 0, 0, 0, 0, 0;
      IOsegment := new nat[EC_MAXIOSEGMENTS](_ => 0);
      outputFmmu := new seq<Fmmu>[slaves](_ => []);
      inputFmmu := new seq<Fmmu>[slaves](_ => []);
    }

    ghost predicate Valid()
      reads this
    {
      IOsegment.Length == EC_MAXIOSEGMENTS && outputFmmu != inputFmmu && outputFmmu.Length == inputFmmu.Length
    }

    /** The layout is the one specified for these slaves from logical address `logStart` on. */
    ghost predicate LaidOut(out: seq<nat>, inp: seq<nat>, logStart: nat, force: bool)
      requires |out| == |inp| == outputFmmu.Length == inputFmmu.Length
      requires IOsegment.Length == EC_MAXIOSEGMENTS
      reads this, IOsegment, outputFmmu, inputFmmu
    {
      var base := 8 * logStart;
      var middle := RoundUp(Cursor(out, |out|, base, force));
      var end := RoundUp(Cursor(inp, |inp|, middle, force));
      var d := AllContributions(out, base, force);
      var first := Pack(d, EC_MAXIOSEGMENTS);
      && Placed(out, |out|, base, force, outputFmmu[..])
      && Placed(inp, |inp|, middle, force, inputFmmu[..])
      && 8 * (logStart + Obytes) == middle && 8 * (logStart + Obytes + Ibytes) == end
      && nsegments <= EC_MAXIOSEGMENTS
      && IOsegment[..nsegments] == Pack(d + AllContributions(inp, middle, force), EC_MAXIOSEGMENTS)
      && Isegment == |first| - 1 && Ioffset == Last(first) % 0x1_0000
      && outputsWKC == WithData(out, |out|) && inputsWKC == WithData(inp, |inp|)
    }

    /** The windows of every slave point at its own sync managers. */
    ghost predicate PointsInto(slaves: seq<IoSlave>, group: nat)
      requires |slaves| == outputFmmu.Length == inputFmmu.Length
      reads this, outputFmmu, inputFmmu
    {
      && AllAimed(slaves, Sizes(slaves, group, SM_OUTPUTS), SM_OUTPUTS, |slaves|, outputFmmu[..])
      && AllAimed(slaves, Sizes(slaves, group, SM_INPUTS), SM_INPUTS, |slaves|, inputFmmu[..])
    }

    method MapGroup(slaves: seq<IoSlave>, group: nat, logStart: nat, force: bool) returns (size: nat)
      requires Valid() && outputFmmu.Length == |slaves|
      requires Mappable(slaves, Sizes(slaves, group, SM_OUTPUTS), SM_OUTPUTS)
      requires Mappable(slaves, Sizes(slaves, group, SM_INPUTS), SM_INPUTS)
      modifies this, IOsegment, outputFmmu, inputFmmu
      ensures Valid()
      ensures LaidOut(Sizes(slaves, group, SM_OUTPUTS), Sizes(slaves, group, SM_INPUTS), logStart, force)
      ensures PointsInto(slaves, group)
      ensures size == Obytes + Ibytes
    {
      hide AllAimed, Cursor, Placed, AllContributions, WithData, Mappable, Pack, RoundUp, Sizes, Covers;
      assert Pack([], EC_MAXIOSEGMENTS) == [0] by { PackNothing(); }
      var out, inp := Sizes(slaves, group, SM_OUTPUTS), Sizes(slaves, group, SM_INPUTS);
      ghost var base := 8 * logStart;
      var logAddr, current, segmentsize := logStart, 0, 0;
      CursorRises(out, base, force);
      logAddr, current, segmentsize, outputsWKC :=
        MapDirection(slaves, out, SM_OUTPUTS, force, logAddr, outputFmmu, IOsegment, current, segmentsize, []);
      ghost var d := AllContributions(out, base, force);
      assert [] + d == d;
      Obytes := logAddr - logStart;
      Isegment := current;
      Ioffset := segmentsize % 0x1_0000;
      CursorRises(inp, 8 * logAddr, force);
      ghost var middle := logAddr;
      ghost var placed := outputFmmu[..];
      logAddr, current, segmentsize, inputsWKC :=
        MapDirection(slaves, inp, SM_INPUTS, force, logAddr, inputFmmu, IOsegment, current, segmentsize, d);
      IOsegment[current] := segmentsize;
      nsegments := current + 1;
      TakeThrough(IOsegment[..], current, segmentsize);
      assert IOsegment[..nsegments] == IOsegment[..][..nsegments] && IOsegment[..current] == IOsegment[..][..current];
      Ibytes := logAddr - logStart - Obytes;
      size := logAddr - logStart;
      assert outputFmmu[..] == placed;
    }
  }

  lemma {:induction false} TakeThrough(s: seq<nat>, k: nat, x: nat)
    requires k < |s| && s[k] == x
    ensures s[..k + 1] == s[..k] + [x]
  {
  }

  lemma {:induction false} PackNothing()
    ensures Pack([], EC_MAXIOSEGMENTS) == [0]
  {
  }

  lemma {:induction false} CursorRises(bits: seq<nat>, base: nat, force: bool)
    ensures base <= Cursor(bits, |bits|, base, force) <= RoundUp(Cursor(bits, |bits|, base, force))
    ensures RoundUp(Cursor(bits, |bits|, base, force)) % 8 == 0
  {
    CursorGrows(bits, 0, |bits|, base, force);
  }

  // ---------------------------------------------------------------- what the layout means

  /** Windows that cover a range lie inside it, in order. */
  lemma {:induction false} WindowsInside(fs: seq<Fmmu>, from: int, until: int, i: nat)
    requires Covers(fs, from, until) && i < |fs|
    ensures from <= Begin(fs[i]) <= End(fs[i]) <= until
    ensures i > 0 ==> End(fs[i - 1]) == Begin(fs[i])
    decreases |fs|
  {
    var rest := fs[..|fs| - 1];
    if i < |fs| - 1 {
      WindowsInside(rest, from, Begin(fs[|fs| - 1]), i);
    } else if i > 0 {
      WindowsInside(rest, from, Begin(fs[i]), i - 1);
    } else {
      assert rest == [];
    }
  }

  /** A slave gets exactly its bits right at the cursor, or its bytes from the next whole byte on; what it skips, and what
      forced alignment skips behind it, is less than a byte. */
  lemma {:induction false} NoGaps(bits: seq<nat>, k: nat, base: nat, force: bool)
    requires k < |bits| && bits[k] > 0
    ensures var here, next := Cursor(bits, k, base, force), Cursor(bits, k + 1, base, force);
            var start := StartBit(bits[k], here);
            && here <= start < here + 8 && (bits[k] <= 7 ==> start == here) && (bits[k] > 7 ==> start % 8 == 0)
            && bits[k] <= Width(bits[k]) < bits[k] + 8 && (bits[k] <= 7 ==> Width(bits[k]) == bits[k])
            && start + Width(bits[k]) <= next < start + Width(bits[k]) + 8
            && (if force then next % 8 == 0 else next == start + Width(bits[k]))
  {
  }

  /** The bits a slave of the group has to place are its own outputs or inputs; others have none. */
  lemma {:induction false} EverySlaveHasItsBits(m: GroupMap, slaves: seq<IoSlave>, group: nat, logStart: nat,
                                                force: bool, k: nat)
    requires |slaves| == m.outputFmmu.Length == m.inputFmmu.Length && m.IOsegment.Length == EC_MAXIOSEGMENTS && k < |slaves|
    requires m.LaidOut(Sizes(slaves, group, SM_OUTPUTS), Sizes(slaves, group, SM_INPUTS), logStart, force)
    requires m.PointsInto(slaves, group) && (group == 0 || slaves[k].group == group)
    ensures var out := Sizes(slaves, group, SM_OUTPUTS);
            var start := StartBit(slaves[k].obits, Cursor(out, k, 8 * logStart, force));
            slaves[k].obits > 0 ==>
              && Covers(m.outputFmmu[k], start, start + Width(slaves[k].obits))
              && Aimed(slaves[k].sm, SM_OUTPUTS, slaves[k].obits, m.outputFmmu[k])
    ensures var inp := Sizes(slaves, group, SM_INPUTS);
            var start := StartBit(slaves[k].ibits, Cursor(inp, k, 8 * (logStart + m.Obytes), force));
            slaves[k].ibits > 0 ==>
              && Covers(m.inputFmmu[k], start, start + Width(slaves[k].ibits))
              && Aimed(slaves[k].sm, SM_INPUTS, slaves[k].ibits, m.inputFmmu[k])
    ensures m.outputsWKC == CountOf(slaves, group, true, |slaves|) && m.inputsWKC == CountOf(slaves, group, false, |slaves|)
  {
    hide Covers, Aimed, StartBit, Width, Cursor, Pack, AllContributions, WithData;
    CountedAs(slaves, group, |slaves|);
    assert m.outputFmmu[..][k] == m.outputFmmu[k] && m.inputFmmu[..][k] == m.inputFmmu[k];
  }

  /** How many slaves of the group have outputs, or inputs. */
  function CountOf(slaves: seq<IoSlave>, group: nat, outputs: bool, n: nat): nat
    requires n <= |slaves|
  {
    if n == 0 then 0
    else
      var s := slaves[n - 1];
      CountOf(slaves, group, outputs, n - 1)
      + if (group == 0 || s.group == group) && (if outputs then s.obits > 0 else s.ibits > 0) then 1 else 0
  }

  lemma {:induction false} CountedAs(slaves: seq<IoSlave>, group: nat, n: nat)
    requires n <= |slaves|
    ensures WithData(Sizes(slaves, group, SM_OUTPUTS), n) == CountOf(slaves, group, true, n)
    ensures WithData(Sizes(slaves, group, SM_INPUTS), n) == CountOf(slaves, group, false, n)
  {
    if n > 0 {
      CountedAs(slaves, group, n - 1);
    }
  }

  /** A slave is placed before the cursor moves on. */
  lemma {:induction false} SlaveBeforeNext(bits: seq<nat>, j: nat, base: nat, force: bool)
    requires j < |bits| && bits[j] > 0
    ensures var here, next := Cursor(bits, j, base, force), Cursor(bits, j + 1, base, force);
            here <= StartBit(bits[j], here) && StartBit(bits[j], here) + Width(bits[j]) <= next
  {
  }

  /** Windows of different slaves never share a bit: those of a slave with a higher number lie
      behind all windows of a slave with a lower one. */
  lemma {:induction false} SlavesAreDisjoint(bits: seq<nat>, base: nat, force: bool, fmmu: seq<seq<Fmmu>>,
                                             j: nat, k: nat, a: nat, b: nat)
    requires |fmmu| == |bits| && Placed(bits, |bits|, base, force, fmmu)
    requires j < k < |bits| && bits[j] > 0 && bits[k] > 0 && a < |fmmu[j]| && b < |fmmu[k]|
    ensures base <= Begin(fmmu[j][a]) <= End(fmmu[j][a]) <= Begin(fmmu[k][b]) <= End(fmmu[k][b])
            <= Cursor(bits, |bits|, base, force)
  {
    hide StartBit, Width, Covers;
    var here, there := StartBit(bits[j], Cursor(bits, j, base, force)), StartBit(bits[k], Cursor(bits, k, base, force));
    CursorGrows(bits, 0, j, base, force);
    CursorGrows(bits, j + 1, k, base, force);
    CursorGrows(bits, k + 1, |bits|, base, force);
    SlaveBeforeNext(bits, j, base, force);
    SlaveBeforeNext(bits, k, base, force);
    WindowsInside(fmmu[j], here, here + Width(bits[j]), a);
    WindowsInside(fmmu[k], there, there + Width(bits[k]), b);
  }

  /** All outputs precede all inputs. */
  lemma {:induction false} OutputsBeforeInputs(out: seq<nat>, inp: seq<nat>, base: nat, force: bool,
                                               ofmmu: seq<seq<Fmmu>>, ifmmu: seq<seq<Fmmu>>, j: nat, k: nat, a: nat, b: nat)
    requires |ofmmu| == |out| && Placed(out, |out|, base, force, ofmmu)
    requires |ifmmu| == |inp| && Placed(inp, |inp|, RoundUp(Cursor(out, |out|, base, force)), force, ifmmu)
    requires j < |out| && k < |inp| && out[j] > 0 && inp[k] > 0 && a < |ofmmu[j]| && b < |ifmmu[k]|
    ensures End(ofmmu[j][a]) <= RoundUp(Cursor(out, |out|, base, force)) <= Begin(ifmmu[k][b])
  {
    hide StartBit, Width, Covers, RoundUp;
    var middle := RoundUp(Cursor(out, |out|, base, force));
    var here, there := StartBit(out[j], Cursor(out, j, base, force)), StartBit(inp[k], Cursor(inp, k, middle, force));
    CursorGrows(out, j + 1, |out|, base, force);
    CursorGrows(inp, 0, k, middle, force);
    CursorRises(out, base, force);
    SlaveBeforeNext(out, j, base, force);
    SlaveBeforeNext(inp, k, middle, force);
    WindowsInside(ofmmu[j], here, here + Width(out[j]), a);
    WindowsInside(ifmmu[k], there, there + Width(inp[k]), b);
  }

  /** The contributions of the first `k` slaves add up to the whole bytes the cursor has passed. */
  lemma {:induction false} ContributionsAddUp(bits: seq<nat>, k: nat, base: nat, force: bool)
    requires k <= |bits| && base % 8 == 0
    ensures base / 8 + Sum(Contributions(bits, k, base, force)) == Cursor(bits, k, base, force) / 8
  {
    if k > 0 {
      ContributionsAddUp(bits, k - 1, base, force);
      CursorGrows(bits, k - 1, k, base, force);
      SumAppend(Contributions(bits, k - 1, base, force),
                Cursor(bits, k, base, force) / 8 - Cursor(bits, k - 1, base, force) / 8);
    }
  }

  lemma {:induction false} DirectionAddsUp(bits: seq<nat>, base: nat, force: bool)
    requires base % 8 == 0
    ensures base / 8 + Sum(AllContributions(bits, base, force)) == RoundUp(Cursor(bits, |bits|, base, force)) / 8
  {
    ContributionsAddUp(bits, |bits|, base, force);
    SumConcat(Contributions(bits, |bits|, base, force), Closing(Cursor(bits, |bits|, base, force)));
    SumAppend([], 1);
  }

  /** The bytes of a direction are the sum of its contributions. */
  lemma {:induction false} DirectionBytes(bits: seq<nat>, start: nat, bytes: nat, force: bool)
    requires 8 * (start + bytes) == RoundUp(Cursor(bits, |bits|, 8 * start, force))
    ensures Sum(AllContributions(bits, 8 * start, force)) == bytes
  {
    hide Cursor, RoundUp, AllContributions, Sum;
    DirectionAddsUp(bits, 8 * start, force);
  }

  lemma {:induction false} PackedSum(d: seq<nat>, e: seq<nat>)
    requires AllFit(d + e)
    ensures var segs := Pack(d + e, EC_MAXIOSEGMENTS);
            AllFit(segs) && (Sum(segs) == Sum(d) + Sum(e) <==> |PackAll(d + e)| <= EC_MAXIOSEGMENTS)
  {
    hide Pack, PackAll, Sum, AllFit;
    SumConcat(d, e);
    PackWithinLimit(d + e, EC_MAXIOSEGMENTS);
    PackAllKeepsSum(d + e);
  }

  /** The segments add up to the returned size exactly as long as 64 of them suffice, and each fits
      a datagram. */
  lemma {:induction false} SegmentsPartitionImage(m: GroupMap, out: seq<nat>, inp: seq<nat>, logStart: nat, force: bool)
    requires |out| == |inp| == m.outputFmmu.Length == m.inputFmmu.Length && m.IOsegment.Length == EC_MAXIOSEGMENTS
    requires m.LaidOut(out, inp, logStart, force)
    requires AllFit(AllContributions(out, 8 * logStart, force) + AllContributions(inp, 8 * (logStart + m.Obytes), force))
    ensures var all := AllContributions(out, 8 * logStart, force) + AllContributions(inp, 8 * (logStart + m.Obytes), force);
            && AllFit(m.IOsegment[..m.nsegments])
            && (Sum(m.IOsegment[..m.nsegments]) == m.Obytes + m.Ibytes <==> |PackAll(all)| <= EC_MAXIOSEGMENTS)
  {
    hide Cursor, RoundUp, AllContributions, Sum, Pack, PackAll, AllFit, Placed, WithData;
    DirectionBytes(out, logStart, m.Obytes, force);
    DirectionBytes(inp, logStart + m.Obytes, m.Ibytes, force);
    PackedSum(AllContributions(out, 8 * logStart, force), AllContributions(inp, 8 * (logStart + m.Obytes), force));
  }

  lemma {:induction false} OpenSegmentLocates(d: seq<nat>, e: seq<nat>)
    requires AllFit(d) && |PackAll(d)| <= EC_MAXIOSEGMENTS
    ensures var p, q := Pack(d, EC_MAXIOSEGMENTS), Pack(d + e, EC_MAXIOSEGMENTS);
            && |p| <= |q| && Last(p) <= q[|p| - 1] && Last(p) < 0x1_0000
            && Sum(q[..|p| - 1]) + Last(p) == Sum(d)
  {
    hide Pack, PackAll, Sum;
    PackWithinLimit(d, EC_MAXIOSEGMENTS);
    PackAllKeepsSum(d);
    PackExtends(d, e, EC_MAXIOSEGMENTS);
    var p := Pack(d, EC_MAXIOSEGMENTS);
    assert p[..|p| - 1] + [Last(p)] == p;
    SumAppend(p[..|p| - 1], Last(p));
  }

  /** `Isegment` and `Ioffset` locate the first input byte. */
  lemma {:induction false} InputsAreLocated(m: GroupMap, out: seq<nat>, inp: seq<nat>, logStart: nat, force: bool)
    requires |out| == |inp| == m.outputFmmu.Length == m.inputFmmu.Length && m.IOsegment.Length == EC_MAXIOSEGMENTS
    requires m.LaidOut(out, inp, logStart, force)
    requires AllFit(AllContributions(out, 8 * logStart, force))
    requires |PackAll(AllContributions(out, 8 * logStart, force))| <= EC_MAXIOSEGMENTS
    ensures m.Isegment < m.nsegments && m.Ioffset <= m.IOsegment[m.Isegment]
    ensures Sum(m.IOsegment[..m.Isegment]) + m.Ioffset == m.Obytes
  {
    hide Cursor, RoundUp, AllContributions, Sum, Pack, PackAll, AllFit, Placed, WithData;
    DirectionBytes(out, logStart, m.Obytes, force);
    OpenSegmentLocates(AllContributions(out, 8 * logStart, force), AllContributions(inp, 8 * (logStart + m.Obytes), force));
    assert m.IOsegment[..m.nsegments][..m.Isegment] == m.IOsegment[..m.Isegment];
  }

  /** With forced byte alignment the cursor is at a whole byte between slaves. */
  lemma {:induction false} AlignedCursor(bits: seq<nat>, k: nat, base: nat)
    requires k <= |bits| && base % 8 == 0
    ensures Cursor(bits, k, base, true) % 8 == 0
  {
    hide StartBit, Width;
    if k > 0 {
      AlignedCursor(bits, k - 1, base);
    }
  }

  lemma {:induction false} ContributionsPrefix(bits: seq<nat>, k: nat, n: nat, base: nat, force: bool)
    requires k <= n <= |bits|
    ensures var p, d := Contributions(bits, k, base, force), Contributions(bits, n, base, force);
            |p| <= |d| && d[..|p|] == p
    decreases n
  {
    if k < n {
      ContributionsPrefix(bits, k, n - 1, base, force);
    }
  }

  /** Under forced byte alignment no slave's data crosses a segment boundary: one segment of the
      image contains everything from the cursor before the slave to the cursor after it. Here `e`
      are the contributions booked before this direction and `f` those booked after it. */
  lemma {:induction false} SlaveStaysInSegment(bits: seq<nat>, k: nat, base: nat, e: seq<nat>, f: seq<nat>)
    returns (j: nat)
    requires k < |bits| && bits[k] > 0 && base % 8 == 0
    requires |PackAll(e + AllContributions(bits, base, true) + f)| <= EC_MAXIOSEGMENTS
    ensures var from := Sum(e) + Cursor(bits, k, base, true) / 8 - base / 8;
            var until := Sum(e) + Cursor(bits, k + 1, base, true) / 8 - base / 8;
            Holds(Pack(e + AllContributions(bits, base, true) + f, EC_MAXIOSEGMENTS), j, from, until)
  {
    hide Pack, PackAll, Cursor, Sum, Holds;
    var d := e + AllContributions(bits, base, true) + f;
    var p, q := Contributions(bits, k, base, true), Contributions(bits, k + 1, base, true);
    WholeDirection(bits, k, base, e, f);
    SumConcat(e, p);
    SumConcat(e, q);
    ContributionsAddUp(bits, k, base, true);
    ContributionsAddUp(bits, k + 1, base, true);
    var m := |e + p|;
    ContributionStaysWhole(d, m);
    j := |Pack(d[..m + 1], EC_MAXIOSEGMENTS)| - 1;
    assert Sum(d[..m]) == Sum(e) + Cursor(bits, k, base, true) / 8 - base / 8;
    assert m + 1 == |e + q| && Sum(d[..m + 1]) == Sum(e) + Cursor(bits, k + 1, base, true) / 8 - base / 8;
  }

  lemma {:induction false} WholeDirection(bits: seq<nat>, k: nat, base: nat, e: seq<nat>, f: seq<nat>)
    requires k < |bits| && bits[k] > 0
    ensures var d := e + AllContributions(bits, base, true) + f;
            var p, q := Contributions(bits, k, base, true), Contributions(bits, k + 1, base, true);
            |e + q| == |e + p| + 1 && |e + q| <= |d| && d[..|e + p|] == e + p && d[..|e + q|] == e + q
  {
    hide Cursor, Contributions, Closing;
    var p, q := Contributions(bits, k, base, true), Contributions(bits, k + 1, base, true);
    var all := Contributions(bits, |bits|, base, true);
    NextSlave(bits, k, base, true, []);
    assert [] + p == p && [] + q == q;
    ContributionsPrefix(bits, k, |bits|, base, true);
    ContributionsPrefix(bits, k + 1, |bits|, base, true);
    PrefixInside(e, p, all, Closing(Cursor(bits, |bits|, base, true)), f);
    PrefixInside(e, q, all, Closing(Cursor(bits, |bits|, base, true)), f);
  }

  lemma {:induction false} PrefixInside(e: seq<nat>, p: seq<nat>, all: seq<nat>, closing: seq<nat>, f: seq<nat>)
    requires |p| <= |all| && all[..|p|] == p
    ensures |e + p| <= |e + (all + closing) + f| && (e + (all + closing) + f)[..|e + p|] == e + p
  {
  }
}
