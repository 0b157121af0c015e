// Giving one slave its windows (FMMUs) in the logical process image: the mapping loops of
// ecx_config_create_output_mappings and ecx_config_create_input_mappings, which differ only in
// the sync manager type they look for.
module Fmmus {

  const EC_MAXSM: nat := 8

  /** Sync manager types of process data. */
  const SM_OUTPUTS: nat := 3
  const SM_INPUTS: nat := 4

  datatype Sm = Sm(start: nat, length: nat, kind: nat)

  datatype Fmmu = Fmmu(logStart: nat, logLength: nat, startBit: nat, endBit: nat, physStart: nat)

  /** Bytes of a byte oriented slave, 0 for a slave with less than a byte. */
  function Bytes(bits: nat): nat {
    if bits > 7 then (bits + 7) / 8 else 0
  }

  /** First and one past the last bit of a window, counted from logical address 0. */
  function Begin(f: Fmmu): int {
    8 * f.logStart + f.startBit
  }

  function End(f: Fmmu): int {
    8 * (f.logStart + f.logLength - 1) + f.endBit + 1
  }

  /** Bit numbers count within a byte, and the window does not end before it begins. */
  predicate WellFormed(f: Fmmu) {
    f.startBit < 8 && f.endBit < 8 && Begin(f) <= End(f)
  }

  /** The windows follow each other without gap or overlap and cover `from` up to `until`. */
  ghost predicate Covers(fs: seq<Fmmu>, from: int, until: int)
    decreases |fs|
  {
    if fs == [] then from == until
    else
      var f := fs[|fs| - 1];
      WellFormed(f) && End(f) == until && Covers(fs[..|fs| - 1], from, Begin(f))
  }

  // ---------------------------------------------------------------- choosing sync managers

  ghost predicate Managers(sm: seq<Sm>) {
    |sm| == EC_MAXSM && forall k :: 0 <= k < |sm| ==> sm[k].length < 0x1_0000
  }

  /** The next sync manager of the wanted type, or the last one whatever its type. */
  function Search(sm: seq<Sm>, kind: nat, smc: nat): (r: nat)
    requires |sm| == EC_MAXSM && smc < EC_MAXSM
    ensures smc <= r < EC_MAXSM
    decreases EC_MAXSM - smc
  {
    if smc < EC_MAXSM - 1 && sm[smc].kind != kind then Search(sm, kind, smc + 1) else smc
  }

  /** 16-bit address just after a sync manager. */
  function EndAddr(m: Sm): nat {
    (m.start + m.length) % 0x1_0000
  }

  /** More sync managers while bits are missing and the addresses connect. */
  function Extend(sm: seq<Sm>, kind: nat, bits: nat, smc: nat, bitCount: nat, endAddr: nat): (r: (nat, nat))
    requires |sm| == EC_MAXSM && smc < EC_MAXSM
    ensures smc <= r.0 < EC_MAXSM && r.1 >= bitCount
    decreases EC_MAXSM - smc
  {
    if bitCount < bits && smc < EC_MAXSM - 1 then
      var s := Search(sm, kind, smc + 1);
      if sm[s].start > endAddr then (s, bitCount)
      else Extend(sm, kind, bits, s, bitCount + 8 * sm[s].length, EndAddr(sm[s]))
    else (smc, bitCount)
  }

  /** The sync managers gathered for one window: where the search stands and the bits so far. */
  function Gather(sm: seq<Sm>, kind: nat, bits: nat, smc: nat, bitCount: nat): (r: (nat, nat))
    requires |sm| == EC_MAXSM && smc < EC_MAXSM
    ensures smc <= r.0 < EC_MAXSM && r.1 >= bitCount
  {
    var s := Search(sm, kind, smc);
    Extend(sm, kind, bits, s, bitCount + 8 * sm[s].length, EndAddr(sm[s]))
  }

  /** The 16-bit byte counter that goes with a bit count. */
  function ByteCount(bitCount: nat): nat {
    bitCount / 8 % 0x1_0000
  }

  lemma {:induction false} CountGrows(bitCount: nat, length: nat)
    requires bitCount % 8 == 0
    ensures (bitCount + 8 * length) % 8 == 0
    ensures ByteCount(bitCount + 8 * length) == (ByteCount(bitCount) + length) % 0x1_0000
    ensures ByteCount(bitCount) < 0x1_0000
    ensures bitCount < 0x1_0000 ==> ByteCount(bitCount) == bitCount / 8
  {
    assert (bitCount + 8 * length) / 8 == bitCount / 8 + length;
  }

  method FindManager(sm: seq<Sm>, kind: nat, smc0: nat) returns (smc: nat)
    requires |sm| == EC_MAXSM && smc0 < EC_MAXSM
    ensures smc == Search(sm, kind, smc0)
  {
    smc := smc0;
    while smc < EC_MAXSM - 1 && sm[smc].kind != kind
      invariant smc < EC_MAXSM && Search(sm, kind, smc0) == Search(sm, kind, smc)
    {
      smc := smc + 1;
    }
  }

  lemma {:induction false} GatherIs(sm: seq<Sm>, kind: nat, bits: nat, smc: nat, bitCount: nat)
    requires |sm| == EC_MAXSM && smc < EC_MAXSM
    ensures var s := Search(sm, kind, smc);
            Gather(sm, kind, bits, smc, bitCount) == Extend(sm, kind, bits, s, bitCount + 8 * sm[s].length, EndAddr(sm[s]))
  {
  }

  lemma {:induction false} ExtendIs(sm: seq<Sm>, kind: nat, bits: nat, smc: nat, bitCount: nat, endAddr: nat)
    requires |sm| == EC_MAXSM && smc < EC_MAXSM
    ensures bitCount >= bits || smc >= EC_MAXSM - 1 ==> Extend(sm, kind, bits, smc, bitCount, endAddr) == (smc, bitCount)
    ensures bitCount < bits && smc < EC_MAXSM - 1 ==>
              var s := Search(sm, kind, smc + 1);
              Extend(sm, kind, bits, smc, bitCount, endAddr) ==
              if sm[s].start > endAddr then (s, bitCount)
              else Extend(sm, kind, bits, s, bitCount + 8 * sm[s].length, EndAddr(sm[s]))
  {
  }

  /** The inner loops of the source. */
  method GatherManagers(sm: seq<Sm>, kind: nat, bits: nat, smc0: nat, byteCount0: nat, bitCount0: nat)
    returns (smc: nat, byteCount: nat, bitCount: nat, physStart: nat)
    requires |sm| == EC_MAXSM && smc0 < EC_MAXSM
    requires bitCount0 % 8 == 0 && byteCount0 == ByteCount(bitCount0)
    ensures (smc, bitCount) == Gather(sm, kind, bits, smc0, bitCount0) && smc < EC_MAXSM
    ensures bitCount % 8 == 0 && byteCount == ByteCount(bitCount)
    ensures physStart == sm[Search(sm, kind, smc0)].start
  {
    hide ByteCount, Search, EndAddr, Gather, Extend;
    GatherIs(sm, kind, bits, smc0, bitCount0);
    smc, byteCount, bitCount := smc0, byteCount0, bitCount0;
    smc := FindManager(sm, kind, smc);
    physStart := sm[smc].start;
    byteCount := (byteCount + sm[smc].length) % 0x1_0000;
    bitCount := bitCount + sm[smc].length * 8;
    var endAddr: nat := EndAddr(sm[smc]);
    CountGrows(bitCount0, sm[smc].length);
    while bitCount < bits && smc < EC_MAXSM - 1
      invariant smc < EC_MAXSM && bitCount % 8 == 0 && byteCount == ByteCount(bitCount)
      invariant Extend(sm, kind, bits, smc, bitCount, endAddr) == Gather(sm, kind, bits, smc0, bitCount0)
      decreases EC_MAXSM - smc
    {
      ExtendIs(sm, kind, bits, smc, bitCount, endAddr);
      smc := FindManager(sm, kind, smc + 1);
      if sm[smc].start > endAddr {
        break;
      }
      CountGrows(bitCount, sm[smc].length);
      byteCount := (byteCount + sm[smc].length) % 0x1_0000;
      bitCount := bitCount + sm[smc].length * 8;
      endAddr := EndAddr(sm[smc]);
    }
    if bitCount >= bits || smc >= EC_MAXSM - 1 {
      ExtendIs(sm, kind, bits, smc, bitCount, endAddr);
    }
  }

  // ---------------------------------------------------------------- when the loop ends

  /** Some sync manager that the search can reach has bytes to give: one of the wanted type before
      the last, or the last whatever its type. */
  ghost predicate CanMap(sm: seq<Sm>, kind: nat)
    requires |sm| == EC_MAXSM
  {
    sm[EC_MAXSM - 1].length > 0 || exists k :: 0 <= k < EC_MAXSM - 1 && sm[k].kind == kind && sm[k].length > 0
  }

  /** Nothing before `smc` had bytes to give. */
  ghost predicate Barren(sm: seq<Sm>, kind: nat, smc: nat)
    requires |sm| == EC_MAXSM
  {
    forall k :: 0 <= k < smc && k < EC_MAXSM ==> sm[k].kind == kind ==> sm[k].length == 0
  }

  /** What holds between two windows: with nothing gathered the search has passed only empty sync
      managers; when the byte counter has run over to zero the search rests on one with bytes. */
  ghost predicate Progressing(sm: seq<Sm>, kind: nat, bits: nat, smc: nat, bitCount: nat)
    requires |sm| == EC_MAXSM && smc < EC_MAXSM
  {
    && bitCount % 8 == 0
    && (bitCount == 0 ==> Barren(sm, kind, smc))
    && (bitCount > 0 && ByteCount(bitCount) == 0 ==> bitCount >= bits && sm[smc].length > 0 && Search(sm, kind, smc) == smc)
  }

  lemma {:induction false} SearchPasses(sm: seq<Sm>, kind: nat, smc: nat)
    requires |sm| == EC_MAXSM && smc < EC_MAXSM
    ensures var s := Search(sm, kind, smc);
            && (s == EC_MAXSM - 1 || sm[s].kind == kind) && Search(sm, kind, s) == s
            && forall k :: smc <= k < s ==> sm[k].kind != kind
    decreases EC_MAXSM - smc
  {
    if smc < EC_MAXSM - 1 && sm[smc].kind != kind {
      SearchPasses(sm, kind, smc + 1);
    }
  }

  // ---------------------------------------------------------------- what is gathered

  /** `s` is the first sync manager of the wanted type from `smc` on, or the last of all if there is none. */
  ghost predicate IsNext(sm: seq<Sm>, kind: nat, smc: nat, s: nat) {
    && |sm| == EC_MAXSM && smc <= s < EC_MAXSM
    && (s == EC_MAXSM - 1 || sm[s].kind == kind)
    && forall k :: smc <= k < s ==> sm[k].kind != kind
  }

  ghost predicate Indices(sm: seq<Sm>, ks: seq<nat>) {
    forall i :: 0 <= i < |ks| ==> ks[i] < |sm|
  }

  /** Bytes of these sync managers together. */
  function TotalLength(sm: seq<Sm>, ks: seq<nat>): nat
    requires Indices(sm, ks)
  {
    if ks == [] then 0 else TotalLength(sm, ks[..|ks| - 1]) + sm[ks[|ks| - 1]].length
  }

  /** The sync manager at `i` is the next of the type after the one before, begins no later than the (16-bit) end of that
      one, and is needed. */
  ghost predicate Connects(sm: seq<Sm>, kind: nat, bits: nat, bitCount: nat, ks: seq<nat>, i: nat)
    requires Indices(sm, ks) && 0 < i < |ks|
  {
    var before := sm[ks[i - 1]];
    && IsNext(sm, kind, ks[i - 1] + 1, ks[i])
    && sm[ks[i]].start <= (before.start + before.length) % 0x1_0000
    && bitCount + 8 * TotalLength(sm, ks[..i]) < bits
  }

  /** The sync managers `ks` are the first of the type and further ones, each of which connects to the one before. */
  ghost predicate Chained(sm: seq<Sm>, kind: nat, bits: nat, smc: nat, bitCount: nat, ks: seq<nat>) {
    && |sm| == EC_MAXSM && ks != [] && Indices(sm, ks) && IsNext(sm, kind, smc, ks[0])
    && forall i :: 0 < i < |ks| ==> Connects(sm, kind, bits, bitCount, ks, i)
  }

  /** These are all: the bits suffice, or it was the last sync manager, or the next one does not connect; the search
      stands at that one, otherwise at the last one gathered. */
  ghost predicate Collected(sm: seq<Sm>, kind: nat, bits: nat, smc: nat, bitCount: nat, ks: seq<nat>, smc': nat,
                            bitCount': nat) {
    && Chained(sm, kind, bits, smc, bitCount, ks)
    && bitCount' == bitCount + 8 * TotalLength(sm, ks)
    && var last := ks[|ks| - 1];
       if bitCount' >= bits || last == EC_MAXSM - 1 then smc' == last
       else IsNext(sm, kind, last + 1, smc') && sm[smc'].start > (sm[last].start + sm[last].length) % 0x1_0000
  }

  lemma {:induction false} SearchIsNext(sm: seq<Sm>, kind: nat, smc: nat)
    requires |sm| == EC_MAXSM && smc < EC_MAXSM
    ensures IsNext(sm, kind, smc, Search(sm, kind, smc))
  {
    hide Search;
    SearchPasses(sm, kind, smc);
  }

  lemma {:induction false} ChainedMore(sm: seq<Sm>, kind: nat, bits: nat, smc: nat, bitCount: nat, ks: seq<nat>, k: nat)
    requires Chained(sm, kind, bits, smc, bitCount, ks) && bitCount + 8 * TotalLength(sm, ks) < bits && k < |sm|
    requires var last := sm[ks[|ks| - 1]];
             IsNext(sm, kind, ks[|ks| - 1] + 1, k) && sm[k].start <= (last.start + last.length) % 0x1_0000
    ensures Chained(sm, kind, bits, smc, bitCount, ks + [k])
    ensures TotalLength(sm, ks + [k]) == TotalLength(sm, ks) + sm[k].length
  {
    hide IsNext, Connects;
    var all := ks + [k];
    assert all[..|ks|] == ks;
    forall i | 0 < i < |all| ensures Connects(sm, kind, bits, bitCount, all, i) {
      if i < |ks| {
        ConnectsStill(sm, kind, bits, bitCount, ks, k, i);
      } else {
        ConnectsNew(sm, kind, bits, bitCount, ks, k);
      }
    }
  }

  lemma {:induction false} ConnectsStill(sm: seq<Sm>, kind: nat, bits: nat, bitCount: nat, ks: seq<nat>, k: nat, i: nat)
    requires Indices(sm, ks) && 0 < i < |ks| && Connects(sm, kind, bits, bitCount, ks, i) && k < |sm|
    ensures Connects(sm, kind, bits, bitCount, ks + [k], i)
  {
    hide IsNext, TotalLength;
    assert (ks + [k])[..i] == ks[..i];
  }

  lemma {:induction false} ConnectsNew(sm: seq<Sm>, kind: nat, bits: nat, bitCount: nat, ks: seq<nat>, k: nat)
    requires ks != [] && Indices(sm, ks) && k < |sm| && bitCount + 8 * TotalLength(sm, ks) < bits
    requires var last := sm[ks[|ks| - 1]];
             IsNext(sm, kind, ks[|ks| - 1] + 1, k) && sm[k].start <= (last.start + last.length) % 0x1_0000
    ensures Connects(sm, kind, bits, bitCount, ks + [k], |ks|)
  {
    hide IsNext, TotalLength;
    assert (ks + [k])[..|ks|] == ks;
  }

  lemma {:induction false} ExtendCollects(sm: seq<Sm>, kind: nat, bits: nat, smc: nat, bitCount: nat,
                                          ks: seq<nat>) returns (all: seq<nat>)
    requires Chained(sm, kind, bits, smc, bitCount, ks)
    ensures var last := ks[|ks| - 1];
            var r := Extend(sm, kind, bits, last, bitCount + 8 * TotalLength(sm, ks), EndAddr(sm[last]));
            all != [] && all[0] == ks[0] && Collected(sm, kind, bits, smc, bitCount, all, r.0, r.1)
    decreases EC_MAXSM - ks[|ks| - 1]
  {
    hide Search, Extend, TotalLength, IsNext;
    all := ks;
    var last, b := ks[|ks| - 1], bitCount + 8 * TotalLength(sm, ks);
    ExtendIs(sm, kind, bits, last, b, EndAddr(sm[last]));
    if b < bits && last < EC_MAXSM - 1 {
      var k := Search(sm, kind, last + 1);
      SearchIsNext(sm, kind, last + 1);
      if sm[k].start <= EndAddr(sm[last]) {
        ChainedMore(sm, kind, bits, smc, bitCount, ks, k);
        all := ExtendCollects(sm, kind, bits, smc, bitCount, ks + [k]);
      }
    }
  }

  /** The sync managers gathered for a window are exactly those that connect, from the first of the type on, until the
      bits suffice. */
  lemma {:induction false} GatherCollects(sm: seq<Sm>, kind: nat, bits: nat, smc: nat, bitCount: nat) returns (ks: seq<nat>)
    requires |sm| == EC_MAXSM && smc < EC_MAXSM
    ensures var r := Gather(sm, kind, bits, smc, bitCount);
            ks != [] && ks[0] == Search(sm, kind, smc) && Collected(sm, kind, bits, smc, bitCount, ks, r.0, r.1)
  {
    hide Search, Extend, Collected, IsNext;
    var s := Search(sm, kind, smc);
    SearchIsNext(sm, kind, smc);
    GatherIs(sm, kind, bits, smc, bitCount);
    assert TotalLength(sm, [s]) == TotalLength(sm, [s][..0]) + sm[s].length;
    ks := ExtendCollects(sm, kind, bits, smc, bitCount, [s]);
  }

  /**
   * Where the sync managers of a group abut, a byte of its window is the expected byte of one of them: the window maps
   * logical byte `a` to physical byte `a - logStart` after its physical start.
   */
  lemma {:induction false} PhysicalByte(sm: seq<Sm>, ks: seq<nat>, f: Fmmu, a: nat) returns (i: nat)
    requires ks != [] && Indices(sm, ks) && f.physStart == sm[ks[0]].start
    requires forall j :: 0 < j < |ks| ==> sm[ks[j]].start == sm[ks[j - 1]].start + sm[ks[j - 1]].length
    requires f.logStart <= a < f.logStart + TotalLength(sm, ks)
    ensures i < |ks| && TotalLength(sm, ks[..i]) <= a - f.logStart < TotalLength(sm, ks[..i]) + sm[ks[i]].length
    ensures f.physStart + (a - f.logStart) == sm[ks[i]].start + (a - f.logStart - TotalLength(sm, ks[..i]))
    decreases |ks|
  {
    var front, last := ks[..|ks| - 1], |ks| - 1;
    Abutting(sm, ks);
    if a - f.logStart >= TotalLength(sm, front) {
      i := last;
    } else {
      i := PhysicalByte(sm, front, f, a);
      assert front[..i] == ks[..i];
    }
  }

  lemma {:induction false} Abutting(sm: seq<Sm>, ks: seq<nat>)
    requires ks != [] && Indices(sm, ks)
    requires forall j :: 0 < j < |ks| ==> sm[ks[j]].start == sm[ks[j - 1]].start + sm[ks[j - 1]].length
    ensures sm[ks[|ks| - 1]].start == sm[ks[0]].start + TotalLength(sm, ks[..|ks| - 1])
    decreases |ks|
  {
    var front := ks[..|ks| - 1];
    if |ks| > 1 {
      Abutting(sm, front);
    }
  }

  lemma {:induction false} ExtendProgresses(sm: seq<Sm>, kind: nat, bits: nat, smc: nat, bitCount: nat, endAddr: nat)
    requires Managers(sm) && CanMap(sm, kind) && smc < EC_MAXSM && 0 < bits < 0x1_0000
    requires Search(sm, kind, smc) == smc && bitCount % 8 == 0
    requires bitCount == 0 ==> Barren(sm, kind, smc) && sm[smc].length == 0
    requires bitCount > 0 && ByteCount(bitCount) == 0 ==> sm[smc].length > 0
    ensures var (s, b) := Extend(sm, kind, bits, smc, bitCount, endAddr);
            Progressing(sm, kind, bits, s, b) && (b == 0 ==> s > smc)
    decreases EC_MAXSM - smc
  {
    hide Search, ByteCount, EndAddr, Extend, CanMap;
    ExtendIs(sm, kind, bits, smc, bitCount, endAddr);
    if bitCount < bits && smc < EC_MAXSM - 1 {
      var s := Search(sm, kind, smc + 1);
      SearchPasses(sm, kind, smc + 1);
      CountGrows(bitCount, sm[s].length);
      if sm[s].start <= endAddr {
        ExtendProgresses(sm, kind, bits, s, bitCount + 8 * sm[s].length, EndAddr(sm[s]));
      }
    } else {
      CountGrows(bitCount, 0);
      SomeoneCanMap(sm, kind, smc, bitCount);
    }
  }

  /** With nothing gathered so far, what the search has passed is not all there is. */
  lemma {:induction false} SomeoneCanMap(sm: seq<Sm>, kind: nat, smc: nat, bitCount: nat)
    requires |sm| == EC_MAXSM && smc < EC_MAXSM && CanMap(sm, kind)
    requires bitCount == 0 ==> Barren(sm, kind, smc) && sm[smc].length == 0
    ensures bitCount == 0 ==> smc < EC_MAXSM - 1
  {
  }

  /** Every round of the mapping loop brings bytes or moves on; after a round without bytes that
      follows a wrapped counter there are bytes again. */
  lemma {:induction false} GatherProgresses(sm: seq<Sm>, kind: nat, bits: nat, smc: nat, bitCount: nat)
    requires Managers(sm) && CanMap(sm, kind) && smc < EC_MAXSM && 0 < bits < 0x1_0000
    requires Progressing(sm, kind, bits, smc, bitCount)
    ensures var (s, b) := Gather(sm, kind, bits, smc, bitCount);
            && Progressing(sm, kind, bits, s, b) && (b == 0 ==> s > smc)
            && (bitCount > 0 && ByteCount(bitCount) == 0 ==> ByteCount(b) > 0)
  {
    hide Search, ByteCount;
    var s := Search(sm, kind, smc);
    SearchPasses(sm, kind, smc);
    CountGrows(bitCount, sm[s].length);
    ExtendProgresses(sm, kind, bits, s, bitCount + 8 * sm[s].length, EndAddr(sm[s]));
  }

  // ---------------------------------------------------------------- the mapping loop

  function RoundUp(pos: nat): nat {
    (pos + 7) / 8 * 8
  }

  /** A byte oriented slave starts at a whole byte, a smaller one right at the cursor. */
  function StartBit(bits: nat, pos: nat): nat {
    if bits > 7 then RoundUp(pos) else pos
  }

  /** Bits of the image a slave occupies. */
  function Width(bits: nat): nat {
    if bits > 7 then 8 * Bytes(bits) else bits
  }

  /** Bytes given to the next window of a byte oriented slave. */
  function WindowSize(bits: nat, bitCount: nat, done: nat): nat
    requires done <= Bytes(bits)
  {
    if ByteCount(bitCount) + done > Bytes(bits) then Bytes(bits) - done else ByteCount(bitCount)
  }

  /** How far the loop is from its end while windows are still due. */
  function Phase(bitCount: nat): nat {
    if bitCount == 0 then 2 else if ByteCount(bitCount) == 0 then 0 else 1
  }

  lemma {:induction false} RoundEndsOrProgresses(sm: seq<Sm>, kind: nat, bits: nat, smc: nat, bitCount: nat, done: nat)
    requires Managers(sm) && CanMap(sm, kind) && smc < EC_MAXSM && 0 < bits < 0x1_0000
    requires Progressing(sm, kind, bits, smc, bitCount) && done < Bytes(bits)
    ensures var (s, b) := Gather(sm, kind, bits, smc, bitCount);
            && Progressing(sm, kind, bits, s, b) && done <= done + WindowSize(bits, b, done) <= Bytes(bits)
            && (WindowSize(bits, b, done) == 0 ==> Phase(b) < Phase(bitCount) || (Phase(b) == Phase(bitCount) && s > smc))
  {
    hide ByteCount, Bytes, Gather, Progressing;
    GatherProgresses(sm, kind, bits, smc, bitCount);
  }

  lemma {:induction false} CoversAppend(fs: seq<Fmmu>, f: Fmmu, from: int)
    requires Covers(fs, from, Begin(f)) && WellFormed(f)
    ensures Covers(fs + [f], from, End(f))
  {
    assert (fs + [f])[..|fs|] == fs;
  }

  lemma {:induction false} CoversNothing(at: int)
    ensures Covers([], at, at)
  {
  }

  /** The window of a slave with less than a byte: right at the cursor, possibly across a byte. */
  method BitWindow(bits: nat, logAddr0: nat, bitPos0: nat, physStart: nat)
    returns (f: Fmmu, logAddr: nat, bitPos: nat)
    requires 0 < bits <= 7 && bitPos0 < 8
    ensures Begin(f) == 8 * logAddr0 + bitPos0 && End(f) == Begin(f) + bits == 8 * logAddr + bitPos
    ensures f.logLength > 0 && bitPos < 8 && f.physStart == physStart && WellFormed(f)
  {
    logAddr, bitPos := logAddr0, bitPos0 + bits - 1;
    if bitPos > 7 {
      logAddr := logAddr + 1;
      bitPos := bitPos - 8;
    }
    f := Fmmu(logAddr0, logAddr - logAddr0 + 1, bitPos0, bitPos, physStart);
    bitPos := bitPos + 1;
    if bitPos > 7 {
      logAddr := logAddr + 1;
      bitPos := bitPos - 8;
    }
  }

  /** A window of a byte oriented slave: from the next whole byte, at most what is still due. */
  method ByteWindow(bytes: nat, done: nat, byteCount: nat, logAddr0: nat, bitPos0: nat, physStart: nat)
    returns (f: Fmmu, logAddr: nat)
    requires done <= bytes && bitPos0 < 8
    ensures Begin(f) == RoundUp(8 * logAddr0 + bitPos0) && End(f) == Begin(f) + 8 * f.logLength == 8 * logAddr
    ensures f.logLength == if byteCount + done > bytes then bytes - done else byteCount
    ensures f.physStart == physStart && WellFormed(f)
  {
    logAddr := logAddr0;
    if bitPos0 > 0 {
      logAddr := logAddr + 1;
    }
    var fmmuSize := byteCount;
    if fmmuSize + done > bytes {
      fmmuSize := bytes - done;
    }
    f := Fmmu(logAddr, fmmuSize, 0, 7, physStart);
    logAddr := logAddr + fmmuSize;
  }

  lemma {:induction false} InitiallyProgressing(sm: seq<Sm>, kind: nat, bits: nat)
    requires Managers(sm)
    ensures |sm| == EC_MAXSM
    ensures Progressing(sm, kind, bits, 0, 0) && ByteCount(0) == 0
  {
  }

  lemma {:induction false} BytesDue(bits: nat)
    requires bits > 0
    ensures (bits + 7) / 8 == if bits > 7 then Bytes(bits) else 1
    ensures Bytes(bits) == 0 <==> bits <= 7
  {
  }

  /** What holds between the windows of a slave that starts at bit `start`. */
  ghost predicate Mapping(bits: nat, start: int, fmmu: seq<Fmmu>, pos: nat, done: nat, counts: bool) {
    if bits > 7 then
      && done <= Bytes(bits) && (done > 0 ==> counts)
      && Covers(fmmu, start, start + 8 * done) && (fmmu == [] ==> done == 0) && (fmmu != [] ==> pos == start + 8 * done)
    else if fmmu == [] then done == 0
    else |fmmu| == 1 && done >= 1 && counts && Covers(fmmu, start, start + bits) && pos == start + bits
  }

  lemma {:induction false} MappingStarts(bits: nat, start: int, pos: nat)
    ensures Mapping(bits, start, [], pos, 0, false)
  {
  }

  lemma {:induction false} MappingBytes(bits: nat, start: int, fmmu: seq<Fmmu>, pos: nat, done: nat, counts: bool,
                                        f: Fmmu, pos': nat)
    requires Mapping(bits, start, fmmu, pos, done, counts) && bits > 7
    requires Begin(f) == (if fmmu == [] then start else pos) && End(f) == Begin(f) + 8 * f.logLength == pos'
    requires done + f.logLength <= Bytes(bits) && WellFormed(f)
    ensures Mapping(bits, start, fmmu + [f], pos', done + f.logLength, counts || f.logLength > 0)
  {
    hide Bytes, Covers;
    CoversAppend(fmmu, f, start);
  }

  lemma {:induction false} MappingBits(bits: nat, start: int, pos: nat, f: Fmmu, pos': nat)
    requires bits <= 7 && Begin(f) == start && End(f) == start + bits == pos' && f.logLength > 0 && WellFormed(f)
    ensures Mapping(bits, start, [f], pos', f.logLength, true)
  {
    hide Covers;
    CoversNothing(start);
    CoversAppend([], f, start);
    assert [] + [f] == [f];
  }

  lemma {:induction false} MappingEnds(bits: nat, start: int, fmmu: seq<Fmmu>, pos: nat, done: nat, counts: bool)
    requires Mapping(bits, start, fmmu, pos, done, counts) && bits > 0 && done >= (bits + 7) / 8
    ensures Covers(fmmu, start, start + Width(bits)) && pos == start + Width(bits)
    ensures counts && (bits <= 7 ==> |fmmu| == 1)
  {
  }

  lemma {:induction false} MappingGoesOn(bits: nat, start: int, fmmu: seq<Fmmu>, pos: nat, done: nat, counts: bool)
    requires Mapping(bits, start, fmmu, pos, done, counts) && bits > 0 && done < (bits + 7) / 8
    ensures if bits > 7 then done < Bytes(bits) else fmmu == [] && done == 0 && !(done > 0)
    ensures bits > 7 ==> Bytes(bits) > 0
  {
  }

  /** The next window, for either kind of slave. */
  method NextWindow(bits: nat, done: nat, ghost bitCount: nat, byteCount: nat, logAddr0: nat, bitPos0: nat, physStart: nat,
                    ghost start: nat, ghost fmmu: seq<Fmmu>, ghost counts: bool)
    returns (f: Fmmu, logAddr: nat, bitPos: nat)
    requires bits > 0 && bitPos0 < 8 && byteCount == ByteCount(bitCount)
    requires Mapping(bits, start, fmmu, 8 * logAddr0 + bitPos0, done, counts) && done < (bits + 7) / 8
    requires if fmmu == [] then start == StartBit(bits, 8 * logAddr0 + bitPos0) else bits > 7 && bitPos0 == 0
    ensures Mapping(bits, start, fmmu + [f], 8 * logAddr + bitPos, done + f.logLength, counts || f.logLength > 0)
    ensures bitPos < 8 && (bits > 7 ==> bitPos == 0 && done <= Bytes(bits) && f.logLength == WindowSize(bits, bitCount, done))
    ensures f.physStart == physStart
  {
    hide ByteCount, Covers, Bytes, Mapping;
    BytesDue(bits);
    MappingGoesOn(bits, start, fmmu, 8 * logAddr0 + bitPos0, done, counts);
    if Bytes(bits) == 0 {
      f, logAddr, bitPos := BitWindow(bits, logAddr0, bitPos0, physStart);
      MappingBits(bits, start, 8 * logAddr0 + bitPos0, f, 8 * logAddr + bitPos);
      assert fmmu + [f] == [f];
    } else {
      f, logAddr := ByteWindow(Bytes(bits), done, byteCount, logAddr0, bitPos0, physStart);
      bitPos := 0;
      MappingBytes(bits, start, fmmu, 8 * logAddr0 + bitPos0, done, counts, f, 8 * logAddr);
    }
  }

  datatype Loop = Loop(smc: nat, bitCount: nat, done: nat)

  ghost predicate InLoop(sm: seq<Sm>, bits: nat, l: Loop) {
    |sm| == EC_MAXSM && l.smc < EC_MAXSM && l.done <= Bytes(bits)
  }

  /** One round of the mapping loop of a byte oriented slave, and `n` rounds. */
  function Round(sm: seq<Sm>, kind: nat, bits: nat, l: Loop): (r: Loop)
    requires InLoop(sm, bits, l)
    ensures InLoop(sm, bits, r)
  {
    var (s, b) := Gather(sm, kind, bits, l.smc, l.bitCount);
    Loop(s, b, l.done + WindowSize(bits, b, l.done))
  }

  function Rounds(sm: seq<Sm>, kind: nat, bits: nat, l: Loop, n: nat): (r: Loop)
    requires InLoop(sm, bits, l)
    ensures InLoop(sm, bits, r)
    decreases n
  {
    if n == 0 then l else Rounds(sm, kind, bits, Round(sm, kind, bits, l), n - 1)
  }

  lemma {:induction false} OneMoreRound(sm: seq<Sm>, kind: nat, bits: nat, l: Loop, n: nat)
    requires InLoop(sm, bits, l)
    ensures Rounds(sm, kind, bits, l, n + 1) == Round(sm, kind, bits, Rounds(sm, kind, bits, l, n))
    decreases n
  {
    hide Round;
    if n > 0 {
      OneMoreRound(sm, kind, bits, Round(sm, kind, bits, l), n - 1);
    } else {
      assert Rounds(sm, kind, bits, Round(sm, kind, bits, l), 0) == Round(sm, kind, bits, l);
    }
  }

  /** Every window points at the sync manager that opened its round, and has the size that fell to it there. */
  ghost predicate Aimed(sm: seq<Sm>, kind: nat, bits: nat, fmmu: seq<Fmmu>) {
    |sm| == EC_MAXSM &&
    forall i :: 0 <= i < |fmmu| ==>
      var l := Rounds(sm, kind, bits, Loop(0, 0, 0), i);
      && fmmu[i].physStart == sm[Search(sm, kind, l.smc)].start
      && (bits > 7 ==> fmmu[i].logLength == Round(sm, kind, bits, l).done - l.done)
  }

  lemma {:induction false} AimedMore(sm: seq<Sm>, kind: nat, bits: nat, fmmu: seq<Fmmu>, f: Fmmu)
    requires Aimed(sm, kind, bits, fmmu) && |sm| == EC_MAXSM
    requires var l := Rounds(sm, kind, bits, Loop(0, 0, 0), |fmmu|);
             && f.physStart == sm[Search(sm, kind, l.smc)].start
             && (bits > 7 ==> f.logLength == Round(sm, kind, bits, l).done - l.done)
    ensures Aimed(sm, kind, bits, fmmu + [f])
  {
    hide Rounds, Round, Search;
  }

  /** What GatherManagers and NextWindow do in one pass through the loop body is one round. */
  lemma {:induction false} RoundTaken(sm: seq<Sm>, kind: nat, bits: nat, fmmu: seq<Fmmu>, l: Loop, smc: nat,
                                      bitCount: nat, f: Fmmu)
    requires |sm| == EC_MAXSM && Aimed(sm, kind, bits, fmmu) && l == Rounds(sm, kind, bits, Loop(0, 0, 0), |fmmu|)
    requires (smc, bitCount) == Gather(sm, kind, bits, l.smc, l.bitCount)
    requires f.physStart == sm[Search(sm, kind, l.smc)].start
    requires bits > 7 ==> f.logLength == WindowSize(bits, bitCount, l.done)
    ensures Aimed(sm, kind, bits, fmmu + [f])
    ensures bits > 7 ==> Rounds(sm, kind, bits, Loop(0, 0, 0), |fmmu| + 1) == Loop(smc, bitCount, l.done + f.logLength)
  {
    hide Rounds, Search, Gather, WindowSize, Aimed;
    OneMoreRound(sm, kind, bits, Loop(0, 0, 0), |fmmu|);
    AimedMore(sm, kind, bits, fmmu, f);
  }

  lemma {:induction false} NothingAimed(sm: seq<Sm>, kind: nat, bits: nat)
    requires |sm| == EC_MAXSM
    ensures Aimed(sm, kind, bits, []) && Rounds(sm, kind, bits, Loop(0, 0, 0), 0) == Loop(0, 0, 0)
  {
  }

  /** One slave's windows: from the cursor (`logAddr0`, `bitPos0`) it gets a run of windows without
      gap or overlap that covers exactly its bits, or its bytes from the next whole byte on. */
  method MapSlave(sm: seq<Sm>, kind: nat, bits: nat, logAddr0: nat, bitPos0: nat)
    returns (fmmu: seq<Fmmu>, logAddr: nat, bitPos: nat, addToWkc: bool)
    requires Managers(sm) && 0 < bits < 0x1_0000 && bitPos0 < 8
    requires bits > 7 ==> CanMap(sm, kind)
    ensures var start := StartBit(bits, 8 * logAddr0 + bitPos0);
            && Covers(fmmu, start, start + Width(bits))
            && 8 * logAddr + bitPos == start + Width(bits)
    ensures bitPos < 8 && (bits > 7 ==> bitPos == 0)
    ensures addToWkc
    ensures bits <= 7 ==> |fmmu| == 1
    ensures fmmu != [] && Aimed(sm, kind, bits, fmmu)
    ensures exists s: nat :: s < |sm| && IsNext(sm, kind, 0, s) && fmmu[0].physStart == sm[s].start
  {
    hide ByteCount, Gather, Progressing, CanMap, Managers, Covers, Phase, Bytes, Mapping, Width, WindowSize, Aimed, Rounds, Round,
         IsNext, Search;
    fmmu, logAddr, bitPos, addToWkc := [], logAddr0, bitPos0, false;
    var bytes := Bytes(bits);
    var smc: nat, byteCount: nat, bitCount: nat, fmmuDone: nat := 0, 0, 0, 0;
    ghost var start: nat := StartBit(bits, 8 * logAddr0 + bitPos0);
    BytesDue(bits);
    InitiallyProgressing(sm, kind, bits);
    NothingAimed(sm, kind, bits);
    MappingStarts(bits, start, 8 * logAddr + bitPos);
    while smc < EC_MAXSM && fmmuDone < (bits + 7) / 8
      invariant smc < EC_MAXSM && bitCount % 8 == 0 && byteCount == ByteCount(bitCount) && bitPos < 8
      invariant bits > 7 ==> Progressing(sm, kind, bits, smc, bitCount)
      invariant Mapping(bits, start, fmmu, 8 * logAddr + bitPos, fmmuDone, addToWkc)
      invariant if fmmu == [] then (logAddr, bitPos) == (logAddr0, bitPos0) else bits > 7 ==> bitPos == 0
      invariant Aimed(sm, kind, bits, fmmu)
      invariant bits > 7 || fmmu == [] ==> Loop(smc, bitCount, fmmuDone) == Rounds(sm, kind, bits, Loop(0, 0, 0), |fmmu|)
      decreases if bits > 7 then bytes - fmmuDone else 1 - |fmmu|, Phase(bitCount), EC_MAXSM - smc
    {
      MappingGoesOn(bits, start, fmmu, 8 * logAddr + bitPos, fmmuDone, addToWkc);
      if bits > 7 {
        RoundEndsOrProgresses(sm, kind, bits, smc, bitCount, fmmuDone);
      }
      var physStart: nat;
      ghost var l := Loop(smc, bitCount, fmmuDone);
      smc, byteCount, bitCount, physStart := GatherManagers(sm, kind, bits, smc, byteCount, bitCount);
      var f: Fmmu;
      f, logAddr, bitPos := NextWindow(bits, fmmuDone, bitCount, byteCount, logAddr, bitPos, physStart, start, fmmu, addToWkc);
      RoundTaken(sm, kind, bits, fmmu, l, smc, bitCount, f);
      fmmuDone := fmmuDone + f.logLength;
      if f.logLength > 0 {
        addToWkc := true;
      }
      fmmu := fmmu + [f];
    }
    MappingEnds(bits, start, fmmu, 8 * logAddr + bitPos, fmmuDone, addToWkc);
    FirstAimed(sm, kind, bits, fmmu);
  }

  lemma {:induction false} FirstAimed(sm: seq<Sm>, kind: nat, bits: nat, fmmu: seq<Fmmu>)
    requires Aimed(sm, kind, bits, fmmu) && fmmu != []
    ensures exists s: nat :: s < |sm| && IsNext(sm, kind, 0, s) && fmmu[0].physStart == sm[s].start
  {
    hide Search, IsNext;
    SearchIsNext(sm, kind, 0);
  }

  /** The sync managers behind each window: group `i` opens where the search stood after the round before, and the window
      points at its first sync manager. */
  ghost predicate Grouped(sm: seq<Sm>, kind: nat, bits: nat, fmmu: seq<Fmmu>, groups: seq<seq<nat>>, smc: seq<nat>,
                          count: seq<nat>) {
    && |sm| == EC_MAXSM && |groups| == |fmmu| && |smc| == |count| == |fmmu| + 1 && smc[0] == 0 == count[0]
    && forall i :: 0 <= i < |fmmu| ==>
         && Collected(sm, kind, bits, smc[i], count[i], groups[i], smc[i + 1], count[i + 1])
         && fmmu[i].physStart == sm[groups[i][0]].start
  }

  /** Every window points at the first of the sync managers that were gathered for it. */
  lemma {:induction false} WindowsPointAtGroups(sm: seq<Sm>, kind: nat, bits: nat, fmmu: seq<Fmmu>)
    returns (groups: seq<seq<nat>>, smc: seq<nat>, count: seq<nat>)
    requires Aimed(sm, kind, bits, fmmu) && |sm| == EC_MAXSM
    ensures Grouped(sm, kind, bits, fmmu, groups, smc, count)
    ensures var l := Rounds(sm, kind, bits, Loop(0, 0, 0), |fmmu|); smc[|fmmu|] == l.smc && count[|fmmu|] == l.bitCount
    decreases |fmmu|
  {
    hide Search, Collected, Gather, Rounds;
    NothingAimed(sm, kind, bits);
    if fmmu == [] {
      groups, smc, count := [], [0], [0];
    } else {
      var n := |fmmu| - 1;
      assert Aimed(sm, kind, bits, fmmu[..n]);
      groups, smc, count := WindowsPointAtGroups(sm, kind, bits, fmmu[..n]);
      var l := Rounds(sm, kind, bits, Loop(0, 0, 0), n);
      OneMoreRound(sm, kind, bits, Loop(0, 0, 0), n);
      var ks := GatherCollects(sm, kind, bits, l.smc, l.bitCount);
      var r := Gather(sm, kind, bits, l.smc, l.bitCount);
      groups, smc, count := groups + [ks], smc + [r.0], count + [r.1];
    }
  }

  // ---------------------------------------------------------------- exactly when the loop ends

  lemma {:induction false} RoundsFinish(sm: seq<Sm>, kind: nat, bits: nat, l: Loop) returns (n: nat)
    requires InLoop(sm, bits, l) && Managers(sm) && CanMap(sm, kind) && 7 < bits < 0x1_0000
    requires Progressing(sm, kind, bits, l.smc, l.bitCount)
    ensures Rounds(sm, kind, bits, l, n).done == Bytes(bits)
    decreases Bytes(bits) - l.done, Phase(l.bitCount), EC_MAXSM - l.smc
  {
    hide Gather, Progressing, ByteCount, CanMap, Managers;
    if l.done == Bytes(bits) {
      n := 0;
    } else {
      RoundEndsOrProgresses(sm, kind, bits, l.smc, l.bitCount, l.done);
      n := RoundsFinish(sm, kind, bits, Round(sm, kind, bits, l));
      n := n + 1;
    }
  }

  lemma {:induction false} ExtendStarves(sm: seq<Sm>, kind: nat, bits: nat, smc: nat, endAddr: nat)
    requires |sm| == EC_MAXSM && smc < EC_MAXSM && !CanMap(sm, kind)
    ensures Extend(sm, kind, bits, smc, 0, endAddr).1 == 0
    decreases EC_MAXSM - smc
  {
    hide CanMap, Search, Extend, EndAddr;
    ExtendIs(sm, kind, bits, smc, 0, endAddr);
    if 0 < bits && smc < EC_MAXSM - 1 {
      var s := Search(sm, kind, smc + 1);
      SearchPasses(sm, kind, smc + 1);
      StarvedManager(sm, kind, s);
      ExtendStarves(sm, kind, bits, s, EndAddr(sm[s]));
    }
  }

  lemma {:induction false} RoundsStarve(sm: seq<Sm>, kind: nat, bits: nat, l: Loop, n: nat)
    requires InLoop(sm, bits, l) && !CanMap(sm, kind) && l.bitCount == 0
    ensures Rounds(sm, kind, bits, l, n).done == l.done
    decreases n
  {
    hide CanMap, Extend, Search;
    if n > 0 {
      var s := Search(sm, kind, l.smc);
      SearchPasses(sm, kind, l.smc);
      StarvedManager(sm, kind, s);
      ExtendStarves(sm, kind, bits, s, EndAddr(sm[s]));
      RoundsStarve(sm, kind, bits, Round(sm, kind, bits, l), n - 1);
    }
  }

  lemma {:induction false} StarvedManager(sm: seq<Sm>, kind: nat, s: nat)
    requires |sm| == EC_MAXSM && s < EC_MAXSM && !CanMap(sm, kind)
    requires s == EC_MAXSM - 1 || sm[s].kind == kind
    ensures sm[s].length == 0
  {
  }

  /** The mapping loop of a byte oriented slave ends if and only if a sync manager that the search
      can reach has bytes to give. */
  lemma {:induction false} LoopEndsIffCanMap(sm: seq<Sm>, kind: nat, bits: nat)
    requires Managers(sm) && 7 < bits < 0x1_0000
    ensures (exists n :: Rounds(sm, kind, bits, Loop(0, 0, 0), n).done == Bytes(bits)) <==> CanMap(sm, kind)
  {
    if CanMap(sm, kind) {
      var n := RoundsFinish(sm, kind, bits, Loop(0, 0, 0));
    } else {
      forall n: nat ensures Rounds(sm, kind, bits, Loop(0, 0, 0), n).done == 0 {
        RoundsStarve(sm, kind, bits, Loop(0, 0, 0), n);
      }
    }
  }

  lemma {:induction false} ExtendWholeBytes(sm: seq<Sm>, kind: nat, bits: nat, smc: nat, bitCount: nat, endAddr: nat)
    requires |sm| == EC_MAXSM && smc < EC_MAXSM && bitCount % 8 == 0
    ensures Extend(sm, kind, bits, smc, bitCount, endAddr).1 % 8 == 0
    decreases EC_MAXSM - smc
  {
    hide Search, EndAddr, ByteCount;
    if bitCount < bits && smc < EC_MAXSM - 1 {
      var s := Search(sm, kind, smc + 1);
      CountGrows(bitCount, sm[s].length);
      ExtendWholeBytes(sm, kind, bits, s, bitCount + 8 * sm[s].length, EndAddr(sm[s]));
    }
  }

  /** Bytes of the sync managers gathered in the round from `l`. */
  function GroupSize(sm: seq<Sm>, kind: nat, bits: nat, l: Loop): nat
    requires InLoop(sm, bits, l)
  {
    (Gather(sm, kind, bits, l.smc, l.bitCount).1 - l.bitCount) / 8
  }

  lemma {:induction false} CountOfGroup(bitCount: nat, more: nat)
    requires bitCount % 8 == 0 && more % 8 == 0
    ensures ByteCount(bitCount + more) == (ByteCount(bitCount) + more / 8) % 0x1_0000
  {
    CountGrows(bitCount, more / 8);
  }

  /**
   * The byte counter keeps running across the windows of a slave, so the window of a round has the size of the group of
   * sync managers gathered for it only in the first round, as far as bytes are due, and later exactly when these are all
   * the bytes that are still due (and the counter does not run over).
   */
  lemma {:induction false} WindowIsItsGroupIff(sm: seq<Sm>, kind: nat, bits: nat, l: Loop)
    requires InLoop(sm, bits, l) && l.bitCount % 8 == 0 && bits < 0x1_0000
    ensures var g := GroupSize(sm, kind, bits, l);
            Round(sm, kind, bits, l).done - l.done == g <==>
            if ByteCount(l.bitCount) == 0 then l.done + g <= Bytes(bits)
            else l.done + g == Bytes(bits) && ByteCount(l.bitCount) + g < 0x1_0000
  {
    hide Gather, ByteCount, WindowSize, Bytes;
    GatherWholeBytes(sm, kind, bits, l.smc, l.bitCount);
    var b := Gather(sm, kind, bits, l.smc, l.bitCount).1;
    DifferenceOfBytes(l.bitCount, b);
    CountOfGroup(l.bitCount, b - l.bitCount);
    WindowOfGroup(bits, l.bitCount, b, l.done);
  }

  lemma {:induction false} GatherWholeBytes(sm: seq<Sm>, kind: nat, bits: nat, smc: nat, bitCount: nat)
    requires |sm| == EC_MAXSM && smc < EC_MAXSM && bitCount % 8 == 0
    ensures Gather(sm, kind, bits, smc, bitCount).1 % 8 == 0
  {
    hide Search, Extend, ByteCount, EndAddr;
    var s := Search(sm, kind, smc);
    CountGrows(bitCount, sm[s].length);
    ExtendWholeBytes(sm, kind, bits, s, bitCount + 8 * sm[s].length, EndAddr(sm[s]));
  }

  lemma {:induction false} DifferenceOfBytes(before: nat, after: nat)
    requires before % 8 == 0 && after % 8 == 0 && before <= after
    ensures (after - before) % 8 == 0
  {
  }

  lemma {:induction false} WindowOfGroup(bits: nat, before: nat, after: nat, done: nat)
    requires done <= Bytes(bits) && bits < 0x1_0000 && before <= after
    requires ByteCount(after) == (ByteCount(before) + (after - before) / 8) % 0x1_0000
    ensures var g := (after - before) / 8;
            WindowSize(bits, after, done) == g <==>
            if ByteCount(before) == 0 then done + g <= Bytes(bits)
            else done + g == Bytes(bits) && ByteCount(before) + g < 0x1_0000
  {
    assert Bytes(bits) <= 0x2000;
    CountBounded(before);
    hide ByteCount;
  }

  lemma {:induction false} CountBounded(bitCount: nat)
    ensures ByteCount(bitCount) < 0x1_0000
  {
  }

  /** A slave with three separate groups of two bytes and three windows to expect. */
  function ThreeGroups(): seq<Sm> {
    [Sm(0x1000, 2, SM_OUTPUTS), Sm(0x1100, 2, SM_OUTPUTS), Sm(0x1200, 2, SM_OUTPUTS),
     Sm(0, 0, 0), Sm(0, 0, 0), Sm(0, 0, 0), Sm(0, 0, 0), Sm(0, 0, 0)]
  }

  /** It gets two: the second takes four bytes from the two-byte group, and the third group is never reached. */
  lemma {:induction false} ThirdGroupGetsNoWindow()
    ensures var sm := ThreeGroups();
            InLoop(sm, 48, Loop(0, 0, 0)) && Bytes(48) == 6 &&
            Round(sm, SM_OUTPUTS, 48, Loop(0, 0, 0)) == Loop(1, 16, 2) &&
            GroupSize(sm, SM_OUTPUTS, 48, Loop(1, 16, 2)) == 2 &&
            Round(sm, SM_OUTPUTS, 48, Loop(1, 16, 2)) == Loop(2, 32, 6)
  {
    hide Search, Extend;
    var sm := ThreeGroups();
    SearchHere(sm, SM_OUTPUTS, 0);
    SearchHere(sm, SM_OUTPUTS, 1);
    SearchHere(sm, SM_OUTPUTS, 2);
    ExtendIs(sm, SM_OUTPUTS, 48, 0, 16, 0x1002);
    ExtendIs(sm, SM_OUTPUTS, 48, 1, 32, 0x1102);
  }

  lemma {:induction false} SearchHere(sm: seq<Sm>, kind: nat, smc: nat)
    requires |sm| == EC_MAXSM && smc < EC_MAXSM && sm[smc].kind == kind
    ensures Search(sm, kind, smc) == smc
  {
  }
}
