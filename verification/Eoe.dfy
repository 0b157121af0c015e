// Ethernet over EtherCAT: cutting an Ethernet frame into mailbox fragments and putting it together
// again (ecx_EOEsend, ecx_EOEreadfragment, ecx_EOErecv; section 5.7 of ETG.1000.6).
module Eoe {
  import opened Bytes

  /** A mailbox with the type field of its header, the two frame information words and the data. */
  datatype Fragment = Fragment(eoe: bool, info1: nat, info2: nat, data: Data)

  const UNEXPECTED: int := -1
  const INVALID_RX_DATA: int := -2

  // Fields of the frame information words.

  function Port(info1: nat): nat { info1 / 16 % 16 }

  predicate IsLast(info1: nat) { info1 / 0x100 % 2 == 1 }

  predicate TimeAppended(info1: nat) { info1 / 0x200 % 2 == 1 }

  function FragNo(info2: nat): nat { info2 % 64 }

  function OffsetField(info2: nat): nat { info2 / 64 % 64 }

  function FrameNo(info2: nat): nat { info2 / 4096 % 16 }

  function Info1(port: nat, last: bool): nat {
    port % 16 * 16 + if last then 0x100 else 0
  }

  function Info2(fragment: nat, offset: nat, frame: nat): nat {
    fragment % 64 + offset % 64 * 64 + frame % 16 * 4096
  }

  lemma {:induction false} InfoFields(port: nat, last: bool, fragment: nat, offset: nat, frame: nat)
    ensures Port(Info1(port, last)) == port % 16 && IsLast(Info1(port, last)) == last && !TimeAppended(Info1(port, last))
    ensures var i := Info2(fragment, offset, frame);
            FragNo(i) == fragment % 64 && OffsetField(i) == offset % 64 && FrameNo(i) == frame % 16
  {
    var f, o, n := fragment % 64, offset % 64, frame % 16;
    assert (f + o * 64 + n * 4096) / 64 == o + n * 64;
    assert (f + o * 64 + n * 4096) / 4096 == n;
  }

  /** Blocks of 32 bytes that a frame needs. */
  function Blocks(n: nat): nat {
    (n + 31) / 32
  }

  /** Data of every fragment but the last, for mailboxes with room for `room` bytes. */
  function Chunk(room: nat): nat {
    room / 32 * 32
  }

  /** Whole fragments before the last one. */
  function Step(room: nat, left: nat): (size: nat)
    requires room >= 32 || left <= room
    ensures size <= left && size <= room
    ensures left <= room ==> size == left
    ensures left > room ==> 32 <= size < left && size % 32 == 0
  {
    if left > room then Chunk(room) else left
  }

  /** The fragment that starts at `offset`, number `no` of a frame whose number was `frame` at first. The source counts
      fragments in eight bits, and whenever the count is zero it takes a new frame number and writes the size. */
  function Cut(port: nat, frame: nat, data: Data, room: nat, offset: nat, no: nat): Fragment
    requires offset <= |data| && (room >= 32 || |data| - offset <= room)
  {
    var size := Step(room, |data| - offset);
    Fragment(true, Info1(port, size == |data| - offset),
             Info2(no % 0x100, if no % 0x100 > 0 then offset / 32 else Blocks(|data|), frame + no / 0x100),
             data[offset..offset + size])
  }

  /** The fields of the first 256 fragments. */
  lemma {:induction false} CutFields(port: nat, frame: nat, data: Data, room: nat, offset: nat, no: nat)
    requires offset <= |data| && (room >= 32 || |data| - offset <= room) && no < 0x100
    ensures var f := Cut(port, frame, data, room, offset, no);
            f.eoe && Port(f.info1) == port % 16 && !TimeAppended(f.info1) && FragNo(f.info2) == no % 64 &&
            (IsLast(f.info1) <==> Step(room, |data| - offset) == |data| - offset) &&
            OffsetField(f.info2) == (if no > 0 then offset / 32 else Blocks(|data|)) % 64 && FrameNo(f.info2) == frame % 16 &&
            f.data == data[offset..offset + Step(room, |data| - offset)]
  {
    hide Info1, Info2, Port, IsLast, TimeAppended, FragNo, OffsetField, FrameNo, Step, Blocks;
    InfoFields(port, Step(room, |data| - offset) == |data| - offset, no, if no > 0 then offset / 32 else Blocks(|data|), frame);
  }

  /** The fragments of `data` from `offset` on, the next one being number `no`. */
  function Fragments(port: nat, frame: nat, data: Data, room: nat, offset: nat, no: nat): (s: seq<Fragment>)
    requires offset <= |data| && (room >= 32 || |data| - offset <= room)
    ensures |s| >= 1
    decreases |data| - offset, 1
  {
    [Cut(port, frame, data, room, offset, no)] + Rest(port, frame, data, room, offset, no)
  }

  /** What follows the fragment at `offset`. */
  function Rest(port: nat, frame: nat, data: Data, room: nat, offset: nat, no: nat): seq<Fragment>
    requires offset <= |data| && (room >= 32 || |data| - offset <= room)
    decreases |data| - offset, 0
  {
    var size := Step(room, |data| - offset);
    if size == |data| - offset then [] else Fragments(port, frame, data, room, offset + size, no + 1)
  }

  lemma {:induction false} NextFragment(port: nat, frame: nat, data: Data, room: nat, offset: nat, no: nat,
                                        sent: seq<Fragment>)
    requires offset <= |data| && (room >= 32 || |data| - offset <= room)
    ensures sent + Fragments(port, frame, data, room, offset, no) ==
            sent + [Cut(port, frame, data, room, offset, no)] + Rest(port, frame, data, room, offset, no)
  {
    hide Cut, Step, Rest;
    var f := Cut(port, frame, data, room, offset, no);
    var rest := Rest(port, frame, data, room, offset, no);
    assert sent + ([f] + rest) == sent + [f] + rest;
  }

  class Sender {
    var txframeno: Byte

    constructor () { txframeno := 0; }

    /** One fragment: its length, its information words, its data. */
    method MakeFragment(port: nat, data: Data, maxdata: nat, txfragmentno: nat, txframeoffset: nat,
                        ghost before: Byte, ghost no: nat)
      returns (f: Fragment, last: bool)
      requires txframeoffset <= |data| && (maxdata >= 32 || |data| - txframeoffset <= maxdata)
      requires txframeno == FrameAfter(before, no) && txfragmentno == no % 0x100
      modifies this
      ensures txframeno == FrameAfter(before, no + 1)
      ensures f == Cut(port, (before + 1) % 0x100, data, maxdata, txframeoffset, no)
      ensures last <==> |f.data| == |data| - txframeoffset
    {
      hide FrameAfter;
      var txframesize := |data| - txframeoffset;
      if txframesize > maxdata {
        txframesize := maxdata / 32 * 32;
      }
      last := txframesize == |data| - txframeoffset;
      var frameinfo1 := port % 16 * 16 + if last then 0x100 else 0;
      FrameNumbers(before, no);
      var offset: nat;
      if txfragmentno > 0 {
        offset := txframeoffset / 32;
      } else {
        offset := (|data| + 31) / 32;
        txframeno := (txframeno + 1) % 0x100;
      }
      var frameinfo2 := txfragmentno % 64 + offset % 64 * 64 + txframeno % 16 * 4096;
      f := Fragment(true, frameinfo1, frameinfo2, data[txframeoffset..txframeoffset + txframesize]);
    }

    /** ecx_EOEsend; the slave's mailbox takes the first `accepted` fragments, and `mbxl` is its length. */
    method EoeSend(port: nat, data: Data, mbxl: nat, accepted: nat) returns (wkc: int, sent: seq<Fragment>)
      requires mbxl >= 0x0a && (mbxl - 0x0a >= 32 || |data| <= mbxl - 0x0a)
      modifies this
      ensures var all := Fragments(port, (old(txframeno) + 1) % 0x100, data, mbxl - 0x0a, 0, 0);
              if |all| <= accepted then wkc == 1 && sent == all else wkc == 0 && sent == all[..accepted]
      ensures txframeno == FrameAfter(old(txframeno), if wkc == 1 then |sent| else |sent| + 1)
    {
      hide Fragments, Cut, FrameAfter, Step, Sending;
      var maxdata := mbxl - 0x0a;
      var txfragmentno: nat, txframeoffset: nat, notLast := 0, 0, true;
      ghost var frame := (txframeno + 1) % 0x100;
      ghost var all := Fragments(port, frame, data, maxdata, 0, 0);
      wkc, sent := 1, [];
      NoFrameYet(txframeno);
      NothingSent(port, frame, data, maxdata);
      while notLast
        invariant wkc == 1 && |sent| <= accepted && (notLast ==> txfragmentno == |sent| % 0x100)
        invariant txframeno == FrameAfter(old(txframeno), |sent|)
        invariant if notLast then Sending(all, sent, port, frame, data, maxdata, txframeoffset) else sent == all
        decreases notLast, |data| - txframeoffset
      {
        SendNext(all, sent, port, frame, data, maxdata, txframeoffset);
        var f, last := MakeFragment(port, data, maxdata, txfragmentno, txframeoffset, old(txframeno), |sent|);
        notLast := !last;
        if |sent| == accepted {
          return 0, sent;
        }
        OneMoreModulo(|sent|);
        sent := sent + [f];
        if notLast {
          txframeoffset := txframeoffset + |f.data|;
          txfragmentno := (txfragmentno + 1) % 0x100;
        }
      }
      assert all[..|all|] == all;
    }
  }

  /** Part of the fragments is out, the rest starts at `offset`. */
  ghost predicate Sending(all: seq<Fragment>, sent: seq<Fragment>, port: nat, frame: nat, data: Data, room: nat,
                          offset: nat) {
    && offset <= |data| && (room >= 32 || |data| - offset <= room)
    && all == sent + Fragments(port, frame, data, room, offset, |sent|)
  }

  lemma {:induction false} NothingSent(port: nat, frame: nat, data: Data, room: nat)
    requires room >= 32 || |data| <= room
    ensures Sending(Fragments(port, frame, data, room, 0, 0), [], port, frame, data, room, 0)
  {
    hide Fragments;
    var all := Fragments(port, frame, data, room, 0, 0);
    assert [] + all == all;
  }

  lemma {:induction false} SendNext(all: seq<Fragment>, sent: seq<Fragment>, port: nat, frame: nat, data: Data,
                                    room: nat, offset: nat)
    requires Sending(all, sent, port, frame, data, room, offset)
    ensures offset <= |data| && (room >= 32 || |data| - offset <= room) && |sent| < |all| && all[..|sent|] == sent
    ensures var f := Cut(port, frame, data, room, offset, |sent|);
            |f.data| <= |data| - offset &&
            if |f.data| == |data| - offset then all == sent + [f]
            else |f.data| > 0 && Sending(all, sent + [f], port, frame, data, room, offset + |f.data|)
  {
    hide Cut, Step, Fragments;
    NextFragment(port, frame, data, room, offset, |sent|, sent);
    CutLength(port, frame, data, room, offset, |sent|);
    var f := Cut(port, frame, data, room, offset, |sent|);
    assert all[..|sent|] == sent;
    assert sent + [f] + [] == sent + [f];
  }

  /** The frame number once `count` fragments have been made. */
  function FrameAfter(before: Byte, count: nat): nat {
    (before + (count + 0xff) / 0x100) % 0x100
  }

  lemma {:induction false} NoFrameYet(before: Byte)
    ensures FrameAfter(before, 0) == before
  {
  }

  lemma {:induction false} CutLength(port: nat, frame: nat, data: Data, room: nat, offset: nat, no: nat)
    requires offset <= |data| && (room >= 32 || |data| - offset <= room)
    ensures |Cut(port, frame, data, room, offset, no).data| == Step(room, |data| - offset)
  {
    hide Info1, Info2, Step, Blocks;
  }

  lemma {:induction false} SixteenthsVanish(y: nat, k: nat)
    ensures (y + 0x100 * k) % 16 == y % 16
  {
    var q, r := y / 16, y % 16;
    LowDigitIs(y + 0x100 * k, q + 16 * k, r);
  }

  lemma {:induction false} LowDigitIs(x: nat, q: nat, r: nat)
    requires x == 16 * q + r && r < 16
    ensures x % 16 == r
  {
  }

  lemma {:induction false} LowDigit(x: nat)
    ensures x % 0x100 % 16 == x % 16
  {
    SixteenthsVanish(x % 0x100, x / 0x100);
  }

  lemma {:induction false} Hundreds(no: nat)
    ensures (no + 0x100) / 0x100 == no / 0x100 + 1
    ensures (no + 0xff) / 0x100 == if no % 0x100 > 0 then no / 0x100 + 1 else no / 0x100
  {
  }

  lemma {:induction false} OneMoreModulo(x: nat)
    ensures (x + 1) % 0x100 == (x % 0x100 + 1) % 0x100
  {
  }

  lemma {:induction false} FrameAfterIs(before: Byte, no: nat)
    ensures FrameAfter(before, no + 1) == (before + no / 0x100 + 1) % 0x100
    ensures FrameAfter(before, no) == (before + no / 0x100 + if no % 0x100 > 0 then 1 else 0) % 0x100
  {
    Hundreds(no);
  }

  lemma {:induction false} LowDigitOfNumber(before: Byte, q: nat)
    ensures (before + q + 1) % 16 == ((before + 1) % 0x100 + q) % 16
  {
    if before == 0xff {
      SixteenthsVanish(q, 1);
    }
  }

  /** The frame number changes with every fragment whose eight-bit count is zero. */
  lemma {:induction false} FrameNumbers(before: Byte, no: nat)
    ensures FrameAfter(before, no + 1) == if no % 0x100 > 0 then FrameAfter(before, no) else (FrameAfter(before, no) + 1) % 0x100
    ensures FrameAfter(before, no + 1) % 16 == ((before + 1) % 0x100 + no / 0x100) % 16
  {
    hide FrameAfter;
    FrameAfterIs(before, no);
    OneMoreModulo(before + no / 0x100);
    LowDigit(before + no / 0x100 + 1);
    LowDigitOfNumber(before, no / 0x100);
  }

  ghost predicate AllNumbered(s: seq<Fragment>, frameno: nat) {
    forall i :: 0 <= i < |s| ==> FrameNo(s[i].info2) == frameno
  }

  lemma {:induction false} FragmentsCarryFrame(port: nat, frame: nat, data: Data, room: nat, offset: nat, no: nat)
    requires offset <= |data| && (room >= 32 || |data| - offset <= room)
    requires no + |Fragments(port, frame, data, room, offset, no)| <= 0x100
    ensures AllNumbered(Fragments(port, frame, data, room, offset, no), frame % 16)
    decreases |data| - offset
  {
    hide Cut, FrameNo, Step;
    var size := Step(room, |data| - offset);
    CutFields(port, frame, data, room, offset, no);
    if size != |data| - offset {
      FragmentsCarryFrame(port, frame, data, room, offset + size, no + 1);
    }
  }

  lemma {:induction false} NumbersDiffer(n: nat)
    ensures (n + 1) % 0x100 % 16 != ((n + 1) % 0x100 + 1) % 0x100 % 16
  {
    LowDigit(n + 1);
    LowDigit((n + 1) % 0x100 + 1);
  }

  /** Two frames sent one after the other can be told apart: their fragments, as long as they are at most 256 each, carry
      one frame number each, and not the same. */
  lemma {:induction false} FramesAreToldApart(port: nat, before: Byte, data: Data, room: nat, port': nat, data': Data,
                                              room': nat)
    requires (room >= 32 || |data| <= room) && (room' >= 32 || |data'| <= room')
    ensures var s := Fragments(port, (before + 1) % 0x100, data, room, 0, 0);
            var now := FrameAfter(before, |s|);
            var t := Fragments(port', (now + 1) % 0x100, data', room', 0, 0);
            |s| <= 0x100 && |t| <= 0x100 ==>
              exists n, m :: n != m && AllNumbered(s, n) && AllNumbered(t, m)
  {
    hide FrameAfter, AllNumbered, Fragments;
    var s := Fragments(port, (before + 1) % 0x100, data, room, 0, 0);
    var now := FrameAfter(before, |s|);
    var t := Fragments(port', (now + 1) % 0x100, data', room', 0, 0);
    if |s| <= 0x100 && |t| <= 0x100 {
      OneNumber(before, |s|);
      FragmentsCarryFrame(port, (before + 1) % 0x100, data, room, 0, 0);
      FragmentsCarryFrame(port', (now + 1) % 0x100, data', room', 0, 0);
      NumbersDiffer(before);
    }
  }

  lemma {:induction false} OneNumber(before: Byte, count: nat)
    requires 0 < count <= 0x100
    ensures FrameAfter(before, count) == (before + 1) % 0x100
  {
  }

  // The non-blocking receiver: one fragment a call, state kept by the caller.

  /** The in/out arguments of ecx_EOEreadfragment; `size` is the room on entry and the length found at the end. */
  datatype Rx = Rx(fragmentno: nat, framesize: nat, frameoffset: nat, frameno: nat, size: nat, buf: Data) {
    predicate Valid() { size <= |buf| }

    function Idle(): Rx { this.(fragmentno := 0, framesize := 0, frameoffset := 0, frameno := 0) }
  }

  /** Copying the data of a fragment that belongs at the current position, and closing the frame. */
  function Take(r: Rx, f: Fragment): (Rx, int)
    requires r.Valid()
  {
    var fits := r.frameoffset + |f.data| <= r.framesize && r.frameoffset + |f.data| <= r.size;
    var q := if fits
             then r.(buf := Splice(r.buf, r.frameoffset, f.data), frameoffset := (r.frameoffset + |f.data|) % 0x10000,
                     fragmentno := (r.fragmentno + 1) % 0x100)
             else r;
    if IsLast(f.info1)
    then (q.Idle().(size := if TimeAppended(f.info1) then (q.frameoffset - 4) % 0x10000 else q.frameoffset), 1)
    else (q, 0)
  }

  function ReadStep(r: Rx, f: Fragment): (z: (Rx, int))
    requires r.Valid()
    ensures |z.0.buf| == |r.buf| && (z.1 != 1 ==> z.0.size == r.size)
  {
    if !f.eoe then (r, UNEXPECTED) else
    var no := FragNo(f.info2);
    var s := if r.fragmentno != no && r.fragmentno != 0 then r.Idle() else r;
    if r.fragmentno != no && no > 0 then (s, INVALID_RX_DATA)
    else if s.fragmentno == 0
    then Take(s.(framesize := OffsetField(f.info2) * 32, frameoffset := 0, frameno := FrameNo(f.info2)), f)
    else if s.frameno != FrameNo(f.info2) || s.frameoffset != OffsetField(f.info2) * 32 then (s.Idle(), INVALID_RX_DATA)
    else Take(s, f)
  }

  class Reader {
    var rxfragmentno: nat
    var rxframesize: nat
    var rxframeoffset: nat
    var rxframeno: nat
    var psize: nat
    const buf: array<Byte>

    constructor (buf: array<Byte>)
      ensures this.buf == buf && psize == buf.Length
    {
      this.buf := buf;
      psize := buf.Length;
      rxfragmentno, rxframesize, rxframeoffset, rxframeno := 0, 0, 0, 0;
    }

    ghost function State(): Rx
      reads this, buf
    {
      Rx(rxfragmentno, rxframesize, rxframeoffset, rxframeno, psize, buf[..])
    }

    method Reset()
      modifies `rxfragmentno, `rxframesize, `rxframeoffset, `rxframeno
      ensures State() == old(State()).Idle()
    {
      rxfragmentno, rxframesize, rxframeoffset, rxframeno := 0, 0, 0, 0;
    }

    /** The bounds check, the copy and the end of the frame. */
    method Finish(f: Fragment) returns (wkc: int)
      requires State().Valid()
      modifies this, buf
      ensures (State(), wkc) == Take(old(State()), f)
    {
      wkc := 0;
      if rxframeoffset + |f.data| <= rxframesize && rxframeoffset + |f.data| <= psize {
        CopyInto(buf, rxframeoffset, f.data);
        rxframeoffset := (rxframeoffset + |f.data|) % 0x10000;
        rxfragmentno := (rxfragmentno + 1) % 0x100;
      }
      if IsLast(f.info1) {
        if TimeAppended(f.info1) {
          rxframeoffset := (rxframeoffset - 4) % 0x10000;
        }
        psize := rxframeoffset;
        Reset();
        wkc := 1;
      }
    }

    /** ecx_EOEreadfragment. */
    method EoeReadFragment(f: Fragment) returns (wkc: int)
      requires State().Valid()
      modifies this, buf
      ensures (State(), wkc) == ReadStep(old(State()), f)
    {
      hide IsLast, TimeAppended, Splice;
      if !f.eoe {
        return UNEXPECTED;
      }
      if rxfragmentno != FragNo(f.info2) {
        if rxfragmentno != 0 {
          Reset();
        }
        if FragNo(f.info2) > 0 {
          return INVALID_RX_DATA;
        }
      }
      if rxfragmentno == 0 {
        rxframesize := OffsetField(f.info2) * 32;
        rxframeoffset := 0;
        rxframeno := FrameNo(f.info2);
      } else if rxframeno != FrameNo(f.info2) {
        Reset();
        return INVALID_RX_DATA;
      } else if rxframeoffset != OffsetField(f.info2) * 32 {
        Reset();
        return INVALID_RX_DATA;
      }
      wkc := Finish(f);
    }
  }

  /** One call per fragment, until a frame is complete. */
  function Feed(r: Rx, s: seq<Fragment>): (Rx, seq<int>)
    requires r.Valid()
    decreases |s|
  {
    if s == [] then (r, []) else
    var (q, code) := ReadStep(r, s[0]);
    if code == 1 then (q, [code]) else
    var (z, codes) := Feed(q, s[1..]);
    (z, [code] + codes)
  }

  /** Every call but the last says "more", the last says "frame complete", and the frame is there. */
  predicate Delivered(r: (Rx, seq<int>), data: Data, calls: nat) {
    var (q, codes) := r;
    |codes| == calls > 0 && codes[calls - 1] == 1 && (forall i :: 0 <= i < calls - 1 ==> codes[i] == 0) &&
    q.size == |data| <= |q.buf| && q.buf[..|data|] == data
  }

  lemma {:induction false} Undelivered(r: Rx, s: seq<Fragment>, data: Data)
    requires r.Valid() && s != []
    requires ReadStep(r, s[0]).1 != 1
    ensures Delivered(Feed(r, s), data, |s|)
       <==> ReadStep(r, s[0]).1 == 0 && Delivered(Feed(ReadStep(r, s[0]).0, s[1..]), data, |s| - 1)
  {
    hide ReadStep;
    var (q, code) := ReadStep(r, s[0]);
    var (z, codes) := Feed(q, s[1..]);
    assert Feed(r, s) == (z, [code] + codes);
    if Delivered(Feed(r, s), data, |s|) {
      assert ([code] + codes)[0] == 0;
      forall i | 0 <= i < |codes| - 1 ensures codes[i] == 0 {
        assert ([code] + codes)[i + 1] == 0;
      }
    }
  }

  /** The state after `no` fragments of `data` have been taken; nothing is asked before the first one. */
  predicate Taken(r: Rx, frame: nat, data: Data, offset: nat, no: nat) {
    && |data| <= r.size <= |r.buf| && offset % 32 == 0 && no * 32 <= offset <= |data|
    && (no == 0 ==> offset == 0)
    && (no > 0 ==> r.fragmentno == no && r.frameoffset == offset && r.framesize == Blocks(|data|) * 32 &&
                   r.frameno == frame % 16 && r.buf[..offset] == data[..offset])
  }

  /** Which states let a fragment reach the copy. */
  lemma {:induction false} Accepts(r: Rx, s: Rx, f: Fragment)
    requires r.Valid() && f.eoe && s.fragmentno == FragNo(f.info2)
    requires s.size == r.size && s.buf == r.buf && s.frameno == FrameNo(f.info2)
    requires FragNo(f.info2) == 0 ==> s.frameoffset == 0 && s.framesize == OffsetField(f.info2) * 32
    requires FragNo(f.info2) != 0 ==> r == s && s.frameoffset == OffsetField(f.info2) * 32
    ensures ReadStep(r, f) == Take(s, f)
  {
    hide Take, FragNo, OffsetField, FrameNo;
  }

  lemma {:induction false} TakeFits(s: Rx, f: Fragment)
    requires s.Valid() && !TimeAppended(f.info1) && s.fragmentno < 0xff
    requires s.frameoffset + |f.data| <= s.framesize < 0x10000 && s.frameoffset + |f.data| <= s.size
    ensures var q := s.(buf := Splice(s.buf, s.frameoffset, f.data), frameoffset := s.frameoffset + |f.data|,
                        fragmentno := s.fragmentno + 1);
            Take(s, f) == if IsLast(f.info1) then (q.Idle().(size := q.frameoffset), 1) else (q, 0)
  {
    hide IsLast, TimeAppended, Splice;
  }

  /** The six-bit fields hold the fragment number, the position and the size of a frame of at most 2016 bytes. */
  lemma {:induction false} FieldsAreWideEnough(n: nat, offset: nat, no: nat)
    requires offset <= n <= 2016 && offset % 32 == 0 && no * 32 <= offset
    ensures no % 64 == no < 64 && offset / 32 % 64 * 32 == offset
    ensures n <= Blocks(n) % 64 * 32 == Blocks(n) * 32 <= 2016
  {
  }

  lemma {:induction false} TakeOne(r: Rx, port: nat, frame: nat, data: Data, room: nat, offset: nat, no: nat)
    requires Taken(r, frame, data, offset, no) && |data| <= 2016
    requires room >= 32 || |data| - offset <= room
    ensures var size := Step(room, |data| - offset);
            var (q, code) := ReadStep(r, Cut(port, frame, data, room, offset, no));
            if size == |data| - offset then code == 1 && q.size == |data| <= |q.buf| && q.buf[..|data|] == data
            else code == 0 && Taken(q, frame, data, offset + size, no + 1)
  {
    hide ReadStep, Take, Cut, FragNo, OffsetField, FrameNo, IsLast, TimeAppended, Step, Blocks, Splice;
    var size := Step(room, |data| - offset);
    var last := size == |data| - offset;
    var f := Cut(port, frame, data, room, offset, no);
    FieldsAreWideEnough(|data|, offset, no);
    CutFields(port, frame, data, room, offset, no);
    var s := r.(fragmentno := no, framesize := Blocks(|data|) * 32, frameoffset := offset, frameno := frame % 16);
    Accepts(r, s, f);
    TakeFits(s, f);
    SpliceExtends(r.buf, data, offset, offset + size);
  }

  lemma {:induction false} SpliceExtends(buf: Data, data: Data, i: nat, j: nat)
    requires i <= j <= |data| && j <= |buf| && (i > 0 ==> buf[..i] == data[..i])
    ensures |Splice(buf, i, data[i..j])| == |buf| && Splice(buf, i, data[i..j])[..j] == data[..j]
    ensures j == |data| ==> Splice(buf, i, data[i..j])[..j] == data
  {
    var z := Splice(buf, i, data[i..j]);
    forall k | 0 <= k < j ensures z[k] == data[k] {
      if k < i {
        assert buf[..i][k] == data[..i][k];
      }
    }
  }

  /** Frames that fit arrive, one "complete" at the end, whatever the receiver was doing before. */
  lemma {:induction false} FittingFrameArrives(r: Rx, port: nat, frame: nat, data: Data, room: nat, offset: nat, no: nat)
    requires Taken(r, frame, data, offset, no) && |data| <= 2016
    requires room >= 32 || |data| - offset <= room
    ensures var s := Fragments(port, frame, data, room, offset, no);
            Delivered(Feed(r, s), data, |s|)
    decreases |data| - offset
  {
    hide ReadStep, Cut, Taken, Step, Blocks, Chunk;
    TakenIsValid(r, frame, data, offset, no);
    var s := Fragments(port, frame, data, room, offset, no);
    TakeOne(r, port, frame, data, room, offset, no);
    var size := Step(room, |data| - offset);
    var q := ReadStep(r, s[0]).0;
    if size == |data| - offset {
      assert Feed(r, s) == (q, [1]);
    } else {
      FittingFrameArrives(q, port, frame, data, room, offset + size, no + 1);
      Undelivered(r, s, data);
      assert s[1..] == Fragments(port, frame, data, room, offset + size, no + 1);
    }
  }

  lemma {:induction false} TakenIsValid(r: Rx, frame: nat, data: Data, offset: nat, no: nat)
    requires Taken(r, frame, data, offset, no)
    ensures r.Valid() && offset <= |data|
  {
    hide Blocks;
  }

  /** The position never leaves the announced frame, whose size field reaches 63 blocks, nor the buffer. */
  predicate Inside(r: Rx) {
    r.frameoffset <= r.framesize <= 2016 && r.frameoffset <= r.size <= |r.buf|
  }

  lemma {:induction false} TakeStaysInside(s: Rx, f: Fragment)
    requires Inside(s) && !TimeAppended(f.info1)
    ensures var (q, code) := Take(s, f);
            if code == 1 then q.size <= 2016 && q.size <= s.size else Inside(q)
  {
    hide IsLast, TimeAppended, Splice;
  }

  lemma {:induction false} StaysInside(r: Rx, f: Fragment)
    requires r.Valid() && (Inside(r) || FragNo(f.info2) == 0) && f.eoe && !TimeAppended(f.info1)
    ensures var (q, code) := ReadStep(r, f);
            if code == 1 then q.size <= 2016 && q.size <= r.size else Inside(q)
  {
    hide FragNo, FrameNo, Take, TimeAppended;
    var s := if r.fragmentno != FragNo(f.info2) && r.fragmentno != 0 then r.Idle() else r;
    if s.fragmentno == 0 {
      TakeStaysInside(s.(framesize := OffsetField(f.info2) * 32, frameoffset := 0, frameno := FrameNo(f.info2)), f);
    } else {
      TakeStaysInside(s, f);
    }
  }

  /** Fragments without time stamps. */
  predicate Unstamped(s: seq<Fragment>) {
    forall i :: 0 <= i < |s| ==> s[i].eoe && !TimeAppended(s[i].info1)
  }

  lemma {:induction false} NeverBeyondTheField(r: Rx, s: seq<Fragment>)
    requires r.Valid() && Unstamped(s) && s != [] && (Inside(r) || FragNo(s[0].info2) == 0)
    ensures var (q, codes) := Feed(r, s);
            codes != [] && codes[|codes| - 1] == 1 ==> q.size <= 2016 && q.size <= r.size
    decreases |s|
  {
    hide ReadStep, TimeAppended, FragNo;
    StaysInside(r, s[0]);
    var (q, code) := ReadStep(r, s[0]);
    if code != 1 {
      if s[1..] == [] {
        assert Feed(r, s) == (q, [code] + Feed(q, s[1..]).1);
      } else {
        NeverBeyondTheField(q, s[1..]);
        assert Feed(r, s).1 == [code] + Feed(q, s[1..]).1;
      }
    }
  }

  // What one call reports.

  /** The mailbox continues the frame that is being received, or begins one. */
  predicate Continues(r: Rx, f: Fragment) {
    || FragNo(f.info2) == 0
    || (FragNo(f.info2) == r.fragmentno && FrameNo(f.info2) == r.frameno && OffsetField(f.info2) * 32 == r.frameoffset)
  }

  /** Mailboxes of another type are left alone; a fragment that neither begins nor continues a frame is an error, and the
      frame is given up; otherwise the call says whether it was the last one. The buffer changes only inside its limit. */
  lemma {:induction false} CallReports(r: Rx, f: Fragment)
    requires r.Valid()
    ensures var (q, code) := ReadStep(r, f);
            && (code == UNEXPECTED <==> !f.eoe) && (code == UNEXPECTED ==> q == r)
            && (code == INVALID_RX_DATA <==> f.eoe && !Continues(r, f))
            && (code == INVALID_RX_DATA ==> q.fragmentno == 0 && q.buf == r.buf && q.size == r.size)
            && (code == 1 <==> f.eoe && Continues(r, f) && IsLast(f.info1)) && (code == 1 ==> q.fragmentno == 0)
            && code in {0, 1, UNEXPECTED, INVALID_RX_DATA}
            && |q.buf| == |r.buf| && q.buf[r.size..] == r.buf[r.size..]
  {
    hide FragNo, FrameNo, OffsetField, IsLast, TimeAppended;
  }

  // What is delivered is one frame.

  ghost predicate Within(s: seq<Fragment>, ws: seq<nat>) {
    forall j :: 0 <= j < |ws| ==> ws[j] < |s|
  }

  /** The data of the fragments of `s` that `ws` lists, one behind the other. */
  function Joined(s: seq<Fragment>, ws: seq<nat>): Data
    requires Within(s, ws)
  {
    if ws == [] then [] else Joined(s, ws[..|ws| - 1]) + s[ws[|ws| - 1]].data
  }

  /** Fragment `ws[j]` is number j of the frame that fragment `ws[0]` begins, and starts where its position field says. */
  ghost predicate Belongs(s: seq<Fragment>, ws: seq<nat>, j: nat)
    requires Within(s, ws) && j < |ws|
  {
    var f, first := s[ws[j]], s[ws[0]];
    && f.eoe && FragNo(f.info2) == j && FrameNo(f.info2) == FrameNo(first.info2)
    && (j > 0 ==> OffsetField(f.info2) * 32 == |Joined(s, ws[..j])|)
  }

  /** A fragment after the first that is not listed: of the same frame, with the number expected then, but too long for the
      announced size or the buffer. */
  ghost predicate Dropped(s: seq<Fragment>, ws: seq<nat>, i: nat, size: nat)
    requires Within(s, ws) && ws != [] && i < |s|
  {
    var f, first := s[i], s[ws[0]];
    var c := FragNo(f.info2);
    && FrameNo(f.info2) == FrameNo(first.info2) && 0 < c <= |ws|
    && ws[c - 1] < i && (c < |ws| ==> i < ws[c])
    && (|Joined(s, ws[..c])| + |f.data| > OffsetField(first.info2) * 32 || |Joined(s, ws[..c])| + |f.data| > size)
  }

  /** Of the first `k` fragments of `s`, `ws` lists those of one frame, in the order of their numbers; all fragments since
      its first one are of that frame. */
  ghost predicate OneFrame(s: seq<Fragment>, k: nat, ws: seq<nat>, size: nat) {
    && k <= |s| && Within(s, ws)
    && (forall j :: 0 <= j < |ws| ==> ws[j] < k && Belongs(s, ws, j))
    && (forall i, j :: 0 <= i < j < |ws| ==> ws[i] < ws[j])
    && forall i :: 0 <= i < k && ws != [] && ws[0] <= i && s[i].eoe && i !in ws ==> Dropped(s, ws, i, size)
  }

  /** The receiver holds what `ws` lists. */
  ghost predicate Holding(r: Rx, s: seq<Fragment>, k: nat, ws: seq<nat>) {
    && r.Valid() && OneFrame(s, k, ws, r.size) && r.fragmentno == |ws|
    && (ws != [] ==>
         && r.frameno == FrameNo(s[ws[0]].info2) && r.framesize == OffsetField(s[ws[0]].info2) * 32
         && r.frameoffset == |Joined(s, ws)| <= r.framesize && r.frameoffset <= r.size
         && r.buf[..r.frameoffset] == Joined(s, ws))
  }

  /** The frame is complete: the last fragment said so, its bytes are those of the listed ones, and its length too, less the
      four bytes of a time stamp (in the 16 bits of the position). */
  ghost predicate Complete(q: Rx, s: seq<Fragment>, k: nat, ws: seq<nat>, size: nat) {
    && 0 < k <= |s| && OneFrame(s, k, ws, size) && s[k - 1].eoe && IsLast(s[k - 1].info1)
    && |Joined(s, ws)| <= |q.buf| && q.buf[..|Joined(s, ws)|] == Joined(s, ws) && |Joined(s, ws)| <= 2016
    && q.size == (|Joined(s, ws)| - if TimeAppended(s[k - 1].info1) then 4 else 0) % 0x10000
  }

  lemma {:induction false} NoFrame(s: seq<Fragment>, k: nat, size: nat)
    requires k <= |s|
    ensures OneFrame(s, k, [], size)
  {
  }

  lemma {:induction false} JoinedMore(s: seq<Fragment>, ws: seq<nat>, k: nat)
    requires Within(s, ws) && k < |s|
    ensures Joined(s, ws + [k]) == Joined(s, ws) + s[k].data
  {
    assert (ws + [k])[..|ws|] == ws;
  }

  lemma {:induction false} BelongsStill(s: seq<Fragment>, ws: seq<nat>, k: nat, j: nat)
    requires Within(s, ws) && j < |ws| && Belongs(s, ws, j) && k < |s|
    ensures Belongs(s, ws + [k], j)
  {
    hide FragNo, FrameNo, OffsetField, Joined;
    assert (ws + [k])[..j] == ws[..j];
  }

  lemma {:induction false} DroppedStill(s: seq<Fragment>, ws: seq<nat>, k: nat, i: nat, size: nat)
    requires Within(s, ws) && ws != [] && i < k < |s| && Dropped(s, ws, i, size)
    ensures Dropped(s, ws + [k], i, size)
  {
    hide FragNo, FrameNo, OffsetField, Joined;
    var c := FragNo(s[i].info2);
    assert (ws + [k])[..c] == ws[..c];
  }

  /** A fragment that is taken. */
  lemma {:induction false} OneFrameMore(s: seq<Fragment>, k: nat, ws: seq<nat>, size: nat)
    requires OneFrame(s, k, ws, size) && k < |s| && s[k].eoe && FragNo(s[k].info2) == |ws|
    requires ws != [] ==> FrameNo(s[k].info2) == FrameNo(s[ws[0]].info2) && OffsetField(s[k].info2) * 32 == |Joined(s, ws)|
    ensures OneFrame(s, k + 1, ws + [k], size)
  {
    hide FragNo, FrameNo, OffsetField, Joined, Belongs, Dropped;
    var all := ws + [k];
    forall j | 0 <= j < |all| ensures all[j] < k + 1 && Belongs(s, all, j) {
      if j < |ws| {
        BelongsStill(s, ws, k, j);
      } else {
        BelongsNew(s, ws, k);
      }
    }
    forall i | 0 <= i < k + 1 && all[0] <= i && s[i].eoe && i !in all ensures Dropped(s, all, i, size) {
      assert k in all && forall j :: 0 <= j < |ws| ==> all[j] == ws[j];
      DroppedStill(s, ws, k, i, size);
    }
  }

  lemma {:induction false} BelongsNew(s: seq<Fragment>, ws: seq<nat>, k: nat)
    requires Within(s, ws) && k < |s| && s[k].eoe && FragNo(s[k].info2) == |ws|
    requires ws != [] ==> FrameNo(s[k].info2) == FrameNo(s[ws[0]].info2) && OffsetField(s[k].info2) * 32 == |Joined(s, ws)|
    ensures Belongs(s, ws + [k], |ws|)
  {
    hide FragNo, FrameNo, OffsetField, Joined;
    assert (ws + [k])[..|ws|] == ws;
  }

  /** A fragment that is not. */
  lemma {:induction false} OneFrameSkips(s: seq<Fragment>, k: nat, ws: seq<nat>, size: nat)
    requires OneFrame(s, k, ws, size) && k < |s|
    requires ws != [] && s[k].eoe ==> Dropped(s, ws, k, size)
    ensures OneFrame(s, k + 1, ws, size)
  {
    hide FragNo, FrameNo, OffsetField, Joined, Belongs, Dropped;
  }

  lemma {:induction false} FieldBounds(info2: nat)
    ensures FragNo(info2) < 64 && OffsetField(info2) * 32 <= 2016
  {
  }

  /** The state in which the source gets to the copy. */
  ghost predicate Ready(t: Rx, s: seq<Fragment>, k: nat, ws: seq<nat>) {
    && k < |s| && s[k].eoe && t.Valid() && OneFrame(s, k, ws, t.size)
    && t.fragmentno == |ws| == FragNo(s[k].info2) && t.frameno == FrameNo(s[k].info2)
    && t.frameoffset == |Joined(s, ws)| && t.frameoffset <= t.framesize && t.frameoffset <= t.size
    && t.buf[..t.frameoffset] == Joined(s, ws)
    && var first := if ws == [] then s[k] else s[ws[0]];
       && t.framesize == OffsetField(first.info2) * 32 && t.frameno == FrameNo(first.info2)
       && (ws != [] ==> OffsetField(s[k].info2) * 32 == t.frameoffset)
  }

  lemma {:induction false} TakeHolds(t: Rx, s: seq<Fragment>, k: nat, ws: seq<nat>) returns (now: seq<nat>)
    requires Ready(t, s, k, ws)
    ensures var (q, code) := Take(t, s[k]);
            && (code == 0 || code == 1)
            && if code == 1 then Complete(q, s, k + 1, now, t.size) else Holding(q, s, k + 1, now)
  {
    hide IsLast, TimeAppended, Splice, FragNo, FrameNo, OffsetField, Joined, OneFrame, Dropped;
    var f := s[k];
    FieldBounds(f.info2);
    InOneFrame(s, k, ws, t.size);
    FieldBounds((if ws == [] then f else s[ws[0]]).info2);
    JoinedMore(s, ws, k);
    if t.frameoffset + |f.data| <= t.framesize && t.frameoffset + |f.data| <= t.size {
      now := ws + [k];
      OneFrameMore(s, k, ws, t.size);
      SpliceBehind(t.buf, t.frameoffset, f.data);
    } else {
      now := ws;
      if ws != [] {
        DroppedNow(s, k, ws, t.size);
      }
      OneFrameSkips(s, k, ws, t.size);
    }
  }

  lemma {:induction false} DroppedNow(s: seq<Fragment>, k: nat, ws: seq<nat>, size: nat)
    requires OneFrame(s, k, ws, size) && ws != [] && k < |s| && FragNo(s[k].info2) == |ws|
    requires FrameNo(s[k].info2) == FrameNo(s[ws[0]].info2)
    requires var n := |Joined(s, ws)| + |s[k].data|; n > OffsetField(s[ws[0]].info2) * 32 || n > size
    ensures Dropped(s, ws, k, size)
  {
    hide FragNo, FrameNo, OffsetField, Joined, Belongs;
    assert ws[..|ws|] == ws;
  }

  lemma {:induction false} InOneFrame(s: seq<Fragment>, k: nat, ws: seq<nat>, size: nat)
    requires OneFrame(s, k, ws, size)
    ensures k <= |s| && Within(s, ws) && forall j :: 0 <= j < |ws| ==> ws[j] < k
  {
    hide Belongs, Dropped;
  }

  lemma {:induction false} SpliceBehind(buf: Data, at: nat, data: Data)
    requires at + |data| <= |buf|
    ensures Splice(buf, at, data)[..at + |data|] == buf[..at] + data
  {
  }

  /** What the receiver makes of the next mailbox. */
  lemma {:induction false} ReadHolds(r: Rx, s: seq<Fragment>, k: nat, ws: seq<nat>) returns (now: seq<nat>)
    requires Holding(r, s, k, ws) && k < |s|
    ensures var (q, code) := ReadStep(r, s[k]);
            if code == 1 then Complete(q, s, k + 1, now, r.size) else Holding(q, s, k + 1, now)
  {
    hide IsLast, TimeAppended, FragNo, FrameNo, OffsetField, Joined, OneFrame, Dropped, Take, Complete;
    var f := s[k];
    var no := FragNo(f.info2);
    NoFrame(s, k, r.size);
    NoFrame(s, k + 1, r.size);
    assert Joined(s, []) == [] by { NothingJoined(s); }
    var t := if r.fragmentno != no && r.fragmentno != 0 then r.Idle() else r;
    if !f.eoe {
      OneFrameSkips(s, k, ws, r.size);
      now := ws;
    } else if r.fragmentno != no && no > 0 {
      now := [];
    } else if t.fragmentno == 0 {
      var start := t.(framesize := OffsetField(f.info2) * 32, frameoffset := 0, frameno := FrameNo(f.info2));
      now := TakeHolds(start, s, k, []);
    } else if t.frameno != FrameNo(f.info2) || t.frameoffset != OffsetField(f.info2) * 32 {
      now := [];
    } else {
      now := TakeHolds(t, s, k, ws);
    }
  }

  lemma {:induction false} NothingJoined(s: seq<Fragment>)
    ensures Joined(s, []) == []
  {
  }

  lemma {:induction false} FeedHolds(r: Rx, s: seq<Fragment>, k: nat, ws: seq<nat>) returns (now: seq<nat>)
    requires Holding(r, s, k, ws) && k <= |s| && r.Valid()
    ensures var (q, codes) := Feed(r, s[k..]);
            codes != [] && codes[|codes| - 1] == 1 ==> k + |codes| <= |s| && Complete(q, s, k + |codes|, now, r.size)
    decreases |s| - k
  {
    hide ReadStep, Holding, Complete, TimeAppended;
    now := ws;
    if k < |s| {
      assert s[k..][0] == s[k] && s[k..][1..] == s[k + 1..];
      now := ReadHolds(r, s, k, ws);
      var (q, code) := ReadStep(r, s[k]);
      if code != 1 {
        HoldingValid(q, s, k + 1, now);
        now := FeedHolds(q, s, k + 1, now);
        assert Feed(r, s[k..]).1 == [code] + Feed(q, s[k + 1..]).1;
      }
    }
  }

  lemma {:induction false} HoldingValid(r: Rx, s: seq<Fragment>, k: nat, ws: seq<nat>)
    requires Holding(r, s, k, ws)
    ensures r.Valid()
  {
    hide OneFrame;
  }

  /**
   * Frames are never mixed: whatever mailboxes arrive, in whatever order and with whatever missing, when a receiver that was
   * not inside a frame reports a complete one, the bytes are those of fragments that carry one frame number and the
   * numbers 0, 1, 2, ..., each at the position its field says; every other fragment since the first of them was of
   * the same frame and too long.
   */
  lemma {:induction false} DeliversOneFrame(r: Rx, s: seq<Fragment>) returns (ws: seq<nat>)
    requires r.Valid() && r.fragmentno == 0
    ensures var (q, codes) := Feed(r, s);
            codes != [] && codes[|codes| - 1] == 1 ==> |codes| <= |s| && Complete(q, s, |codes|, ws, r.size)
  {
    hide ReadStep, Complete, TimeAppended, OneFrame, Feed;
    NoFrame(s, 0, r.size);
    assert s[0..] == s;
    ws := FeedHolds(r, s, 0, []);
  }

  lemma {:induction false} SenderNeverStamps(port: nat, frame: nat, data: Data, room: nat, offset: nat, no: nat)
    requires offset <= |data| && (room >= 32 || |data| - offset <= room)
    ensures Unstamped(Fragments(port, frame, data, room, offset, no))
    decreases |data| - offset
  {
    hide Info1, Info2, TimeAppended, Step, Blocks;
    var size := Step(room, |data| - offset);
    InfoFields(port, size == |data| - offset, no % 0x100, if no % 0x100 > 0 then offset / 32 else Blocks(|data|),
               frame + no / 0x100);
    if size != |data| - offset {
      SenderNeverStamps(port, frame, data, room, offset + size, no + 1);
    }
  }

  /**
   * Reassembly is self-stabilising, and lossless exactly for frames of at most 2016 bytes that fit the buffer:
   * from any state left behind by earlier traffic, the calls answer 0, ..., 0, 1 and leave the frame in the buffer.
   */
  lemma {:induction false} ReassemblyIsLossless(r: Rx, port: nat, frame: nat, data: Data, room: nat)
    requires r.Valid() && (room >= 32 || |data| <= room)
    ensures var s := Fragments(port, frame, data, room, 0, 0);
            Delivered(Feed(r, s), data, |s|) <==> |data| <= 2016 && |data| <= r.size
  {
    hide ReadStep, Info1, Info2, TimeAppended, FragNo, Feed;
    var s := Fragments(port, frame, data, room, 0, 0);
    if |data| <= 2016 && |data| <= r.size {
      FittingFrameArrives(r, port, frame, data, room, 0, 0);
    } else {
      SenderNeverStamps(port, frame, data, room, 0, 0);
      CutFields(port, frame, data, room, 0, 0);
      NeverBeyondTheField(r, s);
    }
  }
}
