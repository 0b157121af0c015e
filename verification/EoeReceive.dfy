// The blocking EoE receiver (ecx_EOErecv): a second reassembler, with bounds of its own.
module EoeReceive {
  import opened Bytes
  import opened Eoe

  const MAX_MAILBOX := 1486

  /** A receiver's answer: work counter (1 for success, 0 for a silent mailbox), length and buffer. */
  datatype Got = Got(wkc: int, psize: int, buf: Data)

  predicate Refused(f: Fragment, port: nat, size: nat, no: nat, frameno: nat, offset: nat) {
    || (no != FragNo(f.info2) && FragNo(f.info2) > 0)
    || (no == 0 && (OffsetField(f.info2) * 32 > size || port != Port(f.info1)))
    || (no != 0 && (frameno != FrameNo(f.info2) || offset != OffsetField(f.info2) * 32))
  }

  /** What the loop makes of the mailboxes that arrive, from the state (no, frameno, offset) on. */
  function Recv(inbox: seq<Fragment>, port: nat, size: nat, buf: Data, no: nat, frameno: nat, offset: nat): Got
    requires size <= |buf|
    decreases |inbox|
  {
    if inbox == [] then Got(0, size, buf) else
    var f := inbox[0];
    if !f.eoe then Got(UNEXPECTED, size, buf)
    else if Refused(f, port, size, no, frameno, offset) then Got(INVALID_RX_DATA, size, buf)
    else
      var frame := if no == 0 then FrameNo(f.info2) else frameno;
      var fits := offset + |f.data| <= size;
      var next := if fits then offset + |f.data| else offset;
      var b := if fits then Splice(buf, offset, f.data) else buf;
      if IsLast(f.info1) then Got(1, if TimeAppended(f.info1) then next - 4 else next, b)
      else Recv(inbox[1..], port, size, b, if fits then (no + 1) % 0x100 else no, frame, next)
  }

  lemma {:induction false} RecvNothing(port: nat, size: nat, buf: Data, no: nat, frameno: nat, offset: nat)
    requires size <= |buf|
    ensures Recv([], port, size, buf, no, frameno, offset) == Got(0, size, buf)
  {
  }

  lemma {:induction false} RecvUnfolds(inbox: seq<Fragment>, i: nat, port: nat, size: nat, buf: Data, no: nat,
                                       frameno: nat, offset: nat)
    requires size <= |buf| && i < |inbox|
    ensures var f := inbox[i];
            var frame := if no == 0 then FrameNo(f.info2) else frameno;
            var fits := offset + |f.data| <= size;
            var next := if fits then offset + |f.data| else offset;
            var b := if fits then Splice(buf, offset, f.data) else buf;
            Recv(inbox[i..], port, size, buf, no, frameno, offset) ==
            if !f.eoe then Got(UNEXPECTED, size, buf)
            else if Refused(f, port, size, no, frameno, offset) then Got(INVALID_RX_DATA, size, buf)
            else if IsLast(f.info1) then Got(1, if TimeAppended(f.info1) then next - 4 else next, b)
            else Recv(inbox[i + 1..], port, size, b, if fits then (no + 1) % 0x100 else no, frame, next)
  {
    hide Splice, IsLast, TimeAppended, FragNo, FrameNo, OffsetField, Port, Refused;
    assert inbox[i..][0] == inbox[i] && inbox[i..][1..] == inbox[i + 1..];
  }

  /** ecx_EOErecv; each mailbox receive takes the next element of `inbox`, and times out after the last one. */
  method EoeRecv(inbox: seq<Fragment>, port: nat, buf: array<Byte>, size: nat) returns (wkc: int, psize: int)
    requires size <= buf.Length
    modifies buf
    ensures Got(wkc, psize, buf[..]) == Recv(inbox, port, size, old(buf[..]), 0, 0xff, 0)
  {
    hide Splice, IsLast, TimeAppended, FragNo, FrameNo, OffsetField, Port, Recv;
    RecvNothing(port, size, buf[..], 0, 0xff, 0);
    var rxfragmentno: nat, rxframeno: nat, rxframeoffset: nat, notLast := 0, 0xff, 0, true;
    psize := size;
    var i := 0;
    wkc := if inbox == [] then 0 else 1;
    assert inbox[0..] == inbox;
    while wkc > 0 && notLast
      invariant i <= |inbox| && wkc <= 1 && (wkc > 0 && notLast ==> i < |inbox| && psize == size)
      invariant Recv(inbox, port, size, old(buf[..]), 0, 0xff, 0)
             == if wkc > 0 && notLast then Recv(inbox[i..], port, size, buf[..], rxfragmentno, rxframeno, rxframeoffset)
                else Got(wkc, psize, buf[..])
      decreases |inbox| - i, notLast && wkc > 0
    {
      var f := inbox[i];
      RecvUnfolds(inbox, i, port, size, buf[..], rxfragmentno, rxframeno, rxframeoffset);
      if f.eoe {
        if rxfragmentno != FragNo(f.info2) && FragNo(f.info2) > 0 {
          wkc := INVALID_RX_DATA;
          break;
        }
        if rxfragmentno == 0 {
          rxframeno := FrameNo(f.info2);
          if OffsetField(f.info2) * 32 > size {
            wkc := INVALID_RX_DATA;
            break;
          }
          if port != Port(f.info1) {
            wkc := INVALID_RX_DATA;
            break;
          }
        } else if rxframeno != FrameNo(f.info2) {
          wkc := INVALID_RX_DATA;
          break;
        } else if rxframeoffset != OffsetField(f.info2) * 32 {
          wkc := INVALID_RX_DATA;
          break;
        }
        if rxframeoffset + |f.data| <= size {
          CopyInto(buf, rxframeoffset, f.data);
          rxframeoffset := rxframeoffset + |f.data|;
          rxfragmentno := (rxfragmentno + 1) % 0x100;
        }
        if IsLast(f.info1) {
          psize := if TimeAppended(f.info1) then rxframeoffset - 4 else rxframeoffset;
          notLast := false;
        } else {
          i := i + 1;
          RecvNothing(port, size, buf[..], rxfragmentno, rxframeno, rxframeoffset);
          assert i == |inbox| ==> inbox[i..] == [];
          wkc := if i < |inbox| then 1 else 0;
        }
      } else {
        wkc := UNEXPECTED;
      }
    }
  }

  // ---------------------------------------------------------------- what is delivered belongs together

  /** The receiver counts in eight bits: the listed fragment with which the count of fragment `j` began. */
  function CountFrom(j: nat): (start: nat)
    ensures start <= j
  {
    j / 0x100 * 0x100
  }

  /** Fragment `ws[j]` carries the frame number of the one with which the count began. That one is number 0, comes from the
      port and announces no more than the buffer; others are numbered with the count, or 0, and start where their field
      says. */
  ghost predicate Listed(s: seq<Fragment>, ws: seq<nat>, j: nat, port: nat, size: nat)
    requires Within(s, ws) && j < |ws|
  {
    var f, first := s[ws[j]], s[ws[CountFrom(j)]];
    && f.eoe && FrameNo(f.info2) == FrameNo(first.info2)
    && if j % 0x100 == 0 then FragNo(f.info2) == 0 && Port(f.info1) == port && OffsetField(f.info2) * 32 <= size
       else FragNo(f.info2) in {j % 0x100, 0} && OffsetField(f.info2) * 32 == |Joined(s, ws[..j])|
  }

  ghost predicate AllListed(s: seq<Fragment>, k: nat, ws: seq<nat>, port: nat, size: nat) {
    && Within(s, ws)
    && (forall j :: 0 <= j < |ws| ==> ws[j] < k && Listed(s, ws, j, port, size))
    && forall i, j :: 0 <= i < j < |ws| ==> ws[i] < ws[j]
  }

  /** Where the loop stands after `k` mailboxes, of which it took the listed ones. */
  ghost predicate Gathered(s: seq<Fragment>, k: nat, ws: seq<nat>, port: nat, size: nat, buf: Data, no: nat,
                           frameno: nat, offset: nat) {
    && AllListed(s, k, ws, port, size) && no == |ws| % 0x100
    && (no != 0 ==> frameno == FrameNo(s[ws[CountFrom(|ws| - 1)]].info2))
    && offset == |Joined(s, ws)| <= size <= |buf| && buf[..offset] == Joined(s, ws)
  }

  lemma {:induction false} CountGoesOn(n: nat)
    ensures n % 0x100 == 0 ==> CountFrom(n) == n
    ensures n % 0x100 != 0 ==> n > 0 && CountFrom(n) == CountFrom(n - 1)
    ensures (n + 1) % 0x100 == (n % 0x100 + 1) % 0x100
  {
    var q, r := n / 0x100, n % 0x100;
    assert n == 0x100 * q + r;
    if r != 0 {
      assert (n - 1) / 0x100 == q;
    }
  }

  lemma {:induction false} ListedStill(s: seq<Fragment>, ws: seq<nat>, k: nat, j: nat, port: nat, size: nat)
    requires Within(s, ws) && j < |ws| && k < |s| && Listed(s, ws, j, port, size)
    ensures Listed(s, ws + [k], j, port, size)
  {
    hide FragNo, FrameNo, OffsetField, Port, Joined, CountFrom;
    assert (ws + [k])[..j] == ws[..j];
  }

  lemma {:induction false} ListedNew(s: seq<Fragment>, ws: seq<nat>, k: nat, port: nat, size: nat, no: nat,
                                     frameno: nat, offset: nat)
    requires Within(s, ws) && k < |s| && s[k].eoe && no == |ws| % 0x100 && offset == |Joined(s, ws)|
    requires no != 0 ==> frameno == FrameNo(s[ws[CountFrom(|ws| - 1)]].info2)
    requires !Refused(s[k], port, size, no, frameno, offset)
    ensures Listed(s, ws + [k], |ws|, port, size)
    ensures FrameNo(s[k].info2) == FrameNo(s[(ws + [k])[CountFrom(|ws|)]].info2)
  {
    hide FragNo, FrameNo, OffsetField, Port, Joined, CountFrom;
    CountGoesOn(|ws|);
    assert (ws + [k])[..|ws|] == ws;
  }

  lemma {:induction false} GatheredMore(s: seq<Fragment>, k: nat, ws: seq<nat>, port: nat, size: nat, buf: Data,
                                        no: nat, frameno: nat, offset: nat)
    requires Gathered(s, k, ws, port, size, buf, no, frameno, offset) && k < |s| && s[k].eoe
    requires !Refused(s[k], port, size, no, frameno, offset) && offset + |s[k].data| <= size
    ensures Gathered(s, k + 1, ws + [k], port, size, Splice(buf, offset, s[k].data), (no + 1) % 0x100,
                     if no == 0 then FrameNo(s[k].info2) else frameno, offset + |s[k].data|)
  {
    hide FragNo, FrameNo, OffsetField, Port, Joined, CountFrom, Listed, Refused, Splice;
    JoinedMore(s, ws, k);
    CountGoesOn(|ws|);
    ListedNew(s, ws, k, port, size, no, frameno, offset);
    SpliceBehind(buf, offset, s[k].data);
    SpliceLength(buf, offset, s[k].data);
    var all := ws + [k];
    forall j | 0 <= j < |all| ensures all[j] < k + 1 && Listed(s, all, j, port, size) {
      if j < |ws| {
        ListedStill(s, ws, k, j, port, size);
      }
    }
    assert no != 0 ==> all[CountFrom(|ws| - 1)] == ws[CountFrom(|ws| - 1)];
  }

  lemma {:induction false} SpliceLength(buf: Data, at: nat, data: Data)
    requires at + |data| <= |buf|
    ensures |Splice(buf, at, data)| == |buf|
  {
  }

  lemma {:induction false} GatheredSkips(s: seq<Fragment>, k: nat, ws: seq<nat>, port: nat, size: nat, buf: Data,
                                         no: nat, frameno: nat, offset: nat, frame: nat)
    requires Gathered(s, k, ws, port, size, buf, no, frameno, offset) && (no != 0 ==> frame == frameno)
    ensures Gathered(s, k + 1, ws, port, size, buf, no, frame, offset)
  {
    hide FragNo, FrameNo, OffsetField, Port, Joined, CountFrom, Listed;
  }

  lemma {:induction false} RecvGathers(s: seq<Fragment>, k: nat, ws: seq<nat>, port: nat, size: nat, buf: Data,
                                       no: nat, frameno: nat, offset: nat)
    returns (now: seq<nat>)
    requires k <= |s| && size <= |buf| && Gathered(s, k, ws, port, size, buf, no, frameno, offset)
    ensures var g := Recv(s[k..], port, size, buf, no, frameno, offset);
            g.wkc == 1 ==> exists n :: k < n <= |s| && Finished(s, n, now, port, size, g)
    decreases |s| - k
  {
    hide FragNo, FrameNo, OffsetField, Port, Gathered, Refused, IsLast, TimeAppended, Splice, AllListed, Recv;
    now := ws;
    if k == |s| {
      assert s[k..] == [];
      RecvNothing(port, size, buf, no, frameno, offset);
    } else {
      var f := s[k];
      RecvUnfolds(s, k, port, size, buf, no, frameno, offset);
      if f.eoe && !Refused(f, port, size, no, frameno, offset) {
        var frame := if no == 0 then FrameNo(f.info2) else frameno;
        var b, next, count := buf, offset, no;
        if offset + |f.data| <= size {
          GatheredMore(s, k, ws, port, size, buf, no, frameno, offset);
          b, next, count, now := Splice(buf, offset, f.data), offset + |f.data|, (no + 1) % 0x100, ws + [k];
        } else {
          GatheredSkips(s, k, ws, port, size, buf, no, frameno, offset, frame);
        }
        var g := Recv(s[k..], port, size, buf, no, frameno, offset);
        if IsLast(f.info1) {
          FinishedNow(s, k, now, port, size, b, count, frame, next, g);
        } else {
          now := RecvGathers(s, k + 1, now, port, size, b, count, frame, next);
        }
      }
    }
  }

  /** The last mailbox taken says that it is the last; the length and the bytes are those of the listed fragments, less the
      four bytes of a time stamp. */
  ghost predicate Finished(s: seq<Fragment>, n: nat, ws: seq<nat>, port: nat, size: nat, g: Got) {
    && 0 < n <= |s| && AllListed(s, n, ws, port, size) && s[n - 1].eoe && IsLast(s[n - 1].info1)
    && |Joined(s, ws)| <= size <= |g.buf| && g.buf[..|Joined(s, ws)|] == Joined(s, ws)
    && g.psize == |Joined(s, ws)| - if TimeAppended(s[n - 1].info1) then 4 else 0
  }

  lemma {:induction false} FinishedNow(s: seq<Fragment>, k: nat, ws: seq<nat>, port: nat, size: nat, buf: Data,
                                       no: nat, frameno: nat, offset: nat, g: Got)
    requires k < |s| && Gathered(s, k + 1, ws, port, size, buf, no, frameno, offset) && s[k].eoe && IsLast(s[k].info1)
    requires g == Got(1, if TimeAppended(s[k].info1) then offset - 4 else offset, buf)
    ensures Finished(s, k + 1, ws, port, size, g)
  {
    hide IsLast, TimeAppended, AllListed, Joined;
  }

  /**
   * The blocking receiver does not mix frames: whatever mailboxes arrive, a successful reception delivers the data of
   * fragments that carry one frame number in each run of 256, each at the position its field says. (A fragment that
   * is numbered 0 is taken in the middle of a frame as well, if frame number and position are right.)
   */
  lemma {:induction false} ReceivesOneFrame(s: seq<Fragment>, port: nat, size: nat, buf: Data) returns (ws: seq<nat>)
    requires size <= |buf|
    ensures var g := Recv(s, port, size, buf, 0, 0xff, 0);
            g.wkc == 1 ==> exists n :: 0 < n <= |s| && Finished(s, n, ws, port, size, g)
  {
    hide Recv, Finished;
    assert s[0..] == s;
    NothingJoined(s);
    ws := RecvGathers(s, 0, [], port, size, buf, 0, 0xff, 0);
  }

  predicate Delivers(g: Got, data: Data) {
    g.wkc == 1 && g.psize == |data| <= |g.buf| && g.buf[..|data|] == data
  }

  /** The largest frame of which no fragment starts beyond the 2047 bytes that the position field can say. */
  function Reach(room: nat): nat {
    if room < 32 then room else 2047 / Chunk(room) * Chunk(room) + room
  }

  lemma {:induction false} Multiples(i: nat, k: nat, c: nat)
    requires i <= k
    ensures i * c <= k * c && (k + 1) * c == k * c + c
  {
  }

  lemma {:induction false} ReachIsExact(n: nat, room: nat, no: nat)
    requires 32 <= room && no * Chunk(room) <= n
    ensures no > 0 && no * Chunk(room) >= 2048 && n - (no * Chunk(room) - Chunk(room)) > room ==> n > Reach(room)
    ensures no * Chunk(room) < 2048 && n - no * Chunk(room) <= room ==> n <= Reach(room)
  {
    var c := Chunk(room);
    assert c >= 32 by { hide Reach; }
    ReachByQuotient(n, room, no, c, 2047 / c);
  }

  lemma {:induction false} ReachByQuotient(n: nat, room: nat, no: nat, c: nat, k: nat)
    requires c > 0 && k == 2047 / c
    ensures no > 0 && no * c >= 2048 && n - (no * c - c) > room ==> n > k * c + room
    ensures no * c < 2048 && n - no * c <= room ==> n <= k * c + room
  {
    assert k * c <= 2047 < k * c + c;
    if no > k {
      Multiples(k, no - 1, c);
    } else {
      Multiples(no, k, c);
    }
  }

  /** Where the receiver stands before fragment `no`, which starts at `offset`. */
  predicate Stands(data: Data, size: nat, buf: Data, room: nat, frame: nat, no: nat, frameno: nat, offset: nat) {
    && size <= |buf| && offset <= |data| && offset <= size
    && (room >= 32 || (no == 0 && |data| <= room))
    && offset == no * Chunk(room) && (no > 0 ==> frameno == frame % 16 && offset - Chunk(room) < 2048 && |data| - (offset - Chunk(room)) > room)
    && (no > 0 ==> buf[..offset] == data[..offset])
  }

  /** After a fragment was dropped for lack of room, the next one ends the reception. */
  lemma {:induction false} DroppedFragmentEndsIt(inbox: seq<Fragment>, port: nat, size: nat, buf: Data, no: nat,
                                                 frameno: nat,
                                                 offset: nat, step: nat)
    requires size <= |buf| && inbox != [] && no < 64 && 0 < step < 2048 && offset % 32 == 0 && step % 32 == 0
    requires FragNo(inbox[0].info2) == (no + 1) % 64 && OffsetField(inbox[0].info2) == (offset + step) / 32 % 64
    ensures Recv(inbox, port, size, buf, no, frameno, offset).wkc < 0
  {
    hide FragNo, OffsetField, FrameNo, Port, IsLast, TimeAppended, Splice;
    if no == 63 {
      assert (offset + step) / 32 % 64 * 32 != offset by {
        var o, s := offset / 32, step / 32;
        assert offset == 32 * o && step == 32 * s && (offset + step) / 32 == o + s;
      }
    }
  }

  lemma {:induction false} MultipleOf32(no: nat, b: nat)
    ensures no * (b * 32) == no * b * 32 && no * b * 32 % 32 == 0
  {
    var k := no * b;
    assert k * 32 % 32 == 0;
  }

  lemma {:induction false} AtLeast32Each(no: nat, c: nat)
    requires c >= 32
    ensures no * 32 <= no * c && (no > 0 ==> (no - 1) * 32 <= no * c - c)
  {
    if no > 0 {
      assert no * c - c == (no - 1) * c;
    }
  }

  lemma {:induction false} CountsBelow64(room: nat, no: nat, offset: nat)
    requires offset == no * Chunk(room) && (no > 0 ==> room >= 32 && offset - Chunk(room) < 2048)
    ensures offset % 32 == 0 && no <= 64 && (offset < 2048 ==> no < 64)
    ensures offset < 2048 ==> offset / 32 % 64 * 32 == offset && no % 64 == no
  {
    MultipleOf32(no, room / 32);
    if no > 0 {
      AtLeast32Each(no, Chunk(room));
    }
  }

  /** One fragment taken in the state of `Stands`: the result of the whole reception in terms of the rest. */
  lemma {:induction false} TakeNext(rport: nat, port: nat, frame: nat, data: Data, size: nat, buf: Data, room: nat,
                                    no: nat, frameno: nat, offset: nat)
    requires Stands(data, size, buf, room, frame, no, frameno, offset) && offset < 2048
    requires no == 0 ==> Blocks(|data|) % 64 * 32 <= size && rport == port % 16
    requires offset + Step(room, |data| - offset) <= size
    ensures var s := Fragments(port, frame, data, room, offset, no);
            var step := Step(room, |data| - offset);
            var b := Splice(buf, offset, data[offset..offset + step]);
            Recv(s, rport, size, buf, no, frameno, offset) ==
            if step == |data| - offset then Got(1, |data|, b)
            else Recv(s[1..], rport, size, b, no + 1, frame % 16, offset + step)
  {
    hide FragNo, OffsetField, FrameNo, Port, IsLast, TimeAppended, Splice, Info1, Info2, Step, Blocks, Chunk, Recv, Cut;
    var s := Fragments(port, frame, data, room, offset, no);
    CountsBelow64(room, no, offset);
    CutFields(port, frame, data, room, offset, no);
    assert !Refused(s[0], rport, size, no, frameno, offset);
    assert s[0..] == s;
    RecvUnfolds(s, 0, rport, size, buf, no, frameno, offset);
  }

  lemma {:induction false} TooFarIsRefused(rport: nat, port: nat, frame: nat, data: Data, size: nat, buf: Data, room: nat,
                                           no: nat, frameno: nat, offset: nat)
    requires Stands(data, size, buf, room, frame, no, frameno, offset) && offset >= 2048
    ensures Recv(Fragments(port, frame, data, room, offset, no), rport, size, buf, no, frameno, offset).wkc < 0
  {
    hide FragNo, FrameNo, Port, IsLast, TimeAppended, Splice, Info1, Info2, Step, Blocks, Chunk;
    CountsBelow64(room, no, offset);
    assert no > 0 by { assert 0 * Chunk(room) == 0; }
    CutFields(port, frame, data, room, offset, no);
    assert Refused(Cut(port, frame, data, room, offset, no), rport, size, no, frameno, offset);
  }

  lemma {:induction false} WithoutRoomItFails(rport: nat, port: nat, frame: nat, data: Data, size: nat, buf: Data,
                                              room: nat,
                                              no: nat, frameno: nat, offset: nat)
    requires Stands(data, size, buf, room, frame, no, frameno, offset) && offset < 2048 && room < 2048
    requires no == 0 ==> Blocks(|data|) % 64 * 32 <= size && rport == port % 16
    requires offset + Step(room, |data| - offset) > size
    ensures var s := Fragments(port, frame, data, room, offset, no);
            !Delivers(Recv(s, rport, size, buf, no, frameno, offset), data)
  {
    hide FragNo, OffsetField, FrameNo, Port, IsLast, TimeAppended, Splice, Info1, Info2, Step, Blocks, Chunk;
    var s := Fragments(port, frame, data, room, offset, no);
    var step := Step(room, |data| - offset);
    CountsBelow64(room, no, offset);
    CutFields(port, frame, data, room, offset, no);
    assert !Refused(s[0], rport, size, no, frameno, offset);
    if step < |data| - offset {
      CutFields(port, frame, data, room, offset + step, no + 1);
      assert s[1..] == Rest(port, frame, data, room, offset, no);
      DroppedFragmentEndsIt(s[1..], rport, size, buf, no, frame % 16, offset, step);
    }
  }

  lemma {:induction false} ReachHere(data: Data, size: nat, buf: Data, room: nat, frame: nat, no: nat, frameno: nat,
                                     offset: nat)
    requires Stands(data, size, buf, room, frame, no, frameno, offset)
    ensures offset >= 2048 ==> |data| > Reach(room)
    ensures offset < 2048 && |data| - offset <= room ==> |data| <= Reach(room)
  {
    hide Reach, Chunk;
    if room >= 32 {
      ReachIsExact(|data|, room, no);
    } else {
      assert 0 * Chunk(room) == 0;
      assert Reach(room) == room by { ReachOfSmallRoom(room); }
    }
  }

  lemma {:induction false} ReachOfSmallRoom(room: nat)
    requires room < 32
    ensures Reach(room) == room
  {
  }

  /** Taking a fragment that fits leads to the next position, or to the whole frame. */
  lemma {:induction false} Advance(port: nat, data: Data, size: nat, buf: Data, room: nat, frame: nat, no: nat,
                                   frameno: nat, offset: nat)
    requires Stands(data, size, buf, room, frame, no, frameno, offset) && offset < 2048
    requires offset + Step(room, |data| - offset) <= size
    ensures var step := Step(room, |data| - offset);
            var b := Splice(buf, offset, data[offset..offset + step]);
            if step == |data| - offset then |data| <= |b| && b[..|data|] == data
            else Stands(data, size, b, room, frame, no + 1, frame % 16, offset + step) &&
                 Fragments(port, frame, data, room, offset, no)[1..] == Fragments(port, frame, data, room, offset + step, no + 1)
  {
    hide Splice, Cut, Step, Chunk;
    var step := Step(room, |data| - offset);
    SpliceExtends(buf, data, offset, offset + step);
    StepIsAChunk(room, |data| - offset, no);
    assert Fragments(port, frame, data, room, offset, no)[1..] == Rest(port, frame, data, room, offset, no);
  }

  lemma {:induction false} StepIsAChunk(room: nat, left: nat, no: nat)
    requires room >= 32 || left <= room
    ensures Step(room, left) < left ==> room >= 32 && left > room && Step(room, left) == Chunk(room)
    ensures (no + 1) * Chunk(room) == no * Chunk(room) + Chunk(room)
  {
  }

  lemma {:induction false} ReceptionFrom(rport: nat, port: nat, frame: nat, data: Data, size: nat, buf: Data, room: nat,
                                         no: nat, frameno: nat, offset: nat)
    requires Stands(data, size, buf, room, frame, no, frameno, offset) && room < 2048
    requires no == 0 ==> Blocks(|data|) % 64 * 32 <= size && rport == port % 16
    ensures Delivers(Recv(Fragments(port, frame, data, room, offset, no), rport, size, buf, no, frameno, offset), data)
       <==> |data| <= size && |data| <= Reach(room)
    decreases |data| - offset
  {
    hide Recv, Splice, Blocks, Step, Reach, Fragments, Chunk;
    var step := Step(room, |data| - offset);
    ReachHere(data, size, buf, room, frame, no, frameno, offset);
    if offset >= 2048 {
      TooFarIsRefused(rport, port, frame, data, size, buf, room, no, frameno, offset);
    } else if offset + step > size {
      WithoutRoomItFails(rport, port, frame, data, size, buf, room, no, frameno, offset);
    } else {
      TakeNext(rport, port, frame, data, size, buf, room, no, frameno, offset);
      Advance(port, data, size, buf, room, frame, no, frameno, offset);
      if step < |data| - offset {
        ReceptionFrom(rport, port, frame, data, size, Splice(buf, offset, data[offset..offset + step]), room,
                      no + 1, frame % 16, offset + step);
      } else {
        LastFitsRoom(room, |data| - offset);
      }
    }
  }

  lemma {:induction false} LastFitsRoom(room: nat, left: nat)
    requires (room >= 32 || left <= room) && Step(room, left) == left
    ensures left <= room
  {
  }

  /**
   * The blocking receiver is lossless exactly when it listens on the sender's port, its buffer holds the frame
   * and the size announced in blocks of 32, and no fragment starts beyond byte 2047.
   */
  lemma {:induction false} ReceptionIsLossless(rport: nat, port: nat, frame: nat, data: Data, size: nat, buf: Data,
                                               room: nat)
    requires size <= |buf| && room < MAX_MAILBOX && (room >= 32 || |data| <= room)
    ensures Delivers(Recv(Fragments(port, frame, data, room, 0, 0), rport, size, buf, 0, 0xff, 0), data)
       <==> rport == port % 16 && Blocks(|data|) % 64 * 32 <= size && |data| <= size && |data| <= Reach(room)
  {
    hide Blocks, Reach, Info1, Info2, FragNo, OffsetField, FrameNo, Port, IsLast, TimeAppended, Splice, Step, Chunk;
    var s := Fragments(port, frame, data, room, 0, 0);
    assert 0 * Chunk(room) == 0;
    if rport == port % 16 && Blocks(|data|) % 64 * 32 <= size {
      ReceptionFrom(rport, port, frame, data, size, buf, room, 0, 0xff, 0);
    } else {
      CutFields(port, frame, data, room, 0, 0);
      assert Refused(s[0], rport, size, 0, 0xff, 0);
    }
  }
}
