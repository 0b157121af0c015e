// CoE SDO transfers: writing a parameter as expedited, single or segmented messages (ecx_SDOwrite)
// and reading such messages back (ecx_SDOread); section 5.6 of ETG.1000.6.
module Sdo {
  import opened Bytes

  /** A mailbox: the length field of its header, the command byte and the bytes behind the command. */
  datatype Msg = Msg(length: nat, command: nat, body: Data)

  /** What a read returns: the parameter, or an error; and the commands of the segment requests it sent. */
  datatype Outcome = Read(p: Data, asked: seq<nat>) | Failed(asked: seq<nat>)

  const DOWN_INIT := 0x21
  const DOWN_EXP := 0x23
  const DOWN_INIT_CA := 0x31
  const SEG_UP_REQ := 0x60

  // Positions behind the command byte: index, subindex, first and second data word.
  const SUBINDEX := 2
  const LDATA0 := 3
  const LDATA1 := 7

  // Writing.

  function Flip(toggle: nat): nat { if toggle == 0 then 0x10 else 0 }

  /** One segment: `rest` bytes are left, at most `max` fit; `out` is the mailbox buffer as it was. */
  function Segment(rest: Data, max: nat, toggle: nat, out: Data): (m: Msg)
    requires max >= 7 && |out| == max
    ensures |m.body| == |out|
  {
    if |rest| > max then Msg(max + 3, toggle, Splice(out, 0, rest[..max]))
    else if |rest| < 7 then Msg(0x0a, 0x01 + (7 - |rest|) * 2 + toggle, Splice(out, 0, rest))
    else Msg(|rest| + 3, 0x01 + toggle, Splice(out, 0, rest))
  }

  /** The segments that carry `rest`. */
  function Segments(rest: Data, max: nat, toggle: nat, out: Data): seq<Msg>
    requires max >= 7 && |out| == max
    decreases |rest|
  {
    var m := Segment(rest, max, toggle, out);
    [m] + if |rest| > max then Segments(rest[max..], max, Flip(toggle), m.body) else []
  }

  /** Index, subindex and the first data word in a clear mailbox. */
  function Header(index: nat, sub: nat, ldata0: Data, room: nat): (r: Data)
    requires index < 0x1_0000 && sub < 0x100 && |ldata0| <= 4 && room >= LDATA1
    ensures |r| == room
  {
    Splice(Splice(Splice(Zeros(room), 0, Le16(index)), SUBINDEX, [sub]), LDATA0, ldata0)
  }

  /** The message that opens a normal transfer. */
  function Init(index: nat, sub: nat, ca: bool, data: Data, mbxl: nat): (m: Msg)
    requires index < 0x1_0000 && sub < 0x100 && mbxl > 0x10
    ensures |m.body| == mbxl - 9
  {
    var s := if ca && sub > 1 then 1 else sub;
    var n := if |data| > mbxl - 0x10 then mbxl - 0x10 else |data|;
    Msg(0x0a + n, if ca then DOWN_INIT_CA else DOWN_INIT,
        Splice(Header(index, s, Le32(|data|), mbxl - 9), LDATA1, data[..n]))
  }

  /** The messages of a write. */
  function Written(index: nat, sub: nat, ca: bool, data: Data, mbxl: nat): seq<Msg>
    requires index < 0x1_0000 && sub < 0x100 && mbxl > 0x10
  {
    if |data| <= 4 && !ca then
      [Msg(0x0a, DOWN_EXP + (4 - |data|) % 4 * 4, Header(index, sub, data, mbxl - 9))]
    else
      var init := Init(index, sub, ca, data, mbxl);
      [init] + if |data| > mbxl - 0x10 then Segments(data[mbxl - 0x10..], mbxl - 9, 0, init.body) else []
  }

  /** ecx_SDOwrite against a slave that confirms the first `confirmed` messages and answers the next one with an abort
      or anything else. */
  method SdoWrite(index: nat, sub: nat, ca: bool, data: Data, mbxl: nat, confirmed: nat) returns (ok: bool, sent: seq<Msg>)
    requires index < 0x1_0000 && sub < 0x100 && mbxl > 0x10 && |data| < 0x8000_0000
    ensures var all := Written(index, sub, ca, data, mbxl);
            if |all| <= confirmed then ok && sent == all else !ok && sent == all[..confirmed + 1]
  {
    hide Segments, Splice, Zeros, Le16, Le32;
    var out := Zeros(mbxl - 9);
    var maxdata := mbxl - 0x10;
    out := Splice(out, 0, Le16(index));
    if |data| <= 4 && !ca {
      out := Splice(out, SUBINDEX, [sub]);
      out := Splice(out, LDATA0, data);
      return confirmed > 0, [Msg(0x0a, DOWN_EXP + (4 - |data|) % 4 * 4, out)];
    }
    var framedatasize, notLast := |data|, false;
    if framedatasize > maxdata {
      framedatasize, notLast := maxdata, true;
    }
    out := Splice(out, SUBINDEX, [if ca && sub > 1 then 1 else sub]);
    out := Splice(out, LDATA0, Le32(|data|));
    out := Splice(out, LDATA1, data[..framedatasize]);
    ok, sent := confirmed > 0, [Msg(0x0a + framedatasize, if ca then DOWN_INIT_CA else DOWN_INIT, out)];
    assert sent == [Init(index, sub, ca, data, mbxl)];
    if ok && notLast {
      var segments;
      ok, segments := WriteSegments(data, maxdata, maxdata + 7, out, confirmed - 1);
      sent := sent + segments;
    }
  }

  /** The segment loop, from position `start` of `data` on. */
  method WriteSegments(data: Data, start: nat, maxdata: nat, buf: Data, confirmed: nat) returns (ok: bool, sent: seq<Msg>)
    requires maxdata >= 7 && |buf| == maxdata && start <= |data|
    ensures var all := Segments(data[start..], maxdata, 0, buf);
            if |all| <= confirmed then ok && sent == all else !ok && sent == all[..confirmed + 1]
  {
    hide Splice, Segments, Segment;
    var out, hp, toggle: nat, notLast := buf, start, 0, true;
    ghost var all := Segments(data[start..], maxdata, 0, buf);
    ok, sent := true, [];
    while notLast
      invariant |out| == maxdata && toggle in {0, 0x10} && start <= hp <= |data| && ok && |sent| <= confirmed
      invariant all == sent + if notLast then Segments(data[hp..], maxdata, toggle, out) else []
      decreases notLast, |data| - hp
    {
      SegmentsUnfold(data, hp, maxdata, toggle, out, sent);
      var m, more := WriteSegment(data, hp, maxdata, toggle, out);
      notLast, out, sent := more, m.body, sent + [m];
      hp := if more then hp + maxdata else |data|;
      if |sent| > confirmed {
        assert all[..confirmed + 1] == sent;
        return false, sent;
      }
      toggle := if toggle == 0 then 0x10 else 0;
    }
  }

  /** One segment: command, length and data in the mailbox buffer. */
  method WriteSegment(data: Data, hp: nat, maxdata: nat, toggle: nat, out: Data) returns (m: Msg, notLast: bool)
    requires maxdata >= 7 && |out| == maxdata && hp <= |data|
    ensures m == Segment(data[hp..], maxdata, toggle, out) && (notLast <==> |data| - hp > maxdata)
  {
    hide Splice, Segment;
    SegmentAt(data, hp, maxdata, toggle, out);
    var framedatasize, command: nat := |data| - hp, 0x01;
    notLast := false;
    if framedatasize > maxdata {
      framedatasize, notLast, command := maxdata, true, 0x00;
    }
    var length: nat;
    if !notLast && framedatasize < 7 {
      length, command := 0x0a, 0x01 + (7 - framedatasize) * 2;
    } else {
      length := framedatasize + 3;
    }
    command := command + toggle;
    m := Msg(length, command, Splice(out, 0, data[hp..hp + framedatasize]));
  }

  lemma {:induction false} SegmentAt(data: Data, hp: nat, max: nat, toggle: nat, out: Data)
    requires max >= 7 && |out| == max && hp <= |data|
    ensures var left := |data| - hp;
            Segment(data[hp..], max, toggle, out) ==
            if left > max then Msg(max + 3, toggle, Splice(out, 0, data[hp..hp + max]))
            else Msg(if left < 7 then 0x0a else left + 3, toggle + if left < 7 then 0x01 + (7 - left) * 2 else 0x01,
                     Splice(out, 0, data[hp..hp + left]))
  {
    hide Splice;
    var left := |data| - hp;
    assert left > max ==> data[hp..][..max] == data[hp..hp + max];
    assert data[hp..] == data[hp..hp + left];
  }

  lemma {:induction false} SegmentsUnfold(data: Data, hp: nat, max: nat, toggle: nat, out: Data, sent: seq<Msg>)
    requires max >= 7 && |out| == max && hp <= |data|
    ensures var m := Segment(data[hp..], max, toggle, out);
            sent + Segments(data[hp..], max, toggle, out) ==
            sent + [m] + if |data| - hp > max then Segments(data[hp + max..], max, Flip(toggle), m.body) else []
  {
    hide Splice, Segment;
    var m := Segment(data[hp..], max, toggle, out);
    if |data| - hp > max {
      assert data[hp..][max..] == data[hp + max..];
      assert sent + ([m] + Segments(data[hp + max..], max, Flip(toggle), m.body))
          == sent + [m] + Segments(data[hp + max..], max, Flip(toggle), m.body);
    }
  }

  // Reading.

  /** What the mailbox layer guarantees: the announced length lies inside the mailbox. */
  predicate Sound(m: Msg) { 0x0a <= m.length <= |m.body| + 3 }

  predicate AllSound(inbox: seq<Msg>) { forall i :: 0 <= i < |inbox| ==> Sound(inbox[i]) }

  predicate SegmentResponse(m: Msg) { m.command / 0x20 % 8 == 0 }

  predicate LastSegment(m: Msg) { m.command % 2 == 1 }

  /** The bytes of a segment that carry data. */
  function Payload(m: Msg): Data
    requires Sound(m)
  {
    var n := m.length - 3;
    m.body[..if LastSegment(m) && n == 7 then n - m.command / 2 % 8 else n]
  }

  /** The segment loop of a read, with the bytes and requests so far. */
  function Joined(inbox: seq<Msg>, p: Data, toggle: nat, asked: seq<nat>): Outcome
    requires AllSound(inbox)
    decreases |inbox|
  {
    var requests := asked + [SEG_UP_REQ + toggle];
    if inbox == [] || !SegmentResponse(inbox[0]) then Failed(requests)
    else if LastSegment(inbox[0]) then Read(p + Payload(inbox[0]), requests)
    else Joined(inbox[1..], p + Payload(inbox[0]), Flip(toggle), requests)
  }

  /** A read of the object `index` into a buffer of `size` bytes, `inbox` being the answers of the slave. */
  function Decoded(inbox: seq<Msg>, index: nat, size: nat): Outcome
    requires AllSound(inbox)
  {
    if inbox == [] || Word(inbox[0].body, 0) != index then Failed([]) else
    var m := inbox[0];
    if m.command / 2 % 2 == 1 then
      var n := 4 - m.command / 4 % 4;
      if size >= n then Read(m.body[LDATA0..LDATA0 + n], []) else Failed([])
    else
      var sdolen := Long(m.body, LDATA0);
      if sdolen > size then Failed([])
      else if m.length - 10 < sdolen then Joined(inbox[1..], m.body[LDATA1..LDATA1 + (m.length - 10)], 0, [])
      else Read(m.body[LDATA1..LDATA1 + sdolen], [])
  }

  /** ecx_SDOread, each mailbox receive taking the next element of `inbox`; sizes are below 2 GiB. */
  method SdoRead(inbox: seq<Msg>, index: nat, size: nat) returns (r: Outcome)
    requires AllSound(inbox)
    requires inbox != [] ==> Long(inbox[0].body, LDATA0) < 0x8000_0000
    ensures r == Decoded(inbox, index, size)
  {
    hide Word, Long, Joined;
    if inbox == [] || Word(inbox[0].body, 0) != index {
      return Failed([]);
    }
    var m := inbox[0];
    if m.command / 2 % 2 == 1 {
      var bytesize := 4 - m.command / 4 % 4;
      return if size >= bytesize then Read(m.body[LDATA0..LDATA0 + bytesize], []) else Failed([]);
    }
    var sdolen := Long(m.body, LDATA0);
    if sdolen > size {
      return Failed([]);
    }
    var framedatasize := m.length - 10;
    if framedatasize < sdolen {
      r := ReadSegments(inbox, m.body[LDATA1..LDATA1 + framedatasize]);
    } else {
      r := Read(m.body[LDATA1..LDATA1 + sdolen], []);
    }
  }

  method ReadSegments(inbox: seq<Msg>, first: Data) returns (r: Outcome)
    requires inbox != [] && AllSound(inbox)
    ensures r == Joined(inbox[1..], first, 0, [])
  {
    hide SegmentResponse;
    var i, p, toggle: nat, asked: seq<nat>, ok, notLast := 1, first, 0, [], true, true;
    while notLast
      invariant 1 <= i <= |inbox| && (notLast ==> ok)
      invariant Joined(inbox[1..], first, 0, [])
             == if notLast then Joined(inbox[i..], p, toggle, asked) else if ok then Read(p, asked) else Failed(asked)
      decreases notLast, |inbox| - i
    {
      asked := asked + [SEG_UP_REQ + toggle];
      assert if i == |inbox| then inbox[i..] == [] else inbox[i..][0] == inbox[i];
      if i == |inbox| || !SegmentResponse(inbox[i]) {
        ok, notLast := false, false;
      } else {
        var m := inbox[i];
        assert inbox[i..][0] == m && inbox[i..][1..] == inbox[i + 1..];
        var framedatasize := m.length - 3;
        if LastSegment(m) {
          notLast := false;
          if framedatasize == 7 {
            framedatasize := framedatasize - m.command / 2 % 8;
          }
        }
        p := p + m.body[..framedatasize];
        toggle := Flip(toggle);
        i := i + 1;
      }
    }
    r := if ok then Read(p, asked) else Failed(asked);
  }

  // Split and join.

  /** Segments are sound and carry exactly their slice of the parameter. */
  lemma {:induction false} SegmentCarries(rest: Data, max: nat, toggle: nat, out: Data)
    requires max >= 7 && |out| == max && rest != [] && toggle in {0, 0x10}
    ensures var m := Segment(rest, max, toggle, out);
            Sound(m) && SegmentResponse(m) && m.command / 0x10 % 2 * 0x10 == toggle &&
            (LastSegment(m) <==> |rest| <= max) && Payload(m) == if |rest| > max then rest[..max] else rest
  {
    var m := Segment(rest, max, toggle, out);
    if 7 <= |rest| <= max {
      assert rest[..|rest|] == rest;
    }
  }

  /** The toggle bits that answers carry, from `toggle` on. */
  predicate Alternates(s: seq<Msg>, toggle: nat) {
    forall i :: 0 <= i < |s| ==> s[i].command / 0x10 % 2 * 0x10 == if i % 2 == 0 then toggle else Flip(toggle)
  }

  predicate OnlyFinalIsLast(s: seq<Msg>) {
    forall i :: 0 <= i < |s| ==> (LastSegment(s[i]) <==> i == |s| - 1)
  }

  /** The requests that ask for the segments of `s`: their toggle bits, in order. */
  function Requests(s: seq<Msg>): seq<nat> {
    seq(|s|, i requires 0 <= i < |s| => SEG_UP_REQ + s[i].command / 0x10 % 2 * 0x10)
  }

  lemma {:induction false} FlagsPrepend(m: Msg, z: seq<Msg>, toggle: nat)
    requires z != [] && AllSound(z) && Alternates(z, Flip(toggle)) && OnlyFinalIsLast(z) && toggle in {0, 0x10}
    requires Sound(m) && !LastSegment(m) && m.command / 0x10 % 2 * 0x10 == toggle
    ensures AllSound([m] + z) && Alternates([m] + z, toggle) && OnlyFinalIsLast([m] + z)
  {
    hide Sound, LastSegment;
    var s := [m] + z;
    assert forall i :: 0 < i < |s| ==> s[i] == z[i - 1];
  }

  /** Toggle and last flag of the segments are as section 5.6 wants them. */
  lemma {:induction false} SegmentFlags(rest: Data, max: nat, toggle: nat, out: Data)
    requires max >= 7 && |out| == max && rest != [] && toggle in {0, 0x10}
    ensures var s := Segments(rest, max, toggle, out);
            s != [] && AllSound(s) && Alternates(s, toggle) && OnlyFinalIsLast(s)
    decreases |rest|
  {
    hide Splice, Segment, Payload, SegmentResponse, Sound, LastSegment;
    var s := Segments(rest, max, toggle, out);
    var m := Segment(rest, max, toggle, out);
    SegmentCarries(rest, max, toggle, out);
    if |rest| > max {
      SegmentFlags(rest[max..], max, Flip(toggle), m.body);
      FlagsPrepend(m, Segments(rest[max..], max, Flip(toggle), m.body), toggle);
    } else {
      assert s == [m];
    }
  }

  lemma {:induction false} RequestsOf(m: Msg, z: seq<Msg>)
    ensures Requests([m] + z) == [SEG_UP_REQ + m.command / 0x10 % 2 * 0x10] + Requests(z)
  {
  }

  /** Joining the segments gives the bytes back, asking for each with its own toggle bit. */
  lemma {:induction false} JoinUndoesSplit(rest: Data, max: nat, toggle: nat, out: Data, p: Data, asked: seq<nat>)
    requires max >= 7 && |out| == max && rest != [] && toggle in {0, 0x10}
    ensures var s := Segments(rest, max, toggle, out);
            AllSound(s) && Joined(s, p, toggle, asked) == Read(p + rest, asked + Requests(s))
    decreases |rest|
  {
    hide Splice, Segment, Payload, SegmentResponse, Sound, LastSegment, Requests, Joined, Alternates, OnlyFinalIsLast;
    var s := Segments(rest, max, toggle, out);
    var m := Segment(rest, max, toggle, out);
    SegmentCarries(rest, max, toggle, out);
    SegmentFlags(rest, max, toggle, out);
    JoinedUnfolds(s, p, toggle, asked);
    var requests: seq<nat> := asked + [SEG_UP_REQ + toggle];
    var z := if |rest| > max then Segments(rest[max..], max, Flip(toggle), m.body) else [];
    assert s == [m] + z && s[1..] == z;
    RequestsOf(m, z);
    NoRequests();
    assert requests + Requests(z) == asked + Requests(s);
    assert |rest| > max ==> p + rest[..max] + rest[max..] == p + rest;
    if |rest| > max {
      JoinUndoesSplit(rest[max..], max, Flip(toggle), m.body, p + rest[..max], requests);
    }
  }

  lemma {:induction false} JoinedUnfolds(s: seq<Msg>, p: Data, toggle: nat, asked: seq<nat>)
    requires AllSound(s) && s != [] && SegmentResponse(s[0])
    ensures Sound(s[0]) && AllSound(s[1..])
    ensures var requests := asked + [SEG_UP_REQ + toggle];
            Joined(s, p, toggle, asked) == if LastSegment(s[0]) then Read(p + Payload(s[0]), requests)
                                           else Joined(s[1..], p + Payload(s[0]), Flip(toggle), requests)
  {
    hide SegmentResponse, LastSegment, Payload;
  }

  lemma {:induction false} NoRequests()
    ensures Requests([]) == []
  {
  }

  lemma {:induction false} HeaderReads(index: nat, sub: nat, ldata0: Data, room: nat)
    requires index < 0x1_0000 && sub < 0x100 && |ldata0| <= 4 && room >= LDATA1
    ensures var h := Header(index, sub, ldata0, room);
            h[0..2] == Le16(index) && Word(h, 0) == index && h[SUBINDEX] == sub &&
            h[LDATA0..LDATA0 + |ldata0|] == ldata0
  {
    hide Le16, Word;
    var h := Header(index, sub, ldata0, room);
    Le16ReadsBack(index, h, 0);
  }

  lemma {:induction false} InitReads(index: nat, sub: nat, ca: bool, data: Data, mbxl: nat)
    requires index < 0x1_0000 && sub < 0x100 && mbxl > 0x10 && |data| < 0x8000_0000
    ensures var m := Init(index, sub, ca, data, mbxl);
            var n := if |data| > mbxl - 0x10 then mbxl - 0x10 else |data|;
            Sound(m) && m.command / 2 % 2 == 0 && m.length == 0x0a + n && |m.body| == mbxl - 9 &&
            Word(m.body, 0) == index && Long(m.body, LDATA0) == |data| && m.body[LDATA1..LDATA1 + n] == data[..n]
  {
    hide Le16, Le32, Word, Long, Header;
    var m := Init(index, sub, ca, data, mbxl);
    var h := Header(index, if ca && sub > 1 then 1 else sub, Le32(|data|), mbxl - 9);
    HeaderReads(index, if ca && sub > 1 then 1 else sub, Le32(|data|), mbxl - 9);
    assert m.body[0..2] == h[0..2] && m.body[LDATA0..LDATA0 + 4] == h[LDATA0..LDATA0 + 4];
    Le16ReadsBack(index, m.body, 0);
    Le32ReadsBack(|data|, m.body, LDATA0);
  }

  lemma {:induction false} NormalTransfer(index: nat, sub: nat, ca: bool, data: Data, mbxl: nat, size: nat)
    requires index < 0x1_0000 && sub < 0x100 && mbxl > 0x10 && |data| < 0x8000_0000 && (ca || |data| > 4)
    ensures var s := Written(index, sub, ca, data, mbxl);
            AllSound(s) && Decoded(s, index, size) == if |data| <= size then Read(data, Requests(s[1..])) else Failed([])
  {
    hide Init, Segments, Joined, Sound, Word, Long, Requests;
    var s := Written(index, sub, ca, data, mbxl);
    var m := Init(index, sub, ca, data, mbxl);
    InitReads(index, sub, ca, data, mbxl);
    var n := mbxl - 0x10;
    if |data| > n {
      var z := Segments(data[n..], mbxl - 9, 0, m.body);
      SegmentFlags(data[n..], mbxl - 9, 0, m.body);
      JoinUndoesSplit(data[n..], mbxl - 9, 0, m.body, data[..n], []);
      assert s[1..] == z && [] + Requests(z) == Requests(z);
      assert forall i :: 0 < i < |s| ==> s[i] == z[i - 1];
      assert data[..n] + data[n..] == data;
    } else {
      NoRequests();
      assert s[1..] == [] && data[..|data|] == data;
    }
  }

  lemma {:induction false} ExpeditedTransfer(index: nat, sub: nat, data: Data, mbxl: nat, size: nat)
    requires index < 0x1_0000 && sub < 0x100 && mbxl > 0x10 && |data| <= 4
    ensures var s := Written(index, sub, false, data, mbxl);
            var n := if data == [] then 4 else |data|;
            AllSound(s) && |s| == 1 && SUBINDEX + 1 + n <= |s[0].body| &&
            Decoded(s, index, size) == (if n <= size then Read(s[0].body[LDATA0..LDATA0 + n], []) else Failed([])) &&
            (data != [] ==> s[0].body[LDATA0..LDATA0 + n] == data)
  {
    hide Header, Word, Long, Joined;
    HeaderReads(index, sub, data, mbxl - 9);
    var command := DOWN_EXP + (4 - |data|) % 4 * 4;
    assert command / 2 % 2 == 1 && 4 - command / 4 % 4 == if data == [] then 4 else |data|;
  }

  /** The index in the first message is compared. */
  lemma {:induction false} OtherObject(index: nat, sub: nat, ca: bool, data: Data, mbxl: nat, want: nat, size: nat)
    requires index < 0x1_0000 && sub < 0x100 && mbxl > 0x10 && |data| < 0x8000_0000 && want != index
    ensures var s := Written(index, sub, ca, data, mbxl);
            AllSound(s) ==> Decoded(s, want, size) == Failed([])
  {
    hide Segments, Joined, Word, Long, Header, Init;
    FirstMessage(index, sub, ca, data, mbxl);
  }

  /**
   * What the slave finds in the first message of a write (section 5.6.2 of ETG.1000.6): the object, with subindex 0 or 1 under
   * complete access; a download request that says whether it is a complete access and whether the data is in it, and
   * then how many of the four bytes are unused, or else the size; the size is always indicated.
   */
  lemma {:induction false} FirstMessage(index: nat, sub: nat, ca: bool, data: Data, mbxl: nat)
    requires index < 0x1_0000 && sub < 0x100 && mbxl > 0x10 && |data| < 0x8000_0000
    ensures var s := Written(index, sub, ca, data, mbxl);
            var expedited := |data| <= 4 && !ca;
            && s != [] && |s[0].body| == mbxl - 9
            && Word(s[0].body, 0) == index && s[0].body[SUBINDEX] == (if ca && sub > 1 then 1 else sub)
            && s[0].command == 0x20 + (if ca then 0x10 else 0) + (if expedited then 2 + (4 - |data|) % 4 * 4 else 0) + 1
            && (if expedited then |s| == 1 && s[0].body[LDATA0..LDATA0 + |data|] == data
                else Long(s[0].body, LDATA0) == |data|)
  {
    hide Segments, Word, Long, Le16, Le32, Zeros;
    var s := if ca && sub > 1 then 1 else sub;
    if |data| <= 4 && !ca {
      HeaderReads(index, sub, data, mbxl - 9);
    } else {
      HeaderReads(index, s, Le32(|data|), mbxl - 9);
      InitReads(index, sub, ca, data, mbxl);
      var h := Header(index, s, Le32(|data|), mbxl - 9);
      assert Init(index, sub, ca, data, mbxl).body[SUBINDEX] == h[SUBINDEX];
    }
  }

  /** No message is longer than the mailbox with its six-byte header, and all but the last fill it. */
  ghost predicate FillMailbox(s: seq<Msg>, mbxl: nat) {
    forall i :: 0 <= i < |s| ==> 6 + s[i].length <= mbxl && (i < |s| - 1 ==> 6 + s[i].length == mbxl)
  }

  lemma {:induction false} SegmentsFillMailbox(rest: Data, max: nat, toggle: nat, out: Data)
    requires max > 7 && |out| == max
    ensures FillMailbox(Segments(rest, max, toggle, out), max + 9)
    decreases |rest|
  {
    hide Splice;
    var m := Segment(rest, max, toggle, out);
    if |rest| > max {
      SegmentsFillMailbox(rest[max..], max, Flip(toggle), m.body);
      var z := Segments(rest[max..], max, Flip(toggle), m.body);
      assert forall i :: 0 < i < |[m] + z| ==> ([m] + z)[i] == z[i - 1];
    }
  }

  lemma {:induction false} MessagesFillMailbox(index: nat, sub: nat, ca: bool, data: Data, mbxl: nat)
    requires index < 0x1_0000 && sub < 0x100 && mbxl > 0x10
    ensures FillMailbox(Written(index, sub, ca, data, mbxl), mbxl)
  {
    hide Segments, Header, Splice;
    if !(|data| <= 4 && !ca) {
      var m := Init(index, sub, ca, data, mbxl);
      if |data| > mbxl - 0x10 {
        SegmentsFillMailbox(data[mbxl - 0x10..], mbxl - 9, 0, m.body);
        var z := Segments(data[mbxl - 0x10..], mbxl - 9, 0, m.body);
        assert forall i :: 0 < i < |[m] + z| ==> ([m] + z)[i] == z[i - 1];
      }
    }
  }

  // What the segment loop accepts.

  /** The first `n` answers are segments, and only the last of them says that it is. */
  ghost predicate Closed(inbox: seq<Msg>, n: nat) {
    0 < n <= |inbox| && forall i :: 0 <= i < n ==> SegmentResponse(inbox[i]) && (LastSegment(inbox[i]) <==> i == n - 1)
  }

  function Payloads(s: seq<Msg>): Data
    requires AllSound(s)
  {
    if s == [] then [] else Payload(s[0]) + Payloads(s[1..])
  }

  /** The commands of `n` segment requests, whose toggle bit alternates. */
  function Asking(n: nat, toggle: nat): seq<nat> {
    seq(n, i requires 0 <= i < n => SEG_UP_REQ + if i % 2 == 0 then toggle else Flip(toggle))
  }

  lemma {:induction false} AskingMore(n: nat, toggle: nat)
    requires n > 0 && toggle in {0, 0x10}
    ensures Asking(n, toggle) == [SEG_UP_REQ + toggle] + Asking(n - 1, Flip(toggle))
  {
  }

  lemma {:induction false} AskedOnce(toggle: nat)
    ensures Asking(1, toggle) == [SEG_UP_REQ + toggle]
  {
  }

  lemma {:induction false} ClosedRest(inbox: seq<Msg>, n: nat)
    requires inbox != [] && SegmentResponse(inbox[0]) && !LastSegment(inbox[0])
    ensures Closed(inbox, n) <==> n > 1 && Closed(inbox[1..], n - 1)
  {
    hide SegmentResponse, LastSegment;
    if n > 1 && Closed(inbox[1..], n - 1) {
      forall i | 0 <= i < n ensures SegmentResponse(inbox[i]) && (LastSegment(inbox[i]) <==> i == n - 1) {
        assert i > 0 ==> inbox[i] == inbox[1..][i - 1];
      }
    }
    if Closed(inbox, n) {
      assert n > 1;
      assert forall i :: 0 <= i < n - 1 ==> inbox[1..][i] == inbox[i + 1];
    }
  }

  /**
   * The segment loop succeeds if and only if the answers begin with segments up to one that says it is the last; it yields
   * their data one behind the other and has asked for each with alternating toggle bits. (What toggle bits the answers
   * carry is not looked at.)
   */
  lemma {:induction false} JoinsIffClosed(inbox: seq<Msg>, p: Data, toggle: nat, asked: seq<nat>)
    requires AllSound(inbox) && toggle in {0, 0x10}
    ensures Joined(inbox, p, toggle, asked).Read? <==> exists n: nat :: Closed(inbox, n)
    ensures forall n: nat :: Closed(inbox, n) ==>
              n <= |inbox| && Joined(inbox, p, toggle, asked) == Read(p + Payloads(inbox[..n]), asked + Asking(n, toggle))
    decreases |inbox|
  {
    hide SegmentResponse, LastSegment, Payload, Sound, Asking, Joined;
    if inbox == [] || !SegmentResponse(inbox[0]) {
      NotJoined(inbox, p, toggle, asked);
      assert forall n: nat :: !Closed(inbox, n);
    } else {
      var m := inbox[0];
      JoinedUnfolds(inbox, p, toggle, asked);
      var requests: seq<nat> := asked + [SEG_UP_REQ + toggle];
      if LastSegment(m) {
        assert Closed(inbox, 1) && forall n: nat :: Closed(inbox, n) ==> n == 1;
        assert inbox[..1] == [m] && [m][1..] == [];
        AskedOnce(toggle);
      } else {
        JoinsIffClosed(inbox[1..], p + Payload(m), Flip(toggle), requests);
        forall n: nat ensures Closed(inbox, n) <==> n > 1 && Closed(inbox[1..], n - 1) {
          ClosedRest(inbox, n);
        }
        forall n: nat | Closed(inbox, n)
          ensures Joined(inbox, p, toggle, asked) == Read(p + Payloads(inbox[..n]), asked + Asking(n, toggle))
        {
          AskingMore(n, toggle);
          assert inbox[..n][1..] == inbox[1..][..n - 1];
          assert asked + Asking(n, toggle) == requests + Asking(n - 1, Flip(toggle));
          assert p + (Payload(m) + Payloads(inbox[1..][..n - 1])) == p + Payload(m) + Payloads(inbox[1..][..n - 1]);
        }
        if Joined(inbox, p, toggle, asked).Read? {
          var k: nat :| Closed(inbox[1..], k);
          assert Closed(inbox, k + 1);
        }
      }
    }
  }

  lemma {:induction false} NotJoined(inbox: seq<Msg>, p: Data, toggle: nat, asked: seq<nat>)
    requires AllSound(inbox) && (inbox == [] || !SegmentResponse(inbox[0]))
    ensures Joined(inbox, p, toggle, asked).Failed?
  {
  }

  /**
   * Reading back what was written gives the parameter, for every mailbox longer than 16 bytes, exactly when the
   * buffer can hold it and it is not an empty parameter in an expedited message, which reads as four bytes.
   * The requests of the read carry the toggle bits of the segments, which alternate from 0; only the final one is last.
   * A read of another object `want` is refused.
   */
  lemma {:induction false} SplitAndJoin(index: nat, sub: nat, ca: bool, data: Data, mbxl: nat, want: nat, size: nat)
    requires index < 0x1_0000 && sub < 0x100 && mbxl > 0x10 && |data| < 0x8000_0000
    ensures var s := Written(index, sub, ca, data, mbxl);
            AllSound(s) && s != [] && Alternates(s[1..], 0) && OnlyFinalIsLast(s[1..]) &&
            (Decoded(s, want, size) == Read(data, Requests(s[1..])) <==> want == index && |data| <= size && (ca || data != []))
  {
    hide Init, Segments, Joined, Sound, Word, Long, Decoded, Header;
    var s := Written(index, sub, ca, data, mbxl);
    if want != index {
      OtherObject(index, sub, ca, data, mbxl, want, size);
    }
    if |data| <= 4 && !ca {
      ExpeditedTransfer(index, sub, data, mbxl, size);
      assert s[1..] == [];
      NoRequests();
    } else {
      NormalTransfer(index, sub, ca, data, mbxl, size);
      if |data| > mbxl - 0x10 {
        SegmentFlags(data[mbxl - 0x10..], mbxl - 9, 0, Init(index, sub, ca, data, mbxl).body);
        assert s[1..] == Segments(data[mbxl - 0x10..], mbxl - 9, 0, Init(index, sub, ca, data, mbxl).body);
      } else {
        assert s[1..] == [];
      }
    }
  }
}
