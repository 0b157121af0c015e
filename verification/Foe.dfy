// FoE file transfer: the packet loops of ecx_FOEwrite and ecx_FOEread, run against each other
// (section 5.8 of ETG.1000.6).
module Foe {
  import opened Bytes

  datatype Msg = Packet(number: nat, data: Data) | Ack(number: nat) | Busy | Error(code: nat) | OtherOp | NotFoe

  const PACKET_ERROR: int := -3
  const FOE_ERROR: int := -5
  const FOE_BUF2SMALL: int := -6
  const FOE_PACKETNUMBER: int := -7
  const FOE_FILE_NOTFOUND: int := -10

  // The writer.

  /** Where ecx_FOEwrite stands in its file; `segment` is the length of the packet sent last. */
  datatype Writing = Writing(pos: nat, sendpacket: nat, dofinalzero: bool, segment: nat, worktodo: bool, wkc: int) {
    predicate Valid(data: Data) { pos <= |data| && (worktodo ==> segment <= pos) }
  }

  /** Packet `number` was acknowledged: the next one, the final empty one, or nothing when all is done. */
  function AckStep(w: Writing, data: Data, maxdata: nat, number: nat): (r: (Writing, Option<Msg>))
    requires w.Valid(data) && w.worktodo
    ensures r.0.Valid(data)
  {
    var idle := w.(worktodo := false, wkc := 1);
    if number != w.sendpacket then (idle.(wkc := FOE_PACKETNUMBER), None)
    else
      var tsize := if |data| - w.pos > maxdata then maxdata else |data| - w.pos;
      if tsize == 0 && !w.dofinalzero then (idle, None)
      else
        var pos := w.pos + tsize;
        (Writing(pos, w.sendpacket + 1, pos == |data| && tsize == maxdata, tsize, true, 1),
         Some(Packet(w.sendpacket + 1, data[w.pos..pos])))
  }

  /** One turn of the write loop: the mailbox that came in, None after a timeout, and the packet sent. */
  function WriteStep(w: Writing, data: Data, maxdata: nat, m: Option<Msg>): (r: (Writing, Option<Msg>))
    requires w.Valid(data) && w.worktodo
    ensures r.0.Valid(data)
  {
    var idle := w.(worktodo := false, wkc := 1);
    match m
    case None => (w.(worktodo := false, wkc := 0), None)
    case Some(Ack(number)) => AckStep(w, data, maxdata, number)
    case Some(Busy) =>
      if w.sendpacket == 0 then (idle, None)
      else (idle.(dofinalzero := w.dofinalzero || w.pos == |data|, pos := w.pos - w.segment,
                  sendpacket := w.sendpacket - 1), None)
    case Some(Error(code)) => (idle.(wkc := if code == 0x8001 then FOE_FILE_NOTFOUND else FOE_ERROR), None)
    case Some(_) => (idle.(wkc := PACKET_ERROR), None)
  }

  /** The same when the mailbox of the slave may refuse what is posted, which ends the loop. */
  function WriteTurn(w: Writing, data: Data, maxdata: nat, m: Option<Msg>, posted: bool): (r: (Writing, Option<Msg>))
    requires w.Valid(data) && w.worktodo
    ensures r.0.Valid(data)
  {
    var (z, out) := WriteStep(w, data, maxdata, m);
    if out.Some? && !posted then (z.(worktodo := false, wkc := 0), None) else (z, out)
  }

  // The reader.

  /** Where ecx_FOEread stands: the bytes stored so far and the last packet number expected. */
  datatype Reading = Reading(got: Data, prevpacket: nat, worktodo: bool, wkc: int)

  /** One turn of the read loop. */
  function ReadStep(r: Reading, buffersize: nat, maxdata: nat, m: Option<Msg>): (z: (Reading, Option<Msg>))
    ensures z.1.Some? ==> z.1.value.Ack?
  {
    match m
    case None => (r.(worktodo := false, wkc := 0), None)
    case Some(Packet(number, data)) =>
      if number == r.prevpacket + 1 && |r.got| + |data| <= buffersize
      then (Reading(r.got + data, number, |data| == maxdata, 1), Some(Ack(number)))
      else (r.(prevpacket := r.prevpacket + 1, worktodo := false, wkc := FOE_BUF2SMALL), None)
    case Some(Error(_)) => (r.(worktodo := false, wkc := FOE_ERROR), None)
    case Some(_) => (r.(worktodo := false, wkc := PACKET_ERROR), None)
  }

  /** The same when the acknowledgement may be refused. */
  function ReadTurn(r: Reading, buffersize: nat, maxdata: nat, m: Option<Msg>, posted: bool): (Reading, Option<Msg>) {
    var (z, out) := ReadStep(r, buffersize, maxdata, m);
    if out.Some? && !posted then (z.(worktodo := false, wkc := 0), None) else (z, out)
  }

  class Writer {
    const file: array<Byte>
    const maxdata: nat
    var psize: nat
    var p: nat
    var sendpacket: nat
    var segmentdata: nat
    var dofinalzero: bool
    var worktodo: bool
    var wkc: int

    constructor (file: array<Byte>, mbxl: nat)
      requires mbxl > 12
      ensures this.file == file && maxdata == mbxl - 12 && Valid()
      ensures State() == Writing(0, 0, true, 0, true, 1)
    {
      this.file, maxdata := file, mbxl - 12;
      psize, p, sendpacket, segmentdata := file.Length, 0, 0, 0;
      dofinalzero, worktodo, wkc := true, true, 1;
    }

    ghost predicate Valid()
      reads this, file
    {
      p + psize == file.Length && State().Valid(file[..])
    }

    ghost function State(): Writing
      reads this
    {
      Writing(p, sendpacket, dofinalzero, segmentdata, worktodo, wkc)
    }

    /** Sends the next `tsize` bytes; a full packet at the end of the file calls for an empty one after it. */
    method Emit(tsize: nat) returns (sent: Option<Msg>)
      requires Valid() && tsize <= psize
      modifies this
      ensures Valid() && wkc == old(wkc)
      ensures State() == Writing(old(p) + tsize, old(sendpacket) + 1, old(p) + tsize == file.Length && tsize == maxdata,
                                 tsize, true, old(wkc))
      ensures sent == Some(Packet(sendpacket, file[..][old(p)..p]))
    {
      worktodo, dofinalzero := true, false;
      segmentdata := tsize;
      psize := psize - segmentdata;
      if psize == 0 && segmentdata == maxdata {
        dofinalzero := true;
      }
      sendpacket := sendpacket + 1;
      sent := Some(Packet(sendpacket, file[p..p + segmentdata]));
      assert file[..][p..p + segmentdata] == file[p..p + segmentdata];
      p := p + segmentdata;
    }

    /** An acknowledgement: the next packet, the final empty one, or nothing when all is done. */
    method Acknowledged(number: nat) returns (sent: Option<Msg>)
      requires Valid() && !worktodo && segmentdata <= p
      modifies this
      ensures Valid()
      ensures (State(), sent) == AckStep(old(State()).(worktodo := true), file[..], maxdata, number)
    {
      wkc := 1;
      if number != sendpacket {
        wkc := FOE_PACKETNUMBER;
        return None;
      }
      var tsize := psize;
      if tsize > maxdata {
        tsize := maxdata;
      }
      if tsize == 0 && !dofinalzero {
        return None;
      }
      sent := Emit(tsize);
    }

    /** One turn of the loop in ecx_FOEwrite; `posted` tells whether the slave's mailbox takes what is sent. */
    method Turn(m: Option<Msg>, posted: bool) returns (sent: Option<Msg>)
      requires Valid() && worktodo
      modifies this
      ensures Valid()
      ensures (State(), sent) == WriteTurn(old(State()), file[..], maxdata, m, posted)
    {
      hide AckStep;
      worktodo, sent := false, None;
      match m
      case None => wkc := 0;
      case Some(Ack(number)) =>
        sent := Acknowledged(number);
        if sent.Some? && !posted {
          worktodo, wkc, sent := false, 0, None;
        }
      case Some(Busy) =>
        wkc := 1;
        if sendpacket > 0 {
          if psize == 0 {
            dofinalzero := true;
          }
          psize, p, sendpacket := psize + segmentdata, p - segmentdata, sendpacket - 1;
        }
      case Some(Error(code)) => wkc := if code == 0x8001 then FOE_FILE_NOTFOUND else FOE_ERROR;
      case Some(_) => wkc := PACKET_ERROR;
    }
  }

  class Reader {
    const buffer: array<Byte>
    const maxdata: nat
    var dataread: nat
    var prevpacket: nat
    var worktodo: bool
    var wkc: int

    constructor (buffer: array<Byte>, mbxl: nat)
      requires mbxl > 12
      ensures this.buffer == buffer && maxdata == mbxl - 12 && Valid()
      ensures State() == Reading([], 0, true, 1)
    {
      this.buffer, maxdata := buffer, mbxl - 12;
      dataread, prevpacket, worktodo, wkc := 0, 0, true, 1;
    }

    ghost predicate Valid()
      reads this
    {
      dataread <= buffer.Length
    }

    ghost function State(): Reading
      requires Valid()
      reads this, buffer
    {
      Reading(buffer[..dataread], prevpacket, worktodo, wkc)
    }

    /** One turn of the loop in ecx_FOEread; `posted` tells whether the slave's mailbox takes the acknowledgement. */
    method Turn(m: Option<Msg>, posted: bool) returns (sent: Option<Msg>)
      requires Valid() && worktodo
      modifies this, buffer
      ensures Valid()
      ensures (State(), sent) == ReadTurn(old(State()), buffer.Length, maxdata, m, posted)
    {
      worktodo, sent := false, None;
      match m
      case None => wkc := 0;
      case Some(Packet(number, data)) =>
        prevpacket := prevpacket + 1;
        if number == prevpacket && dataread + |data| <= buffer.Length {
          ghost var before := buffer[..dataread];
          CopyInto(buffer, dataread, data);
          dataread := dataread + |data|;
          assert buffer[..dataread] == before + data;
          worktodo := |data| == maxdata;
          wkc, sent := 1, Some(Ack(number));
          if !posted {
            worktodo, wkc, sent := false, 0, None;
          }
        } else {
          wkc := FOE_BUF2SMALL;
        }
      case Some(Error(_)) => wkc := FOE_ERROR;
      case Some(_) => wkc := PACKET_ERROR;
    }
  }

  // Both loops together.

  /** What a transfer leaves: both ends and the packets that were sent. */
  datatype Result = Result(w: Writing, r: Reading, packets: seq<Msg>)

  /** The mailbox goes back and forth until the writer stops; a reader that has stopped takes nothing more. */
  function Exchange(w: Writing, r: Reading, data: Data, buffersize: nat, maxdata: nat, m: Option<Msg>,
                    packets: seq<Msg>): Result
    requires w.Valid(data) && maxdata > 0 && (m.Some? ==> m.value.Ack?)
    decreases |data| - w.pos, w.dofinalzero, w.worktodo
  {
    if !w.worktodo then Result(w, r, packets) else
    var (w', out) := WriteStep(w, data, maxdata, m);
    if out.None? then Result(w', r, packets)
    else if !r.worktodo then Exchange(w', r, data, buffersize, maxdata, None, packets + [out.value])
    else
      var (r', back) := ReadStep(r, buffersize, maxdata, out);
      Exchange(w', r', data, buffersize, maxdata, back, packets + [out.value])
  }

  /** ecx_FOEwrite and ecx_FOEread run against each other, after the write request was acknowledged as packet 0. */
  method Transfer(writer: Writer, reader: Reader) returns (packets: seq<Msg>)
    requires writer.Valid() && reader.Valid() && writer.file != reader.buffer
    requires writer.State() == Writing(0, 0, true, 0, true, 1) && reader.State() == Reading([], 0, true, 1)
    requires writer.maxdata == reader.maxdata > 0
    modifies writer, reader, reader.buffer
    ensures writer.Valid() && reader.Valid()
    ensures Result(writer.State(), reader.State(), packets)
         == Exchange(Writing(0, 0, true, 0, true, 1), Reading([], 0, true, 1), writer.file[..], reader.buffer.Length,
                     writer.maxdata, Some(Ack(0)), [])
  {
    hide WriteStep, ReadStep;
    var m: Option<Msg> := Some(Ack(0));
    packets := [];
    ghost var file := writer.file[..];
    ghost var all := Exchange(writer.State(), reader.State(), file, reader.buffer.Length, writer.maxdata, m, []);
    while writer.worktodo
      invariant writer.Valid() && reader.Valid() && writer.file[..] == file && (m.Some? ==> m.value.Ack?)
      invariant all == Exchange(writer.State(), reader.State(), file, reader.buffer.Length, writer.maxdata, m, packets)
      decreases |file| - writer.p, writer.dofinalzero, writer.worktodo
    {
      StepMakesProgress(writer.State(), file, writer.maxdata, m);
      var out := writer.Turn(m, true);
      m := None;
      if out.Some? {
        packets := packets + [out.value];
        if reader.worktodo {
          m := reader.Turn(out, true);
        }
      }
    }
  }

  /** Every turn of the writer that sends nothing ends its loop; every other one gets closer to the end. */
  lemma {:induction false} StepMakesProgress(w: Writing, data: Data, maxdata: nat, m: Option<Msg>)
    requires w.Valid(data) && w.worktodo && maxdata > 0 && (m.Some? ==> m.value.Ack?)
    ensures var (z, out) := WriteStep(w, data, maxdata, m);
            z.pos >= w.pos && (z.pos == w.pos ==> !z.dofinalzero || z.dofinalzero == w.dofinalzero) &&
            (out.None? ==> !z.worktodo && z.pos == w.pos && z.dofinalzero == w.dofinalzero) &&
            (out.Some? && z.pos == w.pos ==> w.dofinalzero && !z.dofinalzero)
  {
  }

  // What a transfer achieves.

  /** The packets that carry `data` from `pos` on, numbered from `number` on: full ones and a final shorter one. */
  function Packets(data: Data, maxdata: nat, pos: nat, number: nat): seq<Msg>
    requires maxdata > 0 && pos <= |data|
    decreases |data| - pos
  {
    if |data| - pos < maxdata then [Packet(number, data[pos..])]
    else [Packet(number, data[pos..pos + maxdata])] + Packets(data, maxdata, pos + maxdata, number + 1)
  }

  predicate Numbered(s: seq<Msg>, first: nat) {
    forall i :: 0 <= i < |s| ==> s[i].Packet? && s[i].number == first + i
  }

  predicate OnlyFinalIsShort(s: seq<Msg>, maxdata: nat) {
    forall i :: 0 <= i < |s| ==> s[i].Packet? && |s[i].data| <= maxdata && (|s[i].data| < maxdata <==> i == |s| - 1)
  }

  /** n / maxdata + 1 packets, numbered upward, and only the last is shorter than a full one. */
  lemma {:induction false} PacketCount(data: Data, maxdata: nat, pos: nat, number: nat)
    requires maxdata > 0 && pos <= |data|
    ensures var s := Packets(data, maxdata, pos, number);
            |s| == (|data| - pos) / maxdata + 1 && Numbered(s, number) && OnlyFinalIsShort(s, maxdata)
    decreases |data| - pos
  {
    if |data| - pos >= maxdata {
      PacketCount(data, maxdata, pos + maxdata, number + 1);
      OneLess(|data| - pos, maxdata);
    } else {
      NoneLess(|data| - pos, maxdata);
    }
  }

  lemma {:induction false} OneLess(n: nat, m: nat)
    requires 0 < m <= n
    ensures n / m == (n - m) / m + 1
  {
    var q, r := (n - m) / m, (n - m) % m;
    Distribute(q, m);
    QuotientIs(n, m, q + 1, r);
  }

  lemma {:induction false} Distribute(q: nat, m: nat)
    ensures (q + 1) * m == q * m + m
  {
  }

  lemma {:induction false} QuotientIs(n: nat, m: nat, q: nat, r: nat)
    requires r < m && n == q * m + r
    ensures n / m == q
  {
    var d := n / m;
    assert n == d * m + n % m;
    if d < q {
      Distribute(d, m);
      Larger(d + 1, q, m);
    } else if d > q {
      Distribute(q, m);
      Larger(q + 1, d, m);
    }
  }

  lemma {:induction false} Larger(i: nat, k: nat, m: nat)
    requires i <= k
    ensures i * m <= k * m
  {
  }

  lemma {:induction false} NoneLess(n: nat, m: nat)
    requires n < m
    ensures n / m == 0
  {
  }

  /** The writer at `pos` after `number` packets, and the reader in step with it. */
  predicate InStep(w: Writing, r: Reading, data: Data, buffersize: nat, pos: nat, number: nat) {
    && w.worktodo && w.pos == pos <= |data| && w.sendpacket == number && (pos < |data| || w.dofinalzero)
    && w.Valid(data) && r.worktodo && r.got == data[..pos] && r.prevpacket == number && pos <= buffersize
  }

  lemma {:induction false} OnePacket(w: Writing, r: Reading, data: Data, buffersize: nat, maxdata: nat, pos: nat,
                                     number: nat)
    requires maxdata > 0 && InStep(w, r, data, buffersize, pos, number)
    ensures var n := if |data| - pos > maxdata then maxdata else |data| - pos;
            var (w', out) := WriteStep(w, data, maxdata, Some(Ack(number)));
            var (r', back) := ReadStep(r, buffersize, maxdata, out);
            out == Some(Packet(number + 1, data[pos..pos + n])) && w'.worktodo && w'.sendpacket == number + 1 && w'.pos == pos + n &&
            if pos + n > buffersize then back == None && r' == r.(prevpacket := number + 1, worktodo := false, wkc := FOE_BUF2SMALL)
            else back == Some(Ack(number + 1)) && r'.got == data[..pos + n] && r'.wkc == 1 &&
                 if n == maxdata then InStep(w', r', data, buffersize, pos + n, number + 1) else !r'.worktodo && !w'.dofinalzero
  {
  }

  lemma {:induction false} WriterStops(w: Writing, r: Reading, data: Data, buffersize: nat, maxdata: nat,
                                       m: Option<Msg>, packets: seq<Msg>)
    requires w.Valid(data) && w.worktodo && maxdata > 0
    requires m == None || (m == Some(Ack(w.sendpacket)) && w.pos == |data| && !w.dofinalzero)
    ensures Exchange(w, r, data, buffersize, maxdata, m, packets)
         == Result(w.(worktodo := false, wkc := if m == None then 0 else 1), r, packets)
  {
  }

  lemma {:induction false} TransferFrom(w: Writing, r: Reading, data: Data, buffersize: nat, maxdata: nat, pos: nat,
                                        number: nat,
                                        packets: seq<Msg>)
    requires maxdata > 0 && InStep(w, r, data, buffersize, pos, number)
    ensures var z := Exchange(w, r, data, buffersize, maxdata, Some(Ack(number)), packets);
            !z.w.worktodo && !z.r.worktodo &&
            if |data| <= buffersize
            then z.w.wkc == 1 && z.r.wkc == 1 && z.r.got == data && z.packets == packets + Packets(data, maxdata, pos, number + 1)
            else z.w.wkc == 0 && z.r.wkc == FOE_BUF2SMALL &&
                 |z.r.got| <= buffersize < |z.r.got| + maxdata && z.r.got == data[..|z.r.got|]
    decreases |data| - pos
  {
    hide WriteStep, ReadStep;
    var n := if |data| - pos > maxdata then maxdata else |data| - pos;
    var (w', out) := WriteStep(w, data, maxdata, Some(Ack(number)));
    var (r', back) := ReadStep(r, buffersize, maxdata, out);
    OnePacket(w, r, data, buffersize, maxdata, pos, number);
    var p := packets + [out.value];
    assert Exchange(w, r, data, buffersize, maxdata, Some(Ack(number)), packets)
        == Exchange(w', r', data, buffersize, maxdata, back, p);
    if pos + n > buffersize {
      WriterStops(w', r', data, buffersize, maxdata, None, p);
    } else if n == maxdata {
      TransferFrom(w', r', data, buffersize, maxdata, pos + n, number + 1, p);
      assert p + Packets(data, maxdata, pos + n, number + 2)
          == packets + ([out.value] + Packets(data, maxdata, pos + n, number + 2));
    } else {
      WriterStops(w', r', data, buffersize, maxdata, back, p);
      assert data[..pos + n] == data && data[pos..pos + n] == data[pos..];
    }
  }

  /**
   * Every file arrives unchanged, in n / maxdata + 1 packets numbered from 1 of which only the last is short, and both
   * ends report success, exactly when the reader's buffer can hold it; otherwise both report failure.
   */
  lemma {:induction false} FileArrives(data: Data, buffersize: nat, maxdata: nat)
    requires maxdata > 0
    ensures var z := Exchange(Writing(0, 0, true, 0, true, 1), Reading([], 0, true, 1), data, buffersize, maxdata, Some(Ack(0)), []);
            !z.w.worktodo && !z.r.worktodo && (z.w.wkc > 0 <==> z.r.wkc > 0) && z.r.got <= data &&
            (z.r.wkc > 0 && z.r.got == data <==> |data| <= buffersize) &&
            (|data| <= buffersize ==>
               |z.packets| == |data| / maxdata + 1 && Numbered(z.packets, 1) && OnlyFinalIsShort(z.packets, maxdata)) &&
            (|data| > buffersize ==> z.r.wkc == FOE_BUF2SMALL && |z.r.got| <= buffersize < |z.r.got| + maxdata)
  {
    hide Exchange, Packets;
    TransferFrom(Writing(0, 0, true, 0, true, 1), Reading([], 0, true, 1), data, buffersize, maxdata, 0, 0, []);
    PacketCount(data, maxdata, 0, 1);
    assert [] + Packets(data, maxdata, 0, 1) == Packets(data, maxdata, 0, 1);
  }

  // What the result of a write means, whatever the slave answers.

  const START := Writing(0, 0, true, 0, true, 1)

  /** An answer of the slave, and whether its mailbox takes what is sent upon it. */
  datatype Round = Round(answer: Msg, posted: bool)

  /** The write loop over a list of answers, with a timeout after the last: where it ends and what it sent. */
  function WriteRun(w: Writing, data: Data, maxdata: nat, inbox: seq<Round>, packets: seq<Msg>): (Writing, seq<Msg>)
    requires w.Valid(data)
    decreases |inbox|
  {
    if !w.worktodo then (w, packets)
    else if inbox == [] then (WriteTurn(w, data, maxdata, None, true).0, packets)
    else
      var (z, out) := WriteTurn(w, data, maxdata, Some(inbox[0].answer), inbox[0].posted);
      WriteRun(z, data, maxdata, inbox[1..], if out.Some? then packets + [out.value] else packets)
  }

  /** The loop of ecx_FOEwrite over a list of answers. */
  method WriteFile(writer: Writer, inbox: seq<Round>) returns (packets: seq<Msg>)
    requires writer.Valid() && writer.worktodo
    modifies writer
    ensures writer.Valid() && !writer.worktodo
    ensures (writer.State(), packets) == WriteRun(old(writer.State()), writer.file[..], writer.maxdata, inbox, [])
  {
    hide WriteTurn;
    ghost var file, start := writer.file[..], writer.State();
    var i := 0;
    packets := [];
    assert inbox[0..] == inbox;
    while writer.worktodo
      invariant writer.Valid() && writer.file[..] == file && i <= |inbox| + 1 && (i > |inbox| ==> !writer.worktodo)
      invariant WriteRun(start, file, writer.maxdata, inbox, [])
             == if i > |inbox| then (writer.State(), packets)
                else WriteRun(writer.State(), file, writer.maxdata, inbox[i..], packets)
      decreases |inbox| + 1 - i
    {
      var out;
      if i == |inbox| {
        assert inbox[i..] == [];
        TimeoutFails(writer.State(), file, writer.maxdata);
        out := writer.Turn(None, true);
      } else {
        assert inbox[i..][0] == inbox[i] && inbox[i..][1..] == inbox[i + 1..];
        out := writer.Turn(Some(inbox[i].answer), inbox[i].posted);
        if out.Some? {
          packets := packets + [out.value];
        }
      }
      i := i + 1;
    }
  }

  /** An answer that the loop takes is BUSY. */
  predicate MeetsBusy(w: Writing, data: Data, maxdata: nat, inbox: seq<Round>)
    requires w.Valid(data)
    decreases |inbox|
  {
    w.worktodo && inbox != [] &&
    (inbox[0].answer == Busy ||
     MeetsBusy(WriteTurn(w, data, maxdata, Some(inbox[0].answer), inbox[0].posted).0, data, maxdata, inbox[1..]))
  }

  /** Everything has been sent, the final empty packet included. */
  predicate Complete(w: Writing, data: Data) { w.pos == |data| && !w.dofinalzero }

  /** A writer that is at work has sent `packets`, which are those for the bytes before its position. */
  predicate HasSent(w: Writing, data: Data, maxdata: nat, packets: seq<Msg>) {
    && w.Valid(data) && maxdata > 0 && (w.sendpacket == 0 ==> w.dofinalzero)
    && (if Complete(w, data) then packets == Packets(data, maxdata, 0, 1)
        else packets + Packets(data, maxdata, w.pos, w.sendpacket + 1) == Packets(data, maxdata, 0, 1))
  }

  /** One acknowledged packet more. */
  lemma {:induction false} SendsOneMore(w: Writing, data: Data, maxdata: nat, packets: seq<Msg>)
    requires HasSent(w, data, maxdata, packets) && w.worktodo && !Complete(w, data)
    ensures var (z, out) := WriteTurn(w, data, maxdata, Some(Ack(w.sendpacket)), true);
            out.Some? && z.worktodo && HasSent(z, data, maxdata, packets + [out.value])
    ensures WriteTurn(w, data, maxdata, Some(Ack(w.sendpacket)), false).0.worktodo == false
    ensures WriteTurn(w, data, maxdata, Some(Ack(w.sendpacket)), false).0.wkc == 0
  {
    hide Packets, WriteTurn;
    var (z, out) := WriteTurn(w, data, maxdata, Some(Ack(w.sendpacket)), true);
    AcknowledgedTurn(w, data, maxdata);
    PacketsUnfold(data, maxdata, w.pos, w.sendpacket + 1);
    if !Complete(z, data) {
      var more := Packets(data, maxdata, z.pos, z.sendpacket + 1);
      assert packets + ([out.value] + more) == packets + [out.value] + more;
    }
  }

  /** What an acknowledgement makes a writer do that is not done. */
  lemma {:induction false} AcknowledgedTurn(w: Writing, data: Data, maxdata: nat)
    requires w.Valid(data) && w.worktodo && maxdata > 0 && !Complete(w, data)
    ensures var n := if |data| - w.pos > maxdata then maxdata else |data| - w.pos;
            var z := Writing(w.pos + n, w.sendpacket + 1, w.pos + n == |data| && n == maxdata, n, true, 1);
            WriteTurn(w, data, maxdata, Some(Ack(w.sendpacket)), true)
            == (z, Some(Packet(w.sendpacket + 1, data[w.pos..w.pos + n]))) &&
            WriteTurn(w, data, maxdata, Some(Ack(w.sendpacket)), false) == (z.(worktodo := false, wkc := 0), None)
  {
  }

  lemma {:induction false} PacketsUnfold(data: Data, maxdata: nat, pos: nat, number: nat)
    requires maxdata > 0 && pos <= |data|
    ensures Packets(data, maxdata, pos, number) ==
            if |data| - pos < maxdata then [Packet(number, data[pos..|data|])]
            else [Packet(number, data[pos..pos + maxdata])] + Packets(data, maxdata, pos + maxdata, number + 1)
  {
    assert data[pos..] == data[pos..|data|];
  }

  /** Any other answer ends the loop. */
  lemma {:induction false} OtherAnswersEndIt(w: Writing, data: Data, maxdata: nat, m: Msg, posted: bool)
    requires w.Valid(data) && w.worktodo && (w.sendpacket == 0 ==> w.dofinalzero)
    requires m != Ack(w.sendpacket) || Complete(w, data)
    ensures var (z, out) := WriteTurn(w, data, maxdata, Some(m), posted);
            !z.worktodo && out == None && (z.wkc == 1 <==> m == Busy || m == Ack(w.sendpacket)) &&
            (m == Busy ==> !Complete(z, data)) && (m == Ack(w.sendpacket) ==> z.pos == w.pos && z.dofinalzero == w.dofinalzero)
  {
  }

  lemma {:induction false} RunFrom(w: Writing, data: Data, maxdata: nat, inbox: seq<Round>, packets: seq<Msg>)
    requires HasSent(w, data, maxdata, packets) && w.worktodo
    ensures var (r, sent) := WriteRun(w, data, maxdata, inbox, packets);
            !r.worktodo &&
            (r.wkc == 1 ==> (Complete(r, data) <==> !MeetsBusy(w, data, maxdata, inbox))) &&
            (r.wkc == 1 && !MeetsBusy(w, data, maxdata, inbox) ==> sent == Packets(data, maxdata, 0, 1))
    decreases |inbox|
  {
    hide WriteTurn, Packets, Complete;
    SentIsValid(w, data, maxdata, packets);
    if inbox == [] {
      TimeoutFails(w, data, maxdata);
    } else {
      var (m, posted) := (inbox[0].answer, inbox[0].posted);
      var (z, out) := WriteTurn(w, data, maxdata, Some(m), posted);
      if m == Ack(w.sendpacket) && !Complete(w, data) {
        SendsOneMore(w, data, maxdata, packets);
        if posted {
          RunFrom(z, data, maxdata, inbox[1..], packets + [out.value]);
        }
      } else {
        OtherAnswersEndIt(w, data, maxdata, m, posted);
        SameComplete(w, z, data);
      }
    }
  }

  lemma {:induction false} SentIsValid(w: Writing, data: Data, maxdata: nat, packets: seq<Msg>)
    requires HasSent(w, data, maxdata, packets)
    ensures w.Valid(data) && maxdata > 0 && (w.sendpacket == 0 ==> w.dofinalzero)
    ensures Complete(w, data) ==> packets == Packets(data, maxdata, 0, 1)
  {
  }

  lemma {:induction false} TimeoutFails(w: Writing, data: Data, maxdata: nat)
    requires w.Valid(data) && w.worktodo
    ensures WriteTurn(w, data, maxdata, None, true) == (w.(worktodo := false, wkc := 0), None)
  {
  }

  lemma {:induction false} SameComplete(w: Writing, z: Writing, data: Data)
    ensures z.pos == w.pos && z.dofinalzero == w.dofinalzero ==> (Complete(z, data) <==> Complete(w, data))
  {
  }

  /**
   * A write that reports success has sent the whole file, in its packets and with the final short or empty one, if and
   * only if no answer it took was BUSY.
   */
  lemma {:induction false} SuccessMeansSentIffNeverBusy(data: Data, maxdata: nat, inbox: seq<Round>)
    requires maxdata > 0 && WriteRun(START, data, maxdata, inbox, []).0.wkc == 1
    ensures var (r, sent) := WriteRun(START, data, maxdata, inbox, []);
            (Complete(r, data) <==> !MeetsBusy(START, data, maxdata, inbox)) &&
            (!MeetsBusy(START, data, maxdata, inbox) ==> sent == Packets(data, maxdata, 0, 1))
  {
    hide WriteRun, MeetsBusy, Packets;
    assert [] + Packets(data, maxdata, 0, 1) == Packets(data, maxdata, 0, 1);
    RunFrom(START, data, maxdata, inbox, []);
  }

  /** A slave that is busy at once, or after the first of two packets: success, with the file not sent. */
  lemma {:induction false} BusyLooksLikeSuccess(a: Byte, b: Byte, c: Byte)
    ensures WriteRun(START, [a, b, c], 2, [Round(Busy, true)], []) == (START.(worktodo := false), [])
    ensures var (r, sent) := WriteRun(START, [a, b, c], 2, [Round(Ack(0), true), Round(Busy, true), Round(Ack(0), true)], []);
            r.wkc == 1 && r.pos == 0 && sent == [Packet(1, [a, b])] && !Complete(r, [a, b, c])
  {
    hide WriteRun;
    var data := [a, b, c];
    var inbox := [Round(Ack(0), true), Round(Busy, true), Round(Ack(0), true)];
    RunStep(START, data, 2, [Round(Busy, true)], []);
    RunStep(START, data, 2, inbox, []);
    var (w, out) := WriteStep(START, data, 2, Some(Ack(0)));
    assert data[0..2] == [a, b];
    assert w == Writing(2, 1, false, 2, true, 1) && out == Some(Packet(1, [a, b]));
    var none: seq<Msg> := [];
    assert none + [out.value] == [Packet(1, [a, b])];
    RunStep(w, data, 2, inbox[1..], [Packet(1, [a, b])]);
  }

  /** One answer taken by a loop that goes on only while there is work to do. */
  lemma {:induction false} RunStep(w: Writing, data: Data, maxdata: nat, inbox: seq<Round>, packets: seq<Msg>)
    requires w.Valid(data) && w.worktodo && inbox != []
    ensures var (z, out) := WriteTurn(w, data, maxdata, Some(inbox[0].answer), inbox[0].posted);
            WriteRun(w, data, maxdata, inbox, packets) ==
            var sent := if out.Some? then packets + [out.value] else packets;
            if z.worktodo then WriteRun(z, data, maxdata, inbox[1..], sent) else (z, sent)
  {
    hide WriteTurn;
  }

  /** What ends a write, and how it is reported: a timeout or a refused send by 0, an acknowledgement of another packet, an
      error of the slave or anything unexpected by their codes; the loop goes on exactly when a packet went out. */
  lemma {:induction false} WriteReports(w: Writing, data: Data, maxdata: nat, m: Option<Msg>, posted: bool)
    requires w.Valid(data) && w.worktodo
    ensures var (z, out) := WriteTurn(w, data, maxdata, m, posted);
            && (z.worktodo <==> out.Some?) && (z.worktodo ==> z.wkc == 1 && m == Some(Ack(w.sendpacket)))
            && (z.wkc == 0 <==> m == None || (!posted && WriteTurn(w, data, maxdata, m, true).1.Some?))
            && (z.wkc == FOE_PACKETNUMBER <==> m.Some? && m.value.Ack? && m.value.number != w.sendpacket)
            && (z.wkc == FOE_FILE_NOTFOUND <==> m == Some(Error(0x8001)))
            && (z.wkc == FOE_ERROR <==> m.Some? && m.value.Error? && m.value.code != 0x8001)
            && (z.wkc == PACKET_ERROR <==> m.Some? && (m.value.Packet? || m.value.OtherOp? || m.value.NotFoe?))
  {
  }

  // What the result of a read means, whatever the slave sends.

  const BEGIN := Reading([], 0, true, 1)

  /** The read loop over a list of mailboxes, with a timeout after the last: where it ends and what it sent. */
  function ReadRun(r: Reading, buffersize: nat, maxdata: nat, inbox: seq<Round>, sent: seq<Msg>): (Reading, seq<Msg>)
    decreases |inbox|
  {
    if !r.worktodo then (r, sent)
    else if inbox == [] then (ReadTurn(r, buffersize, maxdata, None, true).0, sent)
    else
      var (z, out) := ReadTurn(r, buffersize, maxdata, Some(inbox[0].answer), inbox[0].posted);
      ReadRun(z, buffersize, maxdata, inbox[1..], if out.Some? then sent + [out.value] else sent)
  }

  /** The loop of ecx_FOEread over a list of mailboxes. */
  method ReadFile(reader: Reader, inbox: seq<Round>) returns (sent: seq<Msg>)
    requires reader.Valid() && reader.worktodo
    modifies reader, reader.buffer
    ensures reader.Valid() && !reader.worktodo
    ensures (reader.State(), sent) == ReadRun(old(reader.State()), reader.buffer.Length, reader.maxdata, inbox, [])
  {
    hide ReadTurn;
    ghost var start := reader.State();
    var i := 0;
    sent := [];
    assert inbox[0..] == inbox;
    while reader.worktodo
      invariant reader.Valid() && i <= |inbox| + 1 && (i > |inbox| ==> !reader.worktodo)
      invariant ReadRun(start, reader.buffer.Length, reader.maxdata, inbox, [])
             == if i > |inbox| then (reader.State(), sent)
                else ReadRun(reader.State(), reader.buffer.Length, reader.maxdata, inbox[i..], sent)
      decreases |inbox| + 1 - i
    {
      var out;
      if i == |inbox| {
        assert inbox[i..] == [];
        ReadTimeoutFails(reader.State(), reader.buffer.Length, reader.maxdata);
        out := reader.Turn(None, true);
      } else {
        assert inbox[i..][0] == inbox[i] && inbox[i..][1..] == inbox[i + 1..];
        out := reader.Turn(Some(inbox[i].answer), inbox[i].posted);
        if out.Some? {
          sent := sent + [out.value];
        }
      }
      i := i + 1;
    }
  }

  lemma {:induction false} ReadTimeoutFails(r: Reading, buffersize: nat, maxdata: nat)
    requires r.worktodo
    ensures ReadTurn(r, buffersize, maxdata, None, true) == (r.(worktodo := false, wkc := 0), None)
  {
  }

  /** What ends a read that fails: a timeout or a refused acknowledgement, an error of the slave, a packet that is not the
      next one or does not fit, anything unexpected. */
  lemma {:induction false} ReadReports(r: Reading, buffersize: nat, maxdata: nat, m: Option<Msg>, posted: bool)
    ensures var (z, out) := ReadTurn(r, buffersize, maxdata, m, posted);
            var taken := m.Some? && m.value.Packet? && m.value.number == r.prevpacket + 1 && |r.got| + |m.value.data| <= buffersize;
            && (z.wkc == 1 <==> taken && posted) && (z.worktodo <==> taken && posted && |m.value.data| == maxdata)
            && (z.got == (if taken then r.got + m.value.data else r.got))
            && (z.wkc == 0 <==> m == None || (taken && !posted))
            && (z.wkc == FOE_ERROR <==> m.Some? && m.value.Error?)
            && (z.wkc == FOE_BUF2SMALL <==> m.Some? && m.value.Packet? && !taken)
            && (z.wkc == PACKET_ERROR <==> m.Some? && !m.value.Packet? && !m.value.Error?)
  {
  }

  /** The bytes of the first `k` packets. */
  function Content(inbox: seq<Round>, k: nat): Data
    requires k <= |inbox|
  {
    if k == 0 then []
    else Content(inbox, k - 1) + match inbox[k - 1].answer case Packet(_, data) => data case _ => []
  }

  function Acks(k: nat): seq<Msg> {
    seq(k, i requires 0 <= i < k => Ack(i + 1))
  }

  /** Mailbox `i` holds packet i + 1, and its acknowledgement is taken. */
  predicate PacketAt(inbox: seq<Round>, i: nat)
    requires i < |inbox|
  {
    inbox[i].posted && inbox[i].answer.Packet? && inbox[i].answer.number == i + 1
  }

  ghost predicate Full(inbox: seq<Round>, k: nat, maxdata: nat) {
    k <= |inbox| && forall i :: 0 <= i < k ==> PacketAt(inbox, i) && |inbox[i].answer.data| == maxdata
  }

  /** The first `k` mailboxes are packets 1 to k, of which only the last is not a full one, and the buffer can hold them. */
  ghost predicate Whole(inbox: seq<Round>, k: nat, buffersize: nat, maxdata: nat) {
    && 0 < k <= |inbox| && Full(inbox, k - 1, maxdata)
    && PacketAt(inbox, k - 1) && |inbox[k - 1].answer.data| != maxdata && |Content(inbox, k)| <= buffersize
  }

  lemma {:induction false} ContentGrows(inbox: seq<Round>, i: nat, k: nat)
    requires i <= k <= |inbox|
    ensures |Content(inbox, i)| <= |Content(inbox, k)|
    decreases k
  {
    if i < k {
      ContentGrows(inbox, i, k - 1);
    }
  }

  lemma {:induction false} WholeGoesOn(inbox: seq<Round>, i: nat, k: nat, buffersize: nat, maxdata: nat)
    requires Full(inbox, i, maxdata) && Whole(inbox, k, buffersize, maxdata)
    ensures i < k && PacketAt(inbox, i) && |Content(inbox, i + 1)| <= buffersize && inbox[i].answer.Packet?
    ensures |inbox[i].answer.data| != maxdata <==> k == i + 1
  {
    hide Content;
    ContentGrows(inbox, i + 1, k);
  }

  lemma {:induction false} ReadOnePacket(r: Reading, inbox: seq<Round>, i: nat, buffersize: nat, maxdata: nat)
    requires i < |inbox| && r == Reading(Content(inbox, i), i, true, 1)
    ensures var (z, out) := ReadTurn(r, buffersize, maxdata, Some(inbox[i].answer), inbox[i].posted);
            if PacketAt(inbox, i) && |Content(inbox, i + 1)| <= buffersize
            then z == Reading(Content(inbox, i + 1), i + 1, |inbox[i].answer.data| == maxdata, 1) && out == Some(Ack(i + 1))
            else !z.worktodo && z.wkc != 1
  {
  }

  lemma {:induction false} ReadFrom(inbox: seq<Round>, i: nat, buffersize: nat, maxdata: nat)
    requires Full(inbox, i, maxdata) && |Content(inbox, i)| <= buffersize
    ensures var (r, sent) := ReadRun(Reading(Content(inbox, i), i, true, 1), buffersize, maxdata, inbox[i..], Acks(i));
            && (r.wkc == 1 <==> exists k :: Whole(inbox, k, buffersize, maxdata))
            && forall k :: Whole(inbox, k, buffersize, maxdata) ==> r.got == Content(inbox, k) && sent == Acks(k)
    decreases |inbox| - i
  {
    hide ReadTurn, Content, PacketAt;
    var r := Reading(Content(inbox, i), i, true, 1);
    if i == |inbox| {
      ReadTimeoutFails(r, buffersize, maxdata);
      forall k | Whole(inbox, k, buffersize, maxdata) ensures false {
        WholeGoesOn(inbox, i, k, buffersize, maxdata);
      }
    } else {
      assert inbox[i..][0] == inbox[i] && inbox[i..][1..] == inbox[i + 1..];
      ReadOnePacket(r, inbox, i, buffersize, maxdata);
      forall k | Whole(inbox, k, buffersize, maxdata)
        ensures PacketAt(inbox, i) && |Content(inbox, i + 1)| <= buffersize && inbox[i].answer.Packet?
        ensures |inbox[i].answer.data| != maxdata <==> k == i + 1
      {
        WholeGoesOn(inbox, i, k, buffersize, maxdata);
      }
      if PacketAt(inbox, i) && |Content(inbox, i + 1)| <= buffersize {
        assert Acks(i) + [Ack(i + 1)] == Acks(i + 1);
        IsPacket(inbox, i);
        if |inbox[i].answer.data| == maxdata {
          ReadFrom(inbox, i + 1, buffersize, maxdata);
        } else {
          assert Whole(inbox, i + 1, buffersize, maxdata);
        }
      }
    }
  }

  lemma {:induction false} IsPacket(inbox: seq<Round>, i: nat)
    requires i < |inbox| && PacketAt(inbox, i)
    ensures inbox[i].answer.Packet?
  {
  }

  /**
   * A read reports success if and only if what came in are packets 1, 2, ..., of which only the last is not a full one, the
   * buffer can hold them and every acknowledgement was taken; the file read is then their bytes one behind the other.
   */
  lemma {:induction false} ReadSucceedsIff(inbox: seq<Round>, buffersize: nat, maxdata: nat)
    ensures var (r, sent) := ReadRun(BEGIN, buffersize, maxdata, inbox, []);
            && (r.wkc == 1 <==> exists k :: Whole(inbox, k, buffersize, maxdata))
            && forall k :: Whole(inbox, k, buffersize, maxdata) ==> r.got == Content(inbox, k) && sent == Acks(k)
  {
    hide ReadRun, Whole;
    assert inbox[0..] == inbox && Acks(0) == [];
    ReadFrom(inbox, 0, buffersize, maxdata);
  }
}
