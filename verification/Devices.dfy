// What the slaves do to logical process data. Process data is held as its bits: bit i of the byte
// at logical address a is bit 8 * a + i.
module Devices {

  type Bits = seq<bool>

  datatype Command = LRD | LWR | LRW

  predicate Reads(c: Command) { c != LWR }

  predicate Writes(c: Command) { c != LRD }

  /** A datagram on logical memory, starting at bit `from`. */
  datatype Datagram = Datagram(command: Command, from: nat, data: Bits, wkc: nat)

  datatype Window = Window(from: nat, until: nat)

  predicate Contains(w: Window, pos: int) {
    w.from <= pos < w.until
  }

  /** Windows that share a bit. */
  predicate Meet(v: Window, w: Window) {
    v.from < w.until && w.from < v.until && v.from < v.until && w.from < w.until
  }

  /** A slave: where its outputs and inputs are mapped, what it last received and what it offers. */
  datatype Device = Device(out: Window, inp: Window, outputs: Bits, inputs: Bits)

  predicate Fits(d: Device) {
    && d.out.from <= d.out.until && |d.outputs| == d.out.until - d.out.from
    && d.inp.from <= d.inp.until && |d.inputs| == d.inp.until - d.inp.from
  }

  function Span(g: Datagram): Window {
    Window(g.from, g.from + |g.data|)
  }

  /** How much a slave adds to the work counter: reading its inputs counts one, writing its
      outputs one, or two when both travel in one datagram. */
  function Hit(d: Device, c: Command, w: Window): nat {
    (if Reads(c) && Meet(d.inp, w) then 1 else 0)
    + (if Writes(c) && Meet(d.out, w) then (if c == LRW then 2 else 1) else 0)
  }

  /** What a slave keeps of a passing datagram, and what it puts into it. */
  function Latch(d: Device, g: Datagram): Bits
    requires Fits(d)
  {
    seq(|d.outputs|, k requires 0 <= k < |d.outputs| =>
      if Contains(Span(g), d.out.from + k) then g.data[d.out.from + k - g.from] else d.outputs[k])
  }

  function Insert(d: Device, g: Datagram): Bits
    requires Fits(d)
  {
    seq(|g.data|, i requires 0 <= i < |g.data| =>
      if Contains(d.inp, g.from + i) then d.inputs[g.from + i - d.inp.from] else g.data[i])
  }

  function Visit(d: Device, g: Datagram): (r: (Device, Datagram))
    requires Fits(d)
    ensures Fits(r.0)
  {
    (if Writes(g.command) then d.(outputs := Latch(d, g)) else d,
     g.(data := if Reads(g.command) then Insert(d, g) else g.data, wkc := g.wkc + Hit(d, g.command, Span(g))))
  }

  predicate Sound(ds: seq<Device>) {
    forall k :: 0 <= k < |ds| ==> Fits(ds[k])
  }

  /** A datagram on its way through all slaves in order. */
  function Tour(ds: seq<Device>, g: Datagram): (r: (seq<Device>, Datagram))
    requires Sound(ds)
    ensures |r.0| == |ds|
    decreases |ds|
  {
    if ds == [] then ([], g)
    else
      var (d, g1) := Visit(ds[0], g);
      var (rest, g2) := Tour(ds[1..], g1);
      ([d] + rest, g2)
  }

  // ---------------------------------------------------------------- the effect of a tour

  /** The bit that comes back at logical position `pos`. */
  function Fill(ds: seq<Device>, pos: nat, bit: bool): bool
    requires Sound(ds)
    decreases |ds|
  {
    if ds == [] then bit
    else Fill(ds[1..], pos, if Contains(ds[0].inp, pos) then ds[0].inputs[pos - ds[0].inp.from] else bit)
  }

  function Hits(ds: seq<Device>, c: Command, w: Window): nat
    decreases |ds|
  {
    if ds == [] then 0 else Hit(ds[0], c, w) + Hits(ds[1..], c, w)
  }

  /** The answer to a datagram. */
  function Answer(ds: seq<Device>, g: Datagram): (r: Datagram)
    requires Sound(ds)
    ensures |r.data| == |g.data|
  {
    g.(data := if Reads(g.command)
               then seq(|g.data|, i requires 0 <= i < |g.data| => Fill(ds, g.from + i, g.data[i]))
               else g.data,
       wkc := g.wkc + Hits(ds, g.command, Span(g)))
  }

  lemma {:induction false} NothingAnswers(ds: seq<Device>, g: Datagram)
    requires ds == []
    ensures Answer(ds, g) == g
  {
    assert Answer(ds, g).data == g.data;
  }

  lemma {:induction false} TourAnswers(ds: seq<Device>, g: Datagram)
    requires Sound(ds)
    ensures Tour(ds, g).1 == Answer(ds, g)
    decreases |ds|
  {
    hide Hit, Insert, Fill, Hits, Latch, Fits;
    if ds == [] {
      NothingAnswers(ds, g);
    } else {
      var g1 := Visit(ds[0], g).1;
      TourAnswers(ds[1..], g1);
      AnswerInTurn(ds, g);
    }
  }

  lemma {:induction false} AnswerInTurn(ds: seq<Device>, g: Datagram)
    requires Sound(ds) && ds != []
    ensures Answer(ds[1..], Visit(ds[0], g).1) == Answer(ds, g)
  {
    hide Hit;
    var g1 := Visit(ds[0], g).1;
    assert Span(g1) == Span(g);
    assert Answer(ds[1..], g1).data == Answer(ds, g).data;
  }

  /** No input window meets an output window. */
  ghost predicate Apart(ds: seq<Device>) {
    forall j, k :: 0 <= j < |ds| && 0 <= k < |ds| ==> !Meet(ds[j].inp, ds[k].out)
  }

  /** Same windows and offered inputs; only what was received may differ. */
  ghost predicate SameExceptOutputs(ds: seq<Device>, es: seq<Device>) {
    |ds| == |es| && forall k :: 0 <= k < |ds| ==> es[k] == ds[k].(outputs := es[k].outputs) && Fits(es[k])
  }

  lemma {:induction false} AnswerIgnoresOutputs(ds: seq<Device>, es: seq<Device>, g: Datagram)
    requires Sound(ds) && Sound(es) && SameExceptOutputs(ds, es)
    ensures Answer(ds, g) == Answer(es, g)
  {
    HitsIgnoreOutputs(ds, es, g.command, Span(g));
    forall i | 0 <= i < |g.data| ensures Fill(ds, g.from + i, g.data[i]) == Fill(es, g.from + i, g.data[i]) {
      FillIgnoresOutputs(ds, es, g.from + i, g.data[i]);
    }
    assert Answer(ds, g).data == Answer(es, g).data;
  }

  lemma {:induction false} FillIgnoresOutputs(ds: seq<Device>, es: seq<Device>, pos: nat, bit: bool)
    requires Sound(ds) && Sound(es) && SameExceptOutputs(ds, es)
    ensures Fill(ds, pos, bit) == Fill(es, pos, bit)
    decreases |ds|
  {
    if ds != [] {
      FillIgnoresOutputs(ds[1..], es[1..], pos, if Contains(ds[0].inp, pos) then ds[0].inputs[pos - ds[0].inp.from] else bit);
    }
  }

  lemma {:induction false} HitsIgnoreOutputs(ds: seq<Device>, es: seq<Device>, c: Command, w: Window)
    requires SameExceptOutputs(ds, es)
    ensures Hits(ds, c, w) == Hits(es, c, w)
    decreases |ds|
  {
    if ds != [] {
      HitsIgnoreOutputs(ds[1..], es[1..], c, w);
    }
  }

  /** Each slave has received the datagram's bits where its output window lies in it. */
  ghost predicate Received(ds: seq<Device>, es: seq<Device>, g: Datagram) {
    SameExceptOutputs(ds, es) && Sound(ds) &&
    forall k, i :: 0 <= k < |ds| && 0 <= i < |ds[k].outputs| ==>
      es[k].outputs[i] == if Writes(g.command) && Contains(Span(g), ds[k].out.from + i)
                          then g.data[ds[k].out.from + i - g.from] else ds[k].outputs[i]
  }

  /** Bits under output windows are not changed on the way. */
  ghost predicate OutputsUntouched(ds: seq<Device>, g: Datagram, h: Datagram) {
    h.command == g.command && h.from == g.from && |h.data| == |g.data| &&
    forall k, i :: 0 <= k < |ds| && 0 <= i < |g.data| && Contains(ds[k].out, g.from + i) ==> h.data[i] == g.data[i]
  }

  lemma {:induction false} ApartHere(v: Window, w: Window, pos: int)
    requires !Meet(v, w) && Contains(w, pos)
    ensures !Contains(v, pos)
  {
  }

  lemma {:induction false} TourDelivers(ds: seq<Device>, g: Datagram, h: Datagram)
    requires Sound(ds) && Apart(ds) && OutputsUntouched(ds, g, h)
    ensures Received(ds, Tour(ds, h).0, g)
    decreases |ds|
  {
    if ds != [] {
      var (d, h1) := Visit(ds[0], h);
      var rest := ds[1..];
      assert OutputsUntouched(rest, g, h1) by {
        forall k, i | 0 <= k < |rest| && 0 <= i < |g.data| && Contains(rest[k].out, g.from + i)
          ensures h1.data[i] == g.data[i]
        {
          assert rest[k] == ds[k + 1] && h.data[i] == g.data[i];
          ApartHere(ds[0].inp, ds[k + 1].out, g.from + i);
        }
      }
      assert Apart(rest);
      TourDelivers(rest, g, h1);
      var es := Tour(ds, h).0;
      assert es[0] == d && es[1..] == Tour(rest, h1).0;
      ReceivedHere(ds[0], g, h);
      ReceivedInTurn(ds, es, g);
    }
  }

  lemma {:induction false} ReceivedHere(d: Device, g: Datagram, h: Datagram)
    requires Fits(d) && OutputsUntouched([d], g, h)
    ensures Received([d], [Visit(d, h).0], g)
  {
    hide Insert;
    assert [d][0] == d;
    forall j | 0 <= j < |g.data| && Contains(d.out, g.from + j) ensures h.data[j] == g.data[j] {
      assert Contains([d][0].out, g.from + j);
    }
    var e := Visit(d, h).0;
    forall i | 0 <= i < |d.outputs|
      ensures e.outputs[i] == if Writes(g.command) && Contains(Span(g), d.out.from + i)
                              then g.data[d.out.from + i - g.from] else d.outputs[i]
    {
      if Writes(g.command) && Contains(Span(g), d.out.from + i) {
        assert Contains(d.out, g.from + (d.out.from + i - g.from));
      }
    }
  }

  lemma {:induction false} ReceivedInTurn(ds: seq<Device>, es: seq<Device>, g: Datagram)
    requires ds != [] && |es| == |ds|
    requires Received([ds[0]], [es[0]], g) && Received(ds[1..], es[1..], g)
    ensures Received(ds, es, g)
  {
    assert Fits([ds[0]][0]) && Fits([es[0]][0]) && [es[0]][0] == [ds[0]][0].(outputs := [es[0]][0].outputs);
    forall k | 0 <= k < |ds|
      ensures es[k] == ds[k].(outputs := es[k].outputs) && Fits(es[k]) && Fits(ds[k])
    {
      if k > 0 { assert ds[k] == ds[1..][k - 1] && es[k] == es[1..][k - 1]; }
    }
    forall k, i | 0 <= k < |ds| && 0 <= i < |ds[k].outputs|
      ensures es[k].outputs[i] == if Writes(g.command) && Contains(Span(g), ds[k].out.from + i)
                                  then g.data[ds[k].out.from + i - g.from] else ds[k].outputs[i]
    {
      if k == 0 {
        assert ds[0] == [ds[0]][0] && es[0] == [es[0]][0];
      } else {
        assert ds[k] == ds[1..][k - 1] && es[k] == es[1..][k - 1];
      }
    }
  }
}
