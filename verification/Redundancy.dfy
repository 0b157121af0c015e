// Cable redundancy: the slaves form a ring with one network card at either end, and the decision
// tree of ecx_waitinframe_red hides one break of the ring.
module Redundancy {
  import opened Nic

  /** The middle word of the source MAC address tells which card a frame was first sent from. */
  datatype Mac = PRIM | SEC

  /** What a card gets back for a frame index, if anything. */
  datatype Arrival = Nothing | Got(sa: Mac, payload: Payload)

  // ---------------------------------------------------------------- the driver

  /** An arrival seen by a loop that polls `rounds` times, at least once, when the frame is there
      from round `delay` on. */
  function Seen(a: Arrival, delay: nat, rounds: nat): Arrival {
    if delay < rounds || delay == 0 then a else Nothing
  }

  /** What the decision tree makes of the arrivals on both cards; `again` is what the second card
      gets back when it sends a frame once more. The result is the primary buffer and the counter. */
  function Decide(tx: Payload, rx: Payload, prim: Arrival, sec: Arrival, again: Payload -> Arrival): (Payload, int) {
    var plain := Plain(rx, prim);
    if prim.Got? && prim.sa == SEC && sec.Got? && sec.sa == PRIM then (sec.payload, sec.payload.wkc)
    else if sec.Got? && sec.sa == SEC && (prim.Nothing? || prim.sa == PRIM) then
      var back := again(if prim.Got? then prim.payload else tx);
      if back.Got? then (back.payload, back.payload.wkc) else plain
    else plain
  }

  /** Without redundancy the first card's arrival is all there is. */
  function Plain(rx: Payload, prim: Arrival): (Payload, int) {
    if prim.Got? then (prim.payload, prim.payload.wkc as int) else (rx, EC_NOFRAME)
  }

  /** One frame index of a port, with a second card if it is redundant. */
  class RedundantPort {
    const redundant: bool
    var txbuf: Payload
    var rxbuf: Payload
    var redrxbuf: Payload
    var rxsa: Mac
    var redrxsa: Mac

    constructor (tx: Payload, redundant: bool)
      ensures txbuf == tx && this.redundant == redundant
    {
      this.redundant := redundant;
      txbuf, rxbuf, redrxbuf, rxsa, redrxsa := tx, tx, tx, PRIM, PRIM;
    }

    /** Polls a card once: the second one if `stack` is set. */
    method InFrame(a: Arrival, delay: nat, round: nat, stack: bool) returns (wkc: int)
      modifies this
      ensures txbuf == old(txbuf)
      ensures wkc == if a.Got? && delay <= round then a.payload.wkc else EC_NOFRAME
      ensures !stack ==> (redrxbuf, redrxsa) == old((redrxbuf, redrxsa))
                         && (rxbuf, rxsa) == if wkc > EC_NOFRAME then (a.payload, a.sa) else old((rxbuf, rxsa))
      ensures stack ==> (rxbuf, rxsa) == old((rxbuf, rxsa))
                        && (redrxbuf, redrxsa) == if wkc > EC_NOFRAME then (a.payload, a.sa) else old((redrxbuf, redrxsa))
    {
      wkc := EC_NOFRAME;
      if a.Got? && delay <= round {
        wkc := a.payload.wkc;
        if stack {
          redrxbuf, redrxsa := a.payload, a.sa;
        } else {
          rxbuf, rxsa := a.payload, a.sa;
        }
      }
    }

    /** ecx_waitinframe_red: the timers run for `rounds` and `rounds2` polls. */
    method WaitInFrame(prim: Arrival, delay: nat, sec: Arrival, delay2: nat, rounds: nat,
                       again: Payload -> Arrival, delay3: nat, rounds2: nat) returns (wkc: int)
      modifies this
      ensures redundant ==>
                (rxbuf, wkc) == Decide(old(txbuf), old(rxbuf), Seen(prim, delay, rounds), Seen(sec, delay2, rounds),
                                       p => Seen(again(p), delay3, rounds2))
      ensures !redundant ==> (rxbuf, wkc) == Plain(old(rxbuf), Seen(prim, delay, rounds)) && txbuf == old(txbuf)
    {
      wkc := EC_NOFRAME;
      var wkc2: int := if redundant then EC_NOFRAME else 0;
      var round: nat := 0;
      ghost var rx0 := rxbuf;
      while round == 0 || ((wkc <= EC_NOFRAME || wkc2 <= EC_NOFRAME) && round < rounds)
        invariant txbuf == old(txbuf) && (round > 0 ==> round <= rounds || round == 1)
        invariant if prim.Got? && delay < round then wkc == prim.payload.wkc && rxbuf == prim.payload && rxsa == prim.sa
                  else wkc == EC_NOFRAME && rxbuf == rx0
        invariant if !redundant then wkc2 == 0
                  else if sec.Got? && delay2 < round then wkc2 == sec.payload.wkc && redrxbuf == sec.payload && redrxsa == sec.sa
                  else wkc2 == EC_NOFRAME
        decreases rounds + 1 - round
      {
        if wkc <= EC_NOFRAME {
          wkc := InFrame(prim, delay, round, false);
        }
        if redundant && wkc2 <= EC_NOFRAME {
          wkc2 := InFrame(sec, delay2, round, true);
        }
        round := round + 1;
      }
      if !redundant {
        return;
      }
      var primGot, secGot := wkc > EC_NOFRAME, wkc2 > EC_NOFRAME;
      ghost var primSeen, secSeen := Seen(prim, delay, rounds), Seen(sec, delay2, rounds);
      assert primGot == primSeen.Got? && secGot == secSeen.Got?;
      if primGot && rxsa == SEC && secGot && redrxsa == PRIM {
        rxbuf := redrxbuf;
        wkc := wkc2;
      } else if secGot && redrxsa == SEC && (!primGot || rxsa == PRIM) {
        if primGot && rxsa == PRIM {
          txbuf := rxbuf;
        }
        var back := again(txbuf);
        wkc2 := EC_NOFRAME;
        var round2: nat := 0;
        while round2 == 0 || (wkc2 <= EC_NOFRAME && round2 < rounds2)
          invariant rxbuf == (if primGot then prim.payload else rx0)
          invariant round2 > 0 ==> round2 <= rounds2 || round2 == 1
          invariant if back.Got? && delay3 < round2 then wkc2 == back.payload.wkc && redrxbuf == back.payload
                    else wkc2 == EC_NOFRAME
          decreases rounds2 + 1 - round2
        {
          wkc2 := InFrame(back, delay3, round2, true);
          round2 := round2 + 1;
        }
        if wkc2 > EC_NOFRAME {
          rxbuf := redrxbuf;
          wkc := wkc2;
        }
      }
    }
  }

  // ---------------------------------------------------------------- the ring

  /** The cables of the ring: all in order, or the part that is reachable from the first card ends
      behind slave j and the part reachable from the second one begins behind slave k. With a single
      break j and k are the same, 0 and the number of slaves being the cables of the cards. */
  datatype Cables = Intact | Broken(j: nat, k: nat)

  predicate InRing(slaves: seq<Payload -> Payload>, c: Cables) {
    c.Broken? ==> c.j <= c.k <= |slaves|
  }

  /** A frame processed by slaves `from` up to `until` in order. */
  function Through(slaves: seq<Payload -> Payload>, from: nat, until: nat, p: Payload): Payload
    requires from <= until <= |slaves|
    decreases until - from
  {
    if from == until then p else Through(slaves, from + 1, until, slaves[from](p))
  }

  /** A frame sent from the first card: the slaves process it on the way out. At a break it turns
      round and comes back to the card it came from. First result: what the first card gets. */
  function FromPrimary(slaves: seq<Payload -> Payload>, c: Cables, sa: Mac, p: Payload): (r: (Arrival, Arrival))
    requires InRing(slaves, c)
  {
    if c == Intact then (Nothing, Got(sa, Through(slaves, 0, |slaves|, p)))
    else if c.j == 0 then (Nothing, Nothing)
    else (Got(sa, Through(slaves, 0, c.j, p)), Nothing)
  }

  /** A frame sent from the second card passes the slaves backwards unprocessed; having turned round
      at a break it is processed on its way back. */
  function FromSecondary(slaves: seq<Payload -> Payload>, c: Cables, sa: Mac, p: Payload): (r: (Arrival, Arrival))
    requires InRing(slaves, c)
  {
    if c == Intact then (Got(sa, p), Nothing)
    else if c.k == |slaves| then (Nothing, Nothing)
    else (Nothing, Got(sa, Through(slaves, c.k, |slaves|, p)))
  }

  function Either(a: Arrival, b: Arrival): Arrival {
    if a.Got? then a else b
  }

  /** One exchange over the ring when nothing else is lost: the frame leaves by the first card, the
      dummy by the second, and frames sent again carry the first card's address. */
  function Exchanged(slaves: seq<Payload -> Payload>, c: Cables, tx: Payload, rx: Payload, dummy: Payload): (Payload, int)
    requires InRing(slaves, c)
  {
    var out, extra := FromPrimary(slaves, c, PRIM, tx), FromSecondary(slaves, c, SEC, dummy);
    Decide(tx, rx, Either(out.0, extra.0), Either(out.1, extra.1), p => FromSecondary(slaves, c, PRIM, p).1)
  }

  lemma {:induction false} ThroughInTurn(slaves: seq<Payload -> Payload>, from: nat, k: nat, until: nat, p: Payload)
    requires from <= k <= until <= |slaves|
    ensures Through(slaves, k, until, Through(slaves, from, k, p)) == Through(slaves, from, until, p)
    decreases k - from
  {
    if from < k {
      ThroughInTurn(slaves, from + 1, k, until, slaves[from](p));
    }
  }

  lemma {:induction false} ThroughNone(slaves: seq<Payload -> Payload>, at: nat, p: Payload)
    requires at <= |slaves|
    ensures Through(slaves, at, at, p) == p
  {
  }

  /** Every slave that either card can reach processes the frame exactly once and in order; only the
      slaves between two breaks are left out. */
  lemma {:induction false} ReachableSlavesServed(slaves: seq<Payload -> Payload>, c: Cables, tx: Payload, rx: Payload,
                                                 dummy: Payload)
    requires InRing(slaves, c) && c.Broken? && (c.j > 0 || c.k < |slaves|)
    ensures var result := Through(slaves, c.k, |slaves|, Through(slaves, 0, c.j, tx));
            Exchanged(slaves, c, tx, rx, dummy) == (result, result.wkc)
  {
    hide Through;
    ThroughNone(slaves, 0, tx);
    ThroughNone(slaves, |slaves|, Through(slaves, 0, c.j, tx));
  }

  /** With no break or one, anywhere in the ring, and nothing else lost, the buffer and the counter
      are those of the frame processed once by every slave in order. */
  lemma {:induction false} OneBreakIsHidden(slaves: seq<Payload -> Payload>, c: Cables, tx: Payload, rx: Payload,
                                            dummy: Payload)
    requires InRing(slaves, c) && slaves != [] && (c.Broken? ==> c.j == c.k)
    ensures var result := Through(slaves, 0, |slaves|, tx);
            Exchanged(slaves, c, tx, rx, dummy) == (result, result.wkc)
  {
    hide Through;
    if c.Broken? {
      ReachableSlavesServed(slaves, c, tx, rx, dummy);
      ThroughInTurn(slaves, 0, c.j, |slaves|, tx);
    }
  }

  /** The exchange fails if and only if the first card got nothing and the frame that the second card got is not its own
      dummy, or was lost when sent again; the buffer is then left alone. */
  lemma {:induction false} NoFrameIff(tx: Payload, rx: Payload, prim: Arrival, sec: Arrival, again: Payload -> Arrival)
    ensures var (buf, wkc) := Decide(tx, rx, prim, sec, again);
            && (wkc == EC_NOFRAME <==> prim.Nothing? && (sec.Got? && sec.sa == SEC ==> again(tx).Nothing?))
            && (if wkc == EC_NOFRAME then buf == rx else wkc == buf.wkc)
  {
  }

  /** That is what happens when neither card reaches a slave. */
  lemma {:induction false} NobodyReachable(slaves: seq<Payload -> Payload>, tx: Payload, rx: Payload, dummy: Payload)
    ensures Exchanged(slaves, Broken(0, |slaves|), tx, rx, dummy) == (rx, EC_NOFRAME)
  {
  }

  /** An arrival unless it is lost. */
  function Unless(lost: bool, a: Arrival): Arrival {
    if lost then Nothing else a
  }

  /** An exchange in which frames may be lost: the first card's own one, the second card's dummy, the one sent again. */
  function ExchangedBut(slaves: seq<Payload -> Payload>, c: Cables, frame: bool, dummyLost: bool, againLost: bool,
                        tx: Payload, rx: Payload, dummy: Payload): (Payload, int)
    requires InRing(slaves, c)
  {
    var out, extra := FromPrimary(slaves, c, PRIM, tx), FromSecondary(slaves, c, SEC, dummy);
    Decide(tx, rx, Either(Unless(frame, out.0), Unless(dummyLost, extra.0)), Either(Unless(frame, out.1), Unless(dummyLost, extra.1)),
           p => Unless(againLost, FromSecondary(slaves, c, PRIM, p).1))
  }

  /**
   * What the caller sees of a loss. In an intact ring a lost frame shows as the dummy with its counter, and a lost dummy
   * hides a frame that all slaves have processed. In a broken one the result is that of the part whose frame came back:
   * the part before the break if the dummy or the frame sent again is lost, the part behind it if the frame itself is.
   */
  lemma {:induction false} LossShows(slaves: seq<Payload -> Payload>, c: Cables, tx: Payload, rx: Payload, dummy: Payload)
    requires InRing(slaves, c) && (c.Broken? ==> 0 < c.j && c.k < |slaves|)
    ensures c == Intact ==> ExchangedBut(slaves, c, true, false, false, tx, rx, dummy) == (dummy, dummy.wkc)
    ensures c == Intact ==> ExchangedBut(slaves, c, false, true, false, tx, rx, dummy) == (rx, EC_NOFRAME)
    ensures c.Broken? ==>
              var before, behind := Through(slaves, 0, c.j, tx), Through(slaves, c.k, |slaves|, tx);
              && ExchangedBut(slaves, c, true, false, false, tx, rx, dummy) == (behind, behind.wkc)
              && ExchangedBut(slaves, c, false, true, false, tx, rx, dummy) == (before, before.wkc)
              && ExchangedBut(slaves, c, false, false, true, tx, rx, dummy) == (before, before.wkc)
              && ExchangedBut(slaves, c, true, false, true, tx, rx, dummy) == (rx, EC_NOFRAME)
    ensures ExchangedBut(slaves, c, true, true, true, tx, rx, dummy) == (rx, EC_NOFRAME)
    ensures ExchangedBut(slaves, c, false, false, false, tx, rx, dummy) == Exchanged(slaves, c, tx, rx, dummy)
  {
    hide Through;
    assert ExchangedBut(slaves, c, false, false, false, tx, rx, dummy) == Exchanged(slaves, c, tx, rx, dummy) by {
      SameAgain(slaves, c, tx, rx, dummy);
    }
  }

  lemma {:induction false} SameAgain(slaves: seq<Payload -> Payload>, c: Cables, tx: Payload, rx: Payload, dummy: Payload)
    requires InRing(slaves, c)
    ensures ExchangedBut(slaves, c, false, false, false, tx, rx, dummy) == Exchanged(slaves, c, tx, rx, dummy)
  {
    hide Through;
  }

  /** The same through the polling loops: as long as what arrives does so before the timers expire, a cycle of sending and
      waiting on a ring with no break or one gives the buffer and counter of the frame processed once by every slave. */
  method SendAndWait(port: RedundantPort, slaves: seq<Payload -> Payload>, c: Cables, dummy: Payload,
                     delay: nat, delay2: nat, rounds: nat, delay3: nat, rounds2: nat) returns (wkc: int)
    requires port.redundant && InRing(slaves, c) && slaves != []
    modifies port
    ensures delay < rounds && delay2 < rounds && delay3 < rounds2 ==>
              (port.rxbuf, wkc) == Exchanged(slaves, c, old(port.txbuf), old(port.rxbuf), dummy)
    ensures delay < rounds && delay2 < rounds && delay3 < rounds2 && (c.Broken? ==> c.j == c.k) ==>
              var result := Through(slaves, 0, |slaves|, old(port.txbuf));
              port.rxbuf == result && wkc == result.wkc
  {
    hide Through;
    ghost var tx, rx := port.txbuf, port.rxbuf;
    var out, extra := FromPrimary(slaves, c, PRIM, port.txbuf), FromSecondary(slaves, c, SEC, dummy);
    wkc := port.WaitInFrame(Either(out.0, extra.0), delay, Either(out.1, extra.1), delay2, rounds,
                            p => FromSecondary(slaves, c, PRIM, p).1, delay3, rounds2);
    if c.Broken? ==> c.j == c.k {
      OneBreakIsHidden(slaves, c, tx, rx, dummy);
    }
  }
}
