// The frame driver: handing out frame indices and sorting received frames into the buffer of the
// index they carry (ecx_getindex, ecx_setbufstat, ecx_outframe, ecx_inframe).
module Nic {

  const EC_MAXBUF: nat := 16
  const EC_NOFRAME: int := -1
  const EC_OTHERFRAME: int := -2

  datatype Stat = EMPTY | ALLOC | TX | RCVD | COMPLETE

  /** Contents of a frame after its Ethernet header, and its work counter. */
  datatype Payload = Payload(data: seq<int>, wkc: nat)

  datatype Packet = Packet(ethercat: bool, index: nat, payload: Payload)

  /** One stack of the driver, the packets that arrived at its socket, and those still on the wire. */
  datatype Nic = Nic(status: seq<Stat>, tx: seq<Payload>, rx: seq<Payload>, lastidx: nat,
                     socket: seq<Packet>, wire: seq<Packet>)

  predicate Shaped(n: Nic) {
    |n.status| == |n.tx| == |n.rx| == EC_MAXBUF && n.lastidx < EC_MAXBUF
  }

  function Wrap(idx: nat): nat {
    if idx >= EC_MAXBUF then 0 else idx
  }

  /** The search for an unused index: at most one round. */
  function Search(status: seq<Stat>, idx: nat, cnt: nat): (r: nat)
    requires |status| == EC_MAXBUF && idx < EC_MAXBUF && cnt <= EC_MAXBUF
    ensures r < EC_MAXBUF
    decreases EC_MAXBUF - cnt
  {
    if status[idx] != EMPTY && cnt < EC_MAXBUF then Search(status, Wrap(idx + 1), cnt + 1) else idx
  }

  lemma {:induction false} SearchStep(status: seq<Stat>, idx: nat, cnt: nat)
    requires |status| == EC_MAXBUF && idx < EC_MAXBUF && cnt <= EC_MAXBUF
    ensures Search(status, idx, cnt)
         == if status[idx] != EMPTY && cnt < EC_MAXBUF then Search(status, Wrap(idx + 1), cnt + 1) else idx
  {
  }

  function NewIndex(n: Nic): nat
    requires Shaped(n)
  {
    Search(n.status, Wrap(n.lastidx + 1), 0)
  }

  /** ecx_inframe for index `i`: the new state and the returned counter or code. */
  function InFrame(n: Nic, i: nat): (r: (Nic, int))
    requires Shaped(n) && i < EC_MAXBUF
    ensures Shaped(r.0)
  {
    if n.status[i] == RCVD then (n.(status := n.status[i := COMPLETE]), n.rx[i].wkc)
    else if n.socket == [] then (n, EC_NOFRAME)
    else
      var p, m := n.socket[0], n.(socket := n.socket[1..]);
      if p.ethercat && p.index == i then
        (m.(rx := n.rx[i := p.payload], status := n.status[i := COMPLETE]), p.payload.wkc)
      else if p.ethercat && p.index < EC_MAXBUF && n.status[p.index] == TX then
        (m.(rx := n.rx[p.index := p.payload], status := n.status[p.index := RCVD]), EC_OTHERFRAME)
      else (m, EC_OTHERFRAME)
  }

  // ---------------------------------------------------------------- the driver itself

  class Port {
    var lastidx: nat
    const rxbufstat: array<Stat>
    const txbuf: array<Payload>
    const rxbuf: array<Payload>
    var socket: seq<Packet>
    const redundant: bool
    const redstat: array<Stat>

    constructor (redundant: bool)
      ensures Valid() && this.redundant == redundant && fresh(redstat)
      ensures fresh(rxbufstat) && fresh(txbuf) && fresh(rxbuf)
      ensures lastidx == 0 && socket == [] && forall i :: 0 <= i < EC_MAXBUF ==> rxbufstat[i] == EMPTY
    {
      lastidx, socket, this.redundant := 0, [], redundant;
      redstat := new Stat[EC_MAXBUF](_ => EMPTY);
      rxbufstat := new Stat[EC_MAXBUF](_ => EMPTY);
      txbuf := new Payload[EC_MAXBUF](_ => Payload([], 0));
      rxbuf := new Payload[EC_MAXBUF](_ => Payload([], 0));
    }

    ghost predicate Valid()
      reads this
    {
      && rxbufstat.Length == txbuf.Length == rxbuf.Length == redstat.Length == EC_MAXBUF
      && txbuf != rxbuf && rxbufstat != redstat && lastidx < EC_MAXBUF
    }

    /** The state of the driver while the packets `wire` are under way. */
    ghost function State(wire: seq<Packet>): Nic
      reads this, rxbufstat, txbuf, rxbuf
    {
      Nic(rxbufstat[..], txbuf[..], rxbuf[..], lastidx, socket, wire)
    }

    method GetIndex() returns (idx: nat)
      requires Valid()
      modifies `lastidx, rxbufstat, redstat
      ensures Valid() && idx < EC_MAXBUF
      ensures redstat[..] == if redundant then old(redstat[..])[idx := ALLOC] else old(redstat[..])
      ensures forall wire :: var n := old(State(wire));
                idx == NewIndex(n) && State(wire) == n.(status := n.status[idx := ALLOC], lastidx := idx)
    {
      hide Search;
      ghost var status := rxbufstat[..];
      idx := lastidx + 1;
      if idx >= EC_MAXBUF {
        idx := 0;
      }
      var cnt: nat := 0;
      SearchStep(status, idx, cnt);
      while rxbufstat[idx] != EMPTY && cnt < EC_MAXBUF
        invariant rxbufstat[..] == status && lastidx == old(lastidx) && redstat[..] == old(redstat[..])
        invariant idx < EC_MAXBUF && cnt <= EC_MAXBUF && (rxbufstat[idx] == EMPTY ==> Search(status, idx, cnt) == idx)
        invariant Search(status, Wrap(lastidx + 1), 0) == Search(status, idx, cnt)
        invariant cnt == EC_MAXBUF ==> Search(status, idx, cnt) == idx
        decreases EC_MAXBUF - cnt
      {
        SearchStep(status, idx, cnt);
        idx := idx + 1;
        cnt := cnt + 1;
        if idx >= EC_MAXBUF {
          idx := 0;
        }
        SearchStep(status, idx, cnt);
      }
      rxbufstat[idx] := ALLOC;
      if redundant {
        redstat[idx] := ALLOC;
      }
      assert rxbufstat[..] == status[idx := ALLOC];
      lastidx := idx;
    }

    method SetBufStat(idx: nat, stat: Stat)
      requires Valid() && idx < EC_MAXBUF
      modifies rxbufstat, redstat
      ensures rxbufstat[..] == old(rxbufstat[..])[idx := stat]
      ensures redstat[..] == if redundant then old(redstat[..])[idx := stat] else old(redstat[..])
    {
      rxbufstat[idx] := stat;
      if redundant {
        redstat[idx] := stat;
      }
    }

    /** `sent` tells whether the socket took the frame. */
    method OutFrame(idx: nat, sent: bool) returns (rval: int)
      requires Valid() && idx < EC_MAXBUF
      modifies rxbufstat
      ensures rxbufstat[..] == old(rxbufstat[..])[idx := if sent then TX else EMPTY]
      ensures rval == -1 <==> !sent
    {
      rxbufstat[idx] := TX;
      rval := if sent then 0 else -1;
      if rval == -1 {
        rxbufstat[idx] := EMPTY;
      }
    }

    method ReceiveFrame(idx: nat) returns (rval: int)
      requires Valid() && idx < EC_MAXBUF
      modifies `socket, rxbufstat, rxbuf
      ensures Valid()
      ensures forall wire :: (State(wire), rval) == InFrame(old(State(wire)), idx)
    {
      rval := EC_NOFRAME;
      if rxbufstat[idx] == RCVD {
        rval := rxbuf[idx].wkc;
        rxbufstat[idx] := COMPLETE;
      } else if socket != [] {
        var p := socket[0];
        socket := socket[1..];
        rval := EC_OTHERFRAME;
        if p.ethercat {
          var idxf := p.index;
          if idxf == idx {
            rxbuf[idx] := p.payload;
            rval := p.payload.wkc;
            rxbufstat[idx] := COMPLETE;
          } else if idxf < EC_MAXBUF && rxbufstat[idxf] == TX {
            rxbuf[idxf] := p.payload;
            rxbufstat[idxf] := RCVD;
          }
        }
      }
    }
  }

  // ---------------------------------------------------------------- allocation

  /** How far index `j` lies behind `idx` in the order of the search. */
  function Ahead(idx: nat, j: nat): nat
    requires idx < EC_MAXBUF && j < EC_MAXBUF
  {
    if j >= idx then j - idx else j + EC_MAXBUF - idx
  }

  lemma {:induction false} SearchFinds(status: seq<Stat>, idx: nat, cnt: nat, free: nat)
    requires |status| == EC_MAXBUF && idx < EC_MAXBUF && free < EC_MAXBUF && status[free] == EMPTY
    requires cnt + Ahead(idx, free) <= EC_MAXBUF
    ensures status[Search(status, idx, cnt)] == EMPTY
    ensures Ahead(idx, Search(status, idx, cnt)) <= Ahead(idx, free)
    decreases EC_MAXBUF - cnt
  {
    if status[idx] != EMPTY {
      SearchFinds(status, Wrap(idx + 1), cnt + 1, free);
    }
  }

  /** A new index is unused exactly when an unused one exists; it is then the first one after the
      last index handed out. */
  lemma {:induction false} NewIndexIsFree(n: Nic)
    requires Shaped(n)
    ensures n.status[NewIndex(n)] == EMPTY <==> EMPTY in n.status
    ensures forall j :: 0 <= j < EC_MAXBUF && n.status[j] == EMPTY ==>
              Ahead(Wrap(n.lastidx + 1), NewIndex(n)) <= Ahead(Wrap(n.lastidx + 1), j)
  {
    forall j | 0 <= j < EC_MAXBUF && n.status[j] == EMPTY
      ensures n.status[NewIndex(n)] == EMPTY && Ahead(Wrap(n.lastidx + 1), NewIndex(n)) <= Ahead(Wrap(n.lastidx + 1), j)
    {
      SearchFinds(n.status, Wrap(n.lastidx + 1), 0, j);
    }
  }

  // ---------------------------------------------------------------- any interleaving

  /** What clients and network do, one event at a time: a client gets an index, fills its buffer,
      sends, polls and releases; packets arrive in any order or get lost. */
  datatype Event =
    | Allocate
    | Prepare(i: nat, payload: Payload)
    | Send(i: nat, sent: bool)
    | Poll(i: nat)
    | Release(i: nat)
    | Arrive(k: nat)
    | Lose(k: nat)

  ghost predicate UnderWay(n: Nic, p: Packet) {
    p in n.wire || p in n.socket
  }

  /** What can happen at all: an index exists, a packet is on the wire. */
  predicate Possible(n: Nic, e: Event) {
    match e
    case Allocate => true
    case Prepare(i, _) => i < EC_MAXBUF
    case Send(i, _) => i < EC_MAXBUF
    case Poll(i) => i < EC_MAXBUF
    case Release(i) => i < EC_MAXBUF
    case Arrive(k) => k < |n.wire|
    case Lose(k) => k < |n.wire|
  }

  /** The discipline: a buffer is filled while no reply is kept for its index and none of its packets is under
      way. Frames are sent, sent again and polled in whatever state their index is. */
  ghost predicate Allowed(n: Nic, e: Event)
    requires Shaped(n)
  {
    Possible(n, e) &&
    match e
    case Prepare(i, _) => n.status[i] !in {RCVD, COMPLETE} && forall p :: UnderWay(n, p) && p.ethercat ==> p.index != i
    case _ => true
  }

  function Without(s: seq<Packet>, k: nat): seq<Packet>
    requires k < |s|
  {
    s[..k] + s[k + 1..]
  }

  /** What an event does; `reply` is what the slaves make of a frame. */
  ghost function Next(n: Nic, e: Event, reply: Payload -> Payload): (m: Nic)
    requires Shaped(n) && Possible(n, e)
    ensures Shaped(m)
  {
    match e
    case Allocate => var i := NewIndex(n); n.(status := n.status[i := ALLOC], lastidx := i)
    case Prepare(i, payload) => n.(tx := n.tx[i := payload])
    case Send(i, sent) =>
      if sent then n.(status := n.status[i := TX], wire := n.wire + [Packet(true, i, reply(n.tx[i]))])
      else n.(status := n.status[i := EMPTY])
    case Poll(i) => InFrame(n, i).0
    case Release(i) => n.(status := n.status[i := EMPTY])
    case Arrive(k) => n.(socket := n.socket + [n.wire[k]], wire := Without(n.wire, k))
    case Lose(k) => n.(wire := Without(n.wire, k))
  }

  /** No cross-talk: whatever is under way is the reply to the frame now in the buffer of its index,
      and whatever was received for an index is the reply to its own frame. */
  ghost predicate NoCrossTalk(n: Nic, reply: Payload -> Payload) {
    && Shaped(n)
    && (forall p :: UnderWay(n, p) && p.ethercat && p.index < EC_MAXBUF ==> p.payload == reply(n.tx[p.index]))
    && (forall i :: 0 <= i < EC_MAXBUF && n.status[i] in {RCVD, COMPLETE} ==> n.rx[i] == reply(n.tx[i]))
  }

  lemma {:induction false} PollKeeps(n: Nic, i: nat, reply: Payload -> Payload)
    requires NoCrossTalk(n, reply) && i < EC_MAXBUF
    ensures NoCrossTalk(InFrame(n, i).0, reply)
  {
    if n.status[i] != RCVD && n.socket != [] {
      assert UnderWay(n, n.socket[0]);
      var m := InFrame(n, i).0;
      forall p | UnderWay(m, p) ensures UnderWay(n, p) {
      }
    }
  }

  lemma {:induction false} StepKeeps(n: Nic, e: Event, reply: Payload -> Payload)
    requires NoCrossTalk(n, reply) && Allowed(n, e)
    ensures NoCrossTalk(Next(n, e, reply), reply)
  {
    var m := Next(n, e, reply);
    match e
    case Allocate => NewIndexIsFree(n);
    case Prepare(i, payload) =>
      forall p | UnderWay(m, p) && p.ethercat && p.index < EC_MAXBUF ensures p.payload == reply(m.tx[p.index]) {
        assert UnderWay(n, p);
      }
    case Send(i, sent) =>
      forall p | UnderWay(m, p) && p.ethercat && p.index < EC_MAXBUF ensures p.payload == reply(m.tx[p.index]) {
        assert UnderWay(n, p) || p == Packet(true, i, reply(n.tx[i]));
      }
    case Poll(i) => PollKeeps(n, i, reply);
    case Release(_) =>
      forall p | UnderWay(m, p) ensures UnderWay(n, p) {
      }
    case Arrive(k) =>
      forall p | UnderWay(m, p) ensures UnderWay(n, p) {
      }
    case Lose(k) =>
      forall p | UnderWay(m, p) ensures UnderWay(n, p) {
      }
  }

  /** A run of events, and one in which every event is allowed where it happens. */
  ghost predicate IsRun(n: Nic, events: seq<Event>, reply: Payload -> Payload)
    requires Shaped(n)
    decreases |events|
  {
    events == [] || (Possible(n, events[0]) && IsRun(Next(n, events[0], reply), events[1..], reply))
  }

  ghost predicate Disciplined(n: Nic, events: seq<Event>, reply: Payload -> Payload)
    requires Shaped(n) && IsRun(n, events, reply)
    decreases |events|
  {
    events == [] || (Allowed(n, events[0]) && Disciplined(Next(n, events[0], reply), events[1..], reply))
  }

  /** Indices are taken only while there is an unused one. */
  ghost predicate Roomy(n: Nic, events: seq<Event>, reply: Payload -> Payload)
    requires Shaped(n) && IsRun(n, events, reply)
    decreases |events|
  {
    events == [] || ((events[0] == Allocate ==> EMPTY in n.status) && Roomy(Next(n, events[0], reply), events[1..], reply))
  }

  ghost function Outcome(n: Nic, events: seq<Event>, reply: Payload -> Payload): (m: Nic)
    requires Shaped(n) && IsRun(n, events, reply)
    ensures Shaped(m)
    decreases |events|
  {
    if events == [] then n else Outcome(Next(n, events[0], reply), events[1..], reply)
  }

  /** For any interleaving of any number of clients and any order of arrival. */
  lemma {:induction false} RunsKeep(n: Nic, events: seq<Event>, reply: Payload -> Payload)
    requires NoCrossTalk(n, reply) && IsRun(n, events, reply) && Disciplined(n, events, reply)
    ensures NoCrossTalk(Outcome(n, events, reply), reply)
    decreases |events|
  {
    hide NoCrossTalk, Next, Allowed, Possible;
    KeepsShape(n, reply);
    if events != [] {
      StepKeeps(n, events[0], reply);
      RunsKeep(Next(n, events[0], reply), events[1..], reply);
    }
  }

  lemma {:induction false} KeepsShape(n: Nic, reply: Payload -> Payload)
    requires NoCrossTalk(n, reply)
    ensures Shaped(n)
  {
  }

  /** The events by which the holder of index `i` acts on it. */
  predicate Acts(e: Event, i: nat) {
    match e
    case Prepare(j, _) => j == i
    case Send(j, _) => j == i
    case Poll(j) => j == i
    case Release(j) => j == i
    case _ => false
  }

  lemma {:induction false} StepLeavesStored(n: Nic, e: Event, reply: Payload -> Payload, i: nat)
    requires Shaped(n) && Possible(n, e) && i < EC_MAXBUF && n.status[i] == RCVD && !Acts(e, i)
    requires e == Allocate ==> EMPTY in n.status
    ensures var m := Next(n, e, reply); m.status[i] == RCVD && m.tx[i] == n.tx[i] && m.rx[i] == n.rx[i]
  {
    hide Search, NewIndex;
    NewIndexIsFree(n);
  }

  /** A reply that another waiter has stored stays until its owner acts. */
  lemma {:induction false} StoredReplyStays(n: Nic, events: seq<Event>, reply: Payload -> Payload, i: nat)
    requires Shaped(n) && IsRun(n, events, reply) && Roomy(n, events, reply) && i < EC_MAXBUF && n.status[i] == RCVD
    requires forall k :: 0 <= k < |events| ==> !Acts(events[k], i)
    ensures var m := Outcome(n, events, reply); m.status[i] == RCVD && m.tx[i] == n.tx[i] && m.rx[i] == n.rx[i]
    decreases |events|
  {
    hide Next, Possible, Acts;
    if events != [] {
      StepLeavesStored(n, events[0], reply, i);
      StoredReplyStays(Next(n, events[0], reply), events[1..], reply, i);
    }
  }

  /** ... and the owner's next poll returns it without reading the socket. */
  lemma {:induction false} OwnerGetsStoredReply(n: Nic, i: nat, reply: Payload -> Payload)
    requires NoCrossTalk(n, reply) && i < EC_MAXBUF && n.status[i] == RCVD
    ensures var (m, wkc) := InFrame(n, i);
            wkc == reply(n.tx[i]).wkc && m.rx[i] == reply(n.tx[i]) && m.status[i] == COMPLETE && m.socket == n.socket
  {
  }

  // ---------------------------------------------------------------- every reply is delivered

  /** The reply that index `i` waits for. */
  function ReplyTo(n: Nic, i: nat, reply: Payload -> Payload): Packet
    requires Shaped(n) && i < EC_MAXBUF
  {
    Packet(true, i, reply(n.tx[i]))
  }

  /** Nothing but `p` is under way for its index; it still is while the index waits, or it has been filed there. */
  ghost predicate Coming(n: Nic, i: nat, p: Packet) {
    && Shaped(n) && i < EC_MAXBUF && p.ethercat && p.index == i
    && (forall q :: UnderWay(n, q) && q.ethercat && q.index == i ==> q == p)
    && ((n.status[i] == TX && UnderWay(n, p)) || (n.status[i] == RCVD && n.rx[i] == p.payload))
  }

  /** The network does not lose `p` during these events. */
  ghost predicate Spares(n: Nic, events: seq<Event>, reply: Payload -> Payload, p: Packet)
    requires Shaped(n) && IsRun(n, events, reply)
    decreases |events|
  {
    events == [] || ((events[0].Lose? ==> n.wire[events[0].k] != p) && Spares(Next(n, events[0], reply), events[1..], reply, p))
  }

  /** Somebody else's poll files `p` if it is the packet read, and otherwise leaves it where it is. */
  lemma {:induction false} PollBringsCloser(n: Nic, j: nat, i: nat, p: Packet)
    requires Coming(n, i, p) && j < EC_MAXBUF && j != i
    ensures Coming(InFrame(n, j).0, i, p)
  {
    var m := InFrame(n, j).0;
    if n.status[j] != RCVD && n.socket != [] {
      assert n.socket == [n.socket[0]] + n.socket[1..];
      assert UnderWay(n, n.socket[0]);
      forall q | UnderWay(m, q) ensures UnderWay(n, q) {
      }
      assert UnderWay(n, p) && n.socket[0] != p ==> UnderWay(m, p);
    } else {
      assert forall q :: UnderWay(m, q) <==> UnderWay(n, q);
    }
  }

  lemma {:induction false} PacketMoves(n: Nic, m: Nic, i: nat, p: Packet)
    requires Coming(n, i, p) && Shaped(m) && m.status[i] == n.status[i] && m.rx[i] == n.rx[i]
    requires forall q :: UnderWay(m, q) && q.ethercat && q.index == i ==> UnderWay(n, q)
    requires UnderWay(n, p) ==> UnderWay(m, p)
    ensures Coming(m, i, p)
  {
  }

  lemma {:induction false} SendBringsNothing(n: Nic, j: nat, sent: bool, reply: Payload -> Payload, i: nat, p: Packet)
    requires Coming(n, i, p) && j < EC_MAXBUF && j != i
    ensures Coming(Next(n, Send(j, sent), reply), i, p)
  {
    hide InFrame, NewIndex;
    var m := Next(n, Send(j, sent), reply);
    forall q | UnderWay(m, q) && q.ethercat && q.index == i ensures UnderWay(n, q) {
    }
  }

  /** A packet leaves the wire, for the socket or for nowhere. */
  lemma {:induction false} WireMoves(n: Nic, m: Nic, k: nat, i: nat, p: Packet)
    requires Coming(n, i, p) && k < |n.wire| && (m.socket == n.socket ==> n.wire[k] != p)
    requires m == n.(wire := Without(n.wire, k), socket := m.socket) && m.socket in {n.socket, n.socket + [n.wire[k]]}
    ensures Coming(m, i, p)
  {
    assert n.wire == n.wire[..k] + [n.wire[k]] + n.wire[k + 1..];
    forall q | UnderWay(m, q) ensures UnderWay(n, q) {
    }
  }

  lemma {:induction false} StepBringsCloser(n: Nic, e: Event, reply: Payload -> Payload, i: nat, p: Packet)
    requires Coming(n, i, p) && Possible(n, e) && !Acts(e, i)
    requires e == Allocate ==> EMPTY in n.status
    requires e.Lose? ==> n.wire[e.k] != p
    ensures Coming(Next(n, e, reply), i, p)
  {
    hide Coming, InFrame, NewIndex;
    ComingIs(n, i, p);
    var m := Next(n, e, reply);
    match e
    case Allocate =>
      NewIndexIsFree(n);
      assert forall q :: UnderWay(m, q) <==> UnderWay(n, q);
      PacketMoves(n, m, i, p);
    case Poll(j) => PollBringsCloser(n, j, i, p);
    case Send(j, sent) => SendBringsNothing(n, j, sent, reply, i, p);
    case Arrive(k) => WireMoves(n, m, k, i, p);
    case Lose(k) => WireMoves(n, m, k, i, p);
    case _ =>
      assert forall q :: UnderWay(m, q) <==> UnderWay(n, q);
      PacketMoves(n, m, i, p);
  }

  lemma {:induction false} ComingIs(n: Nic, i: nat, p: Packet)
    requires Coming(n, i, p)
    ensures Shaped(n) && i < EC_MAXBUF && n.status[i] in {TX, RCVD}
  {
  }

  lemma {:induction false} RunBringsCloser(n: Nic, events: seq<Event>, reply: Payload -> Payload, i: nat, p: Packet)
    requires Coming(n, i, p) && Shaped(n) && IsRun(n, events, reply) && Roomy(n, events, reply) &&
             Spares(n, events, reply, p)
    requires forall k :: 0 <= k < |events| ==> !Acts(events[k], i)
    ensures Coming(Outcome(n, events, reply), i, p)
    decreases |events|
  {
    hide Next, Possible, Acts, Coming, Shaped;
    if events != [] {
      StepBringsCloser(n, events[0], reply, i, p);
      RunBringsCloser(Next(n, events[0], reply), events[1..], reply, i, p);
    }
  }

  /**
   * Every reply that is not lost gets to its index, whoever reads it from the socket: while index `i` waits and the reply to
   * its frame is under way, then after any events other than acts of its holder and the loss of that packet, the reply
   * is still under way or is filed for the index. Once it has left the socket the holder's next poll returns it.
   */
  lemma {:induction false} ReplyIsDelivered(n: Nic, events: seq<Event>, reply: Payload -> Payload, i: nat)
    requires NoCrossTalk(n, reply) && i < EC_MAXBUF && n.status[i] == TX && UnderWay(n, ReplyTo(n, i, reply))
    requires IsRun(n, events, reply) && Roomy(n, events, reply) && Spares(n, events, reply, ReplyTo(n, i, reply))
    requires forall k :: 0 <= k < |events| ==> !Acts(events[k], i)
    ensures var m, p := Outcome(n, events, reply), ReplyTo(n, i, reply);
            && ((m.status[i] == TX && UnderWay(m, p)) || (m.status[i] == RCVD && m.rx[i] == p.payload))
            && (!UnderWay(m, p) ==>
                 var (after, wkc) := InFrame(m, i);
                 wkc == p.payload.wkc && after.rx[i] == p.payload && after.status[i] == COMPLETE)
  {
    var p := ReplyTo(n, i, reply);
    forall q | UnderWay(n, q) && q.ethercat && q.index == i ensures q == p {
    }
    RunBringsCloser(n, events, reply, i, p);
  }

  function Polled(n: Nic, i: nat, times: nat): (m: Nic)
    requires Shaped(n) && i < EC_MAXBUF
    ensures Shaped(m)
    decreases times
  {
    if times == 0 then n else Polled(InFrame(n, i).0, i, times - 1)
  }

  lemma {:induction false} PollSkips(n: Nic, i: nat, p: Packet)
    requires Coming(n, i, p) && n.status[i] == TX && p in n.socket && n.socket[0] != p
    ensures var (m, r) := InFrame(n, i);
            r == EC_OTHERFRAME && m.socket == n.socket[1..] && Coming(m, i, p) && m.status[i] == TX && p in m.socket
  {
    var m := InFrame(n, i).0;
    assert UnderWay(n, n.socket[0]);
    assert n.socket == [n.socket[0]] + m.socket;
    forall q | UnderWay(m, q) ensures UnderWay(n, q) {
    }
  }

  lemma {:induction false} PollTakes(n: Nic, i: nat, p: Packet)
    requires Coming(n, i, p) && n.status[i] == TX && p in n.socket && n.socket[0] == p
    ensures var (m, wkc) := InFrame(n, i);
            wkc == p.payload.wkc && m.rx[i] == p.payload && m.status[i] == COMPLETE && m.socket == n.socket[1..]
  {
  }

  lemma {:induction false} PolledMore(n: Nic, i: nat, times: nat)
    requires Shaped(n) && i < EC_MAXBUF
    ensures Polled(n, i, 0) == n && Polled(n, i, times + 1) == Polled(InFrame(n, i).0, i, times)
  {
    hide InFrame;
  }

  /** A holder that keeps polling gets its reply from the socket after the packets in front of it, each of which only
      reports that it was not this one. */
  lemma {:induction false} PollingReachesReply(n: Nic, i: nat, p: Packet) returns (k: nat)
    requires Coming(n, i, p) && n.status[i] == TX && p in n.socket
    ensures k < |n.socket| && n.socket[k] == p
    ensures forall j: nat :: j < k ==> InFrame(Polled(n, i, j), i).1 == EC_OTHERFRAME
    ensures var (m, wkc) := InFrame(Polled(n, i, k), i);
            wkc == p.payload.wkc && m.rx[i] == p.payload && m.status[i] == COMPLETE && m.socket == n.socket[k + 1..]
    decreases |n.socket|
  {
    hide InFrame, Polled, Coming;
    ComingIs(n, i, p);
    PolledMore(n, i, 0);
    if n.socket[0] == p {
      PollTakes(n, i, p);
      k := 0;
    } else {
      var m := InFrame(n, i).0;
      PollSkips(n, i, p);
      var l := PollingReachesReply(m, i, p);
      assert n.socket[l + 1] == p && m.socket[l + 1..] == n.socket[l + 2..];
      forall j: nat | j < l + 1 ensures InFrame(Polled(n, i, j), i).1 == EC_OTHERFRAME {
        if j > 0 {
          PolledMore(n, i, j - 1);
        }
      }
      PolledMore(n, i, l);
      k := l + 1;
    }
  }

  /** What a poll reports: a counter exactly when it completes the index, no frame exactly when there was nothing to
      read. Whatever it reports, other indices at most get a reply they waited for. */
  lemma {:induction false} PollReports(n: Nic, i: nat)
    requires Shaped(n) && i < EC_MAXBUF
    ensures var (m, r) := InFrame(n, i);
            && (r > EC_NOFRAME <==> n.status[i] == RCVD || (n.socket != [] && n.socket[0].ethercat && n.socket[0].index == i))
            && (if r > EC_NOFRAME then m.status[i] == COMPLETE && r == m.rx[i].wkc
                else m.status[i] == n.status[i] && m.rx[i] == n.rx[i])
            && (r == EC_NOFRAME <==> n.status[i] != RCVD && n.socket == [])
            && m.tx == n.tx && m.lastidx == n.lastidx && m.wire == n.wire
            && forall j :: 0 <= j < EC_MAXBUF && j != i ==>
                 || (m.status[j] == n.status[j] && m.rx[j] == n.rx[j])
                 || (n.status[j] == TX && m.status[j] == RCVD && n.socket != [] && n.socket[0] == Packet(true, j, m.rx[j]))
  {
  }

  /** Filling the buffer of an index is safe exactly when every packet still under way for it, and the reply kept
      for it if there is one, is the reply to the new contents. */
  lemma {:induction false} PrepareIsSafeIff(n: Nic, i: nat, payload: Payload, reply: Payload -> Payload)
    requires NoCrossTalk(n, reply) && i < EC_MAXBUF
    ensures NoCrossTalk(Next(n, Prepare(i, payload), reply), reply)
       <==> (forall p :: UnderWay(n, p) && p.ethercat && p.index == i ==> p.payload == reply(payload)) &&
            (n.status[i] in {RCVD, COMPLETE} ==> n.rx[i] == reply(payload))
  {
    var m := Next(n, Prepare(i, payload), reply);
    forall p ensures UnderWay(m, p) <==> UnderWay(n, p) {
    }
  }

  /** A frame is sent, given up, and its index reused while the old packet is still on the wire. */
  function StaleRun(first: Payload, second: Payload): seq<Event> {
    [Prepare(1, first), Send(1, true), Release(1), Allocate, Prepare(1, second), Send(1, true), Arrive(0), Poll(1)]
  }

  /** All other indices are in use, index 1 has just been allocated, nothing is under way. */
  function Crowded(): Nic {
    Nic(seq(EC_MAXBUF, _ => ALLOC), seq(EC_MAXBUF, _ => Payload([], 0)), seq(EC_MAXBUF, _ => Payload([], 0)), 1, [], [])
  }

  lemma {:induction false} RunFrom(n: Nic, events: seq<Event>, k: nat, reply: Payload -> Payload)
    requires Shaped(n) && k < |events| && Possible(n, events[k]) && IsRun(Next(n, events[k], reply), events[k + 1..], reply)
    ensures IsRun(n, events[k..], reply)
    ensures Outcome(n, events[k..], reply) == Outcome(Next(n, events[k], reply), events[k + 1..], reply)
  {
    hide Next, Possible;
    assert events[k..][0] == events[k] && events[k..][1..] == events[k + 1..];
  }

  lemma {:induction false} RunNothing(n: Nic, reply: Payload -> Payload)
    requires Shaped(n)
    ensures IsRun(n, [], reply) && Outcome(n, [], reply) == n
  {
  }

  /** The index comes round again: it is the only one in nobody's hands. */
  lemma {:induction false} OnlyOneLeft(n: Nic, i: nat)
    requires Shaped(n) && i < EC_MAXBUF && n.status[i] == EMPTY
    requires forall j :: 0 <= j < EC_MAXBUF && j != i ==> n.status[j] != EMPTY
    ensures NewIndex(n) == i
  {
    hide Search;
    NewIndexIsFree(n);
  }

  /** The second frame then completes with the reply to the first: nothing but the index is compared. */
  lemma {:induction false} StaleReplyIsTaken(first: Payload, second: Payload, reply: Payload -> Payload)
    ensures NoCrossTalk(Crowded(), reply) && IsRun(Crowded(), StaleRun(first, second), reply)
    ensures var m := Outcome(Crowded(), StaleRun(first, second), reply);
            m.status[1] == COMPLETE && m.tx[1] == second && m.rx[1] == reply(first)
  {
    hide IsRun, Outcome, Search, NewIndex;
    var e := StaleRun(first, second);
    var n0 := Crowded();
    var n1 := Next(n0, e[0], reply);
    var n2 := Next(n1, e[1], reply);
    var n3 := Next(n2, e[2], reply);
    OnlyOneLeft(n3, 1);
    var n4 := Next(n3, e[3], reply);
    var n5 := Next(n4, e[4], reply);
    var n6 := Next(n5, e[5], reply);
    var n7 := Next(n6, e[6], reply);
    var n8 := Next(n7, e[7], reply);
    assert n6.wire == [Packet(true, 1, reply(first)), Packet(true, 1, reply(second))];
    assert n7.socket == [Packet(true, 1, reply(first))];
    RunNothing(n8, reply);
    assert e[8..] == [] && e[0..] == e;
    RunFrom(n7, e, 7, reply);
    RunFrom(n6, e, 6, reply);
    RunFrom(n5, e, 5, reply);
    RunFrom(n4, e, 4, reply);
    RunFrom(n3, e, 3, reply);
    RunFrom(n2, e, 2, reply);
    RunFrom(n1, e, 1, reply);
    RunFrom(n0, e, 0, reply);
  }
}
