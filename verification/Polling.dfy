// Polling slaves one datagram each (ecx_FPRD_multi): building the frame, its way past the slaves, and
// picking the answers out of the received frame by the offsets noted while building.
module Polling {
  import opened Bytes
  import opened Frame

  const FPRD: Byte := 4
  const ALSTAT := 0x0130
  const SIZE := 6
  const MAX_FPRD_MULTI := 64

  /** Status registers by configured address. */
  predicate IsNet(net: map<nat, Data>) {
    forall a :: a in net ==> a < 0x1_0000 && |net[a]| == SIZE
  }

  /** The frame on its way: each addressed slave fills in its registers and counts itself in. */
  function Pass(f: Data, pos: nat, end: nat, net: map<nat, Data>): (r: Data)
    requires end <= |f| && IsNet(net)
    ensures |r| == |f|
    decreases end - pos
  {
    if pos + EC_HEADERSIZE > end then f else
    var dlength := Word(f, pos + 6);
    var n := dlength % EC_DATAGRAMFOLLOWS;
    var next := pos + EC_HEADERSIZE + n;
    if next > end then f else
    var adp := Word(f, pos + 2);
    var g := if f[pos] == FPRD && adp in net && Word(f, pos + 4) == ALSTAT && n == SIZE
             then Splice(f, pos + 10, net[adp] + Le16(Word(f, pos + 10 + n) + 1)) else f;
    if dlength < EC_DATAGRAMFOLLOWS then g else Pass(g, next, end, net)
  }

  /** What a slave contributes: its registers, or nothing in place of the zeros sent when nobody has the address. */
  function Reply(net: map<nat, Data>, adp: nat): (r: Data)
    requires IsNet(net)
    ensures |r| == SIZE
  {
    if adp in net then net[adp] else Zeros(SIZE)
  }

  /** The datagram for slave `i` of `n`. */
  function Poll(idx: Byte, adp: nat, more: bool): Datagram {
    Datagram(FPRD, idx, adp, ALSTAT, Zeros(SIZE), more)
  }

  function Polls(idx: Byte, configlst: seq<nat>): (ds: seq<Datagram>)
    ensures |ds| == |configlst|
  {
    seq(|configlst|, i requires 0 <= i < |configlst| => Poll(idx, configlst[i], 0 < i < |configlst| - 1))
  }

  predicate AllPolls(ds: seq<Datagram>) {
    forall i :: 0 <= i < |ds| ==> ds[i].adp < 0x1_0000 && ds[i] == Poll(ds[i].idx, ds[i].adp, ds[i].more)
  }

  lemma {:induction false} ExtentOfPolls(ds: seq<Datagram>)
    requires AllPolls(ds)
    ensures Extent(ds) == (EC_HEADERSIZE + SIZE) * |ds|
    decreases |ds|
  {
    if ds != [] {
      ExtentOfPolls(ds[1..]);
    }
  }

  /** The frame returns with the registers of the slaves that were asked. */
  lemma {:induction false} PassAnswers(f: Data, pos: nat, ds: seq<Datagram>, end: nat, net: map<nat, Data>)
    requires IsNet(net) && ds != [] && AllPolls(ds)
    requires Holds(f, pos, ds) && Chained(ds) && end == pos + (EC_HEADERSIZE + SIZE) * |ds| <= |f|
    ensures var h := Pass(f, pos, end, net);
            Same(f, h, 0, pos) &&
            forall i :: 0 <= i < |ds| ==> h[pos + (EC_HEADERSIZE + SIZE) * i + 10..][..SIZE] == Reply(net, ds[i].adp)
    decreases |ds|
  {
    hide Word, Le16, Splice, Header, Payload, Chained, Same, Holds;
    var d := ds[0];
    var next := pos + EC_HEADERSIZE + SIZE;
    var g := Answered(f, pos, d.adp, net);
    PollsOne(f, pos, ds, end, net);
    ChainedRest(ds);
    AnsweredAt(f, pos, ds, net);
    var h := Pass(f, pos, end, net);
    if |ds| > 1 {
      HoldsElsewhere(f, g, next, ds[1..], next);
      PassAnswers(g, next, ds[1..], end, net);
    } else {
      SameSelf(g, next);
    }
    SameThrough(f, g, h, pos, pos + 10, next);
    SameSlice(g, h, 0, next, pos + 10, pos + 10 + SIZE);
    forall i | 0 <= i < |ds| ensures h[pos + (EC_HEADERSIZE + SIZE) * i + 10..][..SIZE] == Reply(net, ds[i].adp) {
      if i == 0 {
        assert h[pos + 10..][..SIZE] == h[pos + 10..pos + 10 + SIZE];
      } else {
        assert ds[i] == ds[1..][i - 1];
        assert next + (EC_HEADERSIZE + SIZE) * (i - 1) == pos + (EC_HEADERSIZE + SIZE) * i;
      }
    }
  }

  /** The frame behind the poll at `pos`. */
  function Answered(f: Data, pos: nat, adp: nat, net: map<nat, Data>): (g: Data)
    requires IsNet(net) && pos + EC_HEADERSIZE + SIZE <= |f|
    ensures |g| == |f|
  {
    if adp in net then Splice(f, pos + 10, net[adp] + Le16(0 + 1)) else f
  }

  lemma {:induction false} AnsweredAt(f: Data, pos: nat, ds: seq<Datagram>, net: map<nat, Data>)
    requires IsNet(net) && ds != [] && AllPolls(ds) && Holds(f, pos, ds) && pos + EC_HEADERSIZE + SIZE <= |f|
    ensures var next := pos + EC_HEADERSIZE + SIZE;
            var g := Answered(f, pos, ds[0].adp, net);
            Same(f, g, 0, pos + 10) && Same(f, g, next, |f|) && g[pos + 10..pos + 10 + SIZE] == Reply(net, ds[0].adp)
  {
    hide Le16, Splice, Header, Same;
    var g := Answered(f, pos, ds[0].adp, net);
    if ds[0].adp in net {
      var answer := net[ds[0].adp] + Le16(0 + 1);
      SpliceKeeps(f, pos + 10, answer, 0, pos + 10);
      SpliceKeeps(f, pos + 10, answer, pos + EC_HEADERSIZE + SIZE, |f|);
      SpliceShows(f, pos + 10, answer);
      assert g[pos + 10..pos + 10 + SIZE] == g[pos + 10..pos + 10 + |answer|][..SIZE];
    } else {
      SameSelf(f, pos + 10);
      SameRest(f, pos + EC_HEADERSIZE + SIZE);
      BodyReads(f, pos + 10, Payload(ds[0]));
    }
  }

  lemma {:induction false} SameRest(g: Data, from: nat)
    ensures Same(g, g, from, |g|)
  {
  }

  lemma {:induction false} SameSelf(g: Data, until: nat)
    requires until <= |g|
    ensures Same(g, g, 0, until)
  {
  }

  lemma {:induction false} SameThrough(f: Data, g: Data, h: Data, pos: nat, until: nat, next: nat)
    requires Same(f, g, 0, until) && Same(g, h, 0, next) && pos <= until <= next
    ensures Same(f, h, 0, pos)
  {
  }

  lemma {:induction false} PollsOne(f: Data, pos: nat, ds: seq<Datagram>, end: nat, net: map<nat, Data>)
    requires IsNet(net) && ds != [] && AllPolls(ds)
    requires Holds(f, pos, ds) && pos + EC_HEADERSIZE + SIZE <= end <= |f|
    ensures var d := ds[0];
            var next := pos + EC_HEADERSIZE + SIZE;
            var g := Answered(f, pos, d.adp, net);
            Holds(f, next, ds[1..]) && Pass(f, pos, end, net) == if d.more then Pass(g, next, end, net) else g
  {
    hide Word, Le16, Splice, Header, Payload;
    ReadsDatagram(f, pos, ds);
  }

  /** The transmit buffer after the first `k` polls, and the offsets noted so far. */
  predicate Queued(f: Data, len: nat, f0: Data, ds: seq<Datagram>, k: nat, sldatapos: seq<nat>) {
    && 0 < k <= |ds| == |sldatapos| + |ds| - k && |f0| == EC_BUFSIZE && FIRST + Extent(ds[..k]) <= EC_BUFSIZE
    && f == Built(f0, ds[..k]) && len == FIRST + Extent(ds[..k])
    && forall i :: 0 <= i < k ==> sldatapos[i] == (EC_HEADERSIZE + SIZE) * i + EC_HEADERSIZE
  }

  lemma {:induction false} QueuedFits(f0: Data, ds: seq<Datagram>, k: nat)
    requires 0 < k <= |ds| <= MAX_FPRD_MULTI && AllPolls(ds) && |f0| == EC_BUFSIZE
    ensures Extent(ds[..k]) == (EC_HEADERSIZE + SIZE) * k && FIRST + Extent(ds[..k]) <= EC_BUFSIZE
  {
    ExtentOfPolls(ds[..k]);
  }

  lemma {:induction false} QueuedFirst(f0: Data, ds: seq<Datagram>)
    requires ds != [] && |ds| <= MAX_FPRD_MULTI && AllPolls(ds) && |f0| == EC_BUFSIZE
    ensures Queued(SetUp(f0, ds[0]), FIRST + EC_HEADERSIZE + SIZE, f0, ds, 1, [EC_HEADERSIZE])
  {
    hide SetUp;
    QueuedFits(f0, ds, 1);
    assert ds[..1] == [ds[0]];
  }

  lemma {:induction false} QueuedNext(f: Data, len: nat, f0: Data, ds: seq<Datagram>, k: nat, sldatapos: seq<nat>)
    requires Queued(f, len, f0, ds, k, sldatapos) && k < |ds| <= MAX_FPRD_MULTI && AllPolls(ds)
    ensures FIRST + EC_HEADERSIZE <= len && len + EC_HEADERSIZE + SIZE <= |f| && |ds[k].data| == SIZE
    ensures Queued(Added(f, len, ds[k]), len + EC_HEADERSIZE + SIZE, f0, ds, k + 1, sldatapos + [len + 10 - ETH_HEADERSIZE])
  {
    hide Added;
    QueuedFits(f0, ds, k);
    QueuedFits(f0, ds, k + 1);
    assert ds[..k + 1][..k] == ds[..k] && ds[..k + 1][k] == ds[k];
  }

  lemma {:induction false} QueuedIs(f: Data, len: nat, f0: Data, ds: seq<Datagram>, sldatapos: seq<nat>)
    requires Queued(f, len, f0, ds, |ds|, sldatapos)
    ensures ds != [] && |sldatapos| == |ds| && |f0| == EC_BUFSIZE && FIRST + Extent(ds) <= EC_BUFSIZE
    ensures f == Built(f0, ds) && len == FIRST + Extent(ds)
    ensures forall i :: 0 <= i < |ds| ==> sldatapos[i] == (EC_HEADERSIZE + SIZE) * i + EC_HEADERSIZE
  {
    hide Built, Extent;
    assert ds[..|ds|] == ds;
  }

  /** A place in a frame, and the same place once the Ethernet header is gone. */
  lemma {:induction false} Stripped(h: Data, at: nat)
    requires ETH_HEADERSIZE <= at && at + SIZE <= |h|
    ensures h[ETH_HEADERSIZE..][at - ETH_HEADERSIZE..at - ETH_HEADERSIZE + SIZE] == h[at..][..SIZE]
  {
    SubSlice(h, at, |h| - at, 0, SIZE);
    SubSlice(h, ETH_HEADERSIZE, |h| - ETH_HEADERSIZE, at - ETH_HEADERSIZE, at - ETH_HEADERSIZE + SIZE);
    assert h[ETH_HEADERSIZE..|h|] == h[ETH_HEADERSIZE..] && h[at..|h|] == h[at..];
  }

  /** All polls queued: what comes back holds the registers at the offsets noted. */
  lemma {:induction false} AnswersAtOffsets(f: Data, len: nat, f0: Data, ds: seq<Datagram>, sldatapos: seq<nat>,
                                            net: map<nat, Data>)
    requires IsNet(net) && AllPolls(ds) && |ds| <= MAX_FPRD_MULTI
    requires Queued(f, len, f0, ds, |ds|, sldatapos)
    requires forall i :: 1 <= i < |ds| ==> (ds[i].more <==> i < |ds| - 1)
    ensures len <= |f| && |sldatapos| == |ds|
    ensures var rx := Pass(f, FIRST, len, net)[ETH_HEADERSIZE..];
            forall i :: 0 <= i < |ds| ==> sldatapos[i] + SIZE <= |rx| && rx[sldatapos[i]..sldatapos[i] + SIZE] == Reply(net, ds[i].adp)
  {
    hide Built, Pass, Holds, Chained, Reply, Extent, Queued;
    QueuedIs(f, len, f0, ds, sldatapos);
    QueuedFits(f0, ds, |ds|);
    assert ds[..|ds|] == ds;
    BuiltHolds(f0, ds);
    FlagsAreNotSeen(ds);
    PassAnswers(f, FIRST, Flagged(ds), len, net);
    var h := Pass(f, FIRST, len, net);
    forall i | 0 <= i < |ds|
      ensures sldatapos[i] + SIZE <= |h| - ETH_HEADERSIZE
      ensures h[ETH_HEADERSIZE..][sldatapos[i]..sldatapos[i] + SIZE] == Reply(net, ds[i].adp)
    {
      var at := FIRST + (EC_HEADERSIZE + SIZE) * i + 10;
      assert Flagged(ds)[i].adp == ds[i].adp && h[at..][..SIZE] == Reply(net, ds[i].adp);
      Stripped(h, at);
    }
  }

  /** ecx_FPRD_multi: when the frame comes back, entry i becomes what the slave with address `configlst[i]` has in its
      registers, or zeros if there is none; otherwise the entries given stay. */
  method FprdMulti(tx: TxFrame, idx: Byte, configlst: seq<nat>, given: seq<Data>, net: map<nat, Data>, returned: bool)
    returns (slstatlst: seq<Data>)
    requires 1 <= |configlst| == |given| <= MAX_FPRD_MULTI && IsNet(net) && tx.frame.Length == EC_BUFSIZE
    requires forall i :: 0 <= i < |configlst| ==> configlst[i] < 0x1_0000
    modifies tx, tx.frame
    ensures |slstatlst| == |configlst|
    ensures forall i :: 0 <= i < |configlst| ==> slstatlst[i] == if returned then Reply(net, configlst[i]) else given[i]
  {
    hide Queued, Pass, SetUp, Added, Extent, Reply;
    var n := |configlst|;
    ghost var f0, ds := tx.frame[..], Polls(idx, configlst);
    var slcnt, sldatapos: seq<nat> := 1, [EC_HEADERSIZE];
    tx.SetupDatagram(Poll(idx, configlst[0], false));
    QueuedFirst(f0, ds);
    while slcnt < n - 1
      invariant 1 <= slcnt <= n && (slcnt < n || n == 1)
      invariant Queued(tx.frame[..], tx.txbuflength, f0, ds, slcnt, sldatapos)
    {
      QueuedNext(tx.frame[..], tx.txbuflength, f0, ds, slcnt, sldatapos);
      var offset := tx.AddDatagram(Poll(idx, configlst[slcnt], true));
      sldatapos := sldatapos + [offset];
      slcnt := slcnt + 1;
    }
    if slcnt < n {
      QueuedNext(tx.frame[..], tx.txbuflength, f0, ds, slcnt, sldatapos);
      var offset := tx.AddDatagram(Poll(idx, configlst[slcnt], false));
      sldatapos := sldatapos + [offset];
    }
    slstatlst := given;
    if !returned {
      return;
    }
    AnswersAtOffsets(tx.frame[..], tx.txbuflength, f0, ds, sldatapos, net);
    var rx := Pass(tx.frame[..], FIRST, tx.txbuflength, net)[ETH_HEADERSIZE..];
    slcnt := 0;
    while slcnt < n
      invariant 0 <= slcnt <= n == |ds| && |slstatlst| == n
      invariant forall i :: 0 <= i < slcnt ==> slstatlst[i] == Reply(net, configlst[i])
    {
      slstatlst := slstatlst[slcnt := rx[sldatapos[slcnt]..sldatapos[slcnt] + SIZE]];
      slcnt := slcnt + 1;
    }
  }
}
