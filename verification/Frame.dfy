// Building an EtherCAT frame datagram by datagram (ecx_setupdatagram, ecx_adddatagram,
// ecx_writedatagramdata), and a parser for such frames; section 5.4 of ETG.1000.4.
module Frame {
  import opened Bytes

  const ETH_HEADERSIZE := 14
  const EC_HEADERSIZE := 12
  const EC_ELENGTHSIZE := 2
  const EC_WKCSIZE := 2
  const EC_ECATTYPE := 0x1000
  const EC_DATAGRAMFOLLOWS := 0x8000
  const EC_BUFSIZE := 1518

  // Where the first datagram's command byte and length field lie.
  const FIRST := 16
  const FIRST_DLENGTH := 22

  /** The arguments of one call; `more` is the flag that ecx_adddatagram takes. */
  datatype Datagram = Datagram(command: Byte, idx: Byte, adp: nat, ado: nat, data: Data, more: bool) {
    predicate Valid() { adp < 0x1_0000 && ado < 0x1_0000 && |data| < EC_DATAGRAMFOLLOWS }
  }

  /** NOP, APRD, FPRD, BRD and LRD carry no data to the slaves. */
  predicate ReadsOnly(command: Byte) { command in {0, 1, 4, 7, 10} }

  /** Commands 1 to 12 come in threes for the four kinds of addressing: read, write, and both (section 5.4.1 of
      ETG.1000.4); 13 and 14 let one slave read and all others write. */
  predicate CarriesToSlaves(command: Byte) {
    if 1 <= command <= 12 then (command - 1) % 3 > 0 else command in {13, 14}
  }

  /** Exactly the commands that carry nothing to the slaves get zeros for their data. */
  lemma {:induction false} ReadsOnlyIff(command: Byte)
    requires command <= 14
    ensures ReadsOnly(command) <==> !CarriesToSlaves(command)
  {
  }

  function Payload(d: Datagram): (r: Data)
    ensures |r| == |d.data|
  {
    if ReadsOnly(d.command) then Zeros(|d.data|) else d.data
  }

  /** The eight header bytes up to the interrupt field, which nobody writes. */
  function Header(d: Datagram, follows: bool): (r: Data)
    ensures |r| == 8
  {
    [d.command, d.idx] + Le16(d.adp) + Le16(d.ado) + Le16(|d.data| + if follows then EC_DATAGRAMFOLLOWS else 0)
  }

  /** A datagram written at `pos`, with a zero work counter. */
  function Place(f: Data, pos: nat, d: Datagram, follows: bool): (r: Data)
    requires pos + EC_HEADERSIZE + |d.data| <= |f|
    ensures |r| == |f|
  {
    Splice(Splice(f, pos, Header(d, follows)), pos + 10, Payload(d) + [0, 0])
  }

  function SetUp(f: Data, d: Datagram): (r: Data)
    requires FIRST + EC_HEADERSIZE + |d.data| <= |f|
    ensures |r| == |f|
  {
    Place(Splice(f, ETH_HEADERSIZE, Le16(EC_ECATTYPE + EC_HEADERSIZE + |d.data|)), FIRST, d, false)
  }

  /** The frame of length `len` with `d` added: new total length, follow flag in the first datagram, the datagram. */
  function Added(f: Data, len: nat, d: Datagram): (r: Data)
    requires FIRST + EC_HEADERSIZE <= len && len + EC_HEADERSIZE + |d.data| <= |f|
    ensures |r| == |f|
  {
    var dlength := Word(f, FIRST_DLENGTH);
    var flagged := if dlength < EC_DATAGRAMFOLLOWS then dlength + EC_DATAGRAMFOLLOWS else dlength;
    Place(Splice(Splice(f, ETH_HEADERSIZE, Le16(Word(f, ETH_HEADERSIZE) + EC_HEADERSIZE + |d.data|)),
                 FIRST_DLENGTH, Le16(flagged)), len, d, d.more)
  }

  lemma {:induction false} SpliceTwice(f: Data, at: nat, x: Data, y: Data)
    requires at + |x| + |y| <= |f|
    ensures Splice(Splice(f, at, x), at + |x|, y) == Splice(f, at, x + y)
  {
  }

  class TxFrame {
    const frame: array<Byte>
    var txbuflength: nat

    constructor ()
      ensures fresh(frame) && frame.Length == EC_BUFSIZE && txbuflength == 0
    {
      frame := new Byte[EC_BUFSIZE];
      txbuflength := 0;
    }

    /** ecx_writedatagramdata. */
    method WriteDatagramData(at: nat, command: Byte, data: Data)
      requires at + |data| <= frame.Length
      modifies frame
      ensures frame[..] == Splice(old(frame[..]), at, if ReadsOnly(command) then Zeros(|data|) else data)
    {
      hide Splice, Zeros, ReadsOnly;
      if |data| > 0 {
        if ReadsOnly(command) {
          CopyInto(frame, at, Zeros(|data|));
        } else {
          CopyInto(frame, at, data);
        }
      } else {
        EmptySplice(frame[..], at);
        assert Zeros(0) == [] == data;
      }
    }

    /** The fields of a datagram at `at`, its data and its work counter. */
    method WriteDatagram(at: nat, d: Datagram, dlength: nat)
      requires at + EC_HEADERSIZE + |d.data| <= frame.Length
      modifies frame
      ensures frame[..] == Splice(Splice(old(frame[..]), at, [d.command, d.idx] + Le16(d.adp) + Le16(d.ado) + Le16(dlength)),
                                  at + 10, Payload(d) + [0, 0])
    {
      hide Splice, Zeros, ReadsOnly, Le16;
      ghost var f := frame[..];
      CopyInto(frame, at, [d.command]);
      CopyInto(frame, at + 1, [d.idx]);
      SpliceTwice(f, at, [d.command], [d.idx]);
      assert [d.command] + [d.idx] == [d.command, d.idx];
      CopyInto(frame, at + 2, Le16(d.adp));
      SpliceTwice(f, at, [d.command, d.idx], Le16(d.adp));
      CopyInto(frame, at + 4, Le16(d.ado));
      SpliceTwice(f, at, [d.command, d.idx] + Le16(d.adp), Le16(d.ado));
      CopyInto(frame, at + 6, Le16(dlength));
      SpliceTwice(f, at, [d.command, d.idx] + Le16(d.adp) + Le16(d.ado), Le16(dlength));
      ghost var g := frame[..];
      WriteDatagramData(at + 10, d.command, d.data);
      CopyInto(frame, at + 10 + |d.data|, [0]);
      CopyInto(frame, at + 11 + |d.data|, [0]);
      SpliceTwice(g, at + 10, Payload(d), [0]);
      SpliceTwice(g, at + 10, Payload(d) + [0], [0]);
      assert Payload(d) + [0] + [0] == Payload(d) + [0, 0];
    }

    /** ecx_setupdatagram. */
    method SetupDatagram(d: Datagram)
      requires FIRST + EC_HEADERSIZE + |d.data| <= frame.Length
      modifies this, frame
      ensures frame[..] == SetUp(old(frame[..]), d)
      ensures txbuflength == FIRST + EC_HEADERSIZE + |d.data|
    {
      hide Splice, Le16;
      CopyInto(frame, ETH_HEADERSIZE, Le16(EC_ECATTYPE + EC_HEADERSIZE + |d.data|));
      WriteDatagram(ETH_HEADERSIZE + EC_ELENGTHSIZE, d, |d.data|);
      txbuflength := ETH_HEADERSIZE + EC_HEADERSIZE + EC_WKCSIZE + |d.data|;
    }

    /** ecx_adddatagram. */
    method AddDatagram(d: Datagram) returns (offset: nat)
      requires FIRST + EC_HEADERSIZE <= txbuflength && txbuflength + EC_HEADERSIZE + |d.data| <= frame.Length
      modifies this, frame
      ensures frame[..] == Added(old(frame[..]), old(txbuflength), d)
      ensures txbuflength == old(txbuflength) + EC_HEADERSIZE + |d.data|
      ensures offset == old(txbuflength) + 10 - ETH_HEADERSIZE
    {
      hide Splice, Le16, Word;
      var prevlength := txbuflength;
      var elength, dlength := Word(frame[..], ETH_HEADERSIZE), Word(frame[..], FIRST_DLENGTH);
      CopyInto(frame, ETH_HEADERSIZE, Le16(elength + EC_HEADERSIZE + |d.data|));
      CopyInto(frame, FIRST_DLENGTH, Le16(if dlength < EC_DATAGRAMFOLLOWS then dlength + EC_DATAGRAMFOLLOWS else dlength));
      WriteDatagram(prevlength, d, if d.more then |d.data| + EC_DATAGRAMFOLLOWS else |d.data|);
      txbuflength := prevlength + EC_HEADERSIZE - EC_ELENGTHSIZE + EC_WKCSIZE + |d.data|;
      offset := prevlength + EC_HEADERSIZE - EC_ELENGTHSIZE - ETH_HEADERSIZE;
    }
  }

  lemma {:induction false} EmptySplice(f: Data, at: nat)
    requires at <= |f|
    ensures Splice(f, at, []) == f
  {
  }

  // Reading a frame the way a slave does.

  datatype Parsed = Parsed(command: Byte, idx: Byte, adp: nat, ado: nat, data: Data, wkc: nat)

  /** The datagrams from `pos` to `end`, each announcing the next by its follow flag. */
  function ParseFrom(f: Data, pos: nat, end: nat): Option<seq<Parsed>>
    requires end <= |f|
    decreases end - pos
  {
    if pos + EC_HEADERSIZE > end then None else
    var dlength := Word(f, pos + 6);
    var n := dlength % EC_DATAGRAMFOLLOWS;
    var next := pos + EC_HEADERSIZE + n;
    if next > end then None else
    var d := Parsed(f[pos], f[pos + 1], Word(f, pos + 2), Word(f, pos + 4), f[pos + 10..pos + 10 + n], Word(f, pos + 10 + n));
    if dlength < EC_DATAGRAMFOLLOWS then (if next == end then Some([d]) else None)
    else match ParseFrom(f, next, end) case None => None case Some(s) => Some([d] + s)
  }

  /** A frame of type 1 whose length field, eleven bits wide, counts the bytes behind it. */
  function Parse(f: Data): Option<seq<Parsed>>
    requires |f| >= FIRST
  {
    var elength := Word(f, ETH_HEADERSIZE);
    var end := FIRST + elength % 0x800;
    if elength / 0x1000 != 1 || end > |f| then None else ParseFrom(f, FIRST, end)
  }

  // What one setup and any number of adds leave.

  /** Bytes of the datagrams, headers and work counters included. */
  function Extent(ds: seq<Datagram>): nat {
    if ds == [] then 0 else EC_HEADERSIZE + |ds[0].data| + Extent(ds[1..])
  }

  /** The frame after ecx_setupdatagram for the first of `ds` and ecx_adddatagram for the others. */
  function Built(f: Data, ds: seq<Datagram>): (r: Data)
    requires ds != [] && FIRST + Extent(ds) <= |f|
    ensures |r| == |f|
    decreases |ds|
  {
    ExtentOfLast(ds);
    if |ds| == 1 then SetUp(f, ds[0])
    else Added(Built(f, ds[..|ds| - 1]), FIRST + Extent(ds[..|ds| - 1]), ds[|ds| - 1])
  }

  lemma {:induction false} ExtentOfLast(ds: seq<Datagram>)
    requires ds != []
    ensures var n := |ds| - 1;
            Extent(ds) == Extent(ds[..n]) + EC_HEADERSIZE + |ds[n].data| && (n > 0 ==> Extent(ds[..n]) >= EC_HEADERSIZE)
    decreases |ds|
  {
    if |ds| > 1 {
      ExtentOfLast(ds[1..]);
      assert ds[..|ds| - 1][1..] == ds[1..][..|ds| - 2];
    }
  }

  /** The datagram lies at `pos`, with its own follow flag and a zero work counter. */
  predicate Lies(f: Data, pos: nat, d: Datagram) {
    var next := pos + EC_HEADERSIZE + |d.data|;
    next <= |f| && d.Valid() && f[pos..pos + 8] == Header(d, d.more) && f[pos + 10..next] == Payload(d) + [0, 0]
  }

  /** The datagrams of `ds` lie in the frame one behind the other. */
  predicate Holds(f: Data, pos: nat, ds: seq<Datagram>)
    decreases |ds|
  {
    ds == [] || (Lies(f, pos, ds[0]) && Holds(f, pos + EC_HEADERSIZE + |ds[0].data|, ds[1..]))
  }

  /** The flags as they end up: the first datagram's is set by the first add. */
  function Flagged(ds: seq<Datagram>): seq<Datagram>
    requires ds != []
  {
    [ds[0].(more := |ds| > 1)] + ds[1..]
  }

  lemma {:induction false} HeaderParts(d: Datagram, follows: bool)
    ensures var h := Header(d, follows);
            && h[0] == d.command && h[1] == d.idx && h[2..4] == Le16(d.adp) && h[4..6] == Le16(d.ado)
            && h[6..8] == Le16(|d.data| + if follows then EC_DATAGRAMFOLLOWS else 0)
  {
    hide Le16;
  }

  lemma {:induction false} HeaderReads(f: Data, pos: nat, d: Datagram)
    requires pos + EC_HEADERSIZE + |d.data| <= |f| && d.Valid()
    requires f[pos..pos + 8] == Header(d, d.more)
    ensures f[pos] == d.command && f[pos + 1] == d.idx && Word(f, pos + 2) == d.adp && Word(f, pos + 4) == d.ado
    ensures Word(f, pos + 6) == |d.data| + if d.more then EC_DATAGRAMFOLLOWS else 0
  {
    hide Word, Le16, Header;
    var h := f[pos..pos + 8];
    assert f[pos] == h[0] && f[pos + 1] == h[1];
    SubSlice(f, pos, 8, 2, 4);
    SubSlice(f, pos, 8, 4, 6);
    SubSlice(f, pos, 8, 6, 8);
    HeaderParts(d, d.more);
    Le16ReadsBack(d.adp, f, pos + 2);
    Le16ReadsBack(d.ado, f, pos + 4);
    Le16ReadsBack(|d.data| + if d.more then EC_DATAGRAMFOLLOWS else 0, f, pos + 6);
  }

  lemma {:induction false} SubSlice(f: Data, pos: nat, n: nat, i: nat, j: nat)
    requires pos + n <= |f| && i <= j <= n
    ensures f[pos + i..pos + j] == f[pos..pos + n][i..j]
  {
    var part := f[pos + i..pos + j];
    assert forall k :: 0 <= k < j - i ==> part[k] == f[pos..pos + n][i + k];
  }

  /** What the slaves are to find for a datagram. */
  function Seen(d: Datagram): Parsed {
    Parsed(d.command, d.idx, d.adp, d.ado, Payload(d), 0)
  }

  function AllSeen(ds: seq<Datagram>): seq<Parsed> {
    if ds == [] then [] else [Seen(ds[0])] + AllSeen(ds[1..])
  }

  /** The follow flags form a chain that ends at the last datagram. */
  predicate Chained(ds: seq<Datagram>) {
    forall i :: 0 <= i < |ds| ==> (ds[i].more <==> i < |ds| - 1)
  }

  lemma {:induction false} ChainedRest(ds: seq<Datagram>)
    requires ds != []
    ensures Chained(ds) <==> (ds[0].more <==> |ds| > 1) && Chained(ds[1..])
  {
    if (ds[0].more <==> |ds| > 1) && Chained(ds[1..]) {
      forall i | 0 <= i < |ds| ensures ds[i].more <==> i < |ds| - 1 {
        assert i > 0 ==> ds[i] == ds[1..][i - 1];
      }
    }
  }

  /** Data followed by a zero work counter. */
  lemma {:induction false} BodyReads(f: Data, at: nat, data: Data)
    requires at + |data| + 2 <= |f| && f[at..at + |data| + 2] == data + [0, 0]
    ensures f[at..at + |data|] == data && Word(f, at + |data|) == 0
  {
    var body := f[at..at + |data| + 2];
    assert body[..|data|] == data && body[|data|] == 0 && body[|data| + 1] == 0;
    assert f[at + |data|] == body[|data|] && f[at + |data| + 1] == body[|data| + 1];
  }

  /** What a slave makes of the datagram at `pos`. */
  lemma {:induction false} ReadsDatagram(f: Data, pos: nat, ds: seq<Datagram>)
    requires ds != [] && Holds(f, pos, ds)
    ensures var d := ds[0];
            pos + EC_HEADERSIZE + |d.data| <= |f| && d.Valid() &&
            Word(f, pos + 6) == |d.data| + (if d.more then EC_DATAGRAMFOLLOWS else 0) &&
            Parsed(f[pos], f[pos + 1], Word(f, pos + 2), Word(f, pos + 4), f[pos + 10..pos + 10 + |d.data|],
                   Word(f, pos + 10 + |d.data|)) == Seen(d)
  {
    hide Le16, Word, Payload, Header;
    var d := ds[0];
    HeaderReads(f, pos, d);
    BodyReads(f, pos + 10, Payload(d));
  }

  lemma {:induction false} SameHead(x: Parsed, s: seq<Parsed>, z: seq<Parsed>)
    ensures [x] + s == [x] + z <==> s == z
  {
    assert ([x] + s)[1..] == s && ([x] + z)[1..] == z;
  }

  /** One step of the parser over a datagram that is there. */
  lemma {:induction false} ParsesOne(f: Data, pos: nat, ds: seq<Datagram>, end: nat)
    requires ds != [] && Holds(f, pos, ds) && pos + EC_HEADERSIZE + |ds[0].data| <= end <= |f|
    ensures var d := ds[0];
            var next := pos + EC_HEADERSIZE + |d.data|;
            Holds(f, next, ds[1..]) && ParseFrom(f, pos, end) ==
            if !d.more then (if next == end then Some([Seen(d)]) else None)
            else match ParseFrom(f, next, end) case None => None case Some(s) => Some([Seen(d)] + s)
  {
    hide Word, Seen, Header, Payload;
    ReadsDatagram(f, pos, ds);
  }

  lemma {:induction false} ParsingWhatIsHeld(f: Data, pos: nat, ds: seq<Datagram>, end: nat)
    requires ds != [] && Holds(f, pos, ds) && end == pos + Extent(ds) <= |f|
    ensures ParseFrom(f, pos, end) == Some(AllSeen(ds)) <==> Chained(ds)
    decreases |ds|
  {
    hide Seen, Chained, Holds, ParseFrom;
    var next := pos + EC_HEADERSIZE + |ds[0].data|;
    ParsesOne(f, pos, ds, end);
    ChainedRest(ds);
    if |ds| > 1 {
      ParsingWhatIsHeld(f, next, ds[1..], end);
      assert Extent(ds[1..]) >= EC_HEADERSIZE;
      if ds[0].more && ParseFrom(f, next, end).Some? {
        SameHead(Seen(ds[0]), ParseFrom(f, next, end).value, AllSeen(ds[1..]));
      }
    } else {
      assert ds[1..] == [];
      NothingToChain();
      assert AllSeen(ds) == [Seen(ds[0])];
      NothingToParse(f, end);
    }
  }

  lemma {:induction false} NothingToParse(f: Data, end: nat)
    requires end <= |f|
    ensures ParseFrom(f, end, end) == None
  {
  }

  lemma {:induction false} NothingToChain()
    ensures Chained([]) && AllSeen([]) == [] && Extent([]) == 0
  {
  }

  predicate Same(f: Data, g: Data, from: nat, until: nat) {
    |f| == |g| && until <= |f| && forall i :: from <= i < until ==> f[i] == g[i]
  }

  lemma {:induction false} SpliceKeeps(f: Data, at: nat, data: Data, from: nat, until: nat)
    requires at + |data| <= |f| && until <= |f| && (until <= at || at + |data| <= from)
    ensures Same(f, Splice(f, at, data), from, until)
  {
  }

  lemma {:induction false} SpliceShows(f: Data, at: nat, data: Data)
    requires at + |data| <= |f|
    ensures Splice(f, at, data)[at..at + |data|] == data
  {
  }

  lemma {:induction false} SameSlice(f: Data, g: Data, from: nat, until: nat, i: nat, j: nat)
    requires Same(f, g, from, until) && from <= i <= j <= until
    ensures f[i..j] == g[i..j]
  {
  }

  lemma {:induction false} SameNarrower(f: Data, g: Data, from: nat, until: nat, i: nat)
    requires Same(f, g, from, until) && from <= i
    ensures Same(f, g, i, until)
  {
  }

  lemma {:induction false} LiesElsewhere(f: Data, g: Data, pos: nat, d: Datagram, from: nat, until: nat)
    requires Lies(f, pos, d) && Same(f, g, from, until) && from <= pos && pos + EC_HEADERSIZE + |d.data| <= until
    ensures Lies(g, pos, d)
  {
    hide Header, Payload, Datagram.Valid;
  }

  /** A datagram behind those that are there already. */
  lemma {:induction false} HoldsOneMore(f: Data, g: Data, pos: nat, ds: seq<Datagram>, d: Datagram)
    requires Holds(f, pos, ds) && Same(f, g, pos, pos + Extent(ds)) && Lies(g, pos + Extent(ds), d)
    ensures Holds(g, pos, ds + [d])
    decreases |ds|
  {
    hide Lies, Same;
    var z := ds + [d];
    if ds == [] {
      assert z[1..] == [];
    } else {
      var next := pos + EC_HEADERSIZE + |ds[0].data|;
      SameNarrower(f, g, pos, pos + Extent(ds), next);
      LiesElsewhere(f, g, pos, ds[0], pos, pos + Extent(ds));
      HoldsOneMore(f, g, next, ds[1..], d);
      assert z[1..] == ds[1..] + [d];
    }
  }

  lemma {:induction false} PlaceShows(f: Data, pos: nat, d: Datagram, follows: bool)
    requires pos + EC_HEADERSIZE + |d.data| <= |f|
    ensures var g := Place(f, pos, d, follows);
            Same(f, g, 0, pos) && g[pos..pos + 8] == Header(d, follows) &&
            g[pos + 10..pos + EC_HEADERSIZE + |d.data|] == Payload(d) + [0, 0]
  {
    hide Splice, Header, Payload;
    var h := Splice(f, pos, Header(d, follows));
    var g := Place(f, pos, d, follows);
    SpliceKeeps(f, pos, Header(d, follows), 0, pos);
    SpliceKeeps(h, pos + 10, Payload(d) + [0, 0], 0, pos + 10);
    SpliceShows(f, pos, Header(d, follows));
    SpliceShows(h, pos + 10, Payload(d) + [0, 0]);
    SameSlice(h, g, 0, pos + 10, pos, pos + 8);
  }

  /** Setting the follow flag of the first datagram. */
  lemma {:induction false} FlagFirst(f: Data, ds: seq<Datagram>)
    requires ds != [] && Holds(f, FIRST, ds) && FIRST + Extent(ds) <= |f|
    ensures var d := ds[0].(more := true);
            var dlength := Word(f, FIRST_DLENGTH);
            var flagged := if dlength < EC_DATAGRAMFOLLOWS then dlength + EC_DATAGRAMFOLLOWS else dlength;
            Holds(Splice(f, FIRST_DLENGTH, Le16(flagged)), FIRST, [d] + ds[1..])
  {
    hide Le16, Word, Splice, Same, Lies, Header, Payload;
    ReadsDatagram(f, FIRST, ds);
    var bits := Le16(|ds[0].data| + EC_DATAGRAMFOLLOWS);
    FlagHeader(f, ds[0]);
    SpliceKeeps(f, FIRST_DLENGTH, bits, FIRST_DLENGTH + 2, |f|);
    HoldsElsewhere(f, Splice(f, FIRST_DLENGTH, bits), FIRST + EC_HEADERSIZE + |ds[0].data|, ds[1..], FIRST_DLENGTH + 2);
    assert ([ds[0].(more := true)] + ds[1..])[1..] == ds[1..];
  }

  lemma {:induction false} FlagHeader(f: Data, d: Datagram)
    requires Lies(f, FIRST, d) && FIRST + EC_HEADERSIZE <= |f|
    ensures Lies(Splice(f, FIRST_DLENGTH, Le16(|d.data| + EC_DATAGRAMFOLLOWS)), FIRST, d.(more := true))
  {
    hide Le16, Splice, Same, Payload;
    var bits := Le16(|d.data| + EC_DATAGRAMFOLLOWS);
    var g := Splice(f, FIRST_DLENGTH, bits);
    SpliceKeeps(f, FIRST_DLENGTH, bits, FIRST, FIRST_DLENGTH);
    SpliceKeeps(f, FIRST_DLENGTH, bits, FIRST_DLENGTH + 2, |f|);
    SpliceShows(f, FIRST_DLENGTH, bits);
    SameSlice(f, g, FIRST_DLENGTH + 2, |f|, FIRST + 10, FIRST + EC_HEADERSIZE + |d.data|);
    SameSlice(f, g, FIRST, FIRST_DLENGTH, FIRST, FIRST_DLENGTH);
    SubSlice(f, FIRST, 8, 0, 6);
    SameData(d, true);
    assert g[FIRST..FIRST + 8] == g[FIRST..FIRST_DLENGTH] + g[FIRST_DLENGTH..FIRST_DLENGTH + 2];
    assert Header(d, true) == Header(d, d.more)[..6] + bits;
  }

  lemma {:induction false} HoldsElsewhere(f: Data, g: Data, pos: nat, ds: seq<Datagram>, from: nat)
    requires Holds(f, pos, ds) && Same(f, g, from, |f|) && from <= pos
    ensures Holds(g, pos, ds)
    decreases |ds|
  {
    hide Lies, Same;
    if ds != [] {
      LiesInside(f, pos, ds[0]);
      LiesElsewhere(f, g, pos, ds[0], from, |f|);
      HoldsElsewhere(f, g, pos + EC_HEADERSIZE + |ds[0].data|, ds[1..], from);
    }
  }

  lemma {:induction false} LiesInside(f: Data, pos: nat, d: Datagram)
    requires Lies(f, pos, d)
    ensures pos + EC_HEADERSIZE + |d.data| <= |f|
  {
  }

  lemma {:induction false} SetUpHolds(f: Data, d: Datagram)
    requires d.Valid() && FIRST + EC_HEADERSIZE + |d.data| <= |f| < 0x1000
    ensures Holds(SetUp(f, d), FIRST, [d.(more := false)])
    ensures Word(SetUp(f, d), ETH_HEADERSIZE) == EC_ECATTYPE + EC_HEADERSIZE + |d.data|
  {
    hide Le16, Word, Splice, Same, Place, Payload, Header;
    var length := EC_ECATTYPE + EC_HEADERSIZE + |d.data|;
    var e := Splice(f, ETH_HEADERSIZE, Le16(length));
    SpliceShows(f, ETH_HEADERSIZE, Le16(length));
    PlaceShows(e, FIRST, d, false);
    SameSlice(e, SetUp(f, d), 0, FIRST, ETH_HEADERSIZE, FIRST);
    Le16ReadsBack(length, SetUp(f, d), ETH_HEADERSIZE);
    SameData(d, false);
    assert [d.(more := false)][1..] == [];
  }

  lemma {:induction false} SameData(d: Datagram, more: bool)
    ensures Payload(d.(more := more)) == Payload(d) && Header(d.(more := more), more) == Header(d, more)
  {
  }

  lemma {:induction false} FlagsKeepExtent(ds: seq<Datagram>, more: bool)
    requires ds != []
    ensures Extent([ds[0].(more := more)] + ds[1..]) == Extent(ds)
  {
    assert ([ds[0].(more := more)] + ds[1..])[1..] == ds[1..];
  }

  lemma {:induction false} AddedHolds(b: Data, ds: seq<Datagram>, d: Datagram)
    requires ds != [] && Holds(b, FIRST, ds) && d.Valid()
    requires FIRST + Extent(ds) + EC_HEADERSIZE + |d.data| <= |b| < 0x1000
    requires Extent(ds) >= EC_HEADERSIZE && Word(b, ETH_HEADERSIZE) == EC_ECATTYPE + Extent(ds)
    ensures var g := Added(b, FIRST + Extent(ds), d);
            Holds(g, FIRST, [ds[0].(more := true)] + ds[1..] + [d]) &&
            Word(g, ETH_HEADERSIZE) == EC_ECATTYPE + Extent(ds) + EC_HEADERSIZE + |d.data|
  {
    hide Le16, Word, Splice, Same, Place, Payload, Header, Holds, Extent, Datagram.Valid;
    var len := FIRST + Extent(ds);
    var elength := Le16(Word(b, ETH_HEADERSIZE) + EC_HEADERSIZE + |d.data|);
    var dlength := Word(b, FIRST_DLENGTH);
    var flagged := Le16(if dlength < EC_DATAGRAMFOLLOWS then dlength + EC_DATAGRAMFOLLOWS else dlength);
    var e := Splice(b, ETH_HEADERSIZE, elength);
    var h := Splice(e, FIRST_DLENGTH, flagged);
    var g := Added(b, len, d);
    SpliceShows(b, ETH_HEADERSIZE, elength);
    SpliceKeeps(b, ETH_HEADERSIZE, elength, FIRST, |b|);
    HoldsElsewhere(b, e, FIRST, ds, FIRST);
    SameWord(b, e, FIRST, |b|, FIRST_DLENGTH);
    FlagFirst(e, ds);
    SpliceKeeps(e, FIRST_DLENGTH, flagged, 0, FIRST);
    SameSlice(e, h, 0, FIRST, ETH_HEADERSIZE, FIRST);
    PlaceShows(h, len, d, d.more);
    SameSlice(h, g, 0, len, ETH_HEADERSIZE, FIRST);
    Le16ReadsBack(Word(b, ETH_HEADERSIZE) + EC_HEADERSIZE + |d.data|, g, ETH_HEADERSIZE);
    FlagsKeepExtent(ds, true);
    SameNarrower(h, g, 0, len, FIRST);
    HoldsOneMore(h, g, FIRST, [ds[0].(more := true)] + ds[1..], d);
  }

  lemma {:induction false} SameWord(f: Data, g: Data, from: nat, until: nat, at: nat)
    requires Same(f, g, from, until) && from <= at && at + 2 <= until
    ensures Word(f, at) == Word(g, at)
  {
  }

  predicate AllValid(ds: seq<Datagram>) { forall i :: 0 <= i < |ds| ==> ds[i].Valid() }

  /** A setup and any number of adds: every datagram lies where it should, and the total length is right. */
  lemma {:induction false} BuiltHolds(f: Data, ds: seq<Datagram>)
    requires ds != [] && AllValid(ds) && FIRST + Extent(ds) <= |f| < 0x1000
    ensures Holds(Built(f, ds), FIRST, Flagged(ds))
    ensures Word(Built(f, ds), ETH_HEADERSIZE) == EC_ECATTYPE + Extent(ds)
    decreases |ds|
  {
    hide Holds, Word, Le16, Splice, Same, Datagram.Valid, SetUp, Added, Flagged, Extent;
    ExtentOfLast(ds);
    if |ds| == 1 {
      SetUpHolds(f, ds[0]);
      FlaggedOne(ds);
    } else {
      var n := |ds| - 1;
      BuiltHolds(f, ds[..n]);
      FlaggedMore(ds);
      AddedHolds(Built(f, ds[..n]), Flagged(ds[..n]), ds[n]);
    }
  }

  lemma {:induction false} FlaggedOne(ds: seq<Datagram>)
    requires |ds| == 1
    ensures Flagged(ds) == [ds[0].(more := false)] && Extent(ds) == EC_HEADERSIZE + |ds[0].data|
  {
    ExtentOfLast(ds);
    NothingToChain();
    assert ds[..0] == [];
  }

  lemma {:induction false} FlaggedMore(ds: seq<Datagram>)
    requires |ds| > 1
    ensures var n := |ds| - 1;
            var z := Flagged(ds[..n]);
            z != [] && Extent(z) == Extent(ds[..n]) && Flagged(ds) == [z[0].(more := true)] + z[1..] + [ds[n]]
  {
    hide Extent;
    var n := |ds| - 1;
    FlagsKeepExtent(ds[..n], n > 1);
    assert Flagged(ds) == [ds[0].(more := true)] + Flagged(ds[..n])[1..] + [ds[n]];
  }

  lemma {:induction false} FlagsAreNotSeen(ds: seq<Datagram>)
    requires ds != []
    ensures AllSeen(Flagged(ds)) == AllSeen(ds)
    ensures Chained(Flagged(ds)) <==> forall i :: 1 <= i < |ds| ==> (ds[i].more <==> i < |ds| - 1)
  {
    hide Payload;
    SameData(ds[0], |ds| > 1);
    var z := Flagged(ds);
    assert z[1..] == ds[1..];
    assert forall i :: 1 <= i < |ds| ==> z[i] == ds[i];
  }

  /**
   * One setup and any number of adds read back as the same commands, addresses, lengths and data (zeros for commands
   * that only read), with zero work counters and the right total length, exactly when `more` was given for every
   * added datagram but the last.
   */
  lemma {:induction false} FrameReadsBack(f: Data, ds: seq<Datagram>)
    requires ds != [] && AllValid(ds) && |f| == EC_BUFSIZE && FIRST + Extent(ds) <= EC_BUFSIZE
    ensures Parse(Built(f, ds)) == Some(AllSeen(ds)) <==> forall i :: 1 <= i < |ds| ==> (ds[i].more <==> i < |ds| - 1)
  {
    hide Holds, ParseFrom, AllSeen, Chained, Word, Built, Datagram.Valid;
    BuiltHolds(f, ds);
    FlagsKeepExtent(ds, |ds| > 1);
    FlagsAreNotSeen(ds);
    ParsingWhatIsHeld(Built(f, ds), FIRST, Flagged(ds), FIRST + Extent(ds));
  }

  /** Where the data of datagram `i` is in the received frame, which comes without the Ethernet header. */
  function DataOffset(ds: seq<Datagram>, i: nat): nat
    requires i < |ds|
  {
    FIRST + Extent(ds[..i]) + 10 - ETH_HEADERSIZE
  }

  lemma {:induction false} ExtentOfPrefix(ds: seq<Datagram>, i: nat)
    requires i < |ds|
    ensures Extent(ds[..i]) + EC_HEADERSIZE + |ds[i].data| <= Extent(ds)
    decreases |ds|
  {
    if i > 0 {
      ExtentOfPrefix(ds[1..], i - 1);
      assert ds[..i][1..] == ds[1..][..i - 1];
    }
  }

  /** Where the data of each datagram lies in the transmitted frame. */
  lemma {:induction false} DataIsAt(f: Data, pos: nat, ds: seq<Datagram>, i: nat)
    requires Holds(f, pos, ds) && i < |ds|
    ensures var at := pos + Extent(ds[..i]) + 10;
            at + |ds[i].data| + 2 <= |f| && f[at..at + |ds[i].data|] == Payload(ds[i])
    decreases |ds|
  {
    hide Header, Payload, Datagram.Valid;
    if i == 0 {
      NothingToChain();
      assert ds[..0] == [];
      BodyReads(f, pos + 10, Payload(ds[0]));
    } else {
      DataIsAt(f, pos + EC_HEADERSIZE + |ds[0].data|, ds[1..], i - 1);
      assert ds[..i][0] == ds[0] && ds[..i][1..] == ds[1..][..i - 1];
    }
  }

  /** The offsets that the calls return point at the data of their datagrams in the frame without its Ethernet header. */
  lemma {:induction false} OffsetsPointAtData(f: Data, ds: seq<Datagram>, i: nat)
    requires ds != [] && AllValid(ds) && FIRST + Extent(ds) <= |f| < 0x1000 && i < |ds|
    ensures var rx := Built(f, ds)[ETH_HEADERSIZE..];
            var at := DataOffset(ds, i);
            at + |ds[i].data| <= |rx| && rx[at..at + |ds[i].data|] == Payload(ds[i])
  {
    hide Built, Holds, Datagram.Valid, Payload, Extent;
    BuiltHolds(f, ds);
    DataIsAt(Built(f, ds), FIRST, Flagged(ds), i);
    ExtentOfPrefix(ds, i);
    FlagsKeepPrefix(ds, i);
    var n := |ds[i].data|;
    var at := DataOffset(ds, i);
    SubSlice(Built(f, ds), ETH_HEADERSIZE, |f| - ETH_HEADERSIZE, at, at + n);
    assert Built(f, ds)[ETH_HEADERSIZE..] == Built(f, ds)[ETH_HEADERSIZE..|f|];
  }

  lemma {:induction false} FlagsKeepPrefix(ds: seq<Datagram>, i: nat)
    requires i < |ds|
    ensures Extent(Flagged(ds)[..i]) == Extent(ds[..i]) && Payload(Flagged(ds)[i]) == Payload(ds[i])
    ensures |Flagged(ds)[i].data| == |ds[i].data|
  {
    if i > 0 {
      FlagsKeepExtent(ds[..i], |ds| > 1);
      assert Flagged(ds)[..i] == [ds[..i][0].(more := |ds| > 1)] + ds[..i][1..];
    } else {
      assert Flagged(ds)[..0] == ds[..0];
    }
  }
}
