// Reading the states of all slaves (ecx_readstate): one broadcast when it tells enough, else one
// datagram per slave in batches.
module ReadState {
  import opened Bytes
  import opened Frame
  import opened Polling

  /** AL status register and AL status code of a slave. */
  datatype Status = Status(alstatus: bv16, alstatuscode: bv16)

  /** What a slave reports, as the six bytes of its registers. */
  function Registers(s: Status): (r: Data)
    ensures |r| == SIZE
  {
    Le16(s.alstatus as int) + [0, 0] + Le16(s.alstatuscode as int)
  }

  lemma {:induction false} RegistersReadBack(s: Status)
    ensures Word(Registers(s), 0) as bv16 == s.alstatus && Word(Registers(s), 4) as bv16 == s.alstatuscode
  {
    hide Word, Le16;
    var r := Registers(s);
    assert r[0..2] == Le16(s.alstatus as int) && r[4..6] == Le16(s.alstatuscode as int);
    Le16ReadsBack(s.alstatus as int, r, 0);
    Le16ReadsBack(s.alstatuscode as int, r, 4);
  }

  /** What polling finds for each slave: its registers, or zeros where nobody answers under its address or the frame of
      its batch does not come back. */
  ghost predicate Network(net: map<nat, Data>, returned: nat -> bool, configadr: seq<nat>, slaves: seq<Status>) {
    && |configadr| == |slaves| && IsNet(net) && (forall i :: 0 <= i < |configadr| ==> configadr[i] < 0x1_0000)
    && forall i :: 0 <= i < |slaves| ==>
         Registers(slaves[i]) == if returned(i / MAX_FPRD_MULTI) then Reply(net, configadr[i]) else Zeros(SIZE)
  }

  lemma {:induction false} SilenceReadsAsZero(s: Status)
    ensures Registers(s) == Zeros(SIZE) <==> s == Status(0, 0)
  {
    hide Word, Registers, Zeros;
    RegistersReadBack(s);
    ZeroRegisters();
  }

  lemma {:induction false} ZeroRegisters()
    ensures Word(Zeros(SIZE), 0) == 0 && Word(Zeros(SIZE), 4) == 0 && Registers(Status(0, 0)) == Zeros(SIZE)
  {
  }

  // Bits.

  const NIBBLE: bv16 := 0x000f
  const EC_STATE_ERROR: bv16 := 0x0010

  /** The wire-or of all status registers, which a broadcast read returns. */
  function Ors(slaves: seq<Status>): bv16 {
    if slaves == [] then 0 else Or(slaves[0].alstatus, Ors(slaves[1..]))
  }

  predicate SingleState(b: bv16) { b == 1 || b == 2 || b == 4 || b == 8 }

  /** The short branch: no error flag, one state bit, every slave counted. */
  predicate Short(rval: bv16, wkc: int, count: nat) {
    rval & EC_STATE_ERROR == 0 && SingleState(StateOf(rval)) && wkc >= count
  }

  function Lower(a: bv16, b: bv16): bv16 { if (b as int) < a as int then b else a }

  function Or(a: bv16, b: bv16): bv16 { a | b }

  /** The state without error flag and reserved bits. */
  function StateOf(x: bv16): bv16 { x & NIBBLE }

  /** The lowest state nibble, starting from `lowest`. */
  function Lowest(slaves: seq<Status>, lowest: bv16): bv16 {
    if slaves == [] then lowest
    else Lower(Lowest(slaves[..|slaves| - 1], lowest), StateOf(slaves[|slaves| - 1].alstatus))
  }

  function CodeOr(slaves: seq<Status>): bv16 {
    if slaves == [] then 0 else Or(CodeOr(slaves[..|slaves| - 1]), slaves[|slaves| - 1].alstatuscode)
  }

  /** The first `k` slaves have been stored. */
  predicate Stored(state: seq<bv16>, code: seq<bv16>, slaves: seq<Status>, k: nat, lowest: bv16) {
    && k <= |slaves| && |state| == |code| == |slaves| + 1
    && (forall s :: 1 <= s <= k ==> state[s] == slaves[s - 1].alstatus && code[s] == slaves[s - 1].alstatuscode)
    && code[0] == CodeOr(slaves[..k]) && lowest == Lowest(slaves[..k], 0xff)
  }

  lemma {:induction false} StoredOneMore(state: seq<bv16>, code: seq<bv16>, slaves: seq<Status>, k: nat, lowest: bv16,
                                         state': seq<bv16>, code': seq<bv16>, lowest': bv16)
    requires Stored(state, code, slaves, k, lowest) && k < |slaves|
    requires state' == state[k + 1 := slaves[k].alstatus]
    requires code' == code[k + 1 := slaves[k].alstatuscode][0 := Or(code[0], slaves[k].alstatuscode)]
    requires lowest' == Lower(lowest, StateOf(slaves[k].alstatus))
    ensures Stored(state', code', slaves, k + 1, lowest')
  {
    hide Lower, Or, StateOf;
    var z := slaves[..k + 1];
    assert z[..k] == slaves[..k] && z[k] == slaves[k];
  }

  class Master {
    const slavecount: nat
    const configadr: seq<nat>
    const state: array<bv16>
    const alstatuscode: array<bv16>
    const tx: TxFrame

    ghost predicate Valid() {
      && slavecount == |configadr| && state.Length == alstatuscode.Length == slavecount + 1
      && tx.frame.Length == EC_BUFSIZE && state != alstatuscode
      && (state as object) != tx.frame && (alstatuscode as object) != tx.frame
    }

    constructor (configadr: seq<nat>)
      ensures Valid() && this.configadr == configadr
    {
      this.configadr, slavecount := configadr, |configadr|;
      state := new bv16[|configadr| + 1];
      alstatuscode := new bv16[|configadr| + 1];
      tx := new TxFrame();
    }
  
    /** One batch, slaves `fslave` to `lslave`. */
    method StoreBatch(fslave: nat, lslave: nat, sl: seq<Data>, lowest: bv16, ghost slaves: seq<Status>) returns (low: bv16)
      requires Valid() && |slaves| == slavecount && 1 <= fslave <= lslave + 1 <= slavecount + 1 &&
               |sl| == lslave - fslave + 1
      requires forall i :: 0 <= i < |sl| ==> sl[i] == Registers(slaves[fslave - 1 + i])
      requires Stored(state[..], alstatuscode[..], slaves, fslave - 1, lowest)
      modifies state, alstatuscode
      ensures Stored(state[..], alstatuscode[..], slaves, lslave, low)
    {
      hide Stored, Registers, Word, Lower, Or, StateOf;
      low := lowest;
      var slave := fslave;
      while slave <= lslave
        invariant fslave <= slave <= lslave + 1
        invariant Stored(state[..], alstatuscode[..], slaves, slave - 1, low)
      {
        ghost var st, co, lo := state[..], alstatuscode[..], low;
        RegistersReadBack(slaves[slave - 1]);
        assert sl[slave - fslave] == Registers(slaves[slave - 1]);
        var rval := Word(sl[slave - fslave], 0) as bv16;
        alstatuscode[slave] := Word(sl[slave - fslave], 4) as bv16;
        low := Lower(low, StateOf(rval));
        state[slave] := rval;
        alstatuscode[0] := Or(alstatuscode[0], alstatuscode[slave]);
        StoredOneMore(st, co, slaves, slave - 1, lo, state[..], alstatuscode[..], low);
        slave := slave + 1;
      }
    }

    /** The registers of slaves `fslave` to `lslave`. (Without any slave the source asks an address from an unset list
        entry and copies nothing from the answer; the model sends nothing.) */
    method PollBatch(idx: Byte, fslave: nat, lslave: nat, batch: nat, net: map<nat, Data>, returned: nat -> bool,
                     ghost slaves: seq<Status>)
      returns (sl: seq<Data>)
      requires Valid() && Network(net, returned, configadr, slaves)
      requires fslave == MAX_FPRD_MULTI * batch + 1 <= lslave + 1 <= fslave + MAX_FPRD_MULTI && lslave <= slavecount
      modifies tx, tx.frame
      ensures |sl| == lslave - fslave + 1
      ensures forall i :: 0 <= i < |sl| ==> sl[i] == Registers(slaves[fslave - 1 + i])
    {
      hide Registers, Reply, Zeros;
      var slca := configadr[fslave - 1..lslave];
      sl := seq(|slca|, _ => Zeros(SIZE));
      if slca != [] {
        sl := FprdMulti(tx, idx, slca, sl, net, returned(batch));
      }
      forall i | 0 <= i < |sl| ensures sl[i] == Registers(slaves[fslave - 1 + i]) {
        assert slca[i] == configadr[fslave - 1 + i];
        assert (fslave - 1 + i) / MAX_FPRD_MULTI == batch;
      }
    }

    /** The slow branch; `polled` lists the addresses asked, in order. */
    method PollAll(idx: Byte, net: map<nat, Data>, returned: nat -> bool, ghost slaves: seq<Status>)
        returns (lowest: bv16, polled: seq<nat>)
      requires Valid() && Network(net, returned, configadr, slaves)
      modifies state, alstatuscode, tx, tx.frame
      ensures Stored(state[..], alstatuscode[..], slaves, slavecount, lowest)
      ensures polled == configadr && state[0] == lowest
    {
      hide Stored, Registers;
      alstatuscode[0] := 0;
      lowest, polled := 0xff, [];
      var fslave, lslave, batch: nat := 1, 0, 0;
      var more := true;
      StoredNone(state[..], alstatuscode[..], slaves);
      while more
        invariant 1 <= fslave == lslave + 1 && lslave <= slavecount
        invariant if more then lslave == MAX_FPRD_MULTI * batch else lslave == slavecount
        invariant polled == configadr[..lslave]
        invariant Stored(state[..], alstatuscode[..], slaves, lslave, lowest)
        decreases slavecount - lslave, more
      {
        lslave := slavecount;
        if lslave - fslave >= MAX_FPRD_MULTI {
          lslave := fslave + MAX_FPRD_MULTI - 1;
        }
        var sl := PollBatch(idx, fslave, lslave, batch, net, returned, slaves);
        polled := polled + configadr[fslave - 1..lslave];
        lowest := StoreBatch(fslave, lslave, sl, lowest, slaves);
        fslave := lslave + 1;
        batch := batch + 1;
        more := lslave < slavecount;
      }
      ghost var before := state[..];
      state[0] := lowest;
      StoredElsewhere(before, state[..], alstatuscode[..], slaves, slavecount, lowest);
    }

    /** ecx_readstate; `rval` and `wkc` are the answer to the broadcast read. */
    method ReadState(rval: bv16, wkc: int, idx: Byte, net: map<nat, Data>, returned: nat -> bool, ghost slaves: seq<Status>)
        returns (lowest: bv16, polled: seq<nat>)
      requires Valid() && Network(net, returned, configadr, slaves)
      modifies state, alstatuscode, tx, tx.frame
      ensures state[0] == lowest
      ensures Short(rval, wkc, slavecount) ==> polled == [] && lowest == StateOf(rval)
      ensures Short(rval, wkc, slavecount) ==>
                forall s :: 0 <= s <= slavecount ==> state[s] == StateOf(rval) && alstatuscode[s] == 0
      ensures !Short(rval, wkc, slavecount) ==> polled == configadr
      ensures !Short(rval, wkc, slavecount) ==> Stored(state[..], alstatuscode[..], slaves, slavecount, lowest)
    {
      hide Stored, Registers, Network;
      var allslavespresent := wkc >= slavecount;
      var bitwisestate := StateOf(rval);
      var noerrorflag := rval & EC_STATE_ERROR == 0;
      if noerrorflag {
        alstatuscode[0] := 0;
      }
      var allslavessamestate := SingleState(bitwisestate);
      if allslavessamestate {
        state[0] := bitwisestate;
      }
      if noerrorflag && allslavessamestate && allslavespresent {
        var slave := 1;
        while slave <= slavecount
          invariant 1 <= slave <= slavecount + 1
          invariant forall s :: 0 <= s < slave ==> state[s] == bitwisestate && alstatuscode[s] == 0
        {
          alstatuscode[slave] := 0;
          state[slave] := bitwisestate;
          slave := slave + 1;
        }
        lowest, polled := bitwisestate, [];
      } else {
        lowest, polled := PollAll(idx, net, returned, slaves);
      }
    }
  }

  lemma {:induction false} StoredNone(state: seq<bv16>, code: seq<bv16>, slaves: seq<Status>)
    requires |state| == |code| == |slaves| + 1 && code[0] == 0
    ensures Stored(state, code, slaves, 0, 0xff)
  {
  }

  lemma {:induction false} StoredElsewhere(before: seq<bv16>, after: seq<bv16>, code: seq<bv16>, slaves: seq<Status>,
                                           k: nat, lowest: bv16)
    requires Stored(before, code, slaves, k, lowest) && |after| == |before| && after[1..] == before[1..]
    ensures Stored(after, code, slaves, k, lowest)
  {
    forall s | 1 <= s <= k ensures after[s] == before[s] {
      assert after[s] == after[1..][s - 1] && before[s] == before[1..][s - 1];
    }
  }

  // The short branch against the long one.

  /** All bits of `x` are in `y`. */
  predicate Within(x: bv16, y: bv16) { x & y == x }

  lemma {:induction false} OrKeepsBits(a: bv16, b: bv16, x: bv16)
    ensures Within(a, Or(a, b)) && (Within(x, b) ==> Within(x, Or(a, b)))
  {
  }

  /** Every bit of every slave shows in the broadcast answer. */
  lemma {:induction false} BroadcastShowsAll(slaves: seq<Status>, i: nat)
    requires i < |slaves|
    ensures Within(slaves[i].alstatus, Ors(slaves))
    decreases |slaves|
  {
    hide Or, Within;
    OrKeepsBits(slaves[0].alstatus, Ors(slaves[1..]), slaves[i].alstatus);
    if i > 0 {
      BroadcastShowsAll(slaves[1..], i - 1);
    }
  }

  /** A state without error flag, reserved or unknown bits. */
  predicate Plain(x: bv16) { StateOf(x) != 0 && x & 0xfff0 == 0 }

  lemma {:induction false} OnlyState(x: bv16, rval: bv16)
    requires Within(x, rval) && SingleState(StateOf(rval))
    ensures StateOf(x) != 0 ==> StateOf(x) == StateOf(rval)
    ensures x == StateOf(rval) <==> Plain(x)
    ensures x == StateOf(rval) ==> StateOf(x) == StateOf(rval)
  {
  }

  lemma {:induction false} LowestOfEqual(slaves: seq<Status>, b: bv16)
    requires SingleState(b) && forall i :: 0 <= i < |slaves| ==> StateOf(slaves[i].alstatus) == b
    ensures Lowest(slaves, 0xff) == if slaves == [] then 0xff else b
    decreases |slaves|
  {
    hide StateOf;
    if slaves != [] {
      var z := slaves[..|slaves| - 1];
      assert forall i :: 0 <= i < |z| ==> z[i] == slaves[i];
      LowestOfEqual(z, b);
    }
  }

  /** What polling stores and returns is `b` for every slave. */
  predicate AllIn(slaves: seq<Status>, b: bv16) {
    Lowest(slaves, 0xff) == b && forall i :: 0 <= i < |slaves| ==> slaves[i].alstatus == b
  }

  /**
   * When the broadcast takes the short branch, what it stores for each slave and returns as the lowest state is what
   * polling would give, exactly when every slave is in a state other than zero and shows no bit above the state.
   */
  lemma {:induction false} ShortBranchAgrees(slaves: seq<Status>, wkc: int)
    requires slaves != [] && Short(Ors(slaves), wkc, |slaves|)
    ensures AllIn(slaves, StateOf(Ors(slaves))) <==> forall i :: 0 <= i < |slaves| ==> Plain(slaves[i].alstatus)
  {
    hide Ors, Lowest, StateOf, Plain, Within, SingleState;
    var b := StateOf(Ors(slaves));
    forall i | 0 <= i < |slaves|
      ensures slaves[i].alstatus == b <==> Plain(slaves[i].alstatus)
      ensures slaves[i].alstatus == b ==> StateOf(slaves[i].alstatus) == b
    {
      BroadcastShowsAll(slaves, i);
      OnlyState(slaves[i].alstatus, Ors(slaves));
    }
    if forall i :: 0 <= i < |slaves| ==> Plain(slaves[i].alstatus) {
      LowestOfEqual(slaves, b);
    }
  }

  // What takes the short branch.

  /** The answer to the broadcast: the wire-or of the status registers of the slaves that answer, and how many they are. */
  function Broadcast(slaves: seq<Status>, answered: seq<bool>): (r: (bv16, nat))
    requires |answered| == |slaves|
    ensures r.1 <= |slaves|
  {
    if slaves == [] then (0, 0)
    else
      var (rval, wkc) := Broadcast(slaves[1..], answered[1..]);
      if answered[0] then (Or(slaves[0].alstatus, rval), wkc + 1) else (rval, wkc)
  }

  lemma {:induction false} EverybodyAnswers(slaves: seq<Status>, answered: seq<bool>)
    requires |answered| == |slaves|
    ensures Broadcast(slaves, answered).1 >= |slaves| <==> forall i :: 0 <= i < |slaves| ==> answered[i]
    ensures (forall i :: 0 <= i < |slaves| ==> answered[i]) ==> Broadcast(slaves, answered).0 == Ors(slaves)
    decreases |slaves|
  {
    hide Or;
    if slaves != [] {
      EverybodyAnswers(slaves[1..], answered[1..]);
      if answered[0] && forall i :: 0 <= i < |slaves[1..]| ==> answered[1..][i] {
        forall i | 0 <= i < |slaves| ensures answered[i] {
          assert i > 0 ==> answered[i] == answered[1..][i - 1];
        }
      }
    }
  }

  predicate ErrorFlag(x: bv16) { x & EC_STATE_ERROR != 0 }

  lemma {:induction false} OrJoins(a: bv16, b: bv16)
    ensures ErrorFlag(Or(a, b)) <==> ErrorFlag(a) || ErrorFlag(b)
    ensures StateOf(Or(a, b)) == Or(StateOf(a), StateOf(b))
    ensures !ErrorFlag(0) && StateOf(0) == 0
  {
  }

  lemma {:induction false} ErrorShows(slaves: seq<Status>)
    ensures ErrorFlag(Ors(slaves)) <==> exists i :: 0 <= i < |slaves| && ErrorFlag(slaves[i].alstatus)
    decreases |slaves|
  {
    hide Or, ErrorFlag, StateOf;
    OrJoins(0, 0);
    if slaves != [] {
      ErrorShows(slaves[1..]);
      OrJoins(slaves[0].alstatus, Ors(slaves[1..]));
      if i :| 0 <= i < |slaves| && ErrorFlag(slaves[i].alstatus) {
        assert i > 0 ==> slaves[i] == slaves[1..][i - 1];
      }
    }
  }

  /** All slaves are in state `b`, apart from some that show none. */
  ghost predicate InState(slaves: seq<Status>, b: bv16) {
    forall i :: 0 <= i < |slaves| ==> StateOf(slaves[i].alstatus) == b || StateOf(slaves[i].alstatus) == 0
  }

  lemma {:induction false} OrOfSingle(a: bv16, c: bv16, b: bv16)
    requires SingleState(b)
    ensures (a == b || a == 0) && (c == b || c == 0) ==> Or(a, c) == (if a == b || c == b then b else 0)
    ensures Or(a, c) == b ==> (a == b || a == 0) && (c == b || c == 0) && (a == b || c == b)
    ensures Or(a, c) == 0 <==> a == 0 && c == 0
  {
  }

  lemma {:induction false} StatesShow(slaves: seq<Status>, b: bv16)
    requires SingleState(b)
    ensures StateOf(Ors(slaves)) == b <==>
            InState(slaves, b) && exists i :: 0 <= i < |slaves| && StateOf(slaves[i].alstatus) == b
    ensures StateOf(Ors(slaves)) == 0 <==> forall i :: 0 <= i < |slaves| ==> StateOf(slaves[i].alstatus) == 0
    decreases |slaves|
  {
    hide Or, ErrorFlag, StateOf;
    OrJoins(0, 0);
    if slaves != [] {
      var rest := slaves[1..];
      StatesShow(rest, b);
      OrJoins(slaves[0].alstatus, Ors(rest));
      OrOfSingle(StateOf(slaves[0].alstatus), StateOf(Ors(rest)), b);
      assert forall i :: 0 < i < |slaves| ==> slaves[i] == rest[i - 1];
      assert forall i :: 0 <= i < |rest| ==> rest[i] == slaves[i + 1];
    }
  }

  /**
   * The broadcast takes the short branch if and only if every slave answers, none shows the error flag, and all that show a
   * state show the same single one.
   */
  lemma {:induction false} ShortIff(slaves: seq<Status>, answered: seq<bool>)
    requires |answered| == |slaves|
    ensures var (rval, wkc) := Broadcast(slaves, answered);
            Short(rval, wkc, |slaves|) <==>
            && (forall i :: 0 <= i < |slaves| ==> answered[i] && !ErrorFlag(slaves[i].alstatus))
            && exists b :: SingleState(b) && InState(slaves, b) && exists i :: 0 <= i < |slaves| && StateOf(slaves[i].alstatus) == b
  {
    hide Or, StateOf, SingleState, Broadcast, InState, Ors;
    EverybodyAnswers(slaves, answered);
    ErrorShows(slaves);
    forall b | SingleState(b)
      ensures StateOf(Ors(slaves)) == b <==>
              InState(slaves, b) && exists i :: 0 <= i < |slaves| && StateOf(slaves[i].alstatus) == b
    {
      StatesShow(slaves, b);
    }
  }

  // What polling makes of the registers.

  /** The lowest state is the state of some slave and of none is a lower one. */
  lemma {:induction false} LowestIsLowest(slaves: seq<Status>)
    requires slaves != []
    ensures forall i :: 0 <= i < |slaves| ==> Lowest(slaves, 0xff) as int <= StateOf(slaves[i].alstatus) as int
    ensures exists i :: 0 <= i < |slaves| && StateOf(slaves[i].alstatus) == Lowest(slaves, 0xff)
    decreases |slaves|
  {
    hide StateOf, Lower;
    var z, last := slaves[..|slaves| - 1], |slaves| - 1;
    var low := Lowest(slaves, 0xff);
    StateIsSmall(slaves[last].alstatus);
    if z == [] {
      assert low == StateOf(slaves[0].alstatus);
    } else {
      LowestIsLowest(z);
      LowerIs(Lowest(z, 0xff), StateOf(slaves[last].alstatus));
      forall i | 0 <= i < |slaves| ensures low as int <= StateOf(slaves[i].alstatus) as int {
        if i < last {
          assert slaves[i] == z[i];
        }
      }
      var i :| 0 <= i < |z| && StateOf(z[i].alstatus) == Lowest(z, 0xff);
      assert slaves[i] == z[i];
      assert StateOf(slaves[if low == Lowest(z, 0xff) then i else last].alstatus) == low;
    }
  }

  lemma {:induction false} LowerIs(a: bv16, b: bv16)
    ensures Lower(a, b) as int <= a as int && Lower(a, b) as int <= b as int && (Lower(a, b) == a || Lower(a, b) == b)
  {
  }

  lemma {:induction false} StateIsSmall(x: bv16)
    ensures Lower(0xff, StateOf(x)) == StateOf(x)
  {
  }

  /** Entry 0 of the status codes has the bits of all of them and no others. */
  lemma {:induction false} CodesAreJoined(slaves: seq<Status>, x: bv16)
    ensures Within(CodeOr(slaves), x) <==> forall i :: 0 <= i < |slaves| ==> Within(slaves[i].alstatuscode, x)
    decreases |slaves|
  {
    hide Or, Within;
    WithinOr(0, 0, x);
    if slaves != [] {
      var z, last := slaves[..|slaves| - 1], |slaves| - 1;
      CodesAreJoined(z, x);
      WithinOr(CodeOr(z), slaves[last].alstatuscode, x);
      assert forall i :: 0 <= i < last ==> slaves[i] == z[i];
    }
  }

  lemma {:induction false} WithinOr(a: bv16, b: bv16, x: bv16)
    ensures Within(Or(a, b), x) <==> Within(a, x) && Within(b, x)
    ensures Within(0, x)
  {
    hide Within, Or;
    NothingWithin(x);
    if Within(Or(a, b), x) {
      PartWithin(a, b, x);
      PartWithin(b, a, x);
      OrCommutes(a, b);
    } else if Within(a, x) && Within(b, x) {
      BothWithin(a, b, x);
    }
  }

  lemma {:induction false} NothingWithin(x: bv16)
    ensures Within(0, x)
  {
  }

  lemma {:induction false} OrCommutes(a: bv16, b: bv16)
    ensures Or(a, b) == Or(b, a)
  {
  }

  lemma {:induction false} PartWithin(a: bv16, b: bv16, x: bv16)
    ensures Within(Or(a, b), x) ==> Within(a, x)
  {
  }

  lemma {:induction false} BothWithin(a: bv16, b: bv16, x: bv16)
    requires Within(a, x) && Within(b, x)
    ensures Within(Or(a, b), x)
  {
  }
}
