/** Fragmentation of easy-setup messages over BLE (iot_easysetup_ble_msg.c): the send loop, the
    receiver's state machine, and what one does to the other. Messages of a single chunk. */
module BleMsg {
  import opened Bytes
  import Arithmetic

  const SETUPCOMPLETE_RESPONSE: int := 12  // IOT_EASYSETUP_BLE_STEP_SETUPCOMPLETE_RESPONSE

  /** struct transfor_data; the 24-bit field is the message size in the first fragment and the
      offset in the others. */
  datatype Fragment = Fragment(opCode: byte, cmdNum: byte, transactionId: byte, sizeOrOffset: seq<byte>,
                               continued: byte, segment: seq<byte>)

  predicate ValidFragment(f: Fragment) {
    |f.sizeOrOffset| == 3 && |f.segment| < 0x1_0000
  }

  function Le24(n: nat): (s: seq<byte>)
    requires n < 0x100_0000
    ensures |s| == 3
  {
    [n % 256, n / 256 % 256, n / 65536]
  }

  function FromLe24(s: seq<byte>): (n: nat)
    requires |s| == 3
    ensures n < 0x100_0000
  {
    s[0] as int + s[1] as int * 256 + s[2] as int * 65536
  }

  lemma Le24RoundTrip(n: nat)
    requires n < 0x100_0000
    ensures FromLe24(Le24(n)) == n
  {
    assert n / 256 == n / 65536 * 256 + n / 256 % 256;
  }

  // ----- the wire: a packed little-endian structure -----

  function ToWire(f: Fragment): (s: seq<byte>)
    requires ValidFragment(f)
    ensures |s| == 9 + |f.segment|
  {
    [f.opCode, f.cmdNum, f.transactionId] + f.sizeOrOffset
    + [f.continued, |f.segment| % 256, |f.segment| / 256] + f.segment
  }

  /** A received packet carries at least its header and the segment it announces. */
  predicate WellFramed(s: seq<byte>) {
    |s| >= 9 && 9 + s[7] as int + s[8] as int * 256 <= |s|
  }

  function FromWire(s: seq<byte>): (f: Fragment)
    requires WellFramed(s)
    ensures ValidFragment(f)
  {
    Fragment(s[0], s[1], s[2], s[3..6], s[6], s[9..9 + s[7] as int + s[8] as int * 256])
  }

  lemma WireRoundTrip(f: Fragment)
    requires ValidFragment(f)
    ensures WellFramed(ToWire(f)) && FromWire(ToWire(f)) == f
  {
    var s := ToWire(f);
    assert s[7] as int + s[8] as int * 256 == |f.segment|;
    assert s[3..6] == f.sizeOrOffset && s[9..] == f.segment;
  }

  // ----- the receiver as a step function -----

  datatype Phase = Idle | Assembling | Disassembling

  /** The fields of msg_state that outlive a call, with the message being assembled. */
  datatype State = State(phase: Phase, opCode: byte, cmdNum: byte, transactionId: byte, data: seq<byte>)

  datatype Message = Message(cmdNum: byte, bytes: seq<byte>)

  datatype Outcome = Outcome(state: State, accepted: bool, dispatched: seq<Message>, ret: bool)

  /** _es_msg_state_reset. The command number and the transaction id stay. */
  function Reset(s: State): State {
    s.(phase := Idle, opCode := 0, data := [])
  }

  /** What malloc finds in memory, byte by byte. */
  type Memory = nat -> byte

  /** A message buffer before anything is written to it. */
  function Fresh(mem: Memory, n: nat): (r: seq<byte>)
    ensures |r| == n && forall i :: 0 <= i < n ==> r[i] == mem(i)
  {
    seq(n, i requires 0 <= i => mem(i))
  }

  /** memcpy into the message buffer; C leaves the effect undefined when it does not fit. */
  function Copied(data: seq<byte>, offset: nat, segment: seq<byte>): (r: seq<byte>)
    ensures |r| == |data|
  {
    if offset + |segment| <= |data| then Patch(data, offset, segment) else data
  }

  /** An idle receiver takes a first fragment with a fresh transaction id. */
  predicate Takes(s: State, f: Fragment) {
    f.opCode == 0 && (s.transactionId == 0 || f.transactionId > s.transactionId)
  }

  /** The segment stays inside the message buffer. */
  predicate Fits(s: State, f: Fragment)
    requires ValidFragment(f)
  {
    var n := FromLe24(f.sizeOrOffset);
    && (s.phase == Assembling ==> n + |f.segment| <= |s.data|)
    && (s.phase == Idle ==> |f.segment| <= n)
  }

  /** A first fragment taken announces no further chunk. */
  predicate SingleChunk(s: State, f: Fragment) {
    s.phase == Idle && Takes(s, f) ==> f.continued == 0
  }

  /** es_msg_assemble, for messages of one chunk; mem is what a new message buffer contains. */
  function Step(mtu: nat, mem: Memory, s: State, f: Fragment): Outcome
    requires ValidFragment(f)
  {
    var n := FromLe24(f.sizeOrOffset);
    match s.phase
    case Assembling =>
      if f.opCode as int == s.opCode + 1 && f.cmdNum == s.cmdNum && f.transactionId == s.transactionId then
        var t := s.(opCode := f.opCode, data := Copied(s.data, n, f.segment));
        if n + |f.segment| >= |s.data| then Outcome(Reset(t), false, [Message(t.cmdNum, t.data)], true)
        else Outcome(t, false, [], true)
      else Outcome(Reset(s), false, [], true)
    case Disassembling => Outcome(Reset(s), false, [], true)
    case Idle =>
      if !Takes(s, f) then Outcome(Reset(s), false, [], false)
      else
        var duplicated := s.cmdNum != 0 && s.cmdNum == f.cmdNum;
        var t := State(Assembling, f.opCode, f.cmdNum, f.transactionId, Copied(Fresh(mem, n), 0, f.segment));
        if n <= mtu && n == |f.segment| then
          Outcome(Reset(t), true, if duplicated then [] else [Message(t.cmdNum, t.data)], true)
        else Outcome(t, true, [], true)
  }

  /** Fragments fed one after the other. */
  function Run(mtu: nat, mem: Memory, s: State, fs: seq<Fragment>): (r: (State, seq<Message>))
    requires forall f :: f in fs ==> ValidFragment(f)
    decreases |fs|
  {
    if |fs| == 0 then (s, [])
    else
      var o := Step(mtu, mem, s, fs[0]);
      var (t, ms) := Run(mtu, mem, o.state, fs[1..]);
      (t, o.dispatched + ms)
  }

  // ----- the sender -----

  /** The fragment sent when sent bytes are out and the 8-bit op code stands at op. */
  function FragmentAt(buf: seq<byte>, mtu: nat, cmd: byte, tid: byte, sent: nat, op: byte): (f: Fragment)
    requires 0 < mtu < 0x1_0000 && sent < |buf| < 0x100_0000
    ensures ValidFragment(f)
  {
    var n := if sent + mtu <= |buf| then mtu else |buf| - sent;
    Fragment(op, cmd, tid, Le24(if op == 0 then |buf| else sent),
             if op == 0 then 0 else (|buf| / mtu - op as int) % 256,
             buf[sent..sent + n])
  }

  function FragmentsFrom(buf: seq<byte>, mtu: nat, cmd: byte, tid: byte, sent: nat, op: byte): (fs: seq<Fragment>)
    requires 0 < mtu < 0x1_0000 && sent <= |buf| < 0x100_0000
    ensures forall f :: f in fs ==> ValidFragment(f)
    ensures sent < |buf| ==> |fs| > 0
    decreases |buf| - sent
  {
    if sent == |buf| then []
    else
      var f := FragmentAt(buf, mtu, cmd, tid, sent, op);
      [f] + FragmentsFrom(buf, mtu, cmd, tid, sent + |f.segment|, (op + 1) % 256)
  }

  function Fragments(buf: seq<byte>, mtu: nat, cmd: byte, tid: byte): (fs: seq<Fragment>)
    requires 0 < mtu < 0x1_0000 && |buf| < 0x100_0000
    ensures forall f :: f in fs ==> ValidFragment(f)
    ensures |buf| > 0 ==> |fs| > 0
  {
    FragmentsFrom(buf, mtu, cmd, tid, 0, 0)
  }

  lemma OneThenRest(buf: seq<byte>, mtu: nat, cmd: byte, tid: byte, sent: nat, op: byte)
    requires 0 < mtu < 0x1_0000 && sent < |buf| < 0x100_0000
    ensures var f := FragmentAt(buf, mtu, cmd, tid, sent, op);
            && |f.segment| == Min(mtu, |buf| - sent)
            && FragmentsFrom(buf, mtu, cmd, tid, sent, op)
               == [f] + FragmentsFrom(buf, mtu, cmd, tid, sent + |f.segment|, (op + 1) % 256)
  {
  }

  lemma NoneLeft(buf: seq<byte>, mtu: nat, cmd: byte, tid: byte, op: byte)
    requires 0 < mtu < 0x1_0000 && |buf| < 0x100_0000
    ensures FragmentsFrom(buf, mtu, cmd, tid, |buf|, op) == []
  {
  }

  // ----- reassembly -----

  /** What a receiver assembles that takes the fragment at base for the first one: that fragment at
      the front, then what the memory held, then the message from the next fragment on. With
      base 0 it is the message. */
  function Image(mem: Memory, buf: seq<byte>, mtu: nat, base: nat): (r: seq<byte>)
    requires base + mtu <= |buf|
    ensures |r| == |buf|
  {
    buf[base..base + mtu] + Fresh(mem, base + mtu)[mtu..] + buf[base + mtu..]
  }

  /** k fragments of buf have arrived, the first of them the one at base. */
  ghost predicate PartWay(mem: Memory, s: State, buf: seq<byte>, mtu: nat, cmd: byte, tid: byte,
                          base: nat, sent: nat, k: nat) {
    && s.phase == Assembling && 1 <= k <= 256 && s.opCode as int == k - 1
    && s.cmdNum == cmd && s.transactionId == tid && |s.data| == |buf|
    && base + mtu <= sent == base + k * mtu < |buf| && s.data[..sent] == Image(mem, buf, mtu, base)[..sent]
  }

  lemma ImageTail(mem: Memory, buf: seq<byte>, mtu: nat, base: nat, sent: nat, n: nat)
    requires base + mtu <= sent && sent + n <= |buf|
    ensures Image(mem, buf, mtu, base)[..sent + n] == Image(mem, buf, mtu, base)[..sent] + buf[sent..sent + n]
  {
    var r := Image(mem, buf, mtu, base);
    assert r[sent..sent + n] == buf[sent..sent + n];
    assert r[..sent + n] == r[..sent] + r[sent..sent + n];
  }

  lemma WholeImage(mem: Memory, buf: seq<byte>, mtu: nat)
    requires mtu <= |buf|
    ensures Image(mem, buf, mtu, 0) == buf
  {
  }

  /** One more fragment in order. */
  lemma NextFragment(mtu: nat, mem: Memory, s: State, buf: seq<byte>, cmd: byte, tid: byte,
                     base: nat, sent: nat, k: nat)
    requires 0 < mtu < 0x1_0000 && |buf| < 0x100_0000 && k < 256
    requires PartWay(mem, s, buf, mtu, cmd, tid, base, sent, k)
    ensures var f := FragmentAt(buf, mtu, cmd, tid, sent, k);
            var o := Step(mtu, mem, s, f);
            && o.ret && !o.accepted
            && if sent + mtu < |buf| then
                 && |f.segment| == mtu && o.dispatched == []
                 && PartWay(mem, o.state, buf, mtu, cmd, tid, base, sent + mtu, k + 1)
               else
                 && sent + |f.segment| == |buf| && o.dispatched == [Message(cmd, Image(mem, buf, mtu, base))]
                 && o.state == State(Idle, 0, cmd, tid, [])
  {
    hide Image;
    var f := FragmentAt(buf, mtu, cmd, tid, sent, k);
    Le24RoundTrip(sent);
    Arithmetic.Product(k, k, mtu);
    var d, r := Copied(s.data, sent, f.segment), Image(mem, buf, mtu, base);
    ImageTail(mem, buf, mtu, base, sent, |f.segment|);
    assert d[..sent] == s.data[..sent];
    assert d[..sent + |f.segment|] == d[..sent] + f.segment;
    if sent + |f.segment| == |buf| {
      assert d[..|buf|] == d && r[..|buf|] == r;
    }
  }

  /** The fragments of a sender never reach outside the buffer. */
  lemma SenderFits(mtu: nat, mem: Memory, s: State, buf: seq<byte>, cmd: byte, tid: byte, base: nat, sent: nat, k: nat)
    requires 0 < mtu < 0x1_0000 && |buf| < 0x100_0000 && sent < |buf| && k < 256
    requires PartWay(mem, s, buf, mtu, cmd, tid, base, sent, k) || (s.phase == Idle && sent == 0 && k == 0)
    ensures Fits(s, FragmentAt(buf, mtu, cmd, tid, sent, k)) && SingleChunk(s, FragmentAt(buf, mtu, cmd, tid, sent, k))
  {
    Le24RoundTrip(sent);
    Le24RoundTrip(|buf|);
  }

  lemma RunCons(mtu: nat, mem: Memory, s: State, f: Fragment, rest: seq<Fragment>)
    requires ValidFragment(f) && forall g :: g in rest ==> ValidFragment(g)
    ensures var o := Step(mtu, mem, s, f);
            var (t, ms) := Run(mtu, mem, o.state, rest);
            Run(mtu, mem, s, [f] + rest) == (t, o.dispatched + ms)
  {
    assert ([f] + rest)[1..] == rest;
  }

  /** All fragments but the last. */
  function Front(fs: seq<Fragment>): (r: seq<Fragment>)
    requires |fs| > 0
    ensures forall f :: f in r ==> f in fs
  {
    fs[..|fs| - 1]
  }

  /** The fragments after the first k complete the message with the last one. */
  lemma {:induction false} RestCompletes(mtu: nat, mem: Memory, s: State, buf: seq<byte>, cmd: byte, tid: byte,
                             base: nat, sent: nat, k: nat)
    requires 0 < mtu < 0x1_0000 && base + mtu <= sent < |buf| < 0x100_0000 && |buf| <= base + 256 * mtu
    requires PartWay(mem, s, buf, mtu, cmd, tid, base, sent, k)
    ensures Completes(mtu, mem, s, FragmentsFrom(buf, mtu, cmd, tid, sent, k % 256), State(Idle, 0, cmd, tid, []),
                      Message(cmd, Image(mem, buf, mtu, base)))
    decreases |buf| - sent
  {
    hide Run, Step, FragmentAt, FragmentsFrom, Completes, PartWay, Image;
    NotTooMany(mtu, mem, s, buf, cmd, tid, base, sent, k);
    var f := FragmentAt(buf, mtu, cmd, tid, sent, k);
    var o, m := Step(mtu, mem, s, f), Message(cmd, Image(mem, buf, mtu, base));
    NextFragment(mtu, mem, s, buf, cmd, tid, base, sent, k);
    OneThenRest(buf, mtu, cmd, tid, sent, k);
    if sent + mtu < |buf| {
      RestCompletes(mtu, mem, o.state, buf, cmd, tid, base, sent + mtu, k + 1);
      var rest := FragmentsFrom(buf, mtu, cmd, tid, sent + mtu, (k + 1) % 256);
      CompletesLater(mtu, mem, s, f, rest, State(Idle, 0, cmd, tid, []), m);
    } else {
      NoneLeft(buf, mtu, cmd, tid, (k + 1) % 256);
      CompletesNow(mtu, mem, s, f, m);
    }
  }

  lemma NotTooMany(mtu: nat, mem: Memory, s: State, buf: seq<byte>, cmd: byte, tid: byte, base: nat, sent: nat, k: nat)
    requires |buf| <= base + 256 * mtu && PartWay(mem, s, buf, mtu, cmd, tid, base, sent, k)
    ensures 1 <= k < 256
  {
  }

  /** The fragments leave the receiver in state t and dispatch m, on the last of them. */
  ghost predicate Completes(mtu: nat, mem: Memory, s: State, fs: seq<Fragment>, t: State, m: Message)
    requires forall f :: f in fs ==> ValidFragment(f)
  {
    |fs| > 0 && Run(mtu, mem, s, fs) == (t, [m]) && Run(mtu, mem, s, Front(fs)).1 == []
  }

  lemma CompletesLater(mtu: nat, mem: Memory, s: State, f: Fragment, rest: seq<Fragment>, t: State, m: Message)
    requires ValidFragment(f) && forall g :: g in rest ==> ValidFragment(g)
    requires Step(mtu, mem, s, f).dispatched == [] && Completes(mtu, mem, Step(mtu, mem, s, f).state, rest, t, m)
    ensures Completes(mtu, mem, s, [f] + rest, t, m)
  {
    hide Run, Step;
    RunCons(mtu, mem, s, f, rest);
    RunCons(mtu, mem, s, f, Front(rest));
    assert Front([f] + rest) == [f] + Front(rest);
    assert [] + [m] == [m] && [] + Run(mtu, mem, Step(mtu, mem, s, f).state, Front(rest)).1 == [];
  }

  lemma CompletesNow(mtu: nat, mem: Memory, s: State, f: Fragment, m: Message)
    requires ValidFragment(f) && Step(mtu, mem, s, f).dispatched == [m]
    ensures Completes(mtu, mem, s, [f] + [], Step(mtu, mem, s, f).state, m)
  {
    hide Run, Step;
    RunCons(mtu, mem, s, f, []);
    RunNothing(mtu, mem, Step(mtu, mem, s, f).state);
    RunNothing(mtu, mem, s);
    assert Front([f] + []) == [];
    assert [m] + [] == [m];
  }

  lemma RunNothing(mtu: nat, mem: Memory, s: State)
    ensures Run(mtu, mem, s, []) == (s, [])
  {
  }

  /** The first fragment of a message at an idle receiver. */
  lemma FirstFragment(mtu: nat, mem: Memory, s: State, buf: seq<byte>, cmd: byte, tid: byte)
    requires 0 < mtu < 0x1_0000 && 1 <= |buf| < 0x100_0000 && s.phase == Idle
    ensures var f := FragmentAt(buf, mtu, cmd, tid, 0, 0);
            var o := Step(mtu, mem, s, f);
            if !(s.transactionId == 0 || tid > s.transactionId) then
              !o.accepted && !o.ret && o.dispatched == [] && o.state == Reset(s)
            else
              && o.accepted && o.ret
              && if |buf| <= mtu then
                   && |f.segment| == |buf| && o.state == State(Idle, 0, cmd, tid, [])
                   && o.dispatched == if s.cmdNum != 0 && s.cmdNum == cmd then [] else [Message(cmd, buf)]
                 else |f.segment| == mtu && o.dispatched == [] && PartWay(mem, o.state, buf, mtu, cmd, tid, 0, mtu, 1)
  {
    var f := FragmentAt(buf, mtu, cmd, tid, 0, 0);
    Le24RoundTrip(|buf|);
    var d := Copied(Fresh(mem, |buf|), 0, f.segment);
    assert d[..|f.segment|] == f.segment == buf[..|f.segment|];
    if |buf| <= mtu {
      assert d == buf;
    } else {
      WholeImage(mem, buf, mtu);
    }
  }

  /** An idle receiver that has taken this transaction id or a larger one ignores every further fragment
      that carries it. */
  lemma {:induction false} TakenIsIgnored(mtu: nat, mem: Memory, s: State, buf: seq<byte>, cmd: byte, tid: byte,
                                          sent: nat, op: byte)
    requires 0 < mtu < 0x1_0000 && sent <= |buf| < 0x100_0000
    requires s.phase == Idle && s == Reset(s) && tid <= s.transactionId && s.transactionId != 0
    ensures Run(mtu, mem, s, FragmentsFrom(buf, mtu, cmd, tid, sent, op)) == (s, [])
    decreases |buf| - sent
  {
    hide Run, Step, FragmentAt, FragmentsFrom;
    if sent == |buf| {
      RunNothing(mtu, mem, s);
      NoneLeft(buf, mtu, cmd, tid, op);
    } else {
      OneThenRest(buf, mtu, cmd, tid, sent, op);
      var f := FragmentAt(buf, mtu, cmd, tid, sent, op);
      CarriesIds(buf, mtu, cmd, tid, sent, op);
      Stale(mtu, mem, s, f);
      var next := sent + Min(mtu, |buf| - sent);
      TakenIsIgnored(mtu, mem, s, buf, cmd, tid, next, (op + 1) % 256);
      RunCons(mtu, mem, s, f, FragmentsFrom(buf, mtu, cmd, tid, next, (op + 1) % 256));
    }
  }

  lemma CarriesIds(buf: seq<byte>, mtu: nat, cmd: byte, tid: byte, sent: nat, op: byte)
    requires 0 < mtu < 0x1_0000 && sent < |buf| < 0x100_0000
    ensures var f := FragmentAt(buf, mtu, cmd, tid, sent, op);
            f.opCode == op && f.cmdNum == cmd && f.transactionId == tid
  {
  }

  lemma Stale(mtu: nat, mem: Memory, s: State, f: Fragment)
    requires ValidFragment(f) && s.phase == Idle && s.transactionId != 0 && f.transactionId <= s.transactionId
    ensures Step(mtu, mem, s, f) == Outcome(Reset(s), false, [], false)
  {
  }

  /** The receiver will deliver this message: its transaction id is fresh, and it is not a
      one-fragment repetition of the last command. */
  predicate Delivers(s: State, mtu: nat, len: nat, cmd: byte, tid: byte) {
    && (s.transactionId == 0 || tid > s.transactionId)
    && !(len <= mtu && s.cmdNum != 0 && s.cmdNum == cmd)
  }

  /** Fragmenting a message and feeding the fragments in order to an idle peer with the same MTU
      dispatches exactly the original bytes, once and on the last fragment, if the peer takes the
      message at all; otherwise it dispatches nothing. */
  lemma Reassembly(mtu: nat, mem: Memory, s: State, buf: seq<byte>, cmd: byte, tid: byte)
    requires 0 < mtu < 0x1_0000 && 1 <= |buf| < 0x100_0000 && |buf| <= 256 * mtu
    requires s.phase == Idle
    ensures var fs := Fragments(buf, mtu, cmd, tid);
            && Run(mtu, mem, s, Front(fs)).1 == []
            && Run(mtu, mem, s, fs).1 == (if Delivers(s, mtu, |buf|, cmd, tid) then [Message(cmd, buf)] else [])
            && Run(mtu, mem, s, fs).0 ==
                 if s.transactionId == 0 || tid > s.transactionId then State(Idle, 0, cmd, tid, []) else Reset(s)
  {
    hide Run, Step, FragmentAt, FragmentsFrom, PartWay, Image;
    var f := FragmentAt(buf, mtu, cmd, tid, 0, 0);
    var o := Step(mtu, mem, s, f);
    FirstFragment(mtu, mem, s, buf, cmd, tid);
    OneThenRest(buf, mtu, cmd, tid, 0, 0);
    var rest := FragmentsFrom(buf, mtu, cmd, tid, |f.segment|, 1);
    assert Fragments(buf, mtu, cmd, tid) == [f] + rest;
    if !(s.transactionId == 0 || tid > s.transactionId) {
      TakenIsIgnored(mtu, mem, o.state, buf, cmd, tid, |f.segment|, 1);
      RunCons(mtu, mem, s, f, rest);
      FrontIgnored(mtu, mem, s, f, rest);
    } else if |buf| <= mtu {
      NoneLeft(buf, mtu, cmd, tid, 1);
      if Delivers(s, mtu, |buf|, cmd, tid) {
        CompletesNow(mtu, mem, s, f, Message(cmd, buf));
      } else {
        RunCons(mtu, mem, s, f, []);
        RunNothing(mtu, mem, o.state);
        FrontIgnored(mtu, mem, s, f, rest);
      }
    } else {
      RestCompletes(mtu, mem, o.state, buf, cmd, tid, 0, mtu, 1);
      WholeImage(mem, buf, mtu);
      CompletesLater(mtu, mem, s, f, rest, State(Idle, 0, cmd, tid, []), Message(cmd, buf));
    }
  }

  /** What a whole run dispatches includes what any prefix of it dispatches. */
  lemma {:induction false} RunPrefix(mtu: nat, mem: Memory, s: State, fs: seq<Fragment>, n: nat)
    requires (forall f :: f in fs ==> ValidFragment(f)) && n <= |fs|
    requires Run(mtu, mem, s, fs).1 == []
    ensures forall f :: f in fs[..n] ==> ValidFragment(f)
    ensures Run(mtu, mem, s, fs[..n]).1 == []
    decreases n
  {
    if n > 0 {
      RunPrefix(mtu, mem, Step(mtu, mem, s, fs[0]).state, fs[1..], n - 1);
      assert fs[..n][1..] == fs[1..][..n - 1];
    }
  }

  lemma FrontIgnored(mtu: nat, mem: Memory, s: State, f: Fragment, rest: seq<Fragment>)
    requires ValidFragment(f) && forall g :: g in rest ==> ValidFragment(g)
    requires Run(mtu, mem, s, [f] + rest).1 == []
    ensures Run(mtu, mem, s, Front([f] + rest)).1 == []
  {
    RunPrefix(mtu, mem, s, [f] + rest, |rest|);
  }

  // ----- messages that are too long -----

  /** The op code of the 257th fragment is 0 again, which no receiver takes for the next one. */
  lemma WrapAround(mtu: nat, mem: Memory, s: State, f: Fragment)
    requires ValidFragment(f) && s.phase == Assembling && f.opCode == 0
    ensures Step(mtu, mem, s, f) == Outcome(Reset(s), false, [], true)
  {
  }

  /** A receiver that is part way drops what it has at the 257th fragment. */
  lemma {:induction false} UpToWrap(mtu: nat, mem: Memory, s: State, buf: seq<byte>, cmd: byte, tid: byte,
                             base: nat, sent: nat, k: nat, op: byte)
    requires 0 < mtu < 0x1_0000 && base + 256 * mtu < |buf| < 0x100_0000 && sent < |buf|
    requires PartWay(mem, s, buf, mtu, cmd, tid, base, sent, k) && 1 <= k <= 256
    requires op as int == if k == 256 then 0 else k
    ensures Run(mtu, mem, s, FragmentsFrom(buf, mtu, cmd, tid, sent, op)).1
            == Run(mtu, mem, State(Idle, 0, cmd, tid, []),
                   FragmentsFrom(buf, mtu, cmd, tid, Min(base + 257 * mtu, |buf|), 1)).1
    decreases 256 - k
  {
    hide Run, Step, FragmentAt, FragmentsFrom, PartWay;
    OneThenRest(buf, mtu, cmd, tid, sent, op);
    var f := FragmentAt(buf, mtu, cmd, tid, sent, op);
    if k == 256 {
      PartWayIs(mem, s, buf, mtu, cmd, tid, base, sent, k);
      CarriesIds(buf, mtu, cmd, tid, sent, 0);
      WrapAround(mtu, mem, s, f);
      RunQuiet(mtu, mem, s, f, FragmentsFrom(buf, mtu, cmd, tid, Min(base + 257 * mtu, |buf|), 1));
    } else {
      NotTheLast(mtu, mem, s, buf, cmd, tid, base, sent, k);
      NextFragment(mtu, mem, s, buf, cmd, tid, base, sent, k);
      var next: byte := (op + 1) % 256;
      UpToWrap(mtu, mem, Step(mtu, mem, s, f).state, buf, cmd, tid, base, sent + mtu, k + 1, next);
      RunQuiet(mtu, mem, s, f, FragmentsFrom(buf, mtu, cmd, tid, sent + mtu, next));
    }
  }

  lemma RunQuiet(mtu: nat, mem: Memory, s: State, f: Fragment, rest: seq<Fragment>)
    requires ValidFragment(f) && forall g :: g in rest ==> ValidFragment(g)
    requires Step(mtu, mem, s, f).dispatched == []
    ensures Run(mtu, mem, s, [f] + rest).1 == Run(mtu, mem, Step(mtu, mem, s, f).state, rest).1
  {
    hide Run, Step;
    RunCons(mtu, mem, s, f, rest);
  }

  lemma NotTheLast(mtu: nat, mem: Memory, s: State, buf: seq<byte>, cmd: byte, tid: byte, base: nat, sent: nat, k: nat)
    requires 0 < mtu && base + 256 * mtu < |buf| && k < 256
    requires PartWay(mem, s, buf, mtu, cmd, tid, base, sent, k)
    ensures sent + mtu < |buf|
  {
    Arithmetic.Product(k, 255, mtu);
  }

  lemma PartWayIs(mem: Memory, s: State, buf: seq<byte>, mtu: nat, cmd: byte, tid: byte, base: nat, sent: nat, k: nat)
    requires PartWay(mem, s, buf, mtu, cmd, tid, base, sent, k)
    ensures s.phase == Assembling && s.transactionId == tid && s.cmdNum == cmd
            && (k == 256 ==> sent == base + 256 * mtu)
  {
  }

  lemma NotFirst(mtu: nat, mem: Memory, s: State, f: Fragment)
    requires ValidFragment(f) && s.phase == Idle && f.opCode != 0
    ensures Step(mtu, mem, s, f) == Outcome(Reset(s), false, [], false)
  {
  }

  /** An idle receiver lets a fragment pass whose op code is not 0. */
  lemma OnePasses(mtu: nat, mem: Memory, s: State, buf: seq<byte>, cmd: byte, tid: byte, sent: nat, op: byte)
    requires 0 < mtu < 0x1_0000 && sent < |buf| < 0x100_0000 && op > 0 && s.phase == Idle && s == Reset(s)
    ensures var next := sent + Min(mtu, |buf| - sent);
            Run(mtu, mem, s, FragmentsFrom(buf, mtu, cmd, tid, sent, op)).1
            == Run(mtu, mem, s, FragmentsFrom(buf, mtu, cmd, tid, next, (op + 1) % 256)).1
  {
    hide Run, Step, FragmentAt, FragmentsFrom;
    OneThenRest(buf, mtu, cmd, tid, sent, op);
    CarriesIds(buf, mtu, cmd, tid, sent, op);
    var f, next := FragmentAt(buf, mtu, cmd, tid, sent, op), sent + Min(mtu, |buf| - sent);
    NotFirst(mtu, mem, s, f);
    RunQuiet(mtu, mem, s, f, FragmentsFrom(buf, mtu, cmd, tid, next, (op + 1) % 256));
  }

  lemma NothingRuns(mtu: nat, mem: Memory, s: State, buf: seq<byte>, cmd: byte, tid: byte, op: byte)
    requires 0 < mtu < 0x1_0000 && |buf| < 0x100_0000
    ensures Run(mtu, mem, s, FragmentsFrom(buf, mtu, cmd, tid, |buf|, op)).1 == []
  {
    hide FragmentsFrom;
    NoneLeft(buf, mtu, cmd, tid, op);
  }

  /** And so until the op code is 0 again, n fragments on. */
  lemma {:induction false} UpToZero(mtu: nat, mem: Memory, s: State, buf: seq<byte>, cmd: byte, tid: byte,
                             sent: nat, n: nat, op: byte, stop: nat)
    requires 0 < mtu < 0x1_0000 && sent <= |buf| < 0x100_0000 && n < 256 && op as int == if n == 0 then 0 else 256 - n
    requires s.phase == Idle && s == Reset(s) && stop == sent + n * mtu
    ensures Run(mtu, mem, s, FragmentsFrom(buf, mtu, cmd, tid, sent, op)).1
            == if stop < |buf| then Run(mtu, mem, s, FragmentsFrom(buf, mtu, cmd, tid, stop, 0)).1 else []
    decreases n
  {
    hide Run, FragmentsFrom, Reset;
    if sent == |buf| {
      NothingRuns(mtu, mem, s, buf, cmd, tid, op);
    } else if n > 0 {
      OnePasses(mtu, mem, s, buf, cmd, tid, sent, op);
      assert n * mtu == (n - 1) * mtu + mtu;
      if sent + mtu >= |buf| {
        NothingRuns(mtu, mem, s, buf, cmd, tid, (op + 1) % 256);
      } else {
        UpToZero(mtu, mem, s, buf, cmd, tid, sent + mtu, n - 1, (op + 1) % 256, stop);
      }
    }
  }

  // ----- transaction id 0 -----

  /** The front of the image is what the first copy leaves. */
  lemma ImageFront(mem: Memory, buf: seq<byte>, mtu: nat, base: nat)
    requires base + mtu <= |buf|
    ensures Copied(Fresh(mem, |buf|), 0, buf[base..base + mtu])[..base + mtu]
            == Image(mem, buf, mtu, base)[..base + mtu]
  {
    var d, r := Copied(Fresh(mem, |buf|), 0, buf[base..base + mtu]), Image(mem, buf, mtu, base);
    forall i | 0 <= i < base + mtu ensures d[i] == r[i] {
      if mtu <= i {
        assert r[i] == Fresh(mem, base + mtu)[mtu..][i - mtu];
      }
    }
  }

  /** With id 0 a receiver takes a later fragment of op code 0 for the first one of a message. */
  lemma LaterFirst(mtu: nat, mem: Memory, s: State, buf: seq<byte>, cmd: byte, base: nat)
    requires 0 < mtu < 0x1_0000 && mtu <= base < |buf| < 0x100_0000 && s.phase == Idle && s.transactionId == 0
    ensures var o := Step(mtu, mem, s, FragmentAt(buf, mtu, cmd, 0, base, 0));
            o.dispatched == [] && (base + mtu < |buf| ==> PartWay(mem, o.state, buf, mtu, cmd, 0, base, base + mtu, 1))
  {
    hide Fresh, Image, Copied;
    Le24RoundTrip(|buf|);
    if base + mtu < |buf| {
      ImageFront(mem, buf, mtu, base);
    }
  }

  /** What comes of the fragments from base on, where the op code is 0. */
  function Late(mem: Memory, buf: seq<byte>, mtu: nat, cmd: byte, base: nat): seq<Message>
    requires mtu > 0
    decreases if base < |buf| then |buf| - base else 0
  {
    if |buf| <= base + mtu then []
    else if |buf| <= base + 256 * mtu then [Message(cmd, Image(mem, buf, mtu, base))]
    else if |buf| <= base + 512 * mtu then []
    else Late(mem, buf, mtu, cmd, base + 512 * mtu)
  }

  lemma {:induction false} LateRun(mtu: nat, mem: Memory, s: State, buf: seq<byte>, cmd: byte, base: nat)
    requires 0 < mtu < 0x1_0000 && mtu <= base < |buf| < 0x100_0000
    requires s.phase == Idle && s == Reset(s) && s.transactionId == 0
    ensures Run(mtu, mem, s, FragmentsFrom(buf, mtu, cmd, 0, base, 0)).1 == Late(mem, buf, mtu, cmd, base)
    decreases |buf| - base, 1
  {
    hide Run, Step, FragmentAt, FragmentsFrom, PartWay, Image, Completes;
    OneThenRest(buf, mtu, cmd, 0, base, 0);
    var f := FragmentAt(buf, mtu, cmd, 0, base, 0);
    var t, next := Step(mtu, mem, s, f).state, base + Min(mtu, |buf| - base);
    LaterFirst(mtu, mem, s, buf, cmd, base);
    RunQuiet(mtu, mem, s, f, FragmentsFrom(buf, mtu, cmd, 0, next, 1));
    if |buf| <= base + mtu {
      NoneLeft(buf, mtu, cmd, 0, 1);
      RunNothing(mtu, mem, t);
    } else if |buf| <= base + 256 * mtu {
      RestCompletes(mtu, mem, t, buf, cmd, 0, base, next, 1);
      CompletesIs(mtu, mem, t, FragmentsFrom(buf, mtu, cmd, 0, next, 1),
                  State(Idle, 0, cmd, 0, []), Message(cmd, Image(mem, buf, mtu, base)));
    } else {
      NextRound(mtu, mem, t, buf, cmd, base);
    }
  }

  lemma CompletesIs(mtu: nat, mem: Memory, s: State, fs: seq<Fragment>, t: State, m: Message)
    requires (forall f :: f in fs ==> ValidFragment(f)) && Completes(mtu, mem, s, fs, t, m)
    ensures Run(mtu, mem, s, fs).1 == [m]
  {
  }

  /** More than 256 fragments from base on: the receiver starts anew 512 fragments on, if there are as many. */
  lemma NextRound(mtu: nat, mem: Memory, s: State, buf: seq<byte>, cmd: byte, base: nat)
    requires 0 < mtu < 0x1_0000 && base + 256 * mtu < |buf| < 0x100_0000
    requires PartWay(mem, s, buf, mtu, cmd, 0, base, base + mtu, 1)
    ensures Run(mtu, mem, s, FragmentsFrom(buf, mtu, cmd, 0, base + mtu, 1)).1
            == if |buf| <= base + 512 * mtu then [] else Late(mem, buf, mtu, cmd, base + 512 * mtu)
    decreases |buf| - base, 0
  {
    hide Run, FragmentsFrom, PartWay, Image;
    UpToWrap(mtu, mem, s, buf, cmd, 0, base, base + mtu, 1, 1);
    var idle, next := State(Idle, 0, cmd, 0, []), Min(base + 257 * mtu, |buf|);
    UpToZero(mtu, mem, idle, buf, cmd, 0, next, 255, 1, next + 255 * mtu);
    if base + 512 * mtu < |buf| {
      LateRun(mtu, mem, idle, buf, cmd, base + 512 * mtu);
    }
  }

  /** The last fragment before the end whose number is a multiple of 512. */
  function LastBase(len: nat, mtu: nat): (base: nat)
    requires len > 0 && mtu > 0
    ensures base < len
  {
    Arithmetic.QuotientTimes(len - 1, 512 * mtu);
    (len - 1) / (512 * mtu) * (512 * mtu)
  }

  lemma {:induction false} LateIs(mem: Memory, buf: seq<byte>, mtu: nat, cmd: byte, q: nat)
    requires mtu > 0 && q * (512 * mtu) < |buf|
    ensures var base := LastBase(|buf|, mtu);
            Late(mem, buf, mtu, cmd, q * (512 * mtu))
            == if base + mtu < |buf| <= base + 256 * mtu then [Message(cmd, Image(mem, buf, mtu, base))] else []
    decreases |buf| - q * (512 * mtu)
  {
    hide Image;
    var n := 512 * mtu;
    if |buf| <= q * n + n {
      Arithmetic.UniqueDivision(|buf| - 1, n, q, |buf| - 1 - q * n);
    } else {
      assert (q + 1) * n == q * n + n;
      LateIs(mem, buf, mtu, cmd, q + 1);
    }
  }

  /** What a message comes to at an idle receiver, in every case. It arrives if it has at most 256
      fragments and the receiver is ready for it. A longer one is dropped, unless it has id 0 and ends
      among the 2nd to 256th fragment after one whose number is a multiple of 512: then a message of
      the right length is dispatched whose front is that fragment, with what the memory held
      behind it. */
  lemma Arrival(mtu: nat, mem: Memory, s: State, buf: seq<byte>, cmd: byte, tid: byte)
    requires 0 < mtu < 0x1_0000 && 1 <= |buf| < 0x100_0000 && s.phase == Idle
    ensures var base := LastBase(|buf|, mtu);
            Run(mtu, mem, s, Fragments(buf, mtu, cmd, tid)).1
            == if |buf| <= 256 * mtu then (if Delivers(s, mtu, |buf|, cmd, tid) then [Message(cmd, buf)] else [])
               else if tid == 0 == s.transactionId && base + mtu < |buf| <= base + 256 * mtu then
                 [Message(cmd, Image(mem, buf, mtu, base))]
               else []
  {
    hide Run, Step, FragmentAt, FragmentsFrom, PartWay, Image, Late, LastBase;
    if |buf| <= 256 * mtu {
      Reassembly(mtu, mem, s, buf, cmd, tid);
    } else {
      var f := FragmentAt(buf, mtu, cmd, tid, 0, 0);
      var t := Step(mtu, mem, s, f).state;
      FirstFragment(mtu, mem, s, buf, cmd, tid);
      OneThenRest(buf, mtu, cmd, tid, 0, 0);
      RunQuiet(mtu, mem, s, f, FragmentsFrom(buf, mtu, cmd, tid, mtu, 1));
      if !(s.transactionId == 0 || tid > s.transactionId) {
        TakenIsIgnored(mtu, mem, t, buf, cmd, tid, mtu, 1);
      } else if tid != 0 {
        UpToWrap(mtu, mem, t, buf, cmd, tid, 0, mtu, 1, 1);
        TakenIsIgnored(mtu, mem, State(Idle, 0, cmd, tid, []), buf, cmd, tid, Min(257 * mtu, |buf|), 1);
      } else {
        NextRound(mtu, mem, t, buf, cmd, 0);
        TooLongWithoutId(mem, buf, mtu, cmd);
      }
    }
  }

  lemma TooLongWithoutId(mem: Memory, buf: seq<byte>, mtu: nat, cmd: byte)
    requires mtu > 0 && 256 * mtu < |buf|
    ensures var base := LastBase(|buf|, mtu);
            (if |buf| <= 512 * mtu then [] else Late(mem, buf, mtu, cmd, 512 * mtu))
            == if base + mtu < |buf| <= base + 256 * mtu then [Message(cmd, Image(mem, buf, mtu, base))] else []
  {
    hide Image;
    if |buf| <= 512 * mtu {
      Arithmetic.UniqueDivision(|buf| - 1, 512 * mtu, 0, |buf| - 1);
    } else {
      LateIs(mem, buf, mtu, cmd, 1);
    }
  }

  /** A message of any length and any id reaches an idle peer as it was sent, whatever new buffers
      contain, if and only if the peer is ready for it and it has at most 256 fragments. */
  lemma ArrivesIff(mtu: nat, s: State, buf: seq<byte>, cmd: byte, tid: byte)
    requires 0 < mtu < 0x1_0000 && 1 <= |buf| < 0x100_0000 && s.phase == Idle
    ensures (forall mem :: Run(mtu, mem, s, Fragments(buf, mtu, cmd, tid)).1 == [Message(cmd, buf)])
            <==> |buf| <= 256 * mtu && Delivers(s, mtu, |buf|, cmd, tid)
  {
    hide Run, Image, LastBase, Fragments, Delivers;
    if |buf| <= 256 * mtu {
      forall mem: Memory
        ensures Run(mtu, mem, s, Fragments(buf, mtu, cmd, tid)).1
                == if Delivers(s, mtu, |buf|, cmd, tid) then [Message(cmd, buf)] else []
      {
        Arrival(mtu, mem, s, buf, cmd, tid);
      }
      var any: Memory := i => 0;
      assert Run(mtu, any, s, Fragments(buf, mtu, cmd, tid)).1 == [Message(cmd, buf)]
             <==> Delivers(s, mtu, |buf|, cmd, tid);
    } else {
      var other: Memory := i => (buf[mtu] as int + 1) % 256;
      Arrival(mtu, other, s, buf, cmd, tid);
      if LastBase(|buf|, mtu) + mtu < |buf| <= LastBase(|buf|, mtu) + 256 * mtu {
        FarFromStart(|buf|, mtu);
        NeverWritten(other, buf, mtu, LastBase(|buf|, mtu));
      }
    }
  }

  /** What the bytes of a packet do at an idle receiver. */
  lemma FirstPacket(mtu: nat, mem: Memory, s: State, p: seq<byte>)
    requires WellFramed(p) && s.phase == Idle
    ensures var n := p[3] as int + 256 * p[4] as int + 65536 * p[5] as int;
            var len := p[7] as int + 256 * p[8] as int;
            var o := Step(mtu, mem, s, FromWire(p));
            if p[0] != 0 || (s.transactionId != 0 && p[2] <= s.transactionId) then
              !o.ret && !o.accepted && o.dispatched == [] && o.state == s.(opCode := 0, data := [])
            else
              && o.ret && o.accepted && o.state.opCode == 0
              && o.state.cmdNum == p[1] && o.state.transactionId == p[2]
              && if n <= mtu && n == len then
                   && o.state.phase == Idle && o.state.data == []
                   && o.dispatched == if s.cmdNum != 0 && s.cmdNum == p[1] then [] else [Message(p[1], p[9..9 + len])]
                 else
                   && o.state.phase == Assembling && |o.state.data| == n && o.dispatched == []
                   && (len <= n ==> o.state.data[..len] == p[9..9 + len])
  {
    var len := p[7] as int + 256 * p[8] as int;
    assert p[3..6][0] == p[3] && p[3..6][1] == p[4] && p[3..6][2] == p[5];
    var n := FromLe24(p[3..6]);
    if len <= n {
      assert Copied(Fresh(mem, n), 0, p[9..9 + len])[..len] == p[9..9 + len];
      assert len == n ==> Copied(Fresh(mem, n), 0, p[9..9 + len]) == p[9..9 + len];
    }
  }

  /** ... and at one that is assembling a message. */
  lemma NextPacket(mtu: nat, mem: Memory, s: State, p: seq<byte>)
    requires WellFramed(p) && s.phase == Assembling
    ensures var at := p[3] as int + 256 * p[4] as int + 65536 * p[5] as int;
            var len := p[7] as int + 256 * p[8] as int;
            var o := Step(mtu, mem, s, FromWire(p));
            && o.ret && !o.accepted
            && if p[0] as int != s.opCode + 1 || p[1] != s.cmdNum || p[2] != s.transactionId then
                 o.dispatched == [] && o.state == s.(phase := Idle, opCode := 0, data := [])
               else if at + len < |s.data| then
                 && o.dispatched == [] && o.state.phase == Assembling && o.state.opCode == p[0]
                 && o.state.data == s.data[..at] + p[9..9 + len] + s.data[at + len..]
               else
                 && o.state == s.(phase := Idle, opCode := 0, data := [])
                 && (at + len == |s.data| ==> o.dispatched == [Message(s.cmdNum, s.data[..at] + p[9..9 + len])])
  {
    assert p[3..6][0] == p[3] && p[3..6][1] == p[4] && p[3..6][2] == p[5];
    var at, len := FromLe24(p[3..6]), p[7] as int + 256 * p[8] as int;
    if at + len == |s.data| {
      assert Copied(s.data, at, p[9..9 + len]) == s.data[..at] + p[9..9 + len];
    }
  }

  /** A fragment that does not continue the message being assembled costs that message only: the next one
      the receiver is ready for arrives. */
  lemma Recovers(mtu: nat, mem: Memory, s: State, f: Fragment, buf: seq<byte>, cmd: byte, tid: byte)
    requires 0 < mtu < 0x1_0000 && 1 <= |buf| < 0x100_0000 && |buf| <= 256 * mtu
    requires ValidFragment(f) && s.phase != Idle && Delivers(s, mtu, |buf|, cmd, tid)
    requires s.phase == Assembling ==>
               !(f.opCode as int == s.opCode + 1 && f.cmdNum == s.cmdNum && f.transactionId == s.transactionId)
    ensures Run(mtu, mem, s, [f] + Fragments(buf, mtu, cmd, tid)).1 == [Message(cmd, buf)]
  {
    hide Run, Fragments;
    RunCons(mtu, mem, s, f, Fragments(buf, mtu, cmd, tid));
    Arrival(mtu, mem, Reset(s), buf, cmd, tid);
  }

  lemma FarFromStart(len: nat, mtu: nat)
    requires mtu > 0 && 256 * mtu < len <= LastBase(len, mtu) + 256 * mtu
    ensures LastBase(len, mtu) > 0
  {
  }

  /** Behind the misplaced fragment stands what the memory held. */
  lemma NeverWritten(mem: Memory, buf: seq<byte>, mtu: nat, base: nat)
    requires 0 < base && base + mtu <= |buf| && mtu < |buf| && mem(mtu) != buf[mtu]
    ensures Image(mem, buf, mtu, base) != buf
  {
    assert Image(mem, buf, mtu, base)[mtu] == Fresh(mem, base + mtu)[mtu];
  }

  const MARKED: seq<byte> := seq(514, i => if i == 512 then 1 else 0)

  /** A corrupt message: 514 fragments of one byte each with id 0; the 513th byte comes out first. */
  lemma CorruptDispatch(mem: Memory)
    ensures Run(1, mem, State(Idle, 0, 0, 0, []), Fragments(MARKED, 1, 7, 0)).1
            == [Message(7, Image(mem, MARKED, 1, 512))]
    ensures Image(mem, MARKED, 1, 512)[0] == 1 != MARKED[0]
  {
    hide Run, Fragments;
    assert LastBase(514, 1) == 512;
    Arrival(1, mem, State(Idle, 0, 0, 0, []), MARKED, 7, 0);
  }

  // ----- transaction ids over a whole connection -----

  /** What happens to the state while a connection lasts: packets from the peer, in any order and
      with any content, and replies sent, which clear the command number. */
  datatype Event = Packet(f: Fragment) | Replied

  predicate ValidEvents(es: seq<Event>) {
    forall i :: 0 <= i < |es| && es[i].Packet? ==> ValidFragment(es[i].f)
  }

  function After(mtu: nat, mem: Memory, s: State, e: Event): State
    requires e.Packet? ==> ValidFragment(e.f)
  {
    match e
    case Packet(f) => Step(mtu, mem, s, f).state
    case Replied => if s.phase == Idle then s.(cmdNum := 0) else s
  }

  /** The transaction ids of the first fragments accepted, in order. */
  function Accepted(mtu: nat, mem: Memory, s: State, es: seq<Event>): seq<byte>
    requires ValidEvents(es)
    decreases |es|
  {
    if es == [] then []
    else
      (if es[0].Packet? && Step(mtu, mem, s, es[0].f).accepted then [es[0].f.transactionId] else [])
      + Accepted(mtu, mem, After(mtu, mem, s, es[0]), es[1..])
  }

  /** The transaction ids of the messages dispatched, in order. */
  function Dispatched(mtu: nat, mem: Memory, s: State, es: seq<Event>): seq<byte>
    requires ValidEvents(es)
    decreases |es|
  {
    if es == [] then []
    else
      (if es[0].Packet? && Step(mtu, mem, s, es[0].f).dispatched != [] then [es[0].f.transactionId] else [])
      + Dispatched(mtu, mem, After(mtu, mem, s, es[0]), es[1..])
  }

  /** Zeros, then strictly increasing numbers above low. */
  ghost predicate Climbs(low: int, ids: seq<byte>) {
    && (forall i :: 0 <= i < |ids| ==> ids[i] as int > low || low == 0)
    && (forall i, j :: 0 <= i < j < |ids| && ids[i] != 0 ==> ids[i] < ids[j])
  }

  lemma ClimbsCons(low: byte, id: byte, ids: seq<byte>)
    requires Climbs(id as int, ids) && (low == 0 || id > low)
    ensures Climbs(low as int, [id] + ids)
  {
    forall i | 0 <= i < |[id] + ids| ensures ([id] + ids)[i] > low || low == 0 {
    }
  }

  /** Once a non-zero id is accepted, every first fragment accepted later has a larger one. */
  lemma {:induction false} AcceptedIdsClimb(mtu: nat, mem: Memory, s: State, es: seq<Event>)
    requires ValidEvents(es)
    ensures Climbs(s.transactionId as int, Accepted(mtu, mem, s, es))
    decreases |es|
  {
    if es != [] {
      var t := After(mtu, mem, s, es[0]);
      AcceptedIdsClimb(mtu, mem, t, es[1..]);
      if es[0].Packet? && Step(mtu, mem, s, es[0].f).accepted {
        ClimbsCons(s.transactionId, t.transactionId, Accepted(mtu, mem, t, es[1..]));
      }
    }
  }

  /** No non-zero id is dispatched twice. A message being assembled may still come out under the
      present id. */
  lemma {:induction false} DispatchedIdsClimb(mtu: nat, mem: Memory, s: State, es: seq<Event>)
    requires ValidEvents(es)
    ensures Climbs(if s.phase == Assembling && s.transactionId != 0
                      then s.transactionId as int - 1 else s.transactionId as int,
                   Dispatched(mtu, mem, s, es))
    decreases |es|
  {
    if es != [] {
      var t := After(mtu, mem, s, es[0]);
      DispatchedIdsClimb(mtu, mem, t, es[1..]);
      if es[0].Packet? && Step(mtu, mem, s, es[0].f).dispatched != [] {
        assert t.phase == Idle && t.transactionId == es[0].f.transactionId;
      }
    }
  }

  function NonZero(ids: seq<byte>): (n: nat)
    ensures n <= |ids|
  {
    if ids == [] then 0 else (if ids[0] != 0 then 1 else 0) + NonZero(ids[1..])
  }

  lemma {:induction false} FewNonZero(low: byte, ids: seq<byte>)
    requires Climbs(low as int, ids)
    ensures NonZero(ids) <= 255 - low
    decreases |ids|
  {
    if ids != [] {
      FewNonZero(if ids[0] != 0 then ids[0] else low, ids[1..]);
    }
  }

  /** Between two connection resets at most 255 messages with a non-zero transaction id are taken. */
  lemma AtMost255Transactions(mtu: nat, mem: Memory, s: State, es: seq<Event>)
    requires ValidEvents(es)
    ensures NonZero(Accepted(mtu, mem, s, es)) <= 255 - s.transactionId
  {
    AcceptedIdsClimb(mtu, mem, s, es);
    FewNonZero(s.transactionId, Accepted(mtu, mem, s, es));
  }

  // ----- the state itself -----

  // ----- the indications, byte by byte -----

  /** Indication i of a message: header, little-endian length or offset, fragments to come, little-endian
      segment length, and the segment. */
  ghost predicate Indication(p: seq<byte>, buf: seq<byte>, mtu: nat, cmd: byte, tid: byte, i: nat)
    requires 0 < mtu
  {
    var at, op := i * mtu, i % 256;
    && at < |buf|
    && var n := if at + mtu <= |buf| then mtu else |buf| - at;
       && |p| == 9 + n
       && p[0] == op && p[1] == cmd && p[2] == tid
       && p[3] as int + 256 * p[4] as int + 65536 * p[5] as int == (if op == 0 then |buf| else at)
       && p[6] == (if op == 0 then 0 else (|buf| / mtu - op) % 256)
       && p[7] as int + 256 * p[8] as int == n
       && p[9..] == buf[at..at + n]
  }

  /** Fragment i starts i payloads on, while there is anything left there. */
  ghost predicate IthIs(fs: seq<Fragment>, i: nat, buf: seq<byte>, mtu: nat, cmd: byte, tid: byte, at: nat, op: byte)
    requires 0 < mtu < 0x1_0000 && |buf| < 0x100_0000
  {
    if at < |buf| then i < |fs| && fs[i] == FragmentAt(buf, mtu, cmd, tid, at, op) else i >= |fs|
  }

  lemma {:induction false} NthFragment(buf: seq<byte>, mtu: nat, cmd: byte, tid: byte, sent: nat, op: byte, i: nat)
    requires 0 < mtu < 0x1_0000 && sent <= |buf| < 0x100_0000
    ensures IthIs(FragmentsFrom(buf, mtu, cmd, tid, sent, op), i, buf, mtu, cmd, tid, sent + i * mtu, (op + i) % 256)
    decreases i
  {
    hide FragmentsFrom, FragmentAt, IthIs;
    var fs := FragmentsFrom(buf, mtu, cmd, tid, sent, op);
    Places(sent, mtu, op, i);
    if sent == |buf| {
      NoneLeft(buf, mtu, cmd, tid, op);
      NoIth(buf, mtu, cmd, tid, sent + i * mtu, (op + i) % 256, i);
    } else {
      OneThenRest(buf, mtu, cmd, tid, sent, op);
      var rest := FragmentsFrom(buf, mtu, cmd, tid, sent + Min(mtu, |buf| - sent), (op + 1) % 256);
      if i == 0 {
        IthFirst(fs, buf, mtu, cmd, tid, sent, op);
      } else if sent + mtu <= |buf| {
        NthFragment(buf, mtu, cmd, tid, sent + mtu, (op + 1) % 256, i - 1);
        IthLater(fs, rest, i, buf, mtu, cmd, tid, sent + i * mtu, (op + i) % 256);
      } else {
        NoneLeft(buf, mtu, cmd, tid, (op + 1) % 256);
        NoIth(buf, mtu, cmd, tid, sent + i * mtu, (op + i) % 256, i - 1);
        IthLater(fs, rest, i, buf, mtu, cmd, tid, sent + i * mtu, (op + i) % 256);
      }
    }
  }

  lemma Places(sent: nat, mtu: nat, op: byte, i: nat)
    requires 0 < mtu
    ensures i * mtu >= 0 && (i == 0 ==> i * mtu == 0 && (op + i) % 256 == op)
    ensures i > 0 ==> i * mtu >= mtu && sent + mtu + (i - 1) * mtu == sent + i * mtu
    ensures i > 0 ==> ((op + 1) % 256 + (i - 1)) % 256 == (op + i) % 256
  {
    if i > 0 {
      Arithmetic.Product(i - 1, i, mtu);
    }
  }

  lemma NoIth(buf: seq<byte>, mtu: nat, cmd: byte, tid: byte, at: nat, op: byte, i: nat)
    requires 0 < mtu < 0x1_0000 && |buf| <= at && |buf| < 0x100_0000
    ensures IthIs([], i, buf, mtu, cmd, tid, at, op)
  {
  }

  lemma IthFirst(fs: seq<Fragment>, buf: seq<byte>, mtu: nat, cmd: byte, tid: byte, at: nat, op: byte)
    requires 0 < mtu < 0x1_0000 && at < |buf| < 0x100_0000
    requires fs != [] && fs[0] == FragmentAt(buf, mtu, cmd, tid, at, op)
    ensures IthIs(fs, 0, buf, mtu, cmd, tid, at, op)
  {
    hide FragmentAt;
  }

  lemma IthLater(fs: seq<Fragment>, rest: seq<Fragment>, i: nat, buf: seq<byte>, mtu: nat, cmd: byte, tid: byte,
                 at: nat, op: byte)
    requires 0 < mtu < 0x1_0000 && |buf| < 0x100_0000
    requires i > 0 && fs != [] && fs[1..] == rest && IthIs(rest, i - 1, buf, mtu, cmd, tid, at, op)
    ensures IthIs(fs, i, buf, mtu, cmd, tid, at, op)
  {
    hide FragmentAt;
    assert at < |buf| ==> fs[i] == fs[1..][i - 1];
  }

  lemma FragmentBytes(buf: seq<byte>, mtu: nat, cmd: byte, tid: byte, i: nat)
    requires 0 < mtu < 0x1_0000 && i * mtu < |buf| < 0x100_0000
    ensures Indication(ToWire(FragmentAt(buf, mtu, cmd, tid, i * mtu, i % 256)), buf, mtu, cmd, tid, i)
  {
    var at, op := i * mtu, i % 256;
    var f := FragmentAt(buf, mtu, cmd, tid, at, op);
    var p := ToWire(f);
    var v := if op == 0 then |buf| else at;
    Le24RoundTrip(v);
    assert p[3..6] == Le24(v) && p[9..] == f.segment;
    assert p[3] == p[3..6][0] && p[4] == p[3..6][1] && p[5] == p[3..6][2];
  }

  /** Every indication sent, from the bytes of the message alone. */
  lemma IndicationIs(buf: seq<byte>, mtu: nat, cmd: byte, tid: byte, i: nat)
    requires 0 < mtu < 0x1_0000 && |buf| < 0x100_0000
    ensures i < |Fragments(buf, mtu, cmd, tid)| <==> i * mtu < |buf|
    ensures i * mtu < |buf| ==> Indication(Wires(Fragments(buf, mtu, cmd, tid))[i], buf, mtu, cmd, tid, i)
  {
    hide FragmentAt, FragmentsFrom, ToWire, Indication;
    NthFragment(buf, mtu, cmd, tid, 0, 0, i);
    assert 0 + i * mtu == i * mtu && (0 + i) % 256 == i % 256;
    if i * mtu < |buf| {
      FragmentBytes(buf, mtu, cmd, tid, i);
    }
  }

  /** How many indications a message takes. */
  lemma FragmentCount(buf: seq<byte>, mtu: nat, cmd: byte, tid: byte)
    requires 0 < mtu < 0x1_0000 && |buf| < 0x100_0000
    ensures |Fragments(buf, mtu, cmd, tid)| == (|buf| + mtu - 1) / mtu
  {
    hide Fragments;
    var n := |Fragments(buf, mtu, cmd, tid)|;
    IndicationIs(buf, mtu, cmd, tid, n);
    if n > 0 {
      IndicationIs(buf, mtu, cmd, tid, n - 1);
      Arithmetic.Product(n - 1, n, mtu);
    }
    Arithmetic.UniqueDivision(|buf| + mtu - 1, mtu, n, |buf| + mtu - 1 - n * mtu);
  }

  /** What the driver took, in those terms. */
  lemma SentIndications(buf: seq<byte>, mtu: nat, cmd: byte, tid: byte, sent: seq<seq<byte>>, failAt: nat)
    requires 0 < mtu < 0x1_0000 && |buf| < 0x100_0000
    requires var fs := Fragments(buf, mtu, cmd, tid);
             sent == Wires(fs)[..Min(failAt, |fs|)]
    ensures |sent| == Min(failAt, (|buf| + mtu - 1) / mtu)
    ensures forall i :: 0 <= i < |sent| ==> Indication(sent[i], buf, mtu, cmd, tid, i)
  {
    hide Fragments, Indication;
    FragmentCount(buf, mtu, cmd, tid);
    forall i | 0 <= i < |sent| ensures Indication(sent[i], buf, mtu, cmd, tid, i) {
      IndicationIs(buf, mtu, cmd, tid, i);
    }
  }

  function Wires(fs: seq<Fragment>): (r: seq<seq<byte>>)
    requires forall f :: f in fs ==> ValidFragment(f)
    ensures |r| == |fs|
    ensures forall i :: 0 <= i < |fs| ==> r[i] == ToWire(fs[i])
  {
    seq(|fs|, i requires 0 <= i < |fs| => ToWire(fs[i]))
  }

  /** What Disassemble puts on the air is what Assemble takes off it. */
  lemma WiresRoundTrip(fs: seq<Fragment>, i: nat)
    requires (forall f :: f in fs ==> ValidFragment(f)) && i < |fs|
    ensures WellFramed(Wires(fs)[i]) && FromWire(Wires(fs)[i]) == fs[i]
  {
    WireRoundTrip(fs[i]);
  }

  datatype Status = Done | BadRequest | IndicationFailed

  /** struct msg_state_t for messages of one chunk. */
  class Transfer {
    var state: Phase
    var completed: bool
    var mtu: nat
    var opCode: byte
    var cmdNum: byte
    var transactionId: byte
    var totalSize: nat
    var data: array?<byte>

    ghost predicate Valid()
      reads this
    {
      && (state == Assembling ==> data != null)
      && (state != Assembling ==> data == null && totalSize == 0)
      && !completed
    }

    ghost function Model(): State
      reads this, data
    {
      State(state, opCode, cmdNum, transactionId, if data == null then [] else data[..])
    }

    constructor ()
      ensures Valid() && Model() == State(Idle, 0, 0, 0, [])
    {
      state, completed, mtu, opCode, cmdNum, transactionId, totalSize, data := Idle, false, 0, 0, 0, 0, 0, null;
    }

    /** _es_msg_state_reset */
    method ResetState()
      modifies this
      ensures Valid() && Model() == Reset(old(Model()))
    {
      state, completed, mtu, opCode, totalSize, data := Idle, false, 0, 0, 0, null;
    }

    /** es_reset_transferdata */
    method ResetTransfer()
      modifies this
      ensures Valid() && Model() == Reset(old(Model())).(transactionId := 0)
    {
      transactionId := 0;
      ResetState();
    }

    /** memcpy(data + offset, segment, |segment|) */
    method CopySegment(offset: nat, segment: seq<byte>)
      requires data != null && offset + |segment| <= data.Length
      modifies data
      ensures data[..] == Copied(old(data[..]), offset, segment)
    {
      var i := 0;
      while i < |segment|
        invariant 0 <= i <= |segment|
        invariant forall k :: 0 <= k < data.Length ==>
          data[k] == if offset <= k < offset + i then segment[k - offset] else old(data[k])
      {
        data[offset + i] := segment[i];
        i := i + 1;
      }
    }

    /** es_msg_assemble does exactly what Step says; bspMtu is what iot_bsp_ble_get_mtu returns, mem
        what malloc finds. */
    method Assemble(packet: seq<byte>, bspMtu: nat, mem: Memory) returns (ret: bool, dispatched: seq<Message>)
      requires Valid() && 12 <= bspMtu
      requires packet != [] ==> WellFramed(packet) && Fits(Model(), FromWire(packet))
      requires packet != [] ==> SingleChunk(Model(), FromWire(packet))
      modifies this, data
      ensures Valid()
      ensures packet == [] ==> !ret && dispatched == [] && Model() == old(Model())
      ensures packet != [] ==>
                var o := Step(bspMtu - 12, mem, old(Model()), FromWire(packet));
                ret == o.ret && dispatched == o.dispatched && Model() == o.state
    {
      hide FromLe24, Copied, FromWire;
      dispatched := [];
      if packet == [] {
        return false, [];
      }
      var f := FromWire(packet);
      var duplicated := false;
      match state {
        case Assembling =>
          AssembleNext(f);
        case Disassembling =>
          ResetState();
        case Idle =>
          ret, duplicated := AssembleFirst(f, bspMtu, mem);
          if !ret {
            return false, [];
          }
      }
      if completed {
        if !duplicated {
          dispatched := [Message(cmdNum, data[..])];
        }
        ResetState();
      }
      ret := true;
    }

    /** es_msg_assemble, MSG_STATE_ASSEMBLE */
    method AssembleNext(f: Fragment)
      requires Valid() && ValidFragment(f) && Fits(Model(), f) && state == Assembling
      modifies this, data
      ensures if f.opCode as int == old(opCode) + 1 && f.cmdNum == old(cmdNum)
                 && f.transactionId == old(transactionId) then
                var n := FromLe24(f.sizeOrOffset);
                && data != null
                && Model() == old(Model()).(opCode := f.opCode, data := Copied(old(Model()).data, n, f.segment))
                && completed == (n + |f.segment| >= data.Length)
              else
                Valid() && Model() == Reset(old(Model()))
    {
      hide FromLe24, Copied;
      if f.opCode as int == opCode + 1 && f.cmdNum == cmdNum && f.transactionId == transactionId {
        var offset := FromLe24(f.sizeOrOffset);
        opCode := f.opCode;
        CopySegment(offset, f.segment);
        if offset + |f.segment| >= data.Length {
          completed := true;
        }
      } else {
        ResetState();
      }
    }

    /** es_msg_assemble, MSG_STATE_IDLE */
    method AssembleFirst(f: Fragment, bspMtu: nat, mem: Memory) returns (taken: bool, duplicated: bool)
      requires Valid() && ValidFragment(f) && Fits(Model(), f) && state == Idle && 12 <= bspMtu
      modifies this, data
      ensures taken == Takes(old(Model()), f)
      ensures !taken ==> Valid() && Model() == Reset(old(Model()))
      ensures taken ==>
                var n := FromLe24(f.sizeOrOffset);
                && duplicated == (old(cmdNum) != 0 && old(cmdNum) == f.cmdNum)
                && data != null
                && completed == (n <= bspMtu - 12 && n == |f.segment|)
                && Model() == State(if completed then Idle else Assembling, f.opCode, f.cmdNum, f.transactionId,
                                    Copied(Fresh(mem, n), 0, f.segment))
    {
      hide FromLe24, Copied;
      duplicated := false;
      if f.opCode != 0 || (f.transactionId <= transactionId && transactionId != 0) {
        ResetState();
        return false, false;
      }
      taken := true;
      mtu := bspMtu - 12;
      duplicated := cmdNum != 0 && cmdNum == f.cmdNum;
      opCode, cmdNum, transactionId := f.opCode, f.cmdNum, f.transactionId;
      var size := FromLe24(f.sizeOrOffset);
      data := new byte[size](i requires 0 <= i => mem(i));
      totalSize := totalSize + size;
      assert data[..] == Fresh(mem, size);
      CopySegment(0, f.segment);
      if size <= mtu && size == |f.segment| {
        completed := true;
      } else {
        state := Assembling;
      }
    }

    /** es_msg_disassemble with data_continued 0. The driver refuses the indication number failAt. */
    method Disassemble(buf: seq<byte>, cmd: int, bspMtu: nat, failAt: nat) returns (r: Status, sent: seq<seq<byte>>)
      requires Valid() && 12 < bspMtu < 0x1_0000 && |buf| < 0x100_0000
      modifies this
      ensures Valid() && transactionId == old(transactionId) && opCode == old(opCode) && data == old(data)
      ensures state == old(state)
      ensures buf == [] ==> r == BadRequest && sent == [] && cmdNum == old(cmdNum)
      ensures buf != [] && cmd != 13 && cmd != old(cmdNum) as int ==>
                r == Done && sent == [] && cmdNum == old(cmdNum)
      ensures buf != [] && (cmd == 13 || cmd == old(cmdNum) as int) ==>
                if old(state) != Idle then r == BadRequest && sent == [] && cmdNum == old(cmdNum)
                else
                  var fs := Fragments(buf, bspMtu - 12, old(cmdNum), transactionId);
                  && cmdNum == 0 && sent == Wires(fs)[..Min(failAt, |fs|)]
                  && r == if failAt < |fs| then IndicationFailed else Done
      ensures old(state) == Idle && buf != [] && (cmd == 13 || cmd == old(cmdNum) as int) ==>
                && |sent| == Min(failAt, (|buf| + bspMtu - 13) / (bspMtu - 12))
                && forall i :: 0 <= i < |sent| ==>
                     Indication(sent[i], buf, bspMtu - 12, old(cmdNum), transactionId, i)
    {
      hide Fragments, Indication, Wires;
      if buf == [] {
        return BadRequest, [];
      }
      if cmd - 1 != SETUPCOMPLETE_RESPONSE && cmd != cmdNum as int {
        return Done, [];
      }
      if state != Idle {
        return BadRequest, [];
      }
      mtu := bspMtu - 12;
      state := Disassembling;
      var failed: bool;
      sent, failed := SendAll(buf, failAt);
      SentIndications(buf, mtu, cmdNum, transactionId, sent, failAt);
      state, cmdNum := Idle, 0;
      r := if failed then IndicationFailed else Done;
    }

    /** The send loop of es_msg_disassemble. */
    method SendAll(buf: seq<byte>, failAt: nat) returns (sent: seq<seq<byte>>, failed: bool)
      requires 0 < mtu < 0x1_0000 && 0 < |buf| < 0x100_0000
      ensures var fs := Fragments(buf, mtu, cmdNum, transactionId);
              sent == Wires(fs)[..Min(failAt, |fs|)] && failed == (failAt < |fs|)
    {
      hide Fragments, FragmentAt, Sending, Wires, ToWire;
      sent, failed := [], false;
      var sentLen: nat, op: byte := 0, 0;
      ghost var fs := Fragments(buf, mtu, cmdNum, transactionId);
      SendingStarts(buf);
      while sentLen < |buf| && !failed
        invariant Sending(buf, fs, sent, sentLen, op) && |sent| <= failAt
        invariant failed ==> |sent| == failAt && failAt < |fs|
        decreases |buf| - sentLen, !failed
      {
        var f := NextIndication(buf, sentLen, op);
        Sent(buf, fs, sent, sentLen, op);
        if |sent| == failAt {
          failed := true;
        } else {
          sent := sent + [ToWire(f)];
          sentLen := sentLen + |f.segment|;
          op := (op + 1) % 256;
        }
      }
      AllSent(buf, fs, sent, sentLen, op);
    }

    /** The indication filled in for the bytes from sentLen on. */
    method NextIndication(buf: seq<byte>, sentLen: nat, op: byte) returns (f: Fragment)
      requires 0 < mtu < 0x1_0000 && sentLen < |buf| < 0x100_0000
      ensures f == FragmentAt(buf, mtu, cmdNum, transactionId, sentLen, op) && 0 < |f.segment| <= |buf| - sentLen
    {
      var size := Le24(if op == 0 then |buf| else sentLen);
      var more := if op == 0 then 0 else (|buf| / mtu - op as int) % 256;
      var n := if sentLen + mtu <= |buf| then mtu else |buf| - sentLen;
      f := Fragment(op, cmdNum, transactionId, size, more, buf[sentLen..sentLen + n]);
    }

    lemma SendingStarts(buf: seq<byte>)
      requires 0 < mtu < 0x1_0000 && |buf| < 0x100_0000
      ensures Sending(buf, Fragments(buf, mtu, cmdNum, transactionId), [], 0, 0)
    {
    }

    ghost predicate Sending(buf: seq<byte>, fs: seq<Fragment>, sent: seq<seq<byte>>, sentLen: nat, op: byte)
      reads this
    {
      && 0 < mtu < 0x1_0000 && sentLen <= |buf| < 0x100_0000 && |sent| <= |fs|
      && (forall f :: f in fs ==> ValidFragment(f))
      && sent == Wires(fs)[..|sent|]
      && fs[|sent|..] == FragmentsFrom(buf, mtu, cmdNum, transactionId, sentLen, op)
    }

    lemma Sent(buf: seq<byte>, fs: seq<Fragment>, sent: seq<seq<byte>>, sentLen: nat, op: byte)
      requires Sending(buf, fs, sent, sentLen, op) && sentLen < |buf|
      ensures var f := FragmentAt(buf, mtu, cmdNum, transactionId, sentLen, op);
              |sent| < |fs| && Sending(buf, fs, sent + [ToWire(f)], sentLen + |f.segment|, (op + 1) % 256)
    {
      hide FragmentAt, FragmentsFrom;
      var f := FragmentAt(buf, mtu, cmdNum, transactionId, sentLen, op);
      OneThenRest(buf, mtu, cmdNum, transactionId, sentLen, op);
      var rest := fs[|sent|..];
      assert rest[0] == fs[|sent|] == f && rest[1..] == fs[|sent| + 1..];
      assert Wires(fs)[..|sent| + 1] == Wires(fs)[..|sent|] + [Wires(fs)[|sent|]];
    }

    lemma AllSent(buf: seq<byte>, fs: seq<Fragment>, sent: seq<seq<byte>>, sentLen: nat, op: byte)
      requires Sending(buf, fs, sent, sentLen, op)
      ensures sent == Wires(fs)[..|sent|] && (sentLen == |buf| ==> |sent| == |fs|) && sentLen <= |buf| && |sent| <= |fs|
    {
    }
  }
}
