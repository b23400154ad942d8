/**
 The barrier of src/rtl_hpsdr.c between the receiver threads, which fill their slots of the
 shared frame in `load_packet`, and the sender thread `handler_ep6`. Each lock, unlock,
 wait, broadcast, payload store, flag read and flag write is a step of its own, and the
 threads interleave freely; waits may also return without a broadcast. The receiver mask is
 fixed, `enable_thread` stays 1, and receivers 0..n-1 are the active ones.
 */
module FrameBarrier {
  import opened Collections

  /** packet(r, k, j): the value that packet k of receiver r stores in that receiver's slot j. */
  datatype Config = Config(n: nat, slots: nat, packet: (nat, nat, nat) -> int)

  /** Program points of one call of load_packet, then of the wait for the next samples. */
  datatype RPc =
    | Idle
    | LockSend
    | Write(i: nat)
    | ReadFlags
    | SetFlag(seen: set<nat>)
    | Signal
    | UnlockSend
    | LockDone
    | TestDone
    | WaitDone(woken: bool)
    | UnlockDone

  /** Program points of one turn of the loop of handler_ep6. */
  datatype SPc =
    | SLockSend
    | STest
    | SWait(swoken: bool)
    | SNumber
    | SLockDone
    | SSend
    | SSending(atStart: seq<seq<int>>)
    | SUnlockSend
    | SClear
    | SSignal
    | SUnlockDone

  datatype Owner = Free | Receiver(r: nat) | Sender

  /** A receiver thread and the number of packets it has handed over. */
  datatype Rcv = Rcv(pc: RPc, k: nat)

  datatype Frame = Frame(number: nat, data: seq<seq<int>>)

  /** `rounds` counts the clearings of send_flags; it is not a variable of the program. */
  datatype State = State(
    rs: seq<Rcv>, spc: SPc, flags: set<nat>, sendLock: Owner, doneLock: Owner,
    payload: seq<seq<int>>, number: nat, counter: nat, frames: seq<Frame>, rounds: nat)

  /** What packet k of every receiver looks like in a frame. */
  function Packets(cfg: Config, k: nat): seq<seq<int>> {
    seq(cfg.n, r requires 0 <= r < cfg.n => Packet(cfg, r, k))
  }

  function Packet(cfg: Config, r: nat, k: nat): seq<int> {
    seq(cfg.slots, j requires 0 <= j < cfg.slots => cfg.packet(r, k, j))
  }

  predicate Shape(cfg: Config, s: State) {
    && cfg.n >= 1
    && |s.rs| == cfg.n
    && |s.payload| == cfg.n
    && (forall r :: 0 <= r < cfg.n ==> |s.payload[r]| == cfg.slots)
  }

  predicate Init(cfg: Config, s: State) {
    && Shape(cfg, s)
    && (forall r :: 0 <= r < cfg.n ==> s.rs[r] == Rcv(Idle, 0))
    && s.spc == SLockSend && s.flags == {} && s.sendLock == Free && s.doneLock == Free
    && s.counter == 0 && s.frames == [] && s.rounds == 0
  }

  function AtPc(s: State, r: nat, pc: RPc): State
    requires r < |s.rs|
  {
    s.(rs := s.rs[r := s.rs[r].(pc := pc)])
  }

  /** One step of receiver r, when it is not blocked. */
  function RecvStep(cfg: Config, s: State, r: nat): (t: Option<State>)
    requires Shape(cfg, s) && r < cfg.n
    ensures t.Some? ==> Shape(cfg, t.value)
  {
    var k := s.rs[r].k;
    match s.rs[r].pc
    case Idle => Some(AtPc(s, r, LockSend))
    case LockSend =>
      if s.sendLock == Free then Some(AtPc(s, r, Write(0)).(sendLock := Receiver(r))) else None
    case Write(i) =>
      if i < cfg.slots then
        Some(AtPc(s, r, Write(i + 1)).(payload := s.payload[r := s.payload[r][i := cfg.packet(r, k, i)]]))
      else Some(AtPc(s, r, ReadFlags))
    case ReadFlags => Some(AtPc(s, r, SetFlag(s.flags)))
    case SetFlag(seen) => Some(AtPc(s, r, Signal).(flags := seen + {r}))
    case Signal => Some(AtPc(s, r, UnlockSend).(spc := if s.spc.SWait? then SWait(true) else s.spc))
    case UnlockSend => Some(AtPc(s, r, LockDone).(sendLock := Free))
    case LockDone =>
      if s.doneLock == Free then Some(AtPc(s, r, TestDone).(doneLock := Receiver(r))) else None
    case TestDone =>
      if r in s.flags then Some(AtPc(s, r, WaitDone(false)).(doneLock := Free))
      else Some(AtPc(s, r, UnlockDone))
    case WaitDone(woken) =>
      if woken && s.doneLock == Free then Some(AtPc(s, r, TestDone).(doneLock := Receiver(r))) else None
    case UnlockDone => Some(s.(rs := s.rs[r := Rcv(Idle, k + 1)], doneLock := Free))
  }

  function Wake(v: Rcv): Rcv {
    if v.pc.WaitDone? then v.(pc := WaitDone(true)) else v
  }

  /** One step of the sender, when it is not blocked. */
  function SendStep(cfg: Config, s: State): (t: Option<State>)
    requires Shape(cfg, s)
    ensures t.Some? ==> Shape(cfg, t.value)
  {
    match s.spc
    case SLockSend =>
      if s.sendLock == Free then Some(s.(spc := STest, sendLock := Sender)) else None
    case STest =>
      if s.flags != Below(cfg.n) then Some(s.(spc := SWait(false), sendLock := Free))
      else Some(s.(spc := SNumber))
    case SWait(woken) =>
      if woken && s.sendLock == Free then Some(s.(spc := STest, sendLock := Sender)) else None
    case SNumber => Some(s.(spc := SLockDone, number := s.counter, counter := (s.counter + 1) % 0x1_0000_0000))
    case SLockDone =>
      if s.doneLock == Free then Some(s.(spc := SSend, doneLock := Sender)) else None
    case SSend => Some(s.(spc := SSending(s.payload)))
    case SSending(_) => Some(s.(spc := SUnlockSend, frames := s.frames + [Frame(s.number, s.payload)]))
    case SUnlockSend => Some(s.(spc := SClear, sendLock := Free))
    case SClear => Some(s.(spc := SSignal, flags := {}, rounds := s.rounds + 1))
    case SSignal =>
      Some(s.(spc := SUnlockDone, rs := seq(|s.rs|, r requires 0 <= r < |s.rs| => Wake(s.rs[r]))))
    case SUnlockDone => Some(s.(spc := SLockSend, doneLock := Free))
  }

  /** A wait that returns without a broadcast. */
  function SpuriousWake(cfg: Config, s: State, t: Thread): (u: Option<State>)
    requires Shape(cfg, s) && (t.R? ==> t.r < cfg.n)
    ensures u.Some? ==> Shape(cfg, u.value)
  {
    match t
    case R(r) => if s.rs[r].pc.WaitDone? then Some(AtPc(s, r, WaitDone(true))) else None
    case S => if s.spc.SWait? then Some(s.(spc := SWait(true))) else None
  }

  datatype Thread = R(r: nat) | S

  /** A step of thread t; `spurious` marks the return of a wait without a broadcast. */
  function Next(cfg: Config, s: State, t: Thread, spurious: bool): (u: Option<State>)
    requires Shape(cfg, s) && (t.R? ==> t.r < cfg.n)
    ensures u.Some? ==> Shape(cfg, u.value)
  {
    if spurious then SpuriousWake(cfg, s, t)
    else match t
      case R(r) => RecvStep(cfg, s, r)
      case S => SendStep(cfg, s)
  }

  datatype Choice = Choice(thread: Thread, spurious: bool)

  /** The states visited when the scheduler makes these choices; blocked choices change nothing. */
  function Run(cfg: Config, s: State, choices: seq<Choice>): State
    requires Inv(cfg, s)
    ensures Inv(cfg, Run(cfg, s, choices))
  {
    if choices == [] then s
    else
      var c, before := choices[|choices| - 1], Run(cfg, s, choices[..|choices| - 1]);
      if c.thread.R? && c.thread.r >= cfg.n then before
      else
        match Next(cfg, before, c.thread, c.spurious)
        case None => before
        case Some(after) => NextKeepsInv(cfg, before, c.thread, c.spurious); after
  }

  // ---- the invariant

  /** Not yet announced: the receiver has not set its flag in this call. */
  predicate Before(pc: RPc) {
    pc.Idle? || pc.LockSend? || pc.Write? || pc.ReadFlags? || pc.SetFlag?
  }

  predicate HoldsSend(pc: RPc) {
    pc.Write? || pc.ReadFlags? || pc.SetFlag? || pc.Signal? || pc.UnlockSend?
  }

  predicate HoldsDone(pc: RPc) {
    pc.TestDone? || pc.UnlockDone?
  }

  predicate SenderHoldsSend(pc: SPc) {
    pc.STest? || pc.SNumber? || pc.SLockDone? || pc.SSend? || pc.SSending? || pc.SUnlockSend?
  }

  predicate SenderHoldsDone(pc: SPc) {
    pc.SSend? || pc.SSending? || pc.SUnlockSend? || pc.SClear? || pc.SSignal? || pc.SUnlockDone?
  }

  /** From the successful test of send_flags to its clearing. */
  predicate Committed(pc: SPc) {
    pc.SNumber? || pc.SLockDone? || pc.SSend? || pc.SSending? || pc.SUnlockSend? || pc.SClear?
  }

  ghost predicate Stored(cfg: Config, s: State, r: nat, k: nat, upto: nat)
    requires Shape(cfg, s) && r < cfg.n && upto <= cfg.slots
  {
    forall j :: 0 <= j < upto ==> s.payload[r][j] == cfg.packet(r, k, j)
  }

  /** What holds of receiver r. */
  ghost predicate RInv(cfg: Config, s: State, r: nat)
    requires Shape(cfg, s) && r < cfg.n
  {
    var pc, k := s.rs[r].pc, s.rs[r].k;
    && (s.sendLock == Receiver(r) <==> HoldsSend(pc))
    && (s.doneLock == Receiver(r) <==> HoldsDone(pc))
    && (Before(pc) ==> r !in s.flags && k == s.rounds)
    && (!Before(pc) && r in s.flags ==> k == s.rounds && Stored(cfg, s, r, k, cfg.slots))
    && (!Before(pc) && r !in s.flags ==> k + 1 == s.rounds)
    && (pc.Write? ==> pc.i <= cfg.slots && Stored(cfg, s, r, k, pc.i))
    && (pc.ReadFlags? || pc.SetFlag? ==> Stored(cfg, s, r, k, cfg.slots))
    && (pc.SetFlag? ==> pc.seen == s.flags)
    && (pc.Signal? || pc.UnlockSend? ==> r in s.flags)
    && (pc.UnlockDone? ==> r !in s.flags)
    && (pc == WaitDone(false) ==> r in s.flags || s.spc.SSignal?)
    && (s.spc.SClear? || s.spc.SSignal? || s.spc.SUnlockDone? ==> pc.LockDone? || pc.WaitDone?)
  }

  ghost predicate SomeSignal(s: State) {
    exists r :: 0 <= r < |s.rs| && s.rs[r].pc.Signal?
  }

  ghost predicate FramesInv(cfg: Config, s: State) {
    && (forall k :: 0 <= k < |s.frames| ==> s.frames[k] == Frame(k % 0x1_0000_0000, Packets(cfg, k)))
    && |s.frames| == s.rounds + (if s.spc.SUnlockSend? || s.spc.SClear? then 1 else 0)
    && (if s.spc.SLockDone? || s.spc.SSend? || s.spc.SSending?
        then s.number == |s.frames| % 0x1_0000_0000 && s.counter == (|s.frames| + 1) % 0x1_0000_0000
        else s.counter == |s.frames| % 0x1_0000_0000)
    && (s.spc.SSending? ==> s.spc.atStart == s.payload)
  }

  /** What holds of the sender. */
  ghost predicate SInv(cfg: Config, s: State) {
    && (s.sendLock == Sender <==> SenderHoldsSend(s.spc))
    && (s.doneLock == Sender <==> SenderHoldsDone(s.spc))
    && (Committed(s.spc) ==> s.flags == Below(cfg.n))
    && (s.spc.SSignal? || s.spc.SUnlockDone? ==> s.flags == {})
    && (s.spc == SWait(false) ==> s.flags != Below(cfg.n) || SomeSignal(s))
    && s.flags <= Below(cfg.n)
    && (s.sendLock.Receiver? ==> s.sendLock.r < cfg.n)
    && (s.doneLock.Receiver? ==> s.doneLock.r < cfg.n)
  }

  ghost predicate Inv(cfg: Config, s: State) {
    && Shape(cfg, s)
    && SInv(cfg, s)
    && FramesInv(cfg, s)
    && forall r :: 0 <= r < cfg.n ==> RInv(cfg, s, r)
  }

  lemma InitInv(cfg: Config, s: State)
    requires Init(cfg, s)
    ensures Inv(cfg, s)
  {
  }

  /** What the invariant of receiver q depends on is the same in both states. */
  predicate SameFor(cfg: Config, s: State, t: State, q: nat)
    requires Shape(cfg, s) && Shape(cfg, t) && q < cfg.n
  {
    && t.rs[q] == s.rs[q] && t.payload[q] == s.payload[q] && t.rounds == s.rounds
    && (q in t.flags <==> q in s.flags) && (s.rs[q].pc.SetFlag? ==> t.flags == s.flags)
    && (t.sendLock == Receiver(q) <==> s.sendLock == Receiver(q))
    && (t.doneLock == Receiver(q) <==> s.doneLock == Receiver(q))
    && (t.spc == s.spc || (t.spc.SWait? && s.spc.SWait?))
  }

  lemma SameKeepsReceiver(cfg: Config, s: State, t: State, q: nat)
    requires Shape(cfg, s) && Shape(cfg, t) && q < cfg.n && RInv(cfg, s, q) && SameFor(cfg, s, t, q)
    ensures RInv(cfg, t, q)
  {
  }

  lemma StepIsSame(cfg: Config, s: State, r: nat, q: nat)
    requires Shape(cfg, s) && r < cfg.n && q < cfg.n && q != r && RInv(cfg, s, r) && RInv(cfg, s, q)
    requires RecvStep(cfg, s, r).Some?
    ensures SameFor(cfg, s, RecvStep(cfg, s, r).value, q)
  {
    hide Stored;
  }

  lemma RecvKeepsOther(cfg: Config, s: State, r: nat, q: nat)
    requires Inv(cfg, s) && r < cfg.n && q < cfg.n && q != r && RecvStep(cfg, s, r).Some?
    ensures RInv(cfg, RecvStep(cfg, s, r).value, q)
  {
    assert Shape(cfg, s) && RInv(cfg, s, r) && RInv(cfg, s, q);
    hide *;
    StepIsSame(cfg, s, r, q);
    SameKeepsReceiver(cfg, s, RecvStep(cfg, s, r).value, q);
  }

  lemma RecvKeepsOwn(cfg: Config, s: State, r: nat)
    requires Inv(cfg, s) && r < cfg.n && RecvStep(cfg, s, r).Some?
    ensures RInv(cfg, RecvStep(cfg, s, r).value, r)
  {
    assert RInv(cfg, s, r);
  }

  lemma RecvKeepsFrames(cfg: Config, s: State, r: nat)
    requires Inv(cfg, s) && r < cfg.n && RecvStep(cfg, s, r).Some?
    ensures FramesInv(cfg, RecvStep(cfg, s, r).value)
  {
    hide Packets;
    assert RInv(cfg, s, r);
  }

  lemma RecvKeepsSender(cfg: Config, s: State, r: nat)
    requires Inv(cfg, s) && r < cfg.n && RecvStep(cfg, s, r).Some?
    ensures SInv(cfg, RecvStep(cfg, s, r).value)
  {
    hide FramesInv, Stored, Packets;
    var t := RecvStep(cfg, s, r).value;
    assert RInv(cfg, s, r);
    if s.rs[r].pc.SetFlag? {
      assert t.rs[r].pc.Signal?;
    } else if SomeSignal(s) && !s.rs[r].pc.Signal? {
      var q :| 0 <= q < |s.rs| && s.rs[q].pc.Signal?;
      assert t.rs[q].pc.Signal?;
    }
  }

  lemma RecvKeepsInv(cfg: Config, s: State, r: nat)
    requires Inv(cfg, s) && r < cfg.n && RecvStep(cfg, s, r).Some?
    ensures Inv(cfg, RecvStep(cfg, s, r).value)
  {
    hide RInv, SInv, FramesInv;
    var t := RecvStep(cfg, s, r).value;
    RecvKeepsSender(cfg, s, r);
    RecvKeepsFrames(cfg, s, r);
    forall q | 0 <= q < cfg.n
      ensures RInv(cfg, t, q)
    {
      if q == r { RecvKeepsOwn(cfg, s, r); } else { RecvKeepsOther(cfg, s, r, q); }
    }
  }

  /** When the sender is committed the frame holds the current packet of every receiver. */
  lemma CommittedPayload(cfg: Config, s: State)
    requires Inv(cfg, s) && Committed(s.spc)
    ensures s.payload == Packets(cfg, s.rounds)
  {
    forall r | 0 <= r < cfg.n
      ensures s.payload[r] == Packet(cfg, r, s.rounds)
    {
      assert RInv(cfg, s, r);
    }
  }

  lemma SendKeepsSender(cfg: Config, s: State)
    requires Inv(cfg, s) && SendStep(cfg, s).Some?
    ensures SInv(cfg, SendStep(cfg, s).value)
  {
    hide FramesInv, RInv, Packets;
  }

  lemma SendKeepsFrames(cfg: Config, s: State)
    requires Inv(cfg, s) && SendStep(cfg, s).Some?
    ensures FramesInv(cfg, SendStep(cfg, s).value)
  {
    assert Shape(cfg, s) && FramesInv(cfg, s);
    if s.spc.SSending? { CommittedPayload(cfg, s); }
    hide *;
    StepKeepsFrames(cfg, s);
  }

  lemma StepKeepsFrames(cfg: Config, s: State)
    requires Shape(cfg, s) && FramesInv(cfg, s) && SendStep(cfg, s).Some?
    requires s.spc.SSending? ==> s.payload == Packets(cfg, s.rounds)
    ensures FramesInv(cfg, SendStep(cfg, s).value)
  {
    hide Packets, Below, Wake;
    NextNumber(|s.frames|);
    var t := SendStep(cfg, s).value;
    if s.spc.SSending? {
      assert t.frames == s.frames + [Frame(s.number, s.payload)] && s.rounds == |s.frames|;
    } else {
      assert t.frames == s.frames;
    }
  }

  lemma NextNumber(n: nat)
    ensures (n % 0x1_0000_0000 + 1) % 0x1_0000_0000 == (n + 1) % 0x1_0000_0000
  {
  }

  lemma SendKeepsInv(cfg: Config, s: State)
    requires Inv(cfg, s) && SendStep(cfg, s).Some?
    ensures Inv(cfg, SendStep(cfg, s).value)
  {
    var t := SendStep(cfg, s).value;
    SendKeepsSender(cfg, s);
    SendKeepsFrames(cfg, s);
    hide SInv, FramesInv;
    forall q | 0 <= q < cfg.n
      ensures RInv(cfg, t, q)
    {
      SendKeepsReceiver(cfg, s, q);
    }
  }

  lemma SendKeepsReceiver(cfg: Config, s: State, q: nat)
    requires Inv(cfg, s) && SendStep(cfg, s).Some? && q < cfg.n
    ensures RInv(cfg, SendStep(cfg, s).value, q)
  {
    assert RInv(cfg, s, q);
  }

  lemma SpuriousKeepsInv(cfg: Config, s: State, t: Thread)
    requires Inv(cfg, s) && (t.R? ==> t.r < cfg.n) && SpuriousWake(cfg, s, t).Some?
    ensures Inv(cfg, SpuriousWake(cfg, s, t).value)
  {
    var u := SpuriousWake(cfg, s, t).value;
    if SomeSignal(s) {
      var r :| 0 <= r < |s.rs| && s.rs[r].pc.Signal?;
      assert u.rs[r].pc.Signal?;
    }
    forall q | 0 <= q < cfg.n
      ensures RInv(cfg, u, q)
    {
      assert RInv(cfg, s, q);
    }
  }

  lemma NextKeepsInv(cfg: Config, s: State, t: Thread, spurious: bool)
    requires Inv(cfg, s) && (t.R? ==> t.r < cfg.n) && Next(cfg, s, t, spurious).Some?
    ensures Inv(cfg, Next(cfg, s, t, spurious).value)
  {
    if spurious {
      SpuriousKeepsInv(cfg, s, t);
    } else if t.R? {
      RecvKeepsInv(cfg, s, t.r);
    } else {
      SendKeepsInv(cfg, s);
    }
  }

  // ---- what every interleaving guarantees

  function Execution(cfg: Config, init: State, choices: seq<Choice>): (s: State)
    requires Init(cfg, init)
    ensures Inv(cfg, s)
  {
    InitInv(cfg, init);
    Run(cfg, init, choices)
  }

  /** Frame k carries sequence number k modulo 2^32 and packet k of every receiver. */
  lemma FramesAreRounds(cfg: Config, init: State, choices: seq<Choice>, k: nat)
    requires Init(cfg, init)
    requires k < |Execution(cfg, init, choices).frames|
    ensures Execution(cfg, init, choices).frames[k] == Frame(k % 0x1_0000_0000, Packets(cfg, k))
  {
  }

  /** While the frame is being sent no receiver is storing into it, and it does not change. */
  lemma NoStoreWhileSending(cfg: Config, init: State, choices: seq<Choice>, r: nat)
    requires Init(cfg, init) && r < cfg.n
    ensures var s := Execution(cfg, init, choices);
            && (s.spc.SSending? ==> s.spc.atStart == s.payload)
            && (s.spc.SSend? || s.spc.SSending? ==> !s.rs[r].pc.Write?)
  {
    assert RInv(cfg, Execution(cfg, init, choices), r);
  }

  /**
   send_flags is set under send_lock and cleared under done_send_lock. No receiver is between
   its reading and its writing of send_flags when the sender is about to clear it, and the
   value a receiver read is still the value of send_flags when it writes.
   */
  lemma SettingNeverOverlapsClearing(cfg: Config, init: State, choices: seq<Choice>, r: nat)
    requires Init(cfg, init) && r < cfg.n
    ensures var s := Execution(cfg, init, choices);
            && (s.spc.SClear? ==> !s.rs[r].pc.ReadFlags? && !s.rs[r].pc.SetFlag?)
            && (s.rs[r].pc.SetFlag? ==> s.rs[r].pc.seen == s.flags)
  {
    assert RInv(cfg, Execution(cfg, init, choices), r);
  }

  /** A thread that can take a step, in every reachable state where no receiver is waiting for samples. */
  lemma NotDeadlocked(cfg: Config, s: State) returns (t: Thread)
    requires Inv(cfg, s) && forall r :: 0 <= r < cfg.n ==> !s.rs[r].pc.Idle?
    ensures (t.R? ==> t.r < cfg.n) && Next(cfg, s, t, false).Some?
  {
    if SendStep(cfg, s).Some? {
      t := S;
    } else if s.sendLock.Receiver? {
      assert RInv(cfg, s, s.sendLock.r);
      t := R(s.sendLock.r);
    } else if s.doneLock.Receiver? {
      assert RInv(cfg, s, s.doneLock.r);
      t := R(s.doneLock.r);
    } else {
      NoSignalWithoutLock(cfg, s);
      var r: nat := Unflagged(cfg.n, s.flags);
      assert RInv(cfg, s, r);
      t := R(r);
    }
  }

  lemma NoSignalWithoutLock(cfg: Config, s: State)
    requires Inv(cfg, s) && !s.sendLock.Receiver?
    ensures !SomeSignal(s)
  {
    forall r | 0 <= r < |s.rs|
      ensures !s.rs[r].pc.Signal?
    {
      assert RInv(cfg, s, r);
    }
  }

  lemma Unflagged(n: nat, flags: set<nat>) returns (r: nat)
    requires flags <= Below(n) && flags != Below(n)
    ensures r < n && r !in flags
  {
    r :| r in Below(n) && r !in flags;
  }

  // ---- every round completes

  /** Steps receiver r still takes before it waits for samples again. */
  function RRank(slots: nat, pc: RPc, flagged: bool): nat {
    match pc
    case Idle => 0
    case UnlockDone => 1
    case TestDone => if flagged then 5 else 2
    case WaitDone(woken) => if !flagged then 3 else if woken then 6 else 4
    case LockDone => if flagged then 6 else 3
    case UnlockSend => 7
    case Signal => 8
    case SetFlag(_) => 9
    case ReadFlags => 10
    case Write(i) => 11 + (if i < slots then slots - i else 0)
    case LockSend => 12 + slots
  }

  /** Steps the sender still takes before it waits for flags. */
  function SRank(pc: SPc, full: bool): nat {
    match pc
    case SWait(woken) => if !woken then 0 else if full then 12 else 2
    case SLockSend => if full then 12 else 2
    case STest => if full then 11 else 1
    case SNumber => 10
    case SLockDone => 9
    case SSend => 8
    case SSending(_) => 7
    case SUnlockSend => 6
    case SClear => 5
    case SSignal => 4
    case SUnlockDone => 3
  }

  function Ranks(cfg: Config, s: State, n: nat): nat
    requires Shape(cfg, s) && n <= cfg.n
  {
    if n == 0 then 0 else Ranks(cfg, s, n - 1) + RRank(cfg.slots, s.rs[n - 1].pc, (n - 1) in s.flags)
  }

  function Pending(cfg: Config, s: State): nat
    requires Shape(cfg, s)
  {
    16 * Ranks(cfg, s, cfg.n) + SRank(s.spc, s.flags == Below(cfg.n))
  }

  predicate NoGreater(cfg: Config, s: State, t: State, r: nat)
    requires Shape(cfg, s) && Shape(cfg, t) && r < cfg.n
  {
    RRank(cfg.slots, t.rs[r].pc, r in t.flags) <= RRank(cfg.slots, s.rs[r].pc, r in s.flags)
  }

  lemma {:induction false} RanksNoGreater(cfg: Config, s: State, t: State, n: nat)
    requires Shape(cfg, s) && Shape(cfg, t) && n <= cfg.n
    requires forall r :: 0 <= r < n ==> NoGreater(cfg, s, t, r)
    ensures Ranks(cfg, t, n) <= Ranks(cfg, s, n)
    ensures forall r :: 0 <= r < n && !NoGreater(cfg, t, s, r) ==> Ranks(cfg, t, n) < Ranks(cfg, s, n)
  {
    if n > 0 {
      RanksNoGreater(cfg, s, t, n - 1);
      assert NoGreater(cfg, s, t, n - 1);
    }
  }

  lemma RecvStepRanks(cfg: Config, s: State, r: nat, q: nat)
    requires Inv(cfg, s) && r < cfg.n && q < cfg.n && !s.rs[r].pc.Idle? && RecvStep(cfg, s, r).Some?
    ensures NoGreater(cfg, s, RecvStep(cfg, s, r).value, q)
    ensures q == r ==> !NoGreater(cfg, RecvStep(cfg, s, r).value, s, q)
  {
    assert RInv(cfg, s, r);
  }

  lemma SenderRankBound(pc: SPc, full: bool)
    ensures SRank(pc, full) <= 12
  {
  }

  lemma RecvStepUsesWork(cfg: Config, s: State, r: nat)
    requires Inv(cfg, s) && r < cfg.n && !s.rs[r].pc.Idle? && RecvStep(cfg, s, r).Some?
    ensures Pending(cfg, RecvStep(cfg, s, r).value) < Pending(cfg, s)
  {
    hide RecvStep, NoGreater, SRank, RInv, SInv, FramesInv;
    var u := RecvStep(cfg, s, r).value;
    RecvKeepsInv(cfg, s, r);
    forall q | 0 <= q < cfg.n
      ensures NoGreater(cfg, s, u, q)
    {
      RecvStepRanks(cfg, s, r, q);
    }
    RecvStepRanks(cfg, s, r, r);
    RanksNoGreater(cfg, s, u, cfg.n);
    SenderRankBound(u.spc, u.flags == Below(cfg.n));
  }

  lemma SendStepUsesWork(cfg: Config, s: State)
    requires Inv(cfg, s) && SendStep(cfg, s).Some?
    ensures Pending(cfg, SendStep(cfg, s).value) < Pending(cfg, s)
  {
    var u := SendStep(cfg, s).value;
    forall q | 0 <= q < cfg.n
      ensures NoGreater(cfg, s, u, q)
    {
      assert RInv(cfg, s, q);
    }
    assert 0 in Below(cfg.n);
    RanksNoGreater(cfg, s, u, cfg.n);
  }

  /** Every step other than a receiver taking up new samples or a spurious wake-up uses up pending work. */
  lemma StepsUsePendingWork(cfg: Config, s: State, t: Thread)
    requires Inv(cfg, s) && (t.R? ==> t.r < cfg.n && !s.rs[t.r].pc.Idle?) && Next(cfg, s, t, false).Some?
    ensures Pending(cfg, Next(cfg, s, t, false).value) < Pending(cfg, s)
  {
    if t.R? { RecvStepUsesWork(cfg, s, t.r); } else { SendStepUsesWork(cfg, s); }
  }

  /** Every receiver has taken up the samples of the current round. */
  predicate AllTakenUp(cfg: Config, s: State)
    requires Shape(cfg, s)
  {
    forall r :: 0 <= r < cfg.n ==> !s.rs[r].pc.Idle? && s.rs[r].k == s.rounds
  }

  /** The scheduler picks a thread that is not blocked whenever no receiver waits for samples. */
  ghost predicate Schedules(cfg: Config, schedule: State -> Thread) {
    forall v :: Inv(cfg, v) && (forall r :: 0 <= r < cfg.n ==> !v.rs[r].pc.Idle?) ==>
      (schedule(v).R? ==> schedule(v).r < cfg.n) && Next(cfg, v, schedule(v), false).Some?
  }

  lemma StillTakenUp(cfg: Config, s: State, t: Thread)
    requires Inv(cfg, s) && AllTakenUp(cfg, s) && (t.R? ==> t.r < cfg.n) && Next(cfg, s, t, false).Some?
    ensures var u := Next(cfg, s, t, false).value;
            u.rounds == s.rounds + 1 || (u.rounds == s.rounds && AllTakenUp(cfg, u))
  {
    if t.R? { assert RInv(cfg, s, t.r); }
  }

  /**
   Once every receiver has taken up its samples, the frame goes out: whichever unblocked
   threads are scheduled, the round ends, and its frame holds the packets of that round.
   */
  lemma RoundCompletes(cfg: Config, s: State, schedule: State -> Thread) returns (u: State)
    requires Inv(cfg, s) && AllTakenUp(cfg, s) && Schedules(cfg, schedule)
    ensures Inv(cfg, u) && u.rounds == s.rounds + 1
    ensures |u.frames| > s.rounds && u.frames[s.rounds].data == Packets(cfg, s.rounds)
    decreases Pending(cfg, s)
  {
    hide RInv, SInv, RecvStep, SendStep;
    var t := schedule(s);
    assert (t.R? ==> t.r < cfg.n) && Next(cfg, s, t, false).Some?;
    NextKeepsInv(cfg, s, t, false);
    StepsUsePendingWork(cfg, s, t);
    StillTakenUp(cfg, s, t);
    u := Next(cfg, s, t, false).value;
    if u.rounds == s.rounds {
      u := RoundCompletes(cfg, u, schedule);
    }
  }
}
