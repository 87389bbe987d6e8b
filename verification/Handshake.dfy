/** The asynchronous REQ/ACK handshake as interleaved steps of a target and an initiator that
    share the REQ, ACK and data lines. Each wait is a step that is enabled once its signal has the
    awaited level, or may time out as long as it has not. */
module Handshake {
  import opened ImageFiles
  import opened Wrappers

  /** Inbound transfers go from the target to the initiator. `chunkEnds` are the byte counts at
      which the target leaves its send loop and is called again for the next chunk. In a MESSAGE OUT
      transfer the initiator holds ATN until the last byte. */
  datatype Transfer = Transfer(inbound: bool, message: bool, data: Bytes, chunkEnds: set<nat>)

  datatype TargetStep = Put | Idle | Raise | Wait | Latch | Drop | Drain | Stopped
  datatype InitiatorStep = PutI | WaitI | TakeI | RaiseI | HoldI | DropI | StoppedI

  datatype State = State(
    req: bool, ack: bool, atn: bool, dat: byte,
    target: TargetStep, counted: nat, targetQuit: bool,
    initiator: InitiatorStep, countedI: nat, initiatorQuit: bool,
    received: Bytes)

  predicate Idling(x: Transfer, s: State) {
    && !s.req && !s.ack && (s.atn <==> x.message && x.data != []) && s.counted == s.countedI == 0 && !s.targetQuit
    && !s.initiatorQuit && s.received == []
    && s.target
       == (if x.inbound then (if x.data == [] then Drain else Put) else if x.data == [] then Stopped else Raise)
    && s.initiator == (if x.data == [] then StoppedI else if x.inbound then WaitI else PutI)
  }

  /** SendHandShake of the target. */
  function SendStep(x: Transfer, s: State): Option<State>
    requires s.counted <= |x.data|
  {
    match s.target
    case Put => if s.counted < |x.data| then Some(s.(dat := x.data[s.counted], target := Idle)) else None
    case Idle => if s.ack then None else Some(s.(target := Raise))
    case Raise => Some(s.(req := true, target := Wait))
    case Wait => if s.ack then Some(s.(target := Drop)) else None
    case Drop =>
      var n := s.counted + 1;
      Some(s.(req := false, counted := n, target := if n >= |x.data| || n in x.chunkEnds then Drain else Put))
    case Drain => if s.ack then None else Some(s.(target := AfterDrain(x, s)))
    case _ => None
  }

  function AfterDrain(x: Transfer, s: State): TargetStep {
    if s.targetQuit || s.counted >= |x.data| then Stopped else Put
  }

  /** ReceiveHandShake of the target. */
  function ReceiveStep(x: Transfer, s: State): Option<State> {
    match s.target
    case Raise => Some(s.(req := true, target := Wait))
    case Wait => if s.ack then Some(s.(target := Latch)) else None
    case Latch => Some(s.(received := s.received + [s.dat], target := Drop))
    case Drop => Some(s.(req := false, target := Idle))
    case Idle =>
      if s.ack then None
      else Some(s.(counted := s.counted + 1, target := if s.counted + 1 >= |x.data| then Stopped else Raise))
    case _ => None
  }

  /** ReceiveHandShake of the initiator. */
  function ReceiveStepI(x: Transfer, s: State): Option<State> {
    match s.initiator
    case WaitI => if s.req then Some(s.(initiator := TakeI)) else None
    case TakeI => Some(s.(received := s.received + [s.dat], initiator := RaiseI))
    case RaiseI => Some(s.(ack := true, initiator := HoldI))
    case HoldI => if s.req then None else Some(s.(initiator := DropI))
    case DropI =>
      Some(s.(ack := false, countedI := s.countedI + 1,
              initiator := if s.countedI + 1 >= |x.data| then StoppedI else WaitI))
    case _ => None
  }

  /** SendHandShake of the initiator. */
  function SendStepI(x: Transfer, s: State): Option<State> {
    match s.initiator
    case PutI => if s.countedI < |x.data| then Some(s.(dat := x.data[s.countedI], initiator := WaitI)) else None
    case WaitI =>
      if s.req then Some(s.(atn := s.atn && !(x.message && s.countedI == |x.data| - 1), initiator := RaiseI)) else None
    case RaiseI => Some(s.(ack := true, initiator := HoldI))
    case HoldI => if s.req then None else Some(s.(initiator := DropI))
    case DropI =>
      Some(s.(ack := false, countedI := s.countedI + 1,
              initiator := if s.countedI + 1 >= |x.data| then StoppedI else PutI))
    case _ => None
  }

  function StepT(x: Transfer, s: State): Option<State>
    requires s.counted <= |x.data|
  {
    if x.inbound then SendStep(x, s) else ReceiveStep(x, s)
  }

  function StepI(x: Transfer, s: State): Option<State> {
    if x.inbound then ReceiveStepI(x, s) else SendStepI(x, s)
  }

  /** A wait of the target fails. Only the wait after the last byte of a chunk ignores this. */
  function TimeoutT(x: Transfer, s: State): Option<State> {
    if x.inbound then
      match s.target
      case Idle => if s.ack then Some(s.(target := Drain, targetQuit := true)) else None
      case Wait => if s.ack then None else Some(s.(req := false, target := Drain, targetQuit := true))
      case Drain => if s.ack then Some(s.(target := AfterDrain(x, s))) else None
      case _ => None
    else
      match s.target
      case Wait => if s.ack then None else Some(s.(req := false, target := Stopped, targetQuit := true))
      case Idle => if s.ack then Some(s.(target := Stopped, targetQuit := true)) else None
      case _ => None
  }

  function TimeoutI(x: Transfer, s: State): Option<State> {
    match s.initiator
    case WaitI => if s.req then None else Some(s.(initiator := StoppedI, initiatorQuit := true))
    case HoldI => if s.req then Some(s.(ack := false, initiator := StoppedI, initiatorQuit := true)) else None
    case _ => None
  }

  predicate Next(x: Transfer, s: State, s': State) {
    && s.counted <= |x.data|
    && (|| StepT(x, s) == Some(s')
        || StepI(x, s) == Some(s')
        || TimeoutT(x, s) == Some(s')
        || TimeoutI(x, s) == Some(s'))
  }

  ghost predicate Run(x: Transfer, run: seq<State>) {
    && |run| > 0 && Idling(x, run[0])
    && forall k :: 0 <= k < |run| - 1 ==> Next(x, run[k], run[k + 1])
  }

  /** The target has given up its transfer. */
  predicate Gone(s: State) {
    s.targetQuit && s.target in {Drain, Stopped}
  }

  /** The target has counted the byte that the initiator is about to count. */
  predicate TargetAhead(s: State) {
    s.target in {Put, Idle, Drain, Stopped}
  }

  /** How far the two parties can be apart when the target sends. */
  ghost predicate InStep(x: Transfer, s: State) {
    var n := |x.data|;
    && s.counted <= n && s.countedI <= n
    && s.target != Latch && s.initiator != PutI
    && (s.req <==> s.target in {Wait, Drop})
    && (s.ack <==> s.initiator in {HoldI, DropI})
    && (s.target in {Put, Idle, Raise, Wait, Drop} ==> s.counted < n && !s.targetQuit)
    && (s.target in {Idle, Raise, Wait, Drop} ==> s.dat == x.data[s.counted])
    && (s.target == Stopped ==> s.targetQuit || s.counted == n)
    && (s.targetQuit ==> s.counted < n)
    && (s.initiator != StoppedI ==> !s.initiatorQuit && s.countedI < n)
    && (match s.initiator
        case WaitI => (s.counted == s.countedI && s.target != Drop) || (Gone(s) && s.countedI == s.counted + 1)
        case TakeI => s.counted == s.countedI && s.dat == x.data[s.countedI] && (s.target == Wait || Gone(s))
        case RaiseI => s.counted == s.countedI && (s.target == Wait || Gone(s))
        case HoldI =>
          || (s.counted == s.countedI && (s.target in {Wait, Drop} || Gone(s)))
          || (s.counted == s.countedI + 1 && TargetAhead(s))
        case DropI => (s.counted == s.countedI && Gone(s)) || (s.counted == s.countedI + 1 && TargetAhead(s))
        case _ =>
          s.initiatorQuit || (s.countedI == n && ((s.counted == n && s.target in {Drain, Stopped}) || Gone(s))))
    && s.received <= x.data
    && s.counted <= |s.received| && (s.target == Drop ==> s.counted < |s.received|)
    && (if s.initiatorQuit then s.countedI <= |s.received|
        else |s.received| == s.countedI + if s.initiator in {RaiseI, HoldI, DropI} then 1 else 0)
  }

  /** The initiator has seen the request for its last byte. */
  predicate LastAnnounced(n: nat, s: State) {
    s.countedI >= n || (s.countedI == n - 1 && s.initiator in {RaiseI, HoldI, DropI})
  }

  /** The initiator may have completed a byte of which the target has given up. */
  predicate Unanswered(s: State) {
    s.targetQuit && s.initiator !in {RaiseI, HoldI, DropI}
  }

  /** How far the two parties can be apart when the initiator sends. */
  ghost predicate OutStep(x: Transfer, s: State) {
    var n := |x.data|;
    && s.counted <= n && s.countedI <= n
    && s.target !in {Put, Drain} && s.initiator != TakeI
    && (s.req <==> s.target in {Wait, Latch, Drop})
    && (s.ack <==> s.initiator in {HoldI, DropI})
    && (s.target != Stopped ==> s.counted < n && !s.targetQuit)
    && (s.target == Stopped ==> s.targetQuit || s.counted == n)
    && (s.initiator != StoppedI ==> !s.initiatorQuit && s.countedI < n)
    && (s.initiator in {WaitI, RaiseI, HoldI, DropI} ==> s.dat == x.data[s.countedI])
    && (s.target == Latch ==> s.dat == x.data[s.counted])
    && (s.targetQuit ||
        match s.initiator
        case PutI => (s.counted == s.countedI && s.target in {Raise, Wait})
          || (s.counted + 1 == s.countedI && s.target == Idle)
        case WaitI => (s.counted == s.countedI && s.target in {Raise, Wait})
          || (s.counted + 1 == s.countedI && s.target == Idle)
        case RaiseI => s.counted == s.countedI && s.target == Wait
        case HoldI => s.counted == s.countedI && s.target in {Wait, Latch, Drop, Idle}
        case DropI => s.counted == s.countedI && s.target == Idle
        case _ =>
          s.initiatorQuit || (s.countedI == n && (s.counted == n || (s.counted + 1 == n && s.target == Idle))))
    && (s.initiatorQuit || s.atn == (x.message && !LastAnnounced(n, s)))
    && s.received <= x.data
    && s.countedI <= |s.received| + (if Unanswered(s) then 1 else 0)
    && (if s.targetQuit then s.counted <= |s.received|
        else |s.received| == s.counted + if s.target in {Drop, Idle} then 1 else 0)
  }

  ghost predicate Inv(x: Transfer, s: State) {
    if x.inbound then InStep(x, s) else OutStep(x, s)
  }

  lemma SendKeeps(x: Transfer, s: State)
    requires x.inbound && InStep(x, s) && SendStep(x, s).Some?
    ensures InStep(x, SendStep(x, s).value)
  {
    match s.target
    case Put =>
    case Idle =>
    case Raise =>
    case Wait =>
    case Drop =>
    case _ =>
  }

  lemma ReceiveKeeps(x: Transfer, s: State)
    requires !x.inbound && OutStep(x, s) && ReceiveStep(x, s).Some?
    ensures OutStep(x, ReceiveStep(x, s).value)
  {
    match s.target
    case Raise =>
    case Wait =>
    case Latch =>
    case Drop =>
    case _ =>
  }

  lemma ReceiveIKeeps(x: Transfer, s: State)
    requires x.inbound && InStep(x, s) && ReceiveStepI(x, s).Some?
    ensures InStep(x, ReceiveStepI(x, s).value)
  {
    match s.initiator
    case WaitI =>
    case TakeI =>
    case RaiseI =>
    case HoldI =>
    case _ =>
  }

  lemma SendIKeeps(x: Transfer, s: State)
    requires !x.inbound && OutStep(x, s) && SendStepI(x, s).Some?
    ensures OutStep(x, SendStepI(x, s).value)
  {
    match s.initiator
    case PutI =>
    case WaitI =>
    case RaiseI =>
    case HoldI =>
    case _ =>
  }

  lemma StepKeeps(x: Transfer, s: State, s': State)
    requires Inv(x, s) && s.counted <= |x.data| && (StepT(x, s) == Some(s') || StepI(x, s) == Some(s'))
    ensures Inv(x, s')
  {
    hide InStep, OutStep, SendStep, ReceiveStep, SendStepI, ReceiveStepI;
    if StepT(x, s) == Some(s') {
      if x.inbound { SendKeeps(x, s); } else { ReceiveKeeps(x, s); }
    } else {
      if x.inbound { ReceiveIKeeps(x, s); } else { SendIKeeps(x, s); }
    }
  }

  lemma TimeoutKeeps(x: Transfer, s: State, s': State)
    requires Inv(x, s) && (TimeoutT(x, s) == Some(s') || TimeoutI(x, s) == Some(s'))
    ensures Inv(x, s')
  {
  }

  lemma {:induction false} RunKeepsInv(x: Transfer, run: seq<State>)
    requires Run(x, run)
    ensures Inv(x, run[|run| - 1])
  {
    if |run| > 1 {
      var prefix := run[..|run| - 1];
      RunKeepsInv(x, prefix);
      var s, s' := run[|run| - 2], run[|run| - 1];
      assert Next(x, s, s');
      if StepT(x, s) == Some(s') || StepI(x, s) == Some(s') {
        StepKeeps(x, s, s');
      } else {
        TimeoutKeeps(x, s, s');
      }
    }
  }

  /** The number of bytes the receiving party reports. */
  function Reported(x: Transfer, s: State): nat {
    if x.inbound then s.countedI else s.counted
  }

  /** The number of bytes the sending party reports. */
  function ReportedBySender(x: Transfer, s: State): nat {
    if x.inbound then s.counted else s.countedI
  }

  /** Safety of every run, with timeouts at any wait: what the receiver reports is what the sender
      put on the bus, byte for byte and each byte once. A target that sends reports no byte that the
      initiator has not taken, and an initiator at most one, the byte in which the target has given up. */
  lemma ReportedBytesAreSent(x: Transfer, run: seq<State>)
    requires Run(x, run)
    ensures var s := run[|run| - 1];
            && Reported(x, s) <= |s.received| <= |x.data|
            && s.received[..Reported(x, s)] == x.data[..Reported(x, s)]
            && ReportedBySender(x, s) <= |s.received| + (if !x.inbound && s.targetQuit then 1 else 0)
  {
    RunKeepsInv(x, run);
  }

  /** No party waits forever for the other one: in any run it can continue, or its wait can time out. Then it has
      given up, unless it had completed its chunk. */
  lemma NobodyIsStuck(x: Transfer, run: seq<State>)
    requires Run(x, run)
    ensures var s := run[|run| - 1];
            && s.counted <= |x.data|
            && (s.target != Stopped ==> StepT(x, s).Some? || TimeoutT(x, s).Some?)
            && (s.initiator != StoppedI ==> StepI(x, s).Some? || TimeoutI(x, s).Some?)
            && (TimeoutT(x, s).Some? ==> TimeoutT(x, s).value.targetQuit || s.target == Drain)
            && (TimeoutI(x, s).Some? ==>
                  TimeoutI(x, s).value.initiatorQuit && TimeoutI(x, s).value.initiator == StoppedI)
  {
    RunKeepsInv(x, run);
    var s := run[|run| - 1];
    hide Run;
    NotStuck(x, s);
  }

  lemma NotStuck(x: Transfer, s: State)
    requires Inv(x, s)
    ensures s.counted <= |x.data|
    ensures s.target != Stopped ==> StepT(x, s).Some? || TimeoutT(x, s).Some?
    ensures s.initiator != StoppedI ==> StepI(x, s).Some? || TimeoutI(x, s).Some?
    ensures TimeoutT(x, s).Some? ==> TimeoutT(x, s).value.targetQuit || s.target == Drain
    ensures TimeoutI(x, s).Some? ==> TimeoutI(x, s).value.initiatorQuit && TimeoutI(x, s).value.initiator == StoppedI
  {
  }

  // Progress.

  function Rank(x: Transfer, t: TargetStep): nat {
    match t
    case Drain => 6
    case Put => 5
    case Idle => if x.inbound then 4 else 1
    case Raise => if x.inbound then 3 else 5
    case Wait => if x.inbound then 2 else 4
    case Latch => 3
    case Drop => if x.inbound then 1 else 2
    case Stopped => 0
  }

  function TargetWork(x: Transfer, s: State): nat {
    if s.target == Stopped then 0
    else (if s.targetQuit || s.counted > |x.data| then 0 else 8 * (|x.data| - s.counted) + 8) + Rank(x, s.target)
  }

  function InitiatorWork(x: Transfer, s: State): nat {
    if s.initiator == StoppedI || s.countedI > |x.data| then 0
    else
      8 * (|x.data| - s.countedI)
      + match s.initiator
        case PutI => 6
        case WaitI => 5
        case TakeI => 4
        case RaiseI => 3
        case HoldI => 2
        case _ => 1
  }

  function Work(x: Transfer, s: State): nat {
    TargetWork(x, s) + InitiatorWork(x, s)
  }

  lemma StepTWorks(x: Transfer, s: State, s': State)
    requires Inv(x, s) && (StepT(x, s) == Some(s') || TimeoutT(x, s) == Some(s'))
    ensures Work(x, s') < Work(x, s)
  {
    match s.target
    case Put =>
    case Idle =>
    case Raise =>
    case Wait =>
    case Latch =>
    case Drop =>
    case _ =>
  }

  lemma StepIWorks(x: Transfer, s: State, s': State)
    requires Inv(x, s) && (StepI(x, s) == Some(s') || TimeoutI(x, s) == Some(s'))
    ensures Work(x, s') < Work(x, s)
  {
    match s.initiator
    case PutI =>
    case WaitI =>
    case TakeI =>
    case RaiseI =>
    case HoldI =>
    case _ =>
  }

  /** No run is longer than 16 steps a byte and a constant: every run ends, in any interleaving. */
  lemma {:induction false} RunsEnd(x: Transfer, run: seq<State>)
    requires Run(x, run)
    ensures |run| + Work(x, run[|run| - 1]) <= 16 * |x.data| + 21
  {
    if |run| > 1 {
      var prefix := run[..|run| - 1];
      RunsEnd(x, prefix);
      RunKeepsInv(x, prefix);
      var s, s' := run[|run| - 2], run[|run| - 1];
      assert Next(x, s, s');
      if StepT(x, s) == Some(s') || TimeoutT(x, s) == Some(s') {
        StepTWorks(x, s, s');
      } else {
        StepIWorks(x, s, s');
      }
    }
  }

  /** In a run in which nobody timed out, as long as either party is still in its loop one of them
      can take a step; once both have left, every byte has arrived and REQ and ACK are released. */
  lemma RunsDeliver(x: Transfer, run: seq<State>)
    requires Run(x, run)
    requires !run[|run| - 1].targetQuit && !run[|run| - 1].initiatorQuit
    ensures var s := run[|run| - 1];
            if s.target == Stopped && s.initiator == StoppedI then
              && s.received == x.data && s.counted == s.countedI == |x.data|
              && !s.req && !s.ack
            else
              s.counted <= |x.data| && (StepT(x, s).Some? || StepI(x, s).Some?)
  {
    RunKeepsInv(x, run);
    var s := run[|run| - 1];
    if s.target == Stopped && s.initiator == StoppedI {
      assert s.received == x.data[..|s.received|];
    }
  }

  /** Between two bytes of a MESSAGE OUT transfer the target sees ATN exactly while bytes are left:
      it collects the whole message and nothing more. */
  lemma AttentionEndsMessage(x: Transfer, run: seq<State>)
    requires Run(x, run) && !x.inbound && x.message
    requires !run[|run| - 1].targetQuit && !run[|run| - 1].initiatorQuit
    requires run[|run| - 1].target in {Raise, Stopped}
    ensures var s := run[|run| - 1]; s.atn <==> s.counted < |x.data|
  {
    RunKeepsInv(x, run);
  }
}
