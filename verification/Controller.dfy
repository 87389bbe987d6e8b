/** The target side of a SCSI connection: the bus phases of one controller, with its devices reduced
    to what they promise it. */
module Controllers {
  import opened Transfers
  import opened Wrappers

  datatype Phase =
    BUS_FREE | ARBITRATION | SELECTION | RESELECTION | COMMAND | DATA_IN | DATA_OUT | STATUS | MSG_IN | MSG_OUT
    | RESERVED

  /** The phase table: the phase that the MSG, C/D and I/O signals stand for. */
  function PhaseOf(msg: bool, cd: bool, io: bool): Phase {
    if !msg then if !cd then if io then DATA_IN else DATA_OUT
                 else if io then STATUS else COMMAND
    else if !cd then RESERVED
    else if io then MSG_IN else MSG_OUT
  }

  /** GetPhase, as any party on the bus sees it. */
  function SeenPhase(sel: bool, bsy: bool, msg: bool, cd: bool, io: bool): Phase {
    if sel then SELECTION else if !bsy then BUS_FREE else PhaseOf(msg, cd, io)
  }

  // Status and message codes
  const GOOD: nat := 0x00
  const CHECK_CONDITION: nat := 0x02
  const INTERMEDIATE: nat := 0x10
  const COMMAND_COMPLETE: nat := 0x00
  const LINKED_COMMAND_COMPLETE: nat := 0x0a
  const LINKED_COMMAND_COMPLETE_WITH_FLAG: nat := 0x0b

  // What the initiator and the devices do

  /** How a device ends the dispatch of a command. The size of a transfer is its total and the number of
      bytes that are moved at a time; without a size all of it is moved at once. A device that sends data may report
      a condition with them, like a tape record of another length, by setting the status to CHECK CONDITION. */
  datatype Outcome =
    | ToStatus(code: nat)
    | ToDataIn(total: nat, size: nat, first: nat, reports: bool)
    | ToDataOut(total: nat, size: nat)
    | ToForcedDataOut
    | Throws

  // What happened on the bus, and what the devices made of the commands

  datatype Event =
    | Enter(phase: Phase)
    | Moved(count: nat)
    | StatusByte(code: nat)
    | MessageByte(code: nat)
    | Received(linked: bool, flag: bool)
    | Executed(outcome: Outcome, sense: bool)
    | Failed
    | Reported
    | ResetSeen

  /** Where a connection stands: the phase, and the byte that was sent in it if it has just one. */
  datatype Stage = At(phase: Phase, byte: Option<nat>) | Broken

  /** The order of phases of section 6.3 of SCSI-2, for a target that does not disconnect. */
  predicate MayFollow(s: Stage, next: Phase)
    requires s.At?
  {
    || next == BUS_FREE
    || (s.phase == BUS_FREE && next == SELECTION)
    || (s.phase == SELECTION && next in {MSG_OUT, COMMAND})
    || (s.phase == MSG_OUT && next == COMMAND)
    || (s.phase == COMMAND && next in {DATA_IN, DATA_OUT, STATUS})
    || (s.phase in {DATA_IN, DATA_OUT} && next == STATUS)
    || (s.phase == STATUS && s.byte.Some? && next == MSG_IN)
    || (s.phase == MSG_IN && next == COMMAND
        && s.byte in {Some(LINKED_COMMAND_COMPLETE), Some(LINKED_COMMAND_COMPLETE_WITH_FLAG)})
  }

  function After(s: Stage, e: Event): Stage {
    if s.Broken? then Broken else
    match e
    case Enter(next) => if MayFollow(s, next) then At(next, None) else Broken
    case Moved(_) => if s.phase in {DATA_IN, DATA_OUT, MSG_OUT} then s else Broken
    case StatusByte(code) => if s == At(STATUS, None) then At(STATUS, Some(code)) else Broken
    case MessageByte(code) => if s == At(MSG_IN, None) then At(MSG_IN, Some(code)) else Broken
    case Received(_, _) => if s == At(COMMAND, None) then s else Broken
    case Executed(_, _) => if s == At(COMMAND, None) then s else Broken
    case Failed => if s.phase in {COMMAND, DATA_IN, DATA_OUT} then s else Broken
    case Reported => if s == At(DATA_IN, None) then s else Broken
    case ResetSeen => if s == At(BUS_FREE, None) then s else Broken
  }

  /** The stage after a trace, Broken if the order of phases or of single bytes was ever violated. */
  function StageOf(trace: seq<Event>): Stage {
    if trace == [] then At(BUS_FREE, None) else After(StageOf(trace[..|trace| - 1]), trace[|trace| - 1])
  }

  /** The data bytes of the command that was received last. */
  function DataMoved(trace: seq<Event>): nat {
    if trace == [] || trace[|trace| - 1] == Enter(COMMAND) then 0
    else DataMoved(trace[..|trace| - 1]) + match trace[|trace| - 1] case Moved(n) => n case _ => 0
  }

  /** What a trace demands of the answer to its last command: the status, whether the command is linked and has
      the flag bit, and whether it has failed. `kept` says that all bytes were as demanded so far. */
  datatype Answer = Answer(status: nat, linked: bool, flag: bool, failed: bool, kept: bool)

  /** A status of GOOD is INTERMEDIATE for a linked command. */
  function StatusFor(a: Answer): nat {
    if a.linked && a.status == 0x00 then 0x10 else a.status
  }

  function MessageFor(a: Answer): nat {
    if !a.linked then 0x00 else if a.flag then 0x0b else 0x0a
  }

  /** The status of a command that was executed. REQUEST SENSE leaves the status as it was. */
  function StatusOf(o: Outcome, sense: bool, before: nat): nat {
    if o.ToStatus? then o.code else if o.ToDataIn? && o.reports then 0x02 else if sense then before else 0x00
  }

  function Demanded(a: Answer, s: Stage, e: Event): Answer {
    match e
    case Enter(p) =>
      if p == BUS_FREE then a.(status := 0x00)
      else if p == COMMAND then
        if s.At? && s.phase == MSG_IN then a.(linked := false, flag := false, failed := false) else a.(failed := false)
      else a
    case Moved(_) => a
    case StatusByte(code) => a.(kept := a.kept && code == StatusFor(a))
    case MessageByte(code) => a.(kept := a.kept && code == MessageFor(a))
    case Received(linked, flag) => a.(linked := linked, flag := flag)
    case Executed(o, sense) => a.(status := StatusOf(o, sense, a.status))
    case Failed => a.(status := 0x02, failed := true)
    case Reported => a.(status := 0x02)
    case ResetSeen => a.(linked := false, flag := false)
  }

  function AnswerOf(trace: seq<Event>): Answer {
    if trace == [] then Answer(0x00, false, false, false, true)
    else
      var before := trace[..|trace| - 1];
      Demanded(AnswerOf(before), StageOf(before), trace[|trace| - 1])
  }

  lemma EnterDemands(a: Answer, s: Stage, p: Phase)
    ensures p == BUS_FREE ==> Demanded(a, s, Enter(p)) == a.(status := 0x00)
    ensures p == COMMAND ==>
              Demanded(a, s, Enter(p))
              == if s.At? && s.phase == MSG_IN then a.(linked := false, flag := false, failed := false)
                 else a.(failed := false)
    ensures p !in {BUS_FREE, COMMAND} ==> Demanded(a, s, Enter(p)) == a
  {
  }

  lemma ResetDemands(a: Answer, s: Stage)
    ensures Demanded(Demanded(a, s, Enter(BUS_FREE)), At(BUS_FREE, None), ResetSeen)
         == a.(status := 0x00, linked := false, flag := false)
    ensures After(At(BUS_FREE, None), ResetSeen) == At(BUS_FREE, None)
  {
  }

  lemma FailureDemands(a: Answer, p: Phase)
    requires p in {COMMAND, DATA_IN, DATA_OUT}
    ensures After(At(p, None), Failed) == At(p, None)
    ensures Demanded(a, At(p, None), Failed) == a.(status := 0x02, failed := true)
  {
  }

  lemma ReportDemands(a: Answer)
    ensures After(At(DATA_IN, None), Reported) == At(DATA_IN, None)
    ensures Demanded(a, At(DATA_IN, None), Reported) == a.(status := 0x02)
  {
  }

  lemma CommandDemands(a: Answer, e: Event)
    ensures e.Received? ==> Demanded(a, At(COMMAND, None), e) == a.(linked := e.linked, flag := e.flag)
    ensures e.Executed? ==>
              Demanded(a, At(COMMAND, None), e) == a.(status := StatusOf(e.outcome, e.sense, a.status))
    ensures e.Received? || e.Executed? ==> After(At(COMMAND, None), e) == At(COMMAND, None)
  {
  }

  lemma StatusIs(o: Outcome, sense: bool, before: nat)
    ensures StatusOf(o, sense, before)
         == if o.ToStatus? then o.code
            else if o.ToDataIn? && o.reports then 0x02 else if sense then before else 0x00
  {
  }

  lemma CommandIs(c: Command, o: Outcome, deferred: bool)
    ensures IsRejected(c) <==> !c.arrives || !c.known || !c.complete || (c.flag && !c.linked)
    ensures !c.arrives || (c.known && !c.complete) ==> CommandPhase(c, o, deferred) == BUS_FREE
    ensures c.arrives && (!c.known || (c.complete && c.flag && !c.linked)) ==> CommandPhase(c, o, deferred) == STATUS
    ensures !IsRejected(c) && deferred && c.requestsSense ==> CommandPhase(c, o, deferred) == DATA_IN
    ensures forall before: nat ::
              CommandStatus(c, o, deferred, before)
              == if IsRejected(c) then 0x02
                 else if deferred && c.requestsSense then before
                 else if o.Throws? then 0x02 else StatusOf(o, c.requestsSense, before)
    ensures Beginning(c, o, deferred)
         == [Enter(COMMAND)]
            + (if c.arrives && c.known && c.complete then [Received(c.linked, c.flag)] else [])
            + (if IsRejected(c) || (deferred && c.requestsSense) then [] else [Executed(o, c.requestsSense)])
  {
  }

  lemma OutcomePhase(c: Command, o: Outcome, deferred: bool)
    requires !IsRejected(c) && !(deferred && c.requestsSense)
    ensures o.ToStatus? || o.Throws? ==> CommandPhase(c, o, deferred) == STATUS
    ensures o.ToDataIn? ==> CommandPhase(c, o, deferred) == if o.first == 0 then STATUS else DATA_IN
    ensures o.ToDataOut? ==> CommandPhase(c, o, deferred) == if o.total == 0 || o.size == 0 then STATUS else DATA_OUT
    ensures o.ToForcedDataOut? ==> CommandPhase(c, o, deferred) == DATA_OUT
  {
  }

  lemma MinIsZero(a: nat, b: nat)
    ensures Min(a, b) == 0 <==> a == 0 || b == 0
  {
  }

  lemma StatusCodes()
    ensures GOOD == 0x00 && CHECK_CONDITION == 0x02 && INTERMEDIATE == 0x10
  {
  }

  /** What the controller expects from its devices: a transfer with a size begins with a full chunk. */
  predicate KeepsContract(o: Outcome) {
    match o
    case ToDataIn(total, size, first, _) => (total == 0 && size == 0) || (size > 0 && first == Min(total, size))
    case ToDataOut(total, size) => total == 0 || size > 0
    case _ => true
  }

  /** The bytes that a command is going to move. */
  function BytesOf(o: Outcome): nat {
    match o
    case ToDataIn(total, _, first, _) => if total == 0 then first else total
    case ToDataOut(total, _) => total
    case _ => 0
  }

  /** What the controller expects of its devices is what it needs to account for their bytes. */
  lemma ContractAccounts(o: Outcome)
    requires KeepsContract(o)
    ensures o.ToDataIn? ==>
              && (o.first == 0 ==> o.total == 0)
              && Accounted(DATA_IN, o.total, o.first, if o.total < o.size then o.total else o.size, BytesOf(o), 0)
    ensures o.ToDataOut? ==>
              && (Min(o.total, o.size) == 0 ==> o.total == 0)
              && Accounted(DATA_OUT, o.total, Min(o.total, o.size), if o.total < o.size then o.total else o.size,
                           BytesOf(o), 0)
    ensures o.ToForcedDataOut? ==> Accounted(DATA_OUT, 0, 0, 0, BytesOf(o), 0)
    ensures o.ToStatus? ==> BytesOf(o) == 0
  {
  }

  /** The command as it arrives: an opcode may be unknown, and bytes may be missing. */
  datatype Command = Command(known: bool, arrives: bool, complete: bool, linked: bool, flag: bool, requestsSense: bool)

  /** The bus signals of the initiator, and how everything ends that is tried during one step. */
  datatype Input = Input(
    sel: bool, atn: bool, rst: bool, handshake: bool, message: nat, command: Command, outcome: Outcome,
      transferFails: bool, reports: bool, transferred: nat)

  /** The only messages of the initiator in this model are IDENTIFY messages. */
  predicate Acceptable(i: Input) {
    KeepsContract(i.outcome) && 0x80 <= i.message < 0x100
  }

  /** A command that the controller itself rejects. Without all of its bytes the bus is reset. */
  predicate IsCut(c: Command) {
    !c.arrives || (c.known && !c.complete)
  }

  predicate IsRejected(c: Command) {
    IsCut(c) || !c.known || (c.flag && !c.linked)
  }

  /** The phase that a command leads to. */
  function CommandPhase(c: Command, o: Outcome, deferred: bool): Phase {
    if IsCut(c) then BUS_FREE
    else if IsRejected(c) then STATUS
    else if deferred && c.requestsSense then DATA_IN
    else
      match o
      case ToStatus(_) => STATUS
      case ToDataIn(_, _, first, _) => if first == 0 then STATUS else DATA_IN
      case ToDataOut(total, size) => if total == 0 || size == 0 then STATUS else DATA_OUT
      case ToForcedDataOut => DATA_OUT
      case Throws => STATUS
  }

  /** The status of the controller behind a command. Sense data of its own leave it as it was. */
  function CommandStatus(c: Command, o: Outcome, deferred: bool, before: nat): nat {
    if IsRejected(c) then 0x02
    else if deferred && c.requestsSense then before
    else if o.Throws? then 0x02 else StatusOf(o, c.requestsSense, before)
  }

  /** What the trace of a command begins with. */
  function Beginning(c: Command, o: Outcome, deferred: bool): seq<Event> {
    if IsCut(c) || !c.known then [Enter(COMMAND)]
    else if IsRejected(c) || (deferred && c.requestsSense) then [Enter(COMMAND), Received(c.linked, c.flag)]
    else [Enter(COMMAND), Received(c.linked, c.flag), Executed(o, c.requestsSense)]
  }

  lemma AcceptableIs(i: Input)
    ensures Acceptable(i) <==> KeepsContract(i.outcome) && 0x80 <= i.message < 0x100
  {
  }

  /** The state of a transfer in which `due` data bytes go over the bus, `moved` of which were moved. */
  predicate Accounted(phase: Phase, remaining: int, current: int, chunk: int, due: nat, moved: nat) {
    && 0 <= current && 0 <= chunk <= remaining && (remaining > 0 ==> chunk > 0)
    && match phase
       case DATA_IN =>
         if remaining == 0 then moved + current == due
         else current in {0, chunk} && moved + remaining == due + (if current == 0 then chunk else 0)
       case DATA_OUT =>
         current in {0, chunk} && moved + remaining == due + (if current == 0 then chunk else 0)
       case STATUS => remaining == chunk == 1 && current <= 1
       case MSG_IN => remaining == chunk == 1 && current <= 1
       case MSG_OUT => remaining == chunk == 1 && current <= 1
       case _ => true
  }

  lemma BytesMove(phase: Phase, remaining: int, current: int, chunk: int, due: nat, moved: nat)
    requires Accounted(phase, remaining, current, chunk, due, moved) && current > 0
    requires phase in {DATA_IN, DATA_OUT, STATUS, MSG_IN, MSG_OUT}
    ensures var now := if phase in {STATUS, MSG_IN} then moved else moved + current;
            Accounted(phase, remaining, 0, chunk, due, now)
  {
  }

  class Controller {
    const transfer: Transfer
    var phase: Phase
    var linked: bool
    var flag: bool
    var atnMsg: bool
    var identifiedLun: int
    var status: nat
    var buffer0: nat
    var msgBytes: seq<nat>
    var deferred: bool

    // The bus signals
    var sel: bool
    var bsy: bool
    var atn: bool
    var rst: bool
    var msg: bool
    var cd: bool
    var io: bool

    ghost var trace: seq<Event>
    ghost var requested: nat
    ghost var due: nat
    ghost var short: bool
    ghost var failed: bool

    constructor ()
      ensures Valid() && phase == BUS_FREE && trace == [] && fresh(transfer)
    {
      transfer := new Transfer();
      phase, linked, flag, atnMsg, identifiedLun, status := BUS_FREE, false, false, false, -1, GOOD;
      buffer0, msgBytes, deferred := 0, [], false;
      sel, bsy, atn, rst, msg, cd, io := false, false, false, false, false, false, false;
      trace, requested, due, short, failed := [], 0, 0, false, false;
    }

    /** The bytes that the command has asked for, and whether a device has taken less than it got. */
    ghost function Asked(): (nat, bool)
      reads this`requested, this`short
    {
      (requested, short)
    }

    /** More bytes than a command has asked for go over the bus only after a short transfer. */
    ghost predicate Balanced()
      reads this`requested, this`due, this`short
    {
      requested <= due && (short <==> due != requested)
    }

    /** The code of the only byte of a STATUS or MESSAGE IN phase, once it was sent. */
    ghost function ByteSent(): Option<nat>
      reads this`phase, this`buffer0, transfer`currentLength
    {
      if phase in {STATUS, MSG_IN} && transfer.currentLength == 0 then Some(buffer0) else None
    }

    /** The status and the link of the command are those that the trace demands, and all bytes have been so. */
    ghost predicate Faithful()
      reads this`trace, this`status, this`linked, this`flag, this`failed
    {
      AnswerOf(trace) == Answer(status, linked, flag, failed, true)
    }

    ghost predicate Valid()
      reads this, transfer
    {
      && phase in {BUS_FREE, SELECTION, DATA_IN, DATA_OUT, STATUS, MSG_IN, MSG_OUT}
      && Coherent()
    }

    /** What holds between the methods of a step, in which the phase may also be COMMAND. */
    ghost predicate Coherent()
      reads this, transfer
    {
      Settled() && (phase in {BUS_FREE, SELECTION} && !rst ==> transfer.remainingLength == transfer.chunkSize == 0)
    }

    /** The part of it that does not depend on the signals of the initiator. */
    ghost predicate Settled()
      reads this`phase, this`trace, this`buffer0, this`bsy, this`msg, this`cd, this`io, this`requested, this`due,
        this`short, this`failed, this`linked, this`flag, this`status, this`atnMsg, this`msgBytes, transfer
    {
      && StageOf(trace) == At(phase, ByteSent()) && Faithful()
      && (phase == STATUS ==> buffer0 == if linked && status == GOOD then INTERMEDIATE else status)
      && (phase == BUS_FREE ==> !bsy && !msg && !cd && !io)
      && (phase != BUS_FREE ==> bsy)
      && (phase !in {BUS_FREE, SELECTION} ==> PhaseOf(msg, cd, io) == phase)
      && (phase in {DATA_IN, DATA_OUT, STATUS, MSG_IN, MSG_OUT} ==>
            Accounted(phase, transfer.remainingLength, transfer.currentLength, transfer.chunkSize, due,
                      DataMoved(trace)))
      && (phase in {STATUS, MSG_IN} && !failed ==> DataMoved(trace) == due)
      && Balanced()
      && (phase == MSG_IN ==> buffer0 == EndMessage(linked, flag))
      && (phase == MSG_OUT && transfer.currentLength == 0 ==> 0x80 <= buffer0 < 0x100)
      && (atnMsg ==> phase == MSG_OUT)
      && forall k :: 0 <= k < |msgBytes| ==> 0x80 <= msgBytes[k] < 0x100
    }

    lemma ValidParts()
      ensures Valid() <==>
                && phase in {BUS_FREE, SELECTION, DATA_IN, DATA_OUT, STATUS, MSG_IN, MSG_OUT} && Settled()
                && (phase in {BUS_FREE, SELECTION} && !rst ==> transfer.remainingLength == transfer.chunkSize == 0)
    {
    }

    /** What holds in any phase of a connection. */
    ghost predicate Connected()
      reads this
    {
      && bsy && StageOf(trace).At? && StageOf(trace).phase == phase && (atnMsg ==> phase == MSG_OUT) && Balanced()
      && Faithful() && forall k :: 0 <= k < |msgBytes| ==> 0x80 <= msgBytes[k] < 0x100
    }

    /** A command is about to arrive. The link of the one before it ends with its message. */
    ghost predicate Arriving()
      reads this
    {
      && bsy && StageOf(trace).At? && StageOf(trace).phase == phase && !atnMsg && Balanced()
      && MayFollow(StageOf(trace), COMMAND)
      && (var a := AnswerOf(trace);
          && a.status == status && a.failed == failed && a.kept
          && if phase == MSG_IN then !linked && !flag else a.linked == linked && a.flag == flag)
      && forall k :: 0 <= k < |msgBytes| ==> 0x80 <= msgBytes[k] < 0x100
    }

    /** Everybody on the bus sees the phase of the controller, unless SEL is asserted. */
    lemma LinesShowPhase()
      requires Valid() && phase != SELECTION && !sel
      ensures SeenPhase(sel, bsy, msg, cd, io) == phase
      ensures bsy <==> phase != BUS_FREE
      ensures msg <==> phase in {MSG_IN, MSG_OUT}
      ensures cd <==> phase in {STATUS, MSG_IN, MSG_OUT}
      ensures io <==> phase in {DATA_IN, STATUS, MSG_IN}
    {
      hide StageOf, AnswerOf, DataMoved, EndMessage, Accounted;
    }

    ghost method Note(e: Event)
      requires After(StageOf(trace), e).At?
      modifies this`trace
      ensures trace == old(trace) + [e] && StageOf(trace) == After(StageOf(old(trace)), e)
      ensures DataMoved(trace)
           == (if e == Enter(COMMAND) then 0 else if e.Moved? then DataMoved(old(trace)) + e.count
               else DataMoved(old(trace)))
      ensures AnswerOf(trace) == Demanded(AnswerOf(old(trace)), StageOf(old(trace)), e)
    {
      trace := trace + [e];
      assert trace[..|trace| - 1] == old(trace);
    }

    method SetPhase(p: Phase)
      requires StageOf(trace).At? && MayFollow(StageOf(trace), p)
      modifies this`phase, this`trace
      ensures phase == p && StageOf(trace) == At(p, None)
      ensures DataMoved(trace) == if p == COMMAND then 0 else DataMoved(old(trace))
      ensures AnswerOf(trace) == Demanded(AnswerOf(old(trace)), StageOf(old(trace)), Enter(p))
      ensures trace == old(trace) + [Enter(p)]
    {
      phase := p;
      Note(Enter(p));
    }

    lemma FreeIsValid()
      requires phase == BUS_FREE && StageOf(trace) == At(BUS_FREE, None) && !bsy && !msg && !cd && !io && !atnMsg
      requires rst || transfer.remainingLength == transfer.chunkSize == 0
      requires Balanced() && Faithful() && forall k :: 0 <= k < |msgBytes| ==> 0x80 <= msgBytes[k] < 0x100
      ensures Valid()
    {
    }

    lemma StatusIsValid()
      requires phase == STATUS && StageOf(trace) == At(STATUS, None) && bsy && !msg && cd && io && !atnMsg
      requires transfer.currentLength == transfer.remainingLength == transfer.chunkSize == 1
      requires failed || DataMoved(trace) == due
      requires buffer0 == if linked && status == GOOD then INTERMEDIATE else status
      requires Balanced() && Faithful() && forall k :: 0 <= k < |msgBytes| ==> 0x80 <= msgBytes[k] < 0x100
      ensures Valid()
    {
      hide StageOf, DataMoved;
    }

    lemma DataIsValid()
      requires phase in {DATA_IN, DATA_OUT} && StageOf(trace) == At(phase, None)
      requires bsy && !msg && !cd && (io <==> phase == DATA_IN) && !atnMsg
      requires Accounted(phase, transfer.remainingLength, transfer.currentLength, transfer.chunkSize, due,
                         DataMoved(trace))
      requires Balanced() && Faithful() && forall k :: 0 <= k < |msgBytes| ==> 0x80 <= msgBytes[k] < 0x100
      ensures Valid()
    {
      hide StageOf, DataMoved, Accounted;
    }

    lemma MsgIsValid()
      requires phase in {MSG_IN, MSG_OUT} && StageOf(trace) == At(phase, None)
      requires bsy && msg && cd && (io <==> phase == MSG_IN) && (atnMsg ==> phase == MSG_OUT)
      requires transfer.currentLength == transfer.remainingLength == transfer.chunkSize == 1
      requires phase == MSG_IN ==> buffer0 == EndMessage(linked, flag) && (failed || DataMoved(trace) == due)
      requires Balanced() && Faithful() && forall k :: 0 <= k < |msgBytes| ==> 0x80 <= msgBytes[k] < 0x100
      ensures Valid()
    {
      hide StageOf, DataMoved, EndMessage;
    }

    lemma WhileSelected()
      requires Valid() && phase == SELECTION
      ensures bsy && StageOf(trace).At? && MayFollow(StageOf(trace), MSG_OUT) && Balanced() && Faithful()
    {
    }

    lemma WhileCommand()
      requires Coherent() && phase == COMMAND
      ensures Connected() && MayFollow(StageOf(trace), STATUS)
      ensures MayFollow(StageOf(trace), DATA_IN) && MayFollow(StageOf(trace), DATA_OUT)
      ensures StageOf(trace) == At(COMMAND, None) && bsy && !msg && cd && !io && !atnMsg && Faithful()
      ensures Balanced() && forall k :: 0 <= k < |msgBytes| ==> 0x80 <= msgBytes[k] < 0x100
    {
    }

    lemma CommandIsCoherent()
      requires phase == COMMAND && StageOf(trace) == At(COMMAND, None) && bsy && !msg && cd && !io && !atnMsg
      requires Balanced() && Faithful() && forall k :: 0 <= k < |msgBytes| ==> 0x80 <= msgBytes[k] < 0x100
      ensures Coherent() && Connected() && MayFollow(StageOf(trace), STATUS)
    {
      hide StageOf, DataMoved;
    }

    lemma WhileConnected()
      requires Connected()
      ensures bsy && StageOf(trace).At? && StageOf(trace).phase == phase && (atnMsg ==> phase == MSG_OUT)
      ensures MayFollow(StageOf(trace), BUS_FREE)
              && (MayFollow(StageOf(trace), STATUS) || MayFollow(StageOf(trace), MSG_IN) ==> !atnMsg)
      ensures Faithful() && Balanced() && forall k :: 0 <= k < |msgBytes| ==> 0x80 <= msgBytes[k] < 0x100
    {
    }

    lemma WhileValid()
      requires Valid()
      ensures StageOf(trace).At? && MayFollow(StageOf(trace), BUS_FREE)
      ensures Faithful() && Balanced() && forall k :: 0 <= k < |msgBytes| ==> 0x80 <= msgBytes[k] < 0x100
    {
    }

    lemma AskedIs()
      ensures Asked() == (requested, short)
    {
    }

    lemma FaithfulIs()
      ensures Faithful() <==> AnswerOf(trace) == Answer(status, linked, flag, failed, true)
    {
      hide AnswerOf;
    }

    // Entering phases

    method SetSignals(m: bool, c: bool, i: bool)
      modifies this`msg, this`cd, this`io
      ensures (msg, cd, io) == (m, c, i)
    {
      msg, cd, io := m, c, i;
    }

    method Disconnect()
      modifies this`bsy, this`status, this`identifiedLun, this`atnMsg
      ensures !bsy && status == GOOD && identifiedLun == -1 && !atnMsg
    {
      bsy, status, identifiedLun, atnMsg := false, GOOD, -1, false;
    }

    /** What a command asks for is known, and nothing of it has failed or is short. */
    ghost method Ask(count: nat)
      modifies this`requested, this`due, this`short, this`failed
      ensures Asked() == (count, false) && due == count && !failed && Balanced()
    {
      requested, due, short, failed := count, count, false, false;
    }

    /** BUS FREE is possible at any time. */
    method EnterBusFree()
      requires phase != BUS_FREE && Connected()
      requires rst || transfer.remainingLength == transfer.chunkSize == 0
      modifies this
      ensures Valid() && phase == BUS_FREE
      ensures linked == old(linked) && flag == old(flag) && due == old(due) && Asked() == old(Asked())
      ensures failed == old(failed) && deferred == old(deferred) && rst == old(rst)
      ensures identifiedLun == -1
      ensures trace == old(trace) + [Enter(BUS_FREE)]
    {
      hide *;
      WhileConnected();
      FaithfulIs();
      EnterDemands(AnswerOf(trace), StageOf(trace), BUS_FREE);
      StatusCodes();
      SetPhase(BUS_FREE);
      SetSignals(false, false, false);
      Disconnect();
      FaithfulIs();
      FreeIsValid();
    }

    method EnterSelection()
      requires Valid() && phase == BUS_FREE
      modifies this
      ensures Valid() && phase == SELECTION && status == old(status)
      ensures old(trace) <= trace
    {
      EnterDemands(AnswerOf(trace), StageOf(trace), SELECTION);
      hide StageOf, AnswerOf, Demanded, DataMoved;
      SetPhase(SELECTION);
      bsy := true;
    }

    /** A transfer of a single byte. */
    method OneByte()
      modifies transfer
      ensures transfer.offset == 0
      ensures transfer.currentLength == transfer.remainingLength == transfer.chunkSize == 1
    {
      transfer.ResetOffset();
      transfer.SetCurrentLength(1);
      transfer.SetTransferSize(1, 1);
    }

    method NoBytes()
      modifies transfer
      ensures transfer.offset == transfer.currentLength == transfer.remainingLength == transfer.chunkSize == 0
    {
      transfer.ResetOffset();
      transfer.SetTransferSize(0, 0);
      transfer.SetCurrentLength(0);
    }

    method EnterStatus()
      requires Connected() && MayFollow(StageOf(trace), STATUS)
      requires failed || DataMoved(trace) == due
      modifies this, transfer
      ensures Valid() && phase == STATUS && transfer.currentLength == 1
      ensures linked == old(linked) && flag == old(flag) && due == old(due) && Asked() == old(Asked())
      ensures buffer0 == if linked && status == 0x00 then 0x10 else status
      ensures status == old(status) && failed == old(failed) && deferred == old(deferred) && rst == old(rst)
      ensures identifiedLun == old(identifiedLun)
      ensures trace == old(trace) + [Enter(STATUS)]
    {
      hide *;
      WhileConnected();
      FaithfulIs();
      EnterDemands(AnswerOf(trace), StageOf(trace), STATUS);
      StatusCodes();
      SetPhase(STATUS);
      SetSignals(false, true, true);
      OneByte();
      FaithfulIs();
      buffer0 := if linked && status == GOOD then INTERMEDIATE else status;
      StatusIsValid();
    }

    method EnterMsgIn()
      requires Connected() && MayFollow(StageOf(trace), MSG_IN)
      requires transfer.currentLength == transfer.remainingLength == transfer.chunkSize == 1
      requires buffer0 == EndMessage(linked, flag)
      requires failed || DataMoved(trace) == due
      modifies this, transfer`offset
      ensures Valid() && phase == MSG_IN
      ensures linked == old(linked) && flag == old(flag) && due == old(due) && Asked() == old(Asked())
      ensures failed == old(failed) && deferred == old(deferred) && rst == old(rst)
      ensures identifiedLun == old(identifiedLun)
      ensures status == old(status)
      ensures old(trace) <= trace
    {
      hide *;
      WhileConnected();
      FaithfulIs();
      EnterDemands(AnswerOf(trace), StageOf(trace), MSG_IN);
      SetPhase(MSG_IN);
      SetSignals(true, true, true);
      transfer.ResetOffset();
      FaithfulIs();
      MsgIsValid();
    }

    method EnterMsgOut()
      requires Valid() && phase == SELECTION
      modifies this, transfer
      ensures Valid() && phase == MSG_OUT && identifiedLun == old(identifiedLun) && status == old(status)
      ensures old(trace) <= trace
    {
      hide *;
      WhileSelected();
      FaithfulIs();
      EnterDemands(AnswerOf(trace), StageOf(trace), MSG_OUT);
      atnMsg, msgBytes := true, [];
      SetPhase(MSG_OUT);
      SetSignals(true, true, false);
      OneByte();
      FaithfulIs();
      MsgIsValid();
    }

    lemma NothingToMove(p: Phase)
      requires p in {DATA_IN, DATA_OUT} && transfer.currentLength == transfer.remainingLength == 0
      requires Accounted(p, transfer.remainingLength, transfer.currentLength, transfer.chunkSize, due, 0)
      ensures due == 0
    {
    }

    /** DATA IN, or STATUS if there is nothing to send. */
    method EnterDataIn()
      requires Coherent() && phase == COMMAND && !failed && DataMoved(trace) == 0
      requires Accounted(DATA_IN, transfer.remainingLength, transfer.currentLength, transfer.chunkSize, due, 0)
      requires transfer.currentLength == 0 ==> transfer.remainingLength == 0
      modifies this, transfer
      ensures Valid() && phase == if old(transfer.currentLength) == 0 then STATUS else DATA_IN
      ensures linked == old(linked) && flag == old(flag) && due == old(due) && Asked() == old(Asked())
      ensures status == old(status) && failed == old(failed) && deferred == old(deferred) && rst == old(rst)
      ensures identifiedLun == old(identifiedLun)
      ensures trace == old(trace) + [Enter(phase)]
    {
      hide *;
      WhileCommand();
      if transfer.currentLength == 0 {
        NothingToMove(DATA_IN);
        EnterStatus();
        return;
      }
      FaithfulIs();
      EnterDemands(AnswerOf(trace), StageOf(trace), DATA_IN);
      SetPhase(DATA_IN);
      SetSignals(false, false, true);
      transfer.ResetOffset();
      FaithfulIs();
      DataIsValid();
    }

    /** DATA OUT, or STATUS if there is nothing to receive. A length of -1 enforces DATA OUT. */
    method EnterDataOut()
      requires Coherent() && phase == COMMAND && !failed && DataMoved(trace) == 0
      requires transfer.currentLength == 0 ==> transfer.remainingLength == 0
      requires transfer.currentLength == -1 || transfer.currentLength >= 0
      requires Accounted(DATA_OUT, transfer.remainingLength,
                         if transfer.currentLength == -1 then 0 else transfer.currentLength, transfer.chunkSize, due, 0)
      modifies this, transfer
      ensures Valid() && phase == if old(transfer.currentLength) == 0 then STATUS else DATA_OUT
      ensures linked == old(linked) && flag == old(flag) && due == old(due) && Asked() == old(Asked())
      ensures status == old(status) && failed == old(failed) && deferred == old(deferred) && rst == old(rst)
      ensures identifiedLun == old(identifiedLun)
      ensures trace == old(trace) + [Enter(phase)]
    {
      hide *;
      WhileCommand();
      if transfer.currentLength == 0 {
        NothingToMove(DATA_OUT);
        EnterStatus();
        return;
      } else if transfer.currentLength == -1 {
        transfer.SetCurrentLength(0);
      }
      FaithfulIs();
      EnterDemands(AnswerOf(trace), StageOf(trace), DATA_OUT);
      SetPhase(DATA_OUT);
      SetSignals(false, false, false);
      transfer.ResetOffset();
      FaithfulIs();
      DataIsValid();
    }

    /** Error: STATUS with CHECK CONDITION, or BUS FREE if the bus is reset or the command has already
        got its status. */
    method Error()
      requires Connected() && phase in {COMMAND, DATA_IN, DATA_OUT, STATUS, MSG_IN, MSG_OUT}
      requires phase in {MSG_OUT, STATUS, MSG_IN} ==> rst
      requires rst || phase in {STATUS, MSG_IN} || StageOf(trace) == At(phase, None)
      modifies this, transfer
      ensures Valid() && phase in {BUS_FREE, STATUS}
      ensures linked == old(linked) && flag == old(flag) && due == old(due) && Asked() == old(Asked())
      ensures deferred == old(deferred) && rst == old(rst)
      ensures identifiedLun == if phase == BUS_FREE then -1 else old(identifiedLun)
      ensures old(phase) in {STATUS, MSG_IN} || old(rst) <==> phase == BUS_FREE
      ensures phase == STATUS ==> status == 0x02 && failed && trace == old(trace) + [Failed, Enter(STATUS)]
      ensures phase == BUS_FREE ==> failed == old(failed)
      ensures old(trace) <= trace
    {
      hide *;
      WhileConnected();
      if rst || phase == STATUS || phase == MSG_IN {
        EnterBusFree();
        return;
      }
      FaithfulIs();
      FailureDemands(AnswerOf(trace), phase);
      StatusCodes();
      Note(Failed);
      failed := true;
      status := CHECK_CONDITION;
      FaithfulIs();
      ConnectedIs(phase);
      EnterStatus();
    }

    lemma ConnectedIs(p: Phase)
      requires bsy && phase == p && StageOf(trace) == At(p, None) && p in {COMMAND, DATA_IN, DATA_OUT} && !atnMsg
      requires Balanced() && Faithful() && forall k :: 0 <= k < |msgBytes| ==> 0x80 <= msgBytes[k] < 0x100
      ensures Connected() && MayFollow(StageOf(trace), STATUS)
    {
      hide StageOf, DataMoved, AnswerOf;
    }

    // COMMAND

    method EnterCommand()
      requires Arriving() && phase != COMMAND
      modifies this
      ensures Coherent() && phase == COMMAND && !failed && DataMoved(trace) == 0
      ensures deferred == old(deferred) && rst == old(rst) && linked == old(linked) && flag == old(flag)
      ensures identifiedLun == old(identifiedLun)
      ensures status == old(status)
      ensures trace == old(trace) + [Enter(COMMAND)]
    {
      hide *;
      ArrivingIs();
      EnterDemands(AnswerOf(trace), StageOf(trace), COMMAND);
      SetPhase(COMMAND);
      Ask(0);
      SetSignals(false, true, false);
      FaithfulIs();
      CommandIsCoherent();
    }

    lemma ArrivingIs()
      requires Arriving()
      ensures bsy && StageOf(trace).At? && StageOf(trace).phase == phase && !atnMsg && Balanced()
      ensures MayFollow(StageOf(trace), COMMAND)
      ensures var a := AnswerOf(trace);
              a == Answer(status, a.linked, a.flag, failed, true)
              && if phase == MSG_IN then !linked && !flag else a.linked == linked && a.flag == flag
      ensures forall k :: 0 <= k < |msgBytes| ==> 0x80 <= msgBytes[k] < 0x100
    {
      hide StageOf, AnswerOf, MayFollow;
    }

    /** The control byte of a complete command. */
    method TakeControl(c: Command)
      requires Coherent() && phase == COMMAND && !failed && DataMoved(trace) == 0
      modifies this`linked, this`flag, this`trace
      ensures Coherent() && phase == COMMAND && !failed && DataMoved(trace) == 0
      ensures linked == c.linked && flag == c.flag && trace == old(trace) + [Received(c.linked, c.flag)]
    {
      hide *;
      WhileCommand();
      FaithfulIs();
      CommandDemands(AnswerOf(trace), Received(c.linked, c.flag));
      linked, flag := c.linked, c.flag;
      Note(Received(c.linked, c.flag));
      FaithfulIs();
      CommandIsCoherent();
    }

    /** COMMAND: the command is received and executed, and the controller is in another phase again. */
    method Command(i: Input)
      requires KeepsContract(i.outcome) && Arriving() && phase != COMMAND
      requires transfer.remainingLength == transfer.chunkSize == 0 && !rst
      modifies this, transfer
      ensures Valid() && Begun(i, old(deferred), old(trace))
      ensures phase in {BUS_FREE, DATA_IN, DATA_OUT, STATUS} && old(trace) <= trace
      ensures identifiedLun == if phase == BUS_FREE then -1 else old(identifiedLun)
      ensures phase != BUS_FREE ==>
                status == CommandStatus(i.command, i.outcome, old(deferred), old(status))
    {
      hide *;
      ghost var was, before := deferred, trace;
      CommandIs(i.command, i.outcome, deferred);
      EnterCommand();
      if !i.command.arrives {
        Reject(true);
        BegunIs(i, was, before);
        return;
      }
      if !i.command.known {
        Reject(false);
        BegunIs(i, was, before);
        return;
      }
      if !i.command.complete {
        Reject(true);
        BegunIs(i, was, before);
        return;
      }
      CompleteCommand(i, before);
    }

    /** COMMAND, for a command that is known and has all its bytes. */
    method CompleteCommand(i: Input, ghost before: seq<Event>)
      requires Coherent() && phase == COMMAND && !failed && DataMoved(trace) == 0 && KeepsContract(i.outcome) && !rst
      requires transfer.remainingLength == transfer.chunkSize == 0 && trace == before + [Enter(COMMAND)]
      requires i.command.arrives && i.command.known && i.command.complete
      modifies this, transfer
      ensures Valid() && Begun(i, old(deferred), before) && phase in {DATA_IN, DATA_OUT, STATUS} && before <= trace
      ensures identifiedLun == old(identifiedLun)
      ensures status == CommandStatus(i.command, i.outcome, old(deferred), old(status))
    {
      hide *;
      ghost var was := deferred;
      CommandIs(i.command, i.outcome, deferred);
      TakeControl(i.command);
      if flag && !linked {
        Reject(false);
        BegunIs(i, was, before);
        return;
      }
      if deferred && i.command.requestsSense {
        ProvideSenseData();
        AskedIs();
        BegunIs(i, was, before);
        return;
      }
      OutcomePhase(i.command, i.outcome, deferred);
      StatusIs(i.outcome, i.command.requestsSense, status);
      WhileCommand();
      deferred := false;
      CommandIsCoherent();
      Execute(i.outcome, i.command.requestsSense);
      AskedIs();
      BegunIs(i, was, before);
    }

    /** RaiseDeferredError. Without all bytes of a command the bus is reset. */
    method Reject(reset: bool)
      requires Coherent() && phase == COMMAND && !rst
      modifies this, transfer
      ensures Valid() && phase == if reset then BUS_FREE else STATUS
      ensures phase == STATUS ==> failed && status == 0x02
      ensures linked == old(linked) && flag == old(flag) && deferred
      ensures identifiedLun == if phase == BUS_FREE then -1 else old(identifiedLun)
      ensures old(trace) <= trace
    {
      hide *;
      WhileCommand();
      if reset {
        rst := true;
      }
      deferred := true;
      CommandIsCoherent();
      Error();
    }

    /** The sense data of a command that the controller itself has rejected. */
    method ProvideSenseData()
      requires Coherent() && phase == COMMAND && !failed && DataMoved(trace) == 0
      requires transfer.remainingLength == transfer.chunkSize == 0
      modifies this, transfer
      ensures Valid() && phase == DATA_IN && due == 18 && Asked() == (18, false) && linked == old(linked)
              && flag == old(flag)
      ensures !failed && !deferred && status == old(status) && identifiedLun == old(identifiedLun)
      ensures old(trace) <= trace
    {
      hide StageOf, DataMoved, AnswerOf, Demanded, StatusOf;
      transfer.SetCurrentLength(18);
      Ask(18);
      deferred := false;
      EnterDataIn();
    }

    /** Execute: a device ends the dispatch of a command in one of several ways. */
    method Execute(o: Outcome, sense: bool)
      requires Coherent() && phase == COMMAND && !failed && DataMoved(trace) == 0 && KeepsContract(o) && !rst
      modifies this, transfer
      ensures Valid() && linked == old(linked) && flag == old(flag) && deferred == old(deferred)
      ensures identifiedLun == old(identifiedLun)
      ensures o.ToStatus? ==> phase == STATUS && status == o.code
      ensures o.ToDataIn? ==> phase == if o.first == 0 then STATUS else DATA_IN
      ensures o.ToDataOut? ==> phase == if o.total == 0 || o.size == 0 then STATUS else DATA_OUT
      ensures o.ToForcedDataOut? ==> phase == DATA_OUT
      ensures o.ToDataIn? && o.reports ==> status == 0x02
      ensures (o.ToDataIn? && !o.reports) || o.ToDataOut? || o.ToForcedDataOut? ==>
                status == if sense then old(status) else 0x00
      ensures o.Throws? ==> phase == STATUS && status == 0x02
      ensures failed <==> o.Throws?
      ensures !failed ==> due == BytesOf(o) && Asked() == (BytesOf(o), false)
      ensures old(trace) + [Executed(o, sense)] <= trace
    {
      hide *;
      ghost var before := status;
      StartDispatch(o, sense);
      ContractAccounts(o);
      StatusIs(o, sense, before);
      StatusCodes();
      match o {
        case ToStatus(code) =>
          DispatchingIs(before);
          status := code;
          DispatchingIs(before);
          NoteExecuted(o, sense, before);
          EnterStatus();
        case ToDataIn(_, _, _, _) =>
          ProvideData(o, sense, before);
        case ToDataOut(total, size) =>
          MinIsZero(total, size);
          transfer.SetTransferSize(total, size);
          transfer.SetCurrentLength(Min(total, size));
          NoteExecuted(o, sense, before);
          EnterDataOut();
        case ToForcedDataOut =>
          transfer.SetCurrentLength(-1);
          NoteExecuted(o, sense, before);
          EnterDataOut();
        case Throws =>
          NoteExecuted(o, sense, before);
          Error();
      }
    }

    /** DATA IN for a device that sends data. */
    method ProvideData(o: Outcome, sense: bool, ghost before: nat)
      requires Dispatching(before) && o.ToDataIn? && KeepsContract(o) && !rst && !failed && DataMoved(trace) == 0
      requires status == (if sense then before else 0x00) && due == BytesOf(o)
      modifies this, transfer
      ensures Valid() && phase == if o.first == 0 then STATUS else DATA_IN
      ensures linked == old(linked) && flag == old(flag) && deferred == old(deferred) && !failed
      ensures identifiedLun == old(identifiedLun) && due == old(due) && Asked() == old(Asked())
      ensures status == if o.reports then 0x02 else old(status)
      ensures old(trace) + [Executed(o, sense)] <= trace
    {
      hide *;
      ContractAccounts(o);
      StatusIs(o, sense, before);
      StatusCodes();
      DispatchingIs(before);
      if o.reports {
        status := CHECK_CONDITION;
      }
      transfer.SetTransferSize(o.total, o.size);
      transfer.SetCurrentLength(o.first);
      DispatchingIs(before);
      NoteExecuted(o, sense, before);
      EnterDataIn();
    }

    /** Execute, before the device gets the command. */
    method StartDispatch(o: Outcome, sense: bool)
      requires Coherent() && phase == COMMAND && !failed
      modifies transfer, this`status, this`requested, this`due, this`short, this`failed
      ensures Dispatching(old(status)) && !failed && due == BytesOf(o) && Asked() == (BytesOf(o), false)
      ensures transfer.currentLength == transfer.remainingLength == transfer.chunkSize == 0
      ensures status == if sense then old(status) else 0x00
    {
      hide *;
      WhileCommand();
      StatusCodes();
      FaithfulIs();
      NoBytes();
      if !sense {
        status := GOOD;
      }
      Ask(BytesOf(o));
      DispatchingIs(old(status));
    }

    /** The trace demands the status from before the command, which is not noted yet. */
    ghost predicate Dispatching(before: nat)
      reads this
    {
      && phase == COMMAND && StageOf(trace) == At(COMMAND, None) && bsy && !msg && cd && !io && !atnMsg
      && Balanced() && (forall k :: 0 <= k < |msgBytes| ==> 0x80 <= msgBytes[k] < 0x100)
      && AnswerOf(trace) == Answer(before, linked, flag, failed, true)
    }

    lemma DispatchingIs(before: nat)
      ensures Dispatching(before) <==>
                && phase == COMMAND && StageOf(trace) == At(COMMAND, None) && bsy && !msg && cd && !io && !atnMsg
                && Balanced() && (forall k :: 0 <= k < |msgBytes| ==> 0x80 <= msgBytes[k] < 0x100)
                && AnswerOf(trace) == Answer(before, linked, flag, failed, true)
    {
      hide StageOf, AnswerOf;
    }

    /** The device has got the command, with the status that the controller has now. */
    ghost method NoteExecuted(o: Outcome, sense: bool, before: nat)
      requires Dispatching(before) && status == StatusOf(o, sense, before)
      modifies this`trace
      ensures Coherent() && Connected() && StageOf(trace) == At(COMMAND, None) && MayFollow(StageOf(trace), STATUS)
      ensures DataMoved(trace) == DataMoved(old(trace)) && trace == old(trace) + [Executed(o, sense)]
    {
      hide *;
      DispatchingIs(before);
      CommandDemands(AnswerOf(trace), Executed(o, sense));
      Note(Executed(o, sense));
      FaithfulIs();
      CommandIsCoherent();
    }

    // Transfers

    /** Phases are left towards BUS FREE. */
    function Rank(): nat
      reads this`phase
    {
      match phase
      case BUS_FREE => 0
      case MSG_IN => 1
      case STATUS => 2
      case DATA_IN => 3
      case DATA_OUT => 3
      case _ => 4
    }

    /** The measure of the rest of a command is below the given one. */
    predicate Below(rank: nat, remaining: int, current: int)
      reads this`phase, transfer
    {
      || Rank() < rank
      || (Rank() == rank && transfer.remainingLength < remaining)
      || (Rank() == rank && transfer.remainingLength == remaining && transfer.currentLength < current)
    }

    /** A device takes none of the bytes that were received for it, without failing. */
    predicate Stalls(i: Input)
      reads this`phase, transfer
    {
      TakesLess(i) && i.transferred == 0
    }

    /** A step of DATA OUT in which no device takes anything. */
    predicate Idles(i: Input)
      reads this`phase, transfer
    {
      Stalls(i) || (phase == DATA_OUT && transfer.currentLength != 0 && i.handshake)
    }

    /** A device fails during the transfer of the data. */
    predicate Fails(i: Input)
      reads this`phase, transfer
    {
      && i.transferFails && transfer.currentLength == 0
      && (phase == DATA_OUT || (phase == DATA_IN && transfer.remainingLength > transfer.chunkSize))
    }

    /** The phase after a step without a reset, for the signals SEL and ATN. */
    function NextPhase(i: Input, sel: bool, atn: bool): Phase
      reads this`phase, this`linked, this`deferred, transfer
    {
      if phase in {DATA_IN, DATA_OUT, STATUS, MSG_IN, MSG_OUT} && transfer.currentLength != 0 then
        if i.handshake then phase else BUS_FREE
      else if StartsCommand(sel, atn) then CommandPhase(i.command, i.outcome, deferred)
      else
        match phase
        case BUS_FREE => if sel then SELECTION else BUS_FREE
        case SELECTION => if sel then SELECTION else MSG_OUT
        case DATA_IN => if transfer.remainingLength > transfer.chunkSize && !i.transferFails then DATA_IN else STATUS
        case DATA_OUT =>
          if i.transferFails || transfer.remainingLength <= Min(i.transferred, transfer.chunkSize) then STATUS
          else DATA_OUT
        case STATUS => MSG_IN
        case MSG_IN => BUS_FREE
        case _ => phase
    }

    /** A device reports something with the next data. */
    predicate Reports(i: Input)
      reads this`phase, transfer
    {
      && i.reports && !i.transferFails && transfer.currentLength == 0
      && phase == DATA_IN && transfer.remainingLength > transfer.chunkSize
    }

    /** The status after a step that does not end with BUS FREE. */
    function NextStatus(i: Input, sel: bool, atn: bool): nat
      reads this`phase, this`linked, this`deferred, this`status, transfer
    {
      if StartsCommand(sel, atn) then CommandStatus(i.command, i.outcome, deferred, status)
      else if Fails(i) || Reports(i) then 0x02 else status
    }

    /** The LUN after a step that does not end with BUS FREE: the last message of the initiator selects it. */
    function NextLun(atn: bool): int
      reads this`phase, this`atnMsg, this`buffer0, this`identifiedLun, transfer
    {
      if phase == MSG_OUT && transfer.currentLength == 0 && !atn && atnMsg then buffer0 % 0x20 else identifiedLun
    }

    /** A step that receives a command: behind the selection, the messages of the initiator or a linked command. */
    predicate StartsCommand(sel: bool, atn: bool)
      reads this`phase, this`linked, transfer
    {
      || (phase == SELECTION && !sel && !atn)
      || (phase == MSG_OUT && transfer.currentLength == 0 && !atn)
      || (phase == MSG_IN && transfer.currentLength == 0 && linked)
    }

    /** A command was received and executed, or rejected. */
    ghost predicate Begun(i: Input, was: bool, before: seq<Event>)
      reads this
    {
      && phase == CommandPhase(i.command, i.outcome, was)
      && (deferred <==> IsRejected(i.command))
      && before + Beginning(i.command, i.outcome, was) <= trace
      && (phase != BUS_FREE ==>
            (failed <==> IsRejected(i.command) || (i.outcome.Throws? && !(was && i.command.requestsSense))))
      && (phase != BUS_FREE && !failed ==>
            && requested == due == (if was && i.command.requestsSense then 18 else BytesOf(i.outcome)) && !short
            && linked == i.command.linked && flag == i.command.flag)
    }

    lemma BegunIs(i: Input, was: bool, before: seq<Event>)
      ensures Begun(i, was, before) <==>
                && phase == CommandPhase(i.command, i.outcome, was)
                && (deferred <==> IsRejected(i.command))
                && before + Beginning(i.command, i.outcome, was) <= trace
                && (phase != BUS_FREE ==>
                      (failed <==> IsRejected(i.command) || (i.outcome.Throws? && !(was && i.command.requestsSense))))
                && (phase != BUS_FREE && !failed ==>
                      && requested == due == (if was && i.command.requestsSense then 18 else BytesOf(i.outcome))
                      && !short && linked == i.command.linked && flag == i.command.flag)
    {
      hide CommandPhase, IsRejected, Beginning, BytesOf;
    }

    predicate TakesLess(i: Input)
      reads this`phase, transfer
    {
      phase == DATA_OUT && transfer.currentLength == 0 && !i.transferFails && i.transferred < transfer.chunkSize
    }

    /** The bytes of a phase are on the wire. A single byte is the one that the trace demands. */
    ghost method NoteBytes(count: nat)
      requires StageOf(trace).At? && phase == StageOf(trace).phase
               && phase in {DATA_IN, DATA_OUT, MSG_OUT, STATUS, MSG_IN}
      requires phase in {STATUS, MSG_IN} ==> StageOf(trace).byte == None
      requires AnswerOf(trace).kept
      requires phase == STATUS ==> buffer0 == StatusFor(AnswerOf(trace))
      requires phase == MSG_IN ==> buffer0 == MessageFor(AnswerOf(trace))
      modifies this`trace
      ensures StageOf(trace) == At(phase, if phase in {STATUS, MSG_IN} then Some(buffer0) else StageOf(old(trace)).byte)
      ensures DataMoved(trace) == DataMoved(old(trace)) + if phase in {STATUS, MSG_IN} then 0 else count
      ensures AnswerOf(trace) == AnswerOf(old(trace))
      ensures trace == old(trace) + [if phase == STATUS then StatusByte(buffer0)
                                     else if phase == MSG_IN then MessageByte(buffer0) else Event.Moved(count)]
    {
      hide AnswerOf, DataMoved, StageOf;
      if phase == STATUS {
        Note(StatusByte(buffer0));
      } else if phase == MSG_IN {
        Note(MessageByte(buffer0));
      } else {
        Note(Event.Moved(count));
      }
    }

    lemma BytesAreDemanded()
      requires Valid()
      ensures AnswerOf(trace) == Answer(status, linked, flag, failed, true)
      ensures phase == STATUS ==> buffer0 == StatusFor(AnswerOf(trace))
      ensures phase == MSG_IN ==> buffer0 == MessageFor(AnswerOf(trace))
    {
      hide AnswerOf, DataMoved, StageOf;
    }

    /** The first half of Send and Receive: the handshake for the current chunk. */
    method Exchange(i: Input)
      requires Valid() && Acceptable(i) && phase in {DATA_IN, DATA_OUT, STATUS, MSG_IN, MSG_OUT}
               && transfer.currentLength > 0
      modifies this, transfer
      ensures Valid() && linked == old(linked) && Asked() == old(Asked())
      ensures Below(old(Rank()), old(transfer.remainingLength), old(transfer.currentLength))
      ensures phase != BUS_FREE ==> transfer.currentLength == 0
      ensures phase == if i.handshake then old(phase) else BUS_FREE
      ensures i.handshake ==> transfer.remainingLength == old(transfer.remainingLength) && rst == old(rst)
      ensures failed == old(failed) && deferred == old(deferred)
      ensures identifiedLun == if phase == BUS_FREE then -1 else old(identifiedLun)
      ensures phase != BUS_FREE ==> status == old(status)
      ensures old(trace) <= trace
    {
      if i.handshake {
        MoveBytes(i);
      } else {
        BreakOff();
      }
    }

    /** A handshake has failed, which resets the bus. */
    method BreakOff()
      requires Valid() && phase in {DATA_IN, DATA_OUT, STATUS, MSG_IN, MSG_OUT}
      modifies this, transfer
      ensures Valid() && phase == BUS_FREE && linked == old(linked) && Asked() == old(Asked())
      ensures failed == old(failed) && deferred == old(deferred) && old(trace) <= trace
      ensures identifiedLun == -1
    {
      hide *;
      DuringTransfer();
      rst := true;
      ConnectedAgain();
      Error();
    }

    lemma DuringTransfer()
      requires Valid() && phase in {DATA_IN, DATA_OUT, STATUS, MSG_IN, MSG_OUT}
      ensures bsy && StageOf(trace).At? && StageOf(trace).phase == phase && (atnMsg ==> phase == MSG_OUT)
      ensures Balanced() && Faithful() && forall k :: 0 <= k < |msgBytes| ==> 0x80 <= msgBytes[k] < 0x100
    {
      hide StageOf, DataMoved, AnswerOf;
    }

    lemma ConnectedAgain()
      requires bsy && StageOf(trace).At? && StageOf(trace).phase == phase && (atnMsg ==> phase == MSG_OUT)
      requires Balanced() && Faithful() && forall k :: 0 <= k < |msgBytes| ==> 0x80 <= msgBytes[k] < 0x100
      ensures Connected()
    {
      hide StageOf, AnswerOf;
    }

    /** A handshake has moved all bytes of the current chunk. */
    method MoveBytes(i: Input)
      requires Valid() && Acceptable(i) && phase in {DATA_IN, DATA_OUT, STATUS, MSG_IN, MSG_OUT}
               && transfer.currentLength > 0
      modifies this`buffer0, this`trace, transfer
      ensures Valid() && transfer.currentLength == 0 && transfer.remainingLength == old(transfer.remainingLength)
      ensures Below(old(Rank()), old(transfer.remainingLength), old(transfer.currentLength))
      ensures old(phase) == MSG_OUT ==> buffer0 == i.message
      ensures old(trace) <= trace
    {
      hide *;
      BytesAreDemanded();
      TransferIs();
      AcceptableIs(i);
      BytesMove(phase, transfer.remainingLength, transfer.currentLength, transfer.chunkSize, due, DataMoved(trace));
      ghost var remaining, current := transfer.remainingLength, transfer.currentLength;
      if phase == MSG_OUT {
        buffer0 := i.message;
      }
      NoteBytes(transfer.currentLength);
      transfer.UpdateOffsetAndLength();
      FaithfulIs();
      IsTransfer();
      LessIsBelow(remaining, current);
    }

    lemma LessIsBelow(remaining: int, current: int)
      ensures transfer.remainingLength == remaining && transfer.currentLength < current ==>
                Below(Rank(), remaining, current)
    {
    }

    /** What a valid controller is during a transfer. */
    lemma TransferIs()
      requires Valid() && phase in {DATA_IN, DATA_OUT, STATUS, MSG_IN, MSG_OUT}
      ensures StageOf(trace)
           == At(phase, if phase in {STATUS, MSG_IN} && transfer.currentLength == 0 then Some(buffer0) else None)
      ensures Faithful() && bsy && PhaseOf(msg, cd, io) == phase && Balanced() && (atnMsg ==> phase == MSG_OUT)
      ensures phase == STATUS ==> buffer0 == if linked && status == GOOD then INTERMEDIATE else status
      ensures phase == MSG_IN ==> buffer0 == EndMessage(linked, flag)
      ensures Accounted(phase, transfer.remainingLength, transfer.currentLength, transfer.chunkSize, due,
                        DataMoved(trace))
      ensures phase in {STATUS, MSG_IN} && !failed ==> DataMoved(trace) == due
      ensures forall k :: 0 <= k < |msgBytes| ==> 0x80 <= msgBytes[k] < 0x100
    {
      hide StageOf, DataMoved, AnswerOf, EndMessage, Accounted;
    }

    lemma IsTransfer()
      requires phase in {DATA_IN, DATA_OUT, STATUS, MSG_IN, MSG_OUT}
      requires StageOf(trace)
            == At(phase, if phase in {STATUS, MSG_IN} && transfer.currentLength == 0 then Some(buffer0) else None)
      requires Faithful() && bsy && PhaseOf(msg, cd, io) == phase && Balanced() && (atnMsg ==> phase == MSG_OUT)
      requires phase == STATUS ==> buffer0 == if linked && status == GOOD then INTERMEDIATE else status
      requires phase == MSG_IN ==> buffer0 == EndMessage(linked, flag)
      requires phase == MSG_OUT ==> 0x80 <= buffer0 < 0x100
      requires Accounted(phase, transfer.remainingLength, transfer.currentLength, transfer.chunkSize, due,
                         DataMoved(trace))
      requires phase in {STATUS, MSG_IN} && !failed ==> DataMoved(trace) == due
      requires forall k :: 0 <= k < |msgBytes| ==> 0x80 <= msgBytes[k] < 0x100
      ensures Valid()
    {
      hide StageOf, DataMoved, AnswerOf, EndMessage, Accounted;
    }

    /** A device provides the next chunk, or fails. */
    method TransferToHost(i: Input)
      requires Connected() && StageOf(trace) == At(DATA_IN, None) && PhaseOf(msg, cd, io) == phase && !rst
      requires 0 < transfer.chunkSize <= transfer.remainingLength && transfer.currentLength == 0
      requires DataMoved(trace) + transfer.remainingLength == due
      modifies this, transfer
      ensures old(trace) <= trace
      ensures Valid() && phase == (if i.transferFails then STATUS else DATA_IN)
      ensures linked == old(linked) && Asked() == old(Asked()) && deferred == old(deferred)
      ensures identifiedLun == old(identifiedLun)
      ensures failed <==> old(failed) || i.transferFails
      ensures !i.transferFails ==> transfer.remainingLength == old(transfer.remainingLength)
      ensures status == if i.transferFails || i.reports then 0x02 else old(status)
    {
      hide StageOf, DataMoved, AnswerOf, Demanded, StatusOf;
      if i.transferFails {
        Error();
        return;
      }
      if i.reports {
        Report();
      }
      if transfer.remainingLength != 0 {
        transfer.SetCurrentLength(Min(transfer.remainingLength, transfer.chunkSize));
        transfer.ResetOffset();
      }
    }

    /** A device reports a condition with its data. */
    method Report()
      requires Connected() && StageOf(trace) == At(DATA_IN, None)
      modifies this`status, this`trace
      ensures Connected() && StageOf(trace) == At(DATA_IN, None) && DataMoved(trace) == DataMoved(old(trace))
      ensures status == 0x02 && trace == old(trace) + [Reported]
    {
      hide *;
      WhileConnected();
      FaithfulIs();
      StatusCodes();
      ReportDemands(AnswerOf(trace));
      status := CHECK_CONDITION;
      Note(Reported);
      FaithfulIs();
      ConnectedAgain();
    }

    /** COMMAND COMPLETE leads to BUS FREE, the message of a linked command to the next command. */
    method ProcessEndOfMessage(i: Input)
      requires Connected() && phase == MSG_IN && StageOf(trace) == At(MSG_IN, Some(EndMessage(linked, flag))) && !rst
      requires Acceptable(i) && transfer.remainingLength == transfer.chunkSize == 0
      modifies this, transfer
      ensures old(trace) <= trace
      ensures Valid()
      ensures old(linked) ==> Begun(i, old(deferred), old(trace))
      ensures !old(linked) ==>
                phase == BUS_FREE && !linked && Asked() == old(Asked()) && failed == old(failed)
                && deferred == old(deferred)
      ensures identifiedLun == if phase == BUS_FREE then -1 else old(identifiedLun)
      ensures phase != BUS_FREE ==>
                old(linked) && status == CommandStatus(i.command, i.outcome, old(deferred), old(status))
    {
      hide *;
      EndIsArriving();
      AcceptableIs(i);
      if atnMsg || linked {
        linked, flag, atnMsg := false, false, false;
        Arrives();
        Command(i);
      } else {
        EnterBusFree();
      }
    }

    lemma EndIsArriving()
      requires Connected() && phase == MSG_IN && StageOf(trace) == At(MSG_IN, Some(EndMessage(linked, flag)))
      ensures bsy && StageOf(trace).At? && StageOf(trace).phase == phase && !atnMsg && Balanced()
      ensures linked ==> MayFollow(StageOf(trace), COMMAND)
      ensures AnswerOf(trace) == Answer(status, linked, flag, failed, true)
      ensures forall k :: 0 <= k < |msgBytes| ==> 0x80 <= msgBytes[k] < 0x100
    {
      hide StageOf, AnswerOf;
    }

    lemma Arrives()
      requires bsy && StageOf(trace).At? && StageOf(trace).phase == phase && !atnMsg && Balanced()
      requires MayFollow(StageOf(trace), COMMAND)
      requires var a := AnswerOf(trace);
               && a.status == status && a.failed == failed && a.kept
               && if phase == MSG_IN then !linked && !flag else a.linked == linked && a.flag == flag
      requires forall k :: 0 <= k < |msgBytes| ==> 0x80 <= msgBytes[k] < 0x100
      ensures Arriving()
    {
      hide StageOf, AnswerOf, MayFollow;
    }

    method Send(i: Input)
      requires Valid() && Acceptable(i) && phase in {DATA_IN, STATUS, MSG_IN} && !rst
      modifies this, transfer
      ensures old(trace) <= trace && Valid() && phase == old(NextPhase(i, sel, atn))
      ensures identifiedLun == if phase == BUS_FREE then -1 else old(NextLun(atn))
      ensures phase != BUS_FREE ==> status == old(NextStatus(i, sel, atn))
      ensures !old(linked) ==> Below(old(Rank()), old(transfer.remainingLength), old(transfer.currentLength)) && !linked
      ensures old(phase) != MSG_IN ==> Below(old(Rank()), old(transfer.remainingLength), old(transfer.currentLength))
      ensures old(phase) != MSG_IN || !old(linked) ==> Asked() == old(Asked()) && deferred == old(deferred)
      ensures old(phase) != MSG_IN || !old(linked) ==> (failed <==> old(failed) || old(Fails(i)))
      ensures old(phase) != MSG_IN ==> linked == old(linked)
      ensures old(StartsCommand(sel, atn)) ==> Begun(i, old(deferred), old(trace))
    {
      hide StageOf, After, DataMoved, EndMessage, KeepsContract, BytesOf, AnswerOf, Demanded, MessageFor, StatusFor,
        CommandPhase, CommandStatus, Beginning, IsRejected;
      if transfer.currentLength != 0 {
        Exchange(i);
        return;
      }
      SendNext(i);
    }

    /** The second half of Send: the current chunk was sent. */
    method SendNext(i: Input)
      requires Valid() && Acceptable(i) && phase in {DATA_IN, STATUS, MSG_IN} && !rst && transfer.currentLength == 0
      modifies this, transfer
      ensures old(trace) <= trace && Valid() && phase == old(NextPhase(i, sel, atn))
      ensures identifiedLun == if phase == BUS_FREE then -1 else old(NextLun(atn))
      ensures phase != BUS_FREE ==> status == old(NextStatus(i, sel, atn))
      ensures !old(linked) ==> Below(old(Rank()), old(transfer.remainingLength), old(transfer.currentLength)) && !linked
      ensures old(phase) != MSG_IN ==> Below(old(Rank()), old(transfer.remainingLength), old(transfer.currentLength))
      ensures old(phase) != MSG_IN || !old(linked) ==> Asked() == old(Asked()) && deferred == old(deferred)
      ensures old(phase) != MSG_IN || !old(linked) ==> (failed <==> old(failed) || old(Fails(i)))
      ensures old(phase) != MSG_IN ==> linked == old(linked)
      ensures old(StartsCommand(sel, atn)) ==> Begun(i, old(deferred), old(trace))
    {
      hide StageOf, After, DataMoved, EndMessage, KeepsContract, BytesOf, AnswerOf, Demanded, MessageFor, StatusFor,
        CommandPhase, CommandStatus, Beginning, IsRejected;
      transfer.UpdateTransferLength(transfer.chunkSize);
      if transfer.remainingLength != 0 {
        if phase == DATA_IN {
          TransferToHost(i);
        }
        return;
      }
      match phase {
        case MSG_IN =>
          ProcessEndOfMessage(i);
        case DATA_IN =>
          EnterStatus();
        case STATUS =>
          SendMessage();
      }
    }

    /** MESSAGE IN behind the status. */
    method SendMessage()
      requires Connected() && phase == STATUS && MayFollow(StageOf(trace), MSG_IN)
      requires failed || DataMoved(trace) == due
      modifies this, transfer
      ensures Valid() && phase == MSG_IN && transfer.currentLength == 1
      ensures linked == old(linked) && flag == old(flag) && due == old(due) && Asked() == old(Asked())
      ensures failed == old(failed) && deferred == old(deferred) && rst == old(rst)
      ensures identifiedLun == old(identifiedLun)
      ensures status == old(status)
      ensures old(trace) <= trace
    {
      hide *;
      WhileConnected();
      FaithfulIs();
      transfer.SetCurrentLength(1);
      transfer.SetTransferSize(1, 1);
      buffer0 := EndMessage(linked, flag);
      FaithfulIs();
      ConnectedAgain();
      EnterMsgIn();
    }

    /** A device takes the received chunk or a part of it, or fails. What it leaves is received once more. */
    method TransferFromHost(i: Input, length: nat) returns (ok: bool)
      requires Connected() && StageOf(trace) == At(DATA_OUT, None) && PhaseOf(msg, cd, io) == phase && !rst
      requires length == transfer.chunkSize <= transfer.remainingLength && transfer.currentLength == 0
      requires transfer.remainingLength > 0 ==> transfer.chunkSize > 0
      requires DataMoved(trace) + transfer.remainingLength == due + transfer.chunkSize
      modifies this, transfer
      ensures old(trace) <= trace
      ensures linked == old(linked) && requested == old(requested) && deferred == old(deferred)
      ensures identifiedLun == old(identifiedLun)
      ensures status == if ok then old(status) else 0x02
      ensures (ok <==> !i.transferFails) && (failed <==> old(failed) || !ok)
      ensures short <==> old(short) || (ok && i.transferred < length)
      ensures !ok ==> Valid() && phase == STATUS
      ensures ok ==>
                && Connected() && phase == DATA_OUT && trace == old(trace)
                && PhaseOf(msg, cd, io) == phase && rst == old(rst)
                && transfer.remainingLength == old(transfer.remainingLength) - Min(i.transferred, length)
                && transfer.currentLength == transfer.chunkSize == Min(transfer.remainingLength, length)
                && due == DataMoved(trace) + transfer.remainingLength
    {
      hide StageOf, After, DataMoved, MayFollow, PhaseOf, AnswerOf, Demanded;
      ok := !i.transferFails;
      if ok {
        TakeChunk(i, length);
      } else {
        AskedIs();
        Error();
        AskedIs();
      }
    }

    /** A device has taken a chunk or a part of it. */
    method TakeChunk(i: Input, length: nat)
      requires Connected() && phase == DATA_OUT && PhaseOf(msg, cd, io) == phase
      requires length == transfer.chunkSize <= transfer.remainingLength && transfer.currentLength == 0
      requires transfer.remainingLength > 0 ==> transfer.chunkSize > 0
      requires DataMoved(trace) + transfer.remainingLength == due + transfer.chunkSize
      modifies this`due, this`short, transfer
      ensures short <==> old(short) || i.transferred < length
      ensures Connected() && due == DataMoved(trace) + transfer.remainingLength
      ensures transfer.remainingLength == old(transfer.remainingLength) - Min(i.transferred, length)
      ensures transfer.currentLength == transfer.chunkSize == Min(transfer.remainingLength, length)
    {
      hide StageOf, After, DataMoved, MayFollow, PhaseOf, AnswerOf, Demanded;
      var transferred := Min(i.transferred, length);
      due, short := due + (length - transferred), short || transferred < length;
      transfer.UpdateTransferLength(transferred);
      transfer.SetCurrentLength(transfer.chunkSize);
      transfer.ResetOffset();
    }

    /** ParseMessage, for IDENTIFY messages. */
    method ParseMessage()
      modifies this`identifiedLun
      ensures msgBytes == [] ==> identifiedLun == old(identifiedLun)
      ensures msgBytes != [] && (forall k :: 0 <= k < |msgBytes| ==> msgBytes[k] >= 0x80) ==>
                identifiedLun == msgBytes[|msgBytes| - 1] % 0x20
    {
      var n := 0;
      while n < |msgBytes|
        invariant n <= |msgBytes| && (n == 0 ==> identifiedLun == old(identifiedLun))
        invariant n > 0 && (forall k :: 0 <= k < n ==> msgBytes[k] >= 0x80) ==> identifiedLun == msgBytes[n - 1] % 0x20
      {
        if msgBytes[n] >= 0x80 {
          identifiedLun := msgBytes[n] % 0x20;
        }
        n := n + 1;
      }
    }

    /** MESSAGE OUT goes on while ATN is asserted, then the messages count and the command is received. */
    method ProcessMessage(i: Input)
      requires Connected() && phase == MSG_OUT && StageOf(trace) == At(MSG_OUT, None) && PhaseOf(msg, cd, io) == phase
      requires !rst && Acceptable(i) && transfer.remainingLength == transfer.chunkSize == 0
      modifies this, transfer
      ensures old(trace) <= trace
      ensures Valid() && (old(atn) ==> phase == MSG_OUT) && (!old(atn) ==> Begun(i, old(deferred), old(trace)))
      ensures old(atn) ==> deferred == old(deferred) && failed == old(failed) && msgBytes == old(msgBytes)
      ensures identifiedLun
           == (if phase == BUS_FREE then -1
               else if old(atn) || !old(atnMsg) || old(msgBytes) == [] then old(identifiedLun)
               else old(msgBytes)[|old(msgBytes)| - 1] % 0x20)
      ensures phase != BUS_FREE ==>
                status == (if old(atn) then old(status)
                           else CommandStatus(i.command, i.outcome, old(deferred), old(status)))
    {
      hide *;
      MessageIsArriving();
      AcceptableIs(i);
      if atn {
        OneByte();
        MessagesGoOn();
        return;
      }
      if atnMsg {
        atnMsg := false;
        ParseMessage();
      }
      Arrives();
      Command(i);
    }

    lemma MessageIsArriving()
      requires Connected() && phase == MSG_OUT && StageOf(trace) == At(MSG_OUT, None)
      ensures bsy && StageOf(trace).At? && StageOf(trace).phase == phase && Balanced()
      ensures MayFollow(StageOf(trace), COMMAND)
      ensures AnswerOf(trace) == Answer(status, linked, flag, failed, true)
      ensures forall k :: 0 <= k < |msgBytes| ==> 0x80 <= msgBytes[k] < 0x100
    {
      hide StageOf, AnswerOf;
    }

    lemma MessagesGoOn()
      requires Connected() && phase == MSG_OUT && StageOf(trace) == At(MSG_OUT, None) && PhaseOf(msg, cd, io) == phase
      requires transfer.currentLength == transfer.remainingLength == transfer.chunkSize == 1
      ensures Valid()
    {
      hide StageOf, DataMoved, AnswerOf, EndMessage;
    }

    method Receive(i: Input)
      requires Valid() && Acceptable(i) && phase in {DATA_OUT, MSG_OUT} && !rst
      modifies this, transfer
      ensures old(trace) <= trace && Valid() && phase == old(NextPhase(i, sel, atn))
      ensures identifiedLun == if phase == BUS_FREE then -1 else old(NextLun(atn))
      ensures phase != BUS_FREE ==> status == old(NextStatus(i, sel, atn))
      ensures old(phase) == DATA_OUT ==>
                && linked == old(linked) && requested == old(requested) && deferred == old(deferred)
                && (short <==> old(short) || old(TakesLess(i)))
                && (failed <==> old(failed) || old(Fails(i)))
                && (old(Stalls(i)) || Below(old(Rank()), old(transfer.remainingLength), old(transfer.currentLength)))
      ensures old(Idles(i)) ==> phase == DATA_OUT && transfer.remainingLength == old(transfer.remainingLength) && !rst
      ensures old(StartsCommand(sel, atn)) ==> Begun(i, old(deferred), old(trace))
    {
      hide StageOf, After, DataMoved, EndMessage, KeepsContract, BytesOf, AnswerOf, Demanded, MessageFor, StatusFor,
        CommandPhase, CommandStatus, Beginning, IsRejected;
      if transfer.currentLength != 0 {
        AskedIs();
        Exchange(i);
        AskedIs();
        return;
      }
      match phase {
        case DATA_OUT =>
          ReceiveData(i);
        case MSG_OUT =>
          ReceiveMessage(i);
      }
    }

    /** Behind a received chunk. */
    method ReceiveData(i: Input)
      requires Valid() && phase == DATA_OUT && !rst && transfer.currentLength == 0
      modifies this, transfer
      ensures old(trace) <= trace && Valid() && phase == old(NextPhase(i, sel, atn))
      ensures identifiedLun == if phase == BUS_FREE then -1 else old(NextLun(atn))
      ensures phase != BUS_FREE ==> status == old(NextStatus(i, sel, atn))
      ensures linked == old(linked) && requested == old(requested) && deferred == old(deferred)
      ensures identifiedLun == old(identifiedLun)
      ensures short <==> old(short) || old(TakesLess(i))
      ensures failed <==> old(failed) || old(Fails(i))
      ensures old(Stalls(i)) || Below(old(Rank()), old(transfer.remainingLength), old(transfer.currentLength))
      ensures old(Idles(i)) ==> phase == DATA_OUT && transfer.remainingLength == old(transfer.remainingLength) && !rst
    {
      hide StageOf, After, DataMoved, EndMessage, KeepsContract, BytesOf, AnswerOf, Demanded, MessageFor, StatusFor,
        CommandPhase, CommandStatus, Beginning, IsRejected;
      var ok := TransferFromHost(i, Min(transfer.chunkSize, transfer.remainingLength));
      if ok && transfer.remainingLength == 0 {
        AskedIs();
        EnterStatus();
        AskedIs();
      }
    }

    /** Behind a received message byte. */
    method ReceiveMessage(i: Input)
      requires Valid() && Acceptable(i) && phase == MSG_OUT && !rst && transfer.currentLength == 0
      modifies this, transfer
      ensures old(trace) <= trace && Valid() && phase == old(NextPhase(i, sel, atn))
      ensures identifiedLun == if phase == BUS_FREE then -1 else old(NextLun(atn))
      ensures phase != BUS_FREE ==> status == old(NextStatus(i, sel, atn))
      ensures old(StartsCommand(sel, atn)) ==> Begun(i, old(deferred), old(trace))
      ensures old(atn) && old(atnMsg) ==> msgBytes == old(msgBytes) + [old(buffer0)]
    {
      hide StageOf, After, DataMoved, EndMessage, KeepsContract, BytesOf, AnswerOf, Demanded, MessageFor, StatusFor,
        CommandPhase, CommandStatus, Beginning, IsRejected;
      ghost var was, before := deferred, trace;
      BegunIs(i, was, before);
      transfer.UpdateTransferLength(Min(transfer.chunkSize, transfer.remainingLength));
      if atnMsg {
        msgBytes := msgBytes + [buffer0];
      }
      ProcessMessage(i);
      BegunIs(i, was, before);
    }

    // Steps

    method ReleaseAll()
      modifies this`bsy, this`status, this`identifiedLun, this`atnMsg, this`linked, this`flag, this`msg, this`cd,
        this`io, this`sel, this`atn, this`rst, transfer
      ensures !bsy && status == 0x00 && identifiedLun == -1 && !atnMsg && !linked && !flag && !msg && !cd && !io
      ensures !sel && !atn && !rst && transfer.remainingLength == transfer.chunkSize == transfer.currentLength == 0
    {
      NoBytes();
      linked, flag := false, false;
      Disconnect();
      SetSignals(false, false, false);
      sel, atn, rst := false, false, false;
    }

    method Reset()
      requires Valid()
      modifies this, transfer
      ensures old(trace) <= trace
      ensures Valid() && phase == BUS_FREE && !linked && Asked() == old(Asked())
      ensures deferred == old(deferred) && failed == old(failed)
      ensures identifiedLun == -1
    {
      hide *;
      WhileValid();
      FaithfulIs();
      StatusCodes();
      ResetDemands(AnswerOf(trace), StageOf(trace));
      SetPhase(BUS_FREE);
      ReleaseAll();
      Note(ResetSeen);
      FaithfulIs();
      FreeIsValid();
    }

    /** Selection: behind it the initiator may ask for MESSAGE OUT. */
    method Selection(i: Input)
      requires Valid() && Acceptable(i) && phase == SELECTION && !rst
      modifies this, transfer
      ensures old(trace) <= trace
      ensures Valid() && phase == old(NextPhase(i, sel, atn))
      ensures identifiedLun == if phase == BUS_FREE then -1 else old(identifiedLun)
      ensures phase != BUS_FREE ==> status == old(NextStatus(i, sel, atn))
      ensures old(StartsCommand(sel, atn)) ==> Begun(i, old(deferred), old(trace))
    {
      hide *;
      SelectionIs(i);
      AcceptableIs(i);
      if !sel && bsy {
        if atn {
          EnterMsgOut();
        } else {
          Arrives();
          Command(i);
          BegunIs(i, old(deferred), old(trace));
        }
      }
    }

    lemma SelectionIs(i: Input)
      requires Valid() && phase == SELECTION && !rst
      ensures bsy && StageOf(trace).At? && StageOf(trace).phase == phase && !atnMsg && Balanced()
      ensures MayFollow(StageOf(trace), COMMAND) && transfer.remainingLength == transfer.chunkSize == 0
      ensures AnswerOf(trace) == Answer(status, linked, flag, failed, true)
      ensures forall k :: 0 <= k < |msgBytes| ==> 0x80 <= msgBytes[k] < 0x100
      ensures StartsCommand(sel, atn) <==> !sel && !atn
      ensures NextPhase(i, sel, atn)
           == if sel then SELECTION else if atn then MSG_OUT else CommandPhase(i.command, i.outcome, deferred)
      ensures NextStatus(i, sel, atn)
           == if sel || atn then status else CommandStatus(i.command, i.outcome, deferred, status)
    {
      hide StageOf, AnswerOf, CommandPhase;
    }

    /** A step of a command that has been received, other than the last step before a linked command. */
    predicate InCommand()
      reads this`phase, this`linked
    {
      phase in {DATA_IN, DATA_OUT, STATUS, MSG_IN} && !(phase == MSG_IN && linked)
    }

    /** ProcessPhase: what the phase asks for. */
    method ProcessPhase(i: Input)
      requires Valid() && Acceptable(i) && !rst
      modifies this, transfer
      ensures old(trace) <= trace && Valid() && phase == old(NextPhase(i, sel, atn))
      ensures old(phase) != BUS_FREE ==> identifiedLun == if phase == BUS_FREE then -1 else old(NextLun(atn))
      ensures phase != BUS_FREE ==> status == old(NextStatus(i, sel, atn))
      ensures old(InCommand()) && !old(Stalls(i)) ==>
                Below(old(Rank()), old(transfer.remainingLength), old(transfer.currentLength))
      ensures old(Idles(i)) ==> phase == DATA_OUT && transfer.remainingLength == old(transfer.remainingLength) && !rst
      ensures old(InCommand()) ==>
                && requested == old(requested) && deferred == old(deferred)
                && (short <==> old(short) || old(TakesLess(i))) && (failed <==> old(failed) || old(Fails(i)))
      ensures old(InCommand()) && !old(linked) ==> phase in {DATA_IN, DATA_OUT, STATUS, MSG_IN, BUS_FREE} && !linked
      ensures old(StartsCommand(sel, atn)) ==> Begun(i, old(deferred), old(trace))
    {
      hide StageOf, After, DataMoved, MayFollow, EndMessage, KeepsContract, BytesOf, Accounted, PhaseOf, Acceptable,
        AnswerOf, Demanded, MessageFor, StatusFor, CommandPhase, CommandStatus, Beginning, IsRejected;
      AskedIs();
      match phase {
        case BUS_FREE =>
          if sel && !bsy {
            EnterSelection();
          }
        case SELECTION =>
          Selection(i);
        case DATA_IN =>
          Send(i);
        case STATUS =>
          Send(i);
        case MSG_IN =>
          Send(i);
        case DATA_OUT =>
          Receive(i);
        case MSG_OUT =>
          Receive(i);
      }
      AskedIs();
    }

    method ReadLines(i: Input)
      requires Valid()
      modifies this`sel, this`atn, this`rst
      ensures Valid() && sel == i.sel && atn == i.atn && rst == (old(rst) || i.rst)
    {
      hide *;
      ValidParts();
      sel, atn, rst := i.sel, i.atn, rst || i.rst;
      ValidParts();
    }

    /** One step of the controller. The result is false if the bus is free again. A command makes progress with
        each step, unless a device takes nothing, and the initiator transfers what the command has asked for,
        unless a device takes less. */
    method Process(i: Input) returns (more: bool)
      requires Valid() && Acceptable(i)
      modifies this, transfer
      ensures old(trace) <= trace && Valid()
      ensures more <==> phase != BUS_FREE
      ensures phase == if old(rst) || i.rst then BUS_FREE else old(NextPhase(i, i.sel, i.atn))
      ensures old(phase) != BUS_FREE ==> identifiedLun == if phase == BUS_FREE then -1 else old(NextLun(i.atn))
      ensures phase != BUS_FREE ==> status == old(NextStatus(i, i.sel, i.atn))
      ensures old(InCommand()) && (!more || !old(Stalls(i))) ==>
                Below(old(Rank()), old(transfer.remainingLength), old(transfer.currentLength))
      ensures old(Idles(i)) && !(old(rst) || i.rst) ==>
                phase == DATA_OUT && transfer.remainingLength == old(transfer.remainingLength) && !rst
      ensures old(InCommand()) ==>
                && requested == old(requested) && deferred == old(deferred)
                && (short <==> old(short) || (old(TakesLess(i)) && !(old(rst) || i.rst)))
                && (failed <==> old(failed) || (old(Fails(i)) && !(old(rst) || i.rst)))
      ensures old(InCommand()) && !old(linked) ==> phase in {DATA_IN, DATA_OUT, STATUS, MSG_IN, BUS_FREE} && !linked
      ensures old(StartsCommand(i.sel, i.atn)) && !(old(rst) || i.rst) ==> Begun(i, old(deferred), old(trace))
    {
      hide *;
      AskedIs();
      RankIs();
      ghost var rank, remaining, current := Rank(), transfer.remainingLength, transfer.currentLength;
      ReadLines(i);
      if rst {
        Reset();
        AskedIs();
        FreeIsBelow(rank, remaining, current);
        return false;
      }
      ProcessPhase(i);
      more := phase != BUS_FREE;
      FreeIsBelow(rank, remaining, current);
    }

    lemma RankIs()
      ensures InCommand() ==> Rank() > 0
    {
    }

    lemma FreeIsBelow(rank: nat, remaining: int, current: int)
      ensures phase == BUS_FREE && rank > 0 ==> Below(rank, remaining, current)
    {
    }

    /** A command that reaches its status without an error has moved exactly the data that it has asked for if
        no device has taken less than it got, and more otherwise. */
    lemma MovedIsAskedFor()
      requires Valid() && phase in {STATUS, MSG_IN} && !failed
      ensures DataMoved(trace) >= requested
      ensures DataMoved(trace) == requested <==> !short
    {
      hide StageOf, DataMoved;
    }

    lemma ChunkIsPart()
      requires Valid() && phase in {DATA_IN, DATA_OUT, STATUS, MSG_IN}
      ensures 0 <= transfer.currentLength && 0 <= transfer.chunkSize <= transfer.remainingLength
    {
      hide StageOf, DataMoved;
    }

    /** A command that is not linked comes to an end whatever the initiator does, and whatever the devices do as
        long as they take a part of what they get. */
    method FinishCommand(environment: nat -> Input)
      requires Valid() && InCommand() && !linked
      requires forall n :: Acceptable(environment(n)) && environment(n).transferred > 0
      modifies this, transfer
      ensures old(trace) <= trace
      ensures Valid() && phase == BUS_FREE && requested == old(requested)
      ensures (forall n :: environment(n).transferred >= old(transfer.remainingLength)) ==> short == old(short)
    {
      hide StageOf, After, DataMoved, MayFollow, EndMessage, KeepsContract, BytesOf, Accounted, PhaseOf, Acceptable;
      var more, n := true, 0;
      while more
        invariant Valid() && phase in {DATA_IN, DATA_OUT, STATUS, MSG_IN, BUS_FREE} && !linked
        invariant more <==> phase != BUS_FREE
        invariant old(trace) <= trace && requested == old(requested)
        invariant phase in {DATA_IN, DATA_OUT} ==> transfer.remainingLength <= old(transfer.remainingLength)
        invariant (forall n :: environment(n).transferred >= old(transfer.remainingLength)) ==> short == old(short)
        decreases Rank(), transfer.remainingLength, transfer.currentLength
      {
        ChunkIsPart();
        more := Process(environment(n));
        n := n + 1;
      }
    }

    /** The condition is necessary: a device that takes nothing keeps the controller in DATA OUT forever. */
    method KeepReceiving(inputs: seq<Input>)
      requires Valid() && phase == DATA_OUT && transfer.remainingLength > 0 && !rst
      requires forall k :: 0 <= k < |inputs| ==> Acceptable(inputs[k]) && inputs[k].handshake && !inputs[k].rst
      requires forall k :: 0 <= k < |inputs| ==> inputs[k].transferred == 0 && !inputs[k].transferFails
      modifies this, transfer
      ensures old(trace) <= trace
      ensures Valid() && phase == DATA_OUT && transfer.remainingLength == old(transfer.remainingLength)
    {
      for k := 0 to |inputs|
        invariant Valid() && phase == DATA_OUT && !rst && old(trace) <= trace
        invariant transfer.remainingLength == old(transfer.remainingLength)
      {
        var _ := Process(inputs[k]);
      }
    }

    /** Any run of the controller. No phase comes out of order, and all status and message bytes are those that
        the trace demands. */
    method Run(inputs: seq<Input>)
      requires Valid() && forall k :: 0 <= k < |inputs| ==> Acceptable(inputs[k])
      modifies this, transfer
      ensures old(trace) <= trace
      ensures Valid() && StageOf(trace).At? && AnswerOf(trace).kept
    {
      for k := 0 to |inputs|
        invariant Valid() && old(trace) <= trace
      {
        var _ := Process(inputs[k]);
      }
    }
  }

  /** The message that ends a command. */
  function EndMessage(linked: bool, flag: bool): nat {
    if !linked then COMMAND_COMPLETE
    else if flag then LINKED_COMMAND_COMPLETE_WITH_FLAG else LINKED_COMMAND_COMPLETE
  }

  // What a trace without violations looks like

  lemma {:induction false} NeverRepaired(trace: seq<Event>, j: nat)
    requires j <= |trace| && StageOf(trace).At?
    ensures StageOf(trace[..j]).At?
    decreases |trace|
  {
    if j == |trace| {
      assert trace[..j] == trace;
    } else {
      assert trace[..|trace| - 1][..j] == trace[..j];
      NeverRepaired(trace[..|trace| - 1], j);
    }
  }

  lemma StageStep(trace: seq<Event>, j: nat)
    requires j < |trace| && StageOf(trace).At?
    ensures StageOf(trace[..j]).At? && StageOf(trace[..j + 1]).At?
    ensures StageOf(trace[..j + 1]) == After(StageOf(trace[..j]), trace[j])
  {
    NeverRepaired(trace, j);
    NeverRepaired(trace, j + 1);
    assert trace[..j + 1][..j] == trace[..j];
  }

  /** A device has failed, or has reported something. */
  predicate IsError(e: Event) {
    e in {Failed, Reported}
  }

  /** Events of a command before its status. */
  predicate IsData(e: Event) {
    e.Moved? || e == Enter(DATA_IN) || e == Enter(DATA_OUT) || e.Received? || e.Executed? || IsError(e)
  }

  predicate AllData(s: seq<Event>) {
    forall k :: 0 <= k < |s| ==> IsData(s[k])
  }

  /** One status byte and then one message byte, both behind all data. */
  predicate IsAnswered(s: seq<Event>) {
    var n := |s| - 4;
    && n >= 0 && AllData(s[..n]) && s[n] == Enter(STATUS) && s[n + 1].StatusByte?
    && s[n + 2] == Enter(MSG_IN) && s[n + 3].MessageByte?
  }

  /** The events since the last command, for the stage that they have led to. */
  predicate Explains(s: seq<Event>, stage: Stage) {
    match stage
    case Broken => false
    case At(phase, byte) =>
      match phase
      case COMMAND => AllData(s)
      case DATA_IN => AllData(s)
      case DATA_OUT => AllData(s)
      case STATUS =>
        if byte.None? then |s| >= 1 && AllData(s[..|s| - 1]) && s[|s| - 1] == Enter(STATUS)
        else |s| >= 2 && AllData(s[..|s| - 2]) && s[|s| - 2] == Enter(STATUS) && s[|s| - 1] == StatusByte(byte.value)
      case MSG_IN =>
        if byte.None? then
          && |s| >= 3 && AllData(s[..|s| - 3]) && s[|s| - 3] == Enter(STATUS) && s[|s| - 2].StatusByte?
          && s[|s| - 1] == Enter(MSG_IN)
        else IsAnswered(s) && s[|s| - 1] == MessageByte(byte.value)
      case _ => false
  }

  lemma ExplainsNext(s: seq<Event>, stage: Stage, e: Event)
    requires Explains(s, stage) && e != Enter(COMMAND) && e != Enter(BUS_FREE) && After(stage, e).At?
    ensures Explains(s + [e], After(stage, e))
  {
    assert (s + [e])[..|s|] == s;
    if |s| > 0 {
      assert (s + [e])[..|s| - 1] == s[..|s| - 1];
    }
    if |s| > 1 {
      assert (s + [e])[..|s| - 2] == s[..|s| - 2];
    }
    if |s| > 2 {
      assert (s + [e])[..|s| - 3] == s[..|s| - 3];
    }
  }

  lemma NothingSince(s: Stage)
    ensures After(s, Enter(COMMAND)).At? ==> Explains([], After(s, Enter(COMMAND)))
  {
  }

  lemma {:induction false} SinceCommand(trace: seq<Event>, i: nat, j: nat)
    requires i < j <= |trace| && StageOf(trace).At? && trace[i] == Enter(COMMAND)
    requires forall k :: i < k < j ==> trace[k] != Enter(COMMAND) && trace[k] != Enter(BUS_FREE)
    ensures Explains(trace[i + 1..j], StageOf(trace[..j]))
    decreases j
  {
    hide *;
    StageStep(trace, j - 1);
    if j == i + 1 {
      assert trace[i + 1..j] == [];
      NothingSince(StageOf(trace[..i]));
    } else {
      SinceCommand(trace, i, j - 1);
      ExplainsNext(trace[i + 1..j - 1], StageOf(trace[..j - 1]), trace[j - 1]);
      assert trace[i + 1..j] == trace[i + 1..j - 1] + [trace[j - 1]];
    }
  }

  /** Each command that completes, with COMMAND COMPLETE or before a linked command, has sent exactly one
      status byte and then one message byte, after all its data. The next command follows only a message
      that announces it. */
  lemma CommandsAreAnswered(trace: seq<Event>, i: nat, j: nat)
    requires IsCompleted(trace, i, j)
    ensures IsAnswered(trace[i + 1..j])
    ensures trace[j] == Enter(COMMAND) ==> trace[j - 1].code in {0x0a, 0x0b}
  {
    SinceCommand(trace, i, j);
    StageStep(trace, j);
    StageStep(trace, j - 1);
    hide StageOf, IsData;
    LastStage(StageOf(trace[..j - 1]), trace[j - 1], trace[j]);
    Answered(trace[i + 1..j], StageOf(trace[..j]), trace[j]);
  }

  /** The events of a command that has completed. */
  ghost predicate IsCompleted(trace: seq<Event>, i: nat, j: nat) {
    && i < j < |trace| && StageOf(trace).At? && trace[i] == Enter(COMMAND)
    && (trace[j] == Enter(COMMAND) || (trace[j] == Enter(BUS_FREE) && trace[j - 1].MessageByte?))
    && forall k :: i < k < j ==> trace[k] != Enter(COMMAND) && trace[k] != Enter(BUS_FREE)
  }

  lemma LastStage(s: Stage, e: Event, next: Event)
    requires s.At? && After(s, e).At? && After(After(s, e), next).At?
    requires next == Enter(BUS_FREE) ==> e.MessageByte?
    requires next == Enter(COMMAND) ==> After(s, e).phase !in {SELECTION, MSG_OUT}
    requires next in {Enter(BUS_FREE), Enter(COMMAND)}
    ensures After(s, e).phase == MSG_IN && After(s, e).byte.Some?
    ensures next == Enter(COMMAND) ==> After(s, e).byte.value in {0x0a, 0x0b}
  {
  }

  lemma Answered(s: seq<Event>, stage: Stage, next: Event)
    requires Explains(s, stage) && stage.At? && stage.phase == MSG_IN && stage.byte.Some?
    ensures IsAnswered(s) && s[|s| - 1] == MessageByte(stage.byte.value)
  {
    hide IsData;
  }

  lemma AnswerStep(trace: seq<Event>, k: nat)
    requires k < |trace|
    ensures AnswerOf(trace[..k + 1]) == Demanded(AnswerOf(trace[..k]), StageOf(trace[..k]), trace[k])
  {
    assert trace[..k + 1][..k] == trace[..k];
  }

  lemma {:induction false} KeptBefore(trace: seq<Event>, k: nat)
    requires k <= |trace| && AnswerOf(trace).kept
    ensures AnswerOf(trace[..k]).kept
    decreases |trace|
  {
    hide StageOf;
    if k == |trace| {
      assert trace[..k] == trace;
    } else {
      assert trace[..|trace| - 1][..k] == trace[..k];
      KeptBefore(trace[..|trace| - 1], k);
    }
  }

  /** The byte of the answer at k is the one that the trace demands. */
  lemma AnswerAt(trace: seq<Event>, k: nat)
    requires k < |trace| && AnswerOf(trace).kept
    ensures trace[k].StatusByte? ==> trace[k].code == StatusFor(AnswerOf(trace[..k]))
    ensures trace[k].MessageByte? ==> trace[k].code == MessageFor(AnswerOf(trace[..k]))
  {
    KeptBefore(trace, k + 1);
    AnswerStep(trace, k);
    hide StageOf, AnswerOf, StatusFor, MessageFor;
  }

  /** The control byte of a command was received at r and the command was executed at e, once. */
  ghost predicate IsExecuted(trace: seq<Event>, i: nat, r: nat, e: nat, j: nat) {
    && i < r < e < j <= |trace| && StageOf(trace).At? && trace[i] == Enter(COMMAND)
    && trace[r].Received? && trace[e].Executed?
    && (forall k :: i < k < j ==> trace[k] != Enter(COMMAND) && trace[k] != Enter(BUS_FREE))
    && (forall k :: r < k < j && k != e ==> !trace[k].Received? && !trace[k].Executed?)
  }

  ghost predicate FailsIn(trace: seq<Event>, e: nat, j: nat)
    requires j <= |trace|
  {
    exists k :: e < k < j && IsError(trace[k])
  }

  lemma NoResetIn(trace: seq<Event>, i: nat, k: nat)
    requires i < k < |trace| && StageOf(trace).At? && trace[i] == Enter(COMMAND)
    requires forall n :: i < n < k ==> trace[n] != Enter(COMMAND) && trace[n] != Enter(BUS_FREE)
    ensures trace[k] != ResetSeen
  {
    SinceCommand(trace, i, k);
    StageStep(trace, k);
    hide StageOf, IsData;
  }

  /** A step within a command leaves the status and the link, unless the command is executed or fails. */
  lemma DemandStays(a: Answer, s: Stage, e: Event)
    requires e !in {Enter(COMMAND), Enter(BUS_FREE), ResetSeen} && !e.Received? && !e.Executed?
    ensures var b := Demanded(a, s, e);
            b.linked == a.linked && b.flag == a.flag && b.status == if IsError(e) then 0x02 else a.status
  {
  }

  lemma {:induction false} LinkStays(trace: seq<Event>, i: nat, r: nat, e: nat, k: nat)
    requires IsExecuted(trace, i, r, e, |trace|) && r < k <= e
    ensures AnswerOf(trace[..k]).linked == trace[r].linked && AnswerOf(trace[..k]).flag == trace[r].flag
    decreases k
  {
    hide StageOf, AnswerOf;
    AnswerStep(trace, k - 1);
    if k > r + 1 {
      LinkStays(trace, i, r, e, k - 1);
      NoResetIn(trace, i, k - 1);
      DemandStays(AnswerOf(trace[..k - 1]), StageOf(trace[..k - 1]), trace[k - 1]);
    }
  }

  lemma {:induction false} AnswerStays(trace: seq<Event>, i: nat, r: nat, e: nat, k: nat)
    requires IsExecuted(trace, i, r, e, |trace|) && e < k <= |trace|
    ensures var a, x := AnswerOf(trace[..k]), trace[e];
            && a.linked == trace[r].linked && a.flag == trace[r].flag
            && a.status == if FailsIn(trace, e, k) then 0x02
                 else StatusOf(x.outcome, x.sense, AnswerOf(trace[..e]).status)
    decreases k
  {
    hide StageOf, AnswerOf, StatusOf;
    AnswerStep(trace, k - 1);
    if k == e + 1 {
      LinkStays(trace, i, r, e, e);
    } else {
      AnswerStays(trace, i, r, e, k - 1);
      NoResetIn(trace, i, k - 1);
      DemandStays(AnswerOf(trace[..k - 1]), StageOf(trace[..k - 1]), trace[k - 1]);
    }
  }

  /** The answer to a command that was executed: the status of the device, INTERMEDIATE instead of GOOD if the
      command is linked, or CHECK CONDITION if a device has failed or reported something, and the message for its
      control byte.
      Without a status of its own REQUEST SENSE has the status from before. */
  lemma AnswersAreDue(trace: seq<Event>, i: nat, r: nat, e: nat, j: nat)
    requires IsCompleted(trace, i, j) && AnswerOf(trace).kept && IsExecuted(trace, i, r, e, j)
    ensures j >= 4 && trace[j - 3].StatusByte? && trace[j - 1].MessageByte?
    ensures var status, linked, o := trace[j - 3].code, trace[r].linked, trace[e].outcome;
            && (FailsIn(trace, e, j) ==> status == 0x02)
            && (!FailsIn(trace, e, j) && o.ToStatus? ==> status == if linked && o.code == 0x00 then 0x10 else o.code)
            && (!FailsIn(trace, e, j) && o.ToDataIn? && o.reports ==> status == 0x02)
            && (!FailsIn(trace, e, j) && !o.ToStatus? && !(o.ToDataIn? && o.reports) && !trace[e].sense ==>
                  status == if linked then 0x10 else 0x00)
            && (!FailsIn(trace, e, j) && !o.ToStatus? && !(o.ToDataIn? && o.reports) && trace[e].sense ==>
                  var before := AnswerOf(trace[..e]).status;
                  status == if linked && before == 0x00 then 0x10 else before)
    ensures trace[j - 1].code == if !trace[r].linked then 0x00 else if trace[r].flag then 0x0b else 0x0a
  {
    hide *;
    ExecutedIs(trace, i, r, e, j);
    CommandsAreAnswered(trace, i, j);
    LastEvents(trace, i, r, e, j);
    var t := trace[..j];
    CommandPrefix(trace, i, r, e, j);
    AnswerStays(t, i, r, e, j - 3);
    AnswerStays(t, i, r, e, j - 1);
    AnswerAt(trace, j - 3);
    AnswerAt(trace, j - 1);
    assert t[..j - 3] == trace[..j - 3] && t[..j - 1] == trace[..j - 1] && t[..e] == trace[..e];
    FailsBefore(trace, e, j);
    StatusIs(trace[e].outcome, trace[e].sense, AnswerOf(trace[..e]).status);
    AnswerBytes(AnswerOf(trace[..j - 3]));
    AnswerBytes(AnswerOf(trace[..j - 1]));
  }

  lemma ExecutedIs(trace: seq<Event>, i: nat, r: nat, e: nat, j: nat)
    requires IsExecuted(trace, i, r, e, j)
    ensures i < r < e < j <= |trace| && trace[r].Received? && trace[e].Executed?
  {
    hide StageOf;
  }

  lemma AnswerBytes(a: Answer)
    ensures StatusFor(a) == if a.linked && a.status == 0x00 then 0x10 else a.status
    ensures MessageFor(a) == if !a.linked then 0x00 else if a.flag then 0x0b else 0x0a
  {
  }

  lemma LastEvents(trace: seq<Event>, i: nat, r: nat, e: nat, j: nat)
    requires IsCompleted(trace, i, j) && IsExecuted(trace, i, r, e, j) && IsAnswered(trace[i + 1..j])
    ensures i < r < e < j - 4 && trace[j - 4] == Enter(STATUS) && trace[j - 3].StatusByte?
    ensures trace[j - 2] == Enter(MSG_IN) && trace[j - 1].MessageByte?
  {
    var s := trace[i + 1..j];
    var n := |s| - 4;
    assert s[n] == trace[j - 4] && s[n + 1] == trace[j - 3] && s[n + 2] == trace[j - 2] && s[n + 3] == trace[j - 1];
    hide StageOf, AllData;
  }

  lemma CommandPrefix(trace: seq<Event>, i: nat, r: nat, e: nat, j: nat)
    requires IsExecuted(trace, i, r, e, j)
    ensures IsExecuted(trace[..j], i, r, e, |trace[..j]|)
  {
    NeverRepaired(trace, j);
    hide StageOf;
  }

  lemma FailsBefore(trace: seq<Event>, e: nat, j: nat)
    requires e < j - 4 && j <= |trace| && trace[j - 4] == Enter(STATUS) && trace[j - 3].StatusByte?
    requires trace[j - 2] == Enter(MSG_IN) && trace[j - 1].MessageByte?
    ensures FailsIn(trace, e, j) <==> FailsIn(trace[..j], e, j - 3)
  {
    if FailsIn(trace, e, j) {
      var k :| e < k < j && IsError(trace[k]);
      assert k < j - 3 && IsError(trace[..j][k]);
    }
  }

  /** The order of phases of section 6.3 of SCSI-2. */
  predicate InOrder(p: Phase, q: Phase) {
    || q == BUS_FREE
    || (p == BUS_FREE && q == SELECTION)
    || (p == SELECTION && q in {MSG_OUT, COMMAND})
    || (p in {MSG_OUT, MSG_IN} && q == COMMAND)
    || (p == COMMAND && q in {DATA_IN, DATA_OUT, STATUS})
    || (p in {DATA_IN, DATA_OUT} && q == STATUS)
    || (p == STATUS && q == MSG_IN)
  }

  lemma {:induction false} PhaseSince(trace: seq<Event>, i: nat, j: nat)
    requires i < j <= |trace| && StageOf(trace).At? && trace[i].Enter?
    requires forall k :: i < k < j ==> !trace[k].Enter?
    ensures StageOf(trace[..j]).At? && StageOf(trace[..j]).phase == trace[i].phase
    decreases j
  {
    StageStep(trace, j - 1);
    if j > i + 1 {
      PhaseSince(trace, i, j - 1);
    }
  }

  lemma PhasesAreInOrder(trace: seq<Event>, i: nat, j: nat)
    requires i < j < |trace| && StageOf(trace).At? && trace[i].Enter? && trace[j].Enter?
    requires forall k :: i < k < j ==> !trace[k].Enter?
    ensures InOrder(trace[i].phase, trace[j].phase)
  {
    PhaseSince(trace, i, j);
    StageStep(trace, j);
  }
}
