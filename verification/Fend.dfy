// The lock protocol of am_adp/am_fend/am_fend.c: the monitor thread beside one client that calls AM_FEND_Lock,
// AM_FEND_SetCallback and AM_FEND_SetActionCallback. A step is one locked region or one unlocked access.

module Fend {
  import opened Runs
  import opened Wrappers

  // ---- parameters -------------------------------------------------------------------------------

  datatype Mode = QPSK | QAM | OFDM | DTMB | ISDBT | ATSC | OtherMode

  /** dvb_frontend_parameters, with the members that are compared. */
  datatype Para = Para(frequency: int, qpskRate: int, qamRate: int, qamModulation: int, vsbModulation: int)

  datatype FendEvent = FendEvent(para: Para, status: int)

  /** fend_para_equal. */
  predicate ParaEqual(mode: Mode, p1: Para, p2: Para) {
    if p1.frequency != p2.frequency then false
    else
      match mode
      case QPSK => p1.qpskRate == p2.qpskRate
      case QAM => p1.qamRate == p2.qamRate && p1.qamModulation == p2.qamModulation
      case OFDM | DTMB | ISDBT => true
      case ATSC => p1.vsbModulation == p2.vsbModulation
      case OtherMode => false
  }

  /** For the known modes the comparison is an equivalence; for any other one nothing is equal to anything. */
  lemma ParaEqualIsEquivalence(mode: Mode, a: Para, b: Para, c: Para)
    ensures ParaEqual(mode, a, a) <==> mode != OtherMode
    ensures ParaEqual(mode, a, b) ==> ParaEqual(mode, b, a)
    ensures ParaEqual(mode, a, b) && ParaEqual(mode, b, c) ==> ParaEqual(mode, a, c)
  {
  }

  predicate Matches(mode: Mode, e: FendEvent, wanted: Para) {
    ParaEqual(mode, e.para, wanted) && e.status != 0
  }

  /**
   * What counts of an event, member by member: a status, a known mode, the frequency, and what the mode adds to it. All
   * other members are ignored.
   */
  lemma MatchesExactly(mode: Mode, e: FendEvent, wanted: Para)
    ensures Matches(mode, e, wanted) <==>
            && mode in {QPSK, QAM, OFDM, DTMB, ISDBT, ATSC} && e.status != 0
            && e.para.frequency == wanted.frequency
            && (mode == QPSK ==> e.para.qpskRate == wanted.qpskRate)
            && (mode == QAM ==> e.para.qamRate == wanted.qamRate && e.para.qamModulation == wanted.qamModulation)
            && (mode == ATSC ==> e.para.vsbModulation == wanted.vsbModulation)
  {
  }

  // ---- state ------------------------------------------------------------------------------------

  /** A callback with its parameter. LockCb is fend_lock_cb, and LockPara(id) the parameter block
      of lock call `id`. */
  datatype Callback = NoCb | User(n: nat) | LockCb
  datatype Data = Ptr(n: nat) | LockPara(id: nat)
  datatype Pair = Pair(cb: Callback, data: Data)

  /** Where the monitor thread is, with the event it handles. */
  datatype Pc =
    | Waiting
    | Flagging(got: Option<FendEvent>)
    | Testing(got: Option<FendEvent>)
    | LoadingCb(evt: FendEvent)
    | LoadingData(evt: FendEvent, cb: Callback)
    | Calling(evt: FendEvent, cb: Callback, data: Data)
    | InUser(evt: FendEvent)
    | Comparing(evt: FendEvent, id: nat)
    | Unlocking(evt: FendEvent, id: nat)
    | CallingOld(evt: FendEvent, id: nat)
    | Signalling(evt: FendEvent)
    | InEvents(evt: FendEvent)
    | Ending

  /**
   * Where the client is in AM_FEND_Lock. While it tunes it holds the device lock; while it is locking it waits, with
   * the lock released. Its parameter block lives in both.
   */
  datatype Client =
    | Free
    | Tuning(id: nat, wanted: Para, before: Pair)
    | Locking(id: nat, wanted: Para, before: Pair)

  /** `delivered` records what wait_event has returned; `status` is the client's result cell. */
  datatype State = State(
    mode: Mode, pair: Pair, enableCb: bool, runCb: bool, flLock: bool,
    pc: Pc, client: Client, status: int, locks: nat, delivered: seq<FendEvent>)

  function Init(mode: Mode): State {
    State(mode, Pair(NoCb, Ptr(0)), true, false, false, Waiting, Free, 0, 0, [])
  }

  datatype Step =
    // the monitor thread
    | GetEvent(r: Option<FendEvent>)
    | SetRun | Test | LoadCb | LoadData
    | Invoke(cb: Callback, data: Data)
    | Compare | ClearLock | CallOld | Return | Signal | SignalDone | ClearRun
    // AM_FEND_Lock: up to set_para, the answer of set_para, the return
    | LockBegin(wanted: Para)
    | Tuned(setRet: int)
    | LockEnd
    // the other calls
    | SetCallback(byThread: bool, cb: Callback, data: Data)
    | SetAction(byThread: bool, on: bool)

  /** The monitor thread runs foreign code, which may call the API. */
  predicate InForeignCode(pc: Pc) {
    pc.InUser? || pc.InEvents?
  }

  /** The parameter block of lock call `id` exists. */
  predicate Alive(s: State, id: nat) {
    !s.client.Free? && s.client.id == id
  }

  /** The device lock can be taken between two steps. */
  predicate LockFree(s: State) {
    !s.client.Tuning?
  }

  predicate Enabled(s: State, e: Step) {
    match e
    case GetEvent(_) => s.pc.Waiting?
    case SetRun => s.pc.Flagging? && LockFree(s)
    case Test => s.pc.Testing?
    case LoadCb => s.pc.LoadingCb?
    case LoadData => s.pc.LoadingData?
    case Invoke(cb, data) => s.pc.Calling? && s.pc.cb == cb && s.pc.data == data
    case Compare => s.pc.Comparing?
    case ClearLock => s.pc.Unlocking? && LockFree(s)
    case CallOld => s.pc.CallingOld?
    case Return => s.pc.InUser?
    case Signal => s.pc.Signalling?
    case SignalDone => s.pc.InEvents?
    case ClearRun => s.pc.Ending? && LockFree(s)
    case LockBegin(_) => s.client.Free? && !s.runCb
    case Tuned(_) => s.client.Tuning?
    case LockEnd => s.client.Locking? && !s.runCb && !s.flLock
    case SetCallback(byThread, cb, data) =>
      && cb != LockCb && data.Ptr? && LockFree(s)
      && (if byThread then InForeignCode(s.pc) else s.client.Free? && (s.pair != Pair(cb, data) ==> !s.runCb))
    case SetAction(byThread, on) =>
      && LockFree(s)
      && (if byThread then InForeignCode(s.pc) else s.client.Free? && (s.enableCb != on ==> !s.runCb))
  }

  function Next(s: State, e: Step): State
    requires Enabled(s, e)
  {
    match e
    case GetEvent(r) =>
      s.(pc := Flagging(r), delivered := if r.Some? then s.delivered + [r.value] else s.delivered)
    case SetRun => s.(runCb := true, pc := Testing(s.pc.got))
    case Test =>
      if s.pc.got.None? then s.(pc := Ending)
      else if s.pair.cb != NoCb && s.enableCb then s.(pc := LoadingCb(s.pc.got.value))
      else s.(pc := Signalling(s.pc.got.value))
    case LoadCb => s.(pc := LoadingData(s.pc.evt, s.pair.cb))
    case LoadData => s.(pc := Calling(s.pc.evt, s.pc.cb, s.pair.data))
    case Invoke(cb, data) =>
      if cb == LockCb && data.LockPara? then s.(pc := Comparing(s.pc.evt, data.id)) else s.(pc := InUser(s.pc.evt))
    case Compare =>
      if !Alive(s, s.pc.id) || !Matches(s.mode, s.pc.evt, s.client.wanted) then s.(pc := Signalling(s.pc.evt))
      else s.(status := s.pc.evt.status, pc := Unlocking(s.pc.evt, s.pc.id))
    case ClearLock => s.(flLock := false, pc := CallingOld(s.pc.evt, s.pc.id))
    case CallOld =>
      if !Alive(s, s.pc.id) || s.client.before.cb == NoCb then s.(pc := Signalling(s.pc.evt))
      else s.(pc := InUser(s.pc.evt))
    case Return => s.(pc := Signalling(s.pc.evt))
    case Signal => s.(pc := if s.enableCb then InEvents(s.pc.evt) else Ending)
    case SignalDone => s.(pc := Ending)
    case ClearRun => s.(runCb := false, pc := Waiting)
    case LockBegin(wanted) =>
      s.(pair := Pair(LockCb, LockPara(s.locks)), flLock := true, locks := s.locks + 1,
         client := Tuning(s.locks, wanted, s.pair))
    case Tuned(setRet) =>
      if setRet == 0 then s.(client := Locking(s.client.id, s.client.wanted, s.client.before))
      else s.(pair := s.client.before, client := Free)
    case LockEnd => s.(pair := s.client.before, client := Free)
    case SetCallback(_, cb, data) => s.(pair := Pair(cb, data))
    case SetAction(_, on) => s.(enableCb := on)
  }

  /** The device, its monitor thread and its client. */
  function Frontend(): Machine<State, Step> {
    Machine((s: State, e: Step) => Enabled(s, e), (s: State, e: Step) => if Enabled(s, e) then Next(s, e) else s)
  }

  // ---- the invariant ----------------------------------------------------------------------------

  predicate UserPair(p: Pair) {
    p.cb != LockCb && p.data.Ptr?
  }

  /** The lock parameter block the thread is using or about to use. */
  function UsedBlock(pc: Pc): Option<nat> {
    match pc
    case Calling(_, _, LockPara(id)) => Some(id)
    case Comparing(_, id) => Some(id)
    case Unlocking(_, id) => Some(id)
    case CallingOld(_, id) => Some(id)
    case _ => None
  }

  function HandledEvent(pc: Pc): Option<FendEvent> {
    match pc
    case Waiting => None
    case Ending => None
    case Flagging(got) => got
    case Testing(got) => got
    case _ => Some(pc.evt)
  }

  /** The flag is set exactly while the thread handles an event. */
  predicate FlagInv(s: State) {
    s.runCb <==> !s.pc.Waiting? && !s.pc.Flagging?
  }

  /** The device holds the client's lock callback only during its call, and a user's pair otherwise. */
  predicate PairInv(s: State) {
    && (s.client.Free? ==> UserPair(s.pair))
    && (s.client.Tuning? ==>
          && UserPair(s.client.before) && s.client.id < s.locks
          && s.pair == Pair(LockCb, LockPara(s.client.id)) && s.flLock && !s.runCb)
    && (s.client.Locking? ==>
          && UserPair(s.client.before) && s.client.id < s.locks
          && (UserPair(s.pair) || s.pair == Pair(LockCb, LockPara(s.client.id))))
    && (s.pc.LoadingCb? ==> s.pair.cb != NoCb)
    && (s.pc.LoadingData? ==> s.pair.cb == s.pc.cb && s.pc.cb != NoCb)
    && (s.pc.Calling? ==> s.pair == Pair(s.pc.cb, s.pc.data) && s.pc.cb != NoCb)
  }

  /** The thread touches a lock parameter block only while it is alive. */
  predicate BlockInv(s: State) {
    UsedBlock(s.pc).Some? ==> Alive(s, UsedBlock(s.pc).value)
  }

  /** The result cell holds the status of a delivered matching event. */
  ghost predicate Answered(s: State)
    requires s.client.Locking?
  {
    exists e :: e in s.delivered && Matches(s.mode, e, s.client.wanted) && s.status == e.status
  }

  ghost predicate StatusInv(s: State) {
    && (HandledEvent(s.pc).Some? ==> HandledEvent(s.pc).value in s.delivered)
    && (s.pc.Unlocking? && s.client.Locking? ==> Answered(s))
    && (s.client.Locking? && !s.flLock ==> Answered(s))
  }

  ghost predicate Inv(s: State) {
    FlagInv(s) && PairInv(s) && BlockInv(s) && StatusInv(s)
  }

  lemma FlagKept(s: State, e: Step)
    requires FlagInv(s) && Enabled(s, e)
    ensures FlagInv(Next(s, e))
  {
  }

  /** The steps of the client and of other callers. */
  predicate IsCall(e: Step) {
    e.LockBegin? || e.Tuned? || e.LockEnd? || e.SetCallback? || e.SetAction?
  }

  lemma PairKeptByThread(s: State, e: Step)
    requires FlagInv(s) && PairInv(s) && Enabled(s, e) && !IsCall(e)
    ensures PairInv(Next(s, e))
  {
  }

  lemma PairKeptByCall(s: State, e: Step)
    requires FlagInv(s) && PairInv(s) && Enabled(s, e) && IsCall(e)
    ensures PairInv(Next(s, e))
  {
  }

  lemma PairKept(s: State, e: Step)
    requires FlagInv(s) && PairInv(s) && Enabled(s, e)
    ensures PairInv(Next(s, e))
  {
    if IsCall(e) {
      PairKeptByCall(s, e);
    } else {
      PairKeptByThread(s, e);
    }
  }

  lemma BlockKept(s: State, e: Step)
    requires FlagInv(s) && PairInv(s) && BlockInv(s) && Enabled(s, e)
    ensures BlockInv(Next(s, e))
  {
  }

  lemma CallsKeepEvent(s: State, e: Step)
    requires Enabled(s, e) && IsCall(e)
    ensures Next(s, e).delivered == s.delivered && Next(s, e).pc == s.pc
  {
  }

  lemma ThreadKeepsEvent(s: State, e: Step)
    requires Enabled(s, e) && !IsCall(e) && !e.GetEvent?
    ensures var t := Next(s, e);
            t.delivered == s.delivered && (HandledEvent(t.pc).None? || HandledEvent(t.pc) == HandledEvent(s.pc))
  {
  }

  lemma HandledSame(s: State, e: Step)
    requires Enabled(s, e) && !e.GetEvent?
    ensures var t := Next(s, e);
            t.delivered == s.delivered && (HandledEvent(t.pc).None? || HandledEvent(t.pc) == HandledEvent(s.pc))
  {
    if IsCall(e) {
      CallsKeepEvent(s, e);
    } else {
      ThreadKeepsEvent(s, e);
    }
  }

  lemma HandledKept(s: State, e: Step)
    requires StatusInv(s) && Enabled(s, e)
    ensures var t := Next(s, e); HandledEvent(t.pc).Some? ==> HandledEvent(t.pc).value in t.delivered
  {
    if e.GetEvent? {
      var t := Next(s, e);
      assert e.r.Some? ==> t.delivered[|s.delivered|] == e.r.value;
    } else {
      HandledSame(s, e);
    }
  }

  lemma AnsweredKept(s: State, e: Step)
    requires Enabled(s, e) && s.client.Locking? && Answered(s) && !e.LockEnd? && !e.Compare?
    ensures Next(s, e).client.Locking? && Answered(Next(s, e))
  {
    var t := Next(s, e);
    if e.GetEvent? {
      var x :| x in s.delivered && Matches(s.mode, x, s.client.wanted) && s.status == x.status;
      assert t.delivered == s.delivered || t.delivered[..|s.delivered|] == s.delivered;
      assert x in t.delivered && Matches(t.mode, x, t.client.wanted) && t.status == x.status;
    } else {
      OtherStep(s, e);
    }
  }

  lemma StatusKept(s: State, e: Step)
    requires FlagInv(s) && PairInv(s) && BlockInv(s) && StatusInv(s) && Enabled(s, e)
    ensures StatusInv(Next(s, e))
  {
    HandledKept(s, e);
    var t := Next(s, e);
    if e.Compare? {
      if t.pc.Unlocking? {
        assert s.pc.evt in t.delivered && Matches(t.mode, s.pc.evt, t.client.wanted);
      }
    } else if s.client.Locking? && Answered(s) && !e.LockEnd? {
      AnsweredKept(s, e);
    }
  }

  lemma InvKept(s: State, e: Step)
    requires Inv(s) && Enabled(s, e)
    ensures Inv(Next(s, e))
  {
    FlagKept(s, e);
    PairKept(s, e);
    BlockKept(s, e);
    StatusKept(s, e);
  }

  lemma InvHolds(s: State, run: seq<Step>)
    requires Inv(s) && IsRun(Frontend(), s, run)
    ensures Inv(After(Frontend(), s, run))
  {
    forall t, e | Inv(t) && Enabled(t, e)
      ensures Inv(Next(t, e))
    {
      InvKept(t, e);
    }
    InvariantHolds(Frontend(), t => Inv(t), s, run);
  }

  // ---- what a lock call means -------------------------------------------------------------------

  /** The steps do not end the call that is under way. */
  ghost predicate Continues(run: seq<Step>) {
    forall k :: 0 <= k < |run| ==> !run[k].LockEnd? && !(run[k].Tuned? && run[k].setRet != 0)
  }

  /** Both are places in the same call. */
  predicate SameCall(c: Client, d: Client) {
    !c.Free? && !d.Free? && c.id == d.id && c.wanted == d.wanted && c.before == d.before
  }

  lemma TailContinues(run: seq<Step>)
    requires run != [] && Continues(run)
    ensures Continues(run[1..]) && !run[0].LockEnd? && !(run[0].Tuned? && run[0].setRet != 0)
  {
  }

  lemma {:induction false} CallContinues(s: State, run: seq<Step>)
    requires !s.client.Free? && IsRun(Frontend(), s, run) && Continues(run)
    ensures SameCall(s.client, After(Frontend(), s, run).client) && After(Frontend(), s, run).mode == s.mode
    decreases |run|
  {
    if run != [] {
      TailContinues(run);
      CallContinues(Next(s, run[0]), run[1..]);
    }
  }

  /** The state that a run from the start reaches, with the device in a mode. */
  ghost function Reach(mode: Mode, run: seq<Step>): State
    requires IsRun(Frontend(), Init(mode), run)
  {
    After(Frontend(), Init(mode), run)
  }

  /**
   * AM_FEND_Lock that tunes: when it returns, the callback pair is the one from before the call, whatever the
   * callbacks did meanwhile, and the result is the non-zero status of a delivered event for the requested
   * parameters.
   */
  lemma LockSucceeds(mode: Mode, before: seq<Step>, wanted: Para, during: seq<Step>) returns (e: FendEvent)
    requires IsRun(Frontend(), Init(mode), before) && Enabled(Reach(mode, before), LockBegin(wanted))
    requires var s1 := Next(Reach(mode, before), LockBegin(wanted));
             IsRun(Frontend(), s1, during) && Continues(during) && Enabled(After(Frontend(), s1, during), LockEnd)
    ensures var s0 := Reach(mode, before);
            var s2 := After(Frontend(), Next(s0, LockBegin(wanted)), during);
            && Next(s2, LockEnd).pair == s0.pair
            && s2.mode == mode && e in s2.delivered && s2.status == e.status != 0
    ensures mode != OtherMode && e.para.frequency == wanted.frequency
    ensures mode == QPSK ==> e.para.qpskRate == wanted.qpskRate
    ensures mode == QAM ==> e.para.qamRate == wanted.qamRate && e.para.qamModulation == wanted.qamModulation
    ensures mode == ATSC ==> e.para.vsbModulation == wanted.vsbModulation
  {
    var s0 := Reach(mode, before);
    InvHolds(Init(mode), before);
    var s1 := Next(s0, LockBegin(wanted));
    InvKept(s0, LockBegin(wanted));
    InvHolds(s1, during);
    CallContinues(s1, during);
    ModeStays(Init(mode), before);
    ModeStays(s1, during);
    var s2 := After(Frontend(), s1, during);
    e :| e in s2.delivered && Matches(s2.mode, e, wanted) && s2.status == e.status;
    MatchesExactly(mode, e, wanted);
  }

  lemma {:induction false} ModeStays(s: State, run: seq<Step>)
    requires IsRun(Frontend(), s, run)
    ensures After(Frontend(), s, run).mode == s.mode
    decreases |run|
  {
    if run != [] {
      assert Next(s, run[0]).mode == s.mode;
      ModeStays(Next(s, run[0]), run[1..]);
    }
  }

  ghost predicate NoneTuned(run: seq<Step>) {
    forall k :: 0 <= k < |run| ==> !run[k].Tuned?
  }

  ghost predicate OnlyFetches(run: seq<Step>) {
    forall k :: 0 <= k < |run| ==> run[k].GetEvent?
  }

  /** While the client tunes, the thread can do no more than fetch an event. */
  lemma {:induction false} TuningIsQuiet(s: State, run: seq<Step>)
    requires Inv(s) && s.client.Tuning? && IsRun(Frontend(), s, run) && NoneTuned(run)
    ensures OnlyFetches(run) && |run| <= 1
    ensures var t := After(Frontend(), s, run);
            t.client == s.client && t.pair == s.pair && t.status == s.status && t.enableCb == s.enableCb
    decreases |run|
  {
    if run != [] {
      InvKept(s, run[0]);
      assert !run[0].Tuned? && NoneTuned(run[1..]);
      TuningIsQuiet(Next(s, run[0]), run[1..]);
    }
  }

  /**
   * AM_FEND_Lock that set_para refuses: the lock callback, which it has installed, is gone again before the thread
   * can look at the pair, let alone call it, and the caller's cell is untouched.
   */
  lemma LockRefused(mode: Mode, before: seq<Step>, wanted: Para, during: seq<Step>, setRet: int)
    requires IsRun(Frontend(), Init(mode), before) && Enabled(Reach(mode, before), LockBegin(wanted))
    requires IsRun(Frontend(), Next(Reach(mode, before), LockBegin(wanted)), during) && NoneTuned(during)
    requires setRet != 0
    ensures OnlyFetches(during) && |during| <= 1
    ensures var s0 := Reach(mode, before);
            var s2 := After(Frontend(), Next(s0, LockBegin(wanted)), during);
            && s2.pair.cb == LockCb && Enabled(s2, Tuned(setRet))
            && var t := Next(s2, Tuned(setRet));
               t.pair == s0.pair && t.client.Free? && t.status == s0.status && t.enableCb == s0.enableCb
  {
    InvHolds(Init(mode), before);
    InvKept(Reach(mode, before), LockBegin(wanted));
    TuningIsQuiet(Next(Reach(mode, before), LockBegin(wanted)), during);
  }

  /**
   * In every run, a callback gets the lock parameter block of a call only while that call is waiting; and it
   * always gets a callback and a parameter that belong together.
   */
  lemma NoDeadParameter(mode: Mode, run: seq<Step>, k: nat)
    requires IsRun(Frontend(), Init(mode), run) && k < |run|
    ensures IsRun(Frontend(), Init(mode), run[..k]) && Enabled(Reach(mode, run[..k]), run[k])
    ensures var s := Reach(mode, run[..k]);
            && (run[k].Invoke? ==> s.pair == Pair(run[k].cb, run[k].data) && run[k].cb != NoCb)
            && (run[k].Invoke? && run[k].data.LockPara? ==> s.client.Locking? && s.client.id == run[k].data.id)
            && (run[k].Compare? || run[k].CallOld? ==> s.client.Locking? && s.client.id == s.pc.id)
  {
    assert run == run[..k] + run[k..];
    RunSplit(Frontend(), Init(mode), run[..k], run[k..]);
    InvHolds(Init(mode), run[..k]);
  }

  // ---- whether a lock call returns --------------------------------------------------------------

  /** The call waits, and nothing the thread can still do answers it. */
  predicate Stuck(s: State) {
    && s.client.Locking? && s.flLock
    && (|| (s.mode == OtherMode && !s.pc.Unlocking?)
        || (!s.enableCb && (s.pc.Waiting? || s.pc.Flagging? || s.pc.Testing? || s.pc.Signalling? || s.pc.Ending?)))
  }

  lemma {:induction false} StuckStays(s: State, run: seq<Step>)
    requires Stuck(s) && IsRun(Frontend(), s, run)
    ensures Stuck(After(Frontend(), s, run))
    decreases |run|
  {
    if run != [] {
      StuckStays(Next(s, run[0]), run[1..]);
    }
  }

  /** The waiting call can return: some run leads to its last step. */
  ghost predicate CanReturn(s: State) {
    exists run :: IsRun(Frontend(), s, run) && Enabled(After(Frontend(), s, run), LockEnd)
  }

  /** The thread holds an event, fetched before the tuning was accepted, that answers the call. */
  predicate Pending(s: State)
    requires !s.client.Free?
  {
    s.pc.Flagging? && s.pc.got.Some? && Matches(s.mode, s.pc.got.value, s.client.wanted)
  }

  /**
   * In every reachable state in which set_para accepts, the call can return if and only if the mode is one that the
   * comparison knows and the callbacks are switched on. Otherwise it waits in every run.
   */
  lemma LockReturnsExactly(mode: Mode, before: seq<Step>)
    requires IsRun(Frontend(), Init(mode), before) && Reach(mode, before).client.Tuning?
    ensures var t := Next(Reach(mode, before), Tuned(0));
            CanReturn(t) <==> t.mode != OtherMode && t.enableCb
  {
    var s := Reach(mode, before);
    InvHolds(Init(mode), before);
    var t := Next(s, Tuned(0));
    if t.mode != OtherMode && t.enableCb {
      ArmedCanReturn(t);
    } else {
      StuckNeverReturns(t);
    }
  }

  lemma StuckNeverReturns(t: State)
    requires Stuck(t)
    ensures !CanReturn(t)
  {
    if CanReturn(t) {
      var run :| IsRun(Frontend(), t, run) && Enabled(After(Frontend(), t, run), LockEnd);
      StuckStays(t, run);
    }
  }

  lemma ArmedCanReturn(t: State)
    requires Armed(t) && t.mode != OtherMode && (t.pc.Waiting? || t.pc.Flagging?) && (t.pc.Waiting? ==> !t.runCb)
    ensures CanReturn(t)
  {
    var first := Drained(t);
    var u := After(Frontend(), t, first);
    if !Enabled(u, LockEnd) {
      var evt := FendEvent(t.client.wanted, 1);
      var fetched := Extended(Frontend(), u, [], GetEvent(Some(evt)));
      var answered := Answer(After(Frontend(), u, fetched), evt);
      RunJoin(Frontend(), u, fetched, answered);
      RunJoin(Frontend(), t, first, fetched + answered);
    }
  }

  /** A reachable call that never returns: the client switches the callbacks off and then locks. */
  lemma DisabledCallHangs(mode: Mode, wanted: Para) returns (before: seq<Step>)
    ensures IsRun(Frontend(), Init(mode), before) && Reach(mode, before).client.Tuning?
    ensures !CanReturn(Next(Reach(mode, before), Tuned(0)))
  {
    before := Extended(Frontend(), Init(mode), [], SetAction(false, false));
    before := Extended(Frontend(), Init(mode), before, LockBegin(wanted));
    assert !Next(Reach(mode, before), Tuned(0)).enableCb;
    LockReturnsExactly(mode, before);
  }

  /** Another one: the mode is none that the comparison knows. */
  lemma UnknownModeHangs(wanted: Para) returns (before: seq<Step>)
    ensures IsRun(Frontend(), Init(OtherMode), before) && Reach(OtherMode, before).client.Tuning?
    ensures !CanReturn(Next(Reach(OtherMode, before), Tuned(0)))
  {
    before := Extended(Frontend(), Init(OtherMode), [], LockBegin(wanted));
    LockReturnsExactly(OtherMode, before);
  }

  // ---- that a fetched answer is certain ---------------------------------------------------------

  /** The thread is on its way to the comparison with a matching event, and nothing can turn it away. */
  predicate OnItsWay(s: State)
    requires s.client.Locking?
  {
    && s.enableCb && s.pair == Pair(LockCb, LockPara(s.client.id))
    && match s.pc
       case Flagging(got) => got.Some? && Matches(s.mode, got.value, s.client.wanted)
       case Testing(got) => got.Some? && Matches(s.mode, got.value, s.client.wanted)
       case LoadingCb(evt) => Matches(s.mode, evt, s.client.wanted)
       case LoadingData(evt, cb) => Matches(s.mode, evt, s.client.wanted) && cb == LockCb
       case Calling(evt, cb, data) => Matches(s.mode, evt, s.client.wanted) && Pair(cb, data) == s.pair
       case Comparing(evt, id) => Matches(s.mode, evt, s.client.wanted) && id == s.client.id
       case Unlocking(_, _) => true
       case _ => false
  }

  predicate Answering(s: State) {
    s.client.Locking? && (s.flLock ==> OnItsWay(s))
  }

  lemma AnsweringKept(s: State, e: Step)
    requires Answering(s) && Enabled(s, e) && !e.LockEnd?
    ensures Answering(Next(s, e))
  {
  }

  lemma {:induction false} AnsweringStays(s: State, run: seq<Step>)
    requires Answering(s) && IsRun(Frontend(), s, run) && Continues(run)
    ensures Answering(After(Frontend(), s, run))
    decreases |run|
  {
    if run != [] {
      TailContinues(run);
      AnsweringKept(s, run[0]);
      AnsweringStays(Next(s, run[0]), run[1..]);
    }
  }

  /**
   * Once a matching event is fetched, with the lock callback in place and the callbacks switched on, every run answers
   * the call: whatever the callbacks and other callers do meanwhile, when the thread waits again the call can return.
   */
  lemma FetchedAnswerIsCertain(mode: Mode, before: seq<Step>, during: seq<Step>)
    requires IsRun(Frontend(), Init(mode), before) && Armed(Reach(mode, before)) && Pending(Reach(mode, before))
    requires IsRun(Frontend(), Reach(mode, before), during) && Continues(during)
    ensures var t := After(Frontend(), Reach(mode, before), during); t.pc.Waiting? ==> Enabled(t, LockEnd)
  {
    var s := Reach(mode, before);
    InvHolds(Init(mode), before);
    AnsweringStays(s, during);
    InvHolds(s, during);
  }

  /** How many steps the thread has at most before it waits again. */
  function StepsLeft(pc: Pc): nat {
    match pc
    case Waiting => 0
    case Ending => 1
    case InEvents(_) => 2
    case Signalling(_) => 3
    case InUser(_) => 4
    case CallingOld(_, _) => 5
    case Unlocking(_, _) => 6
    case Comparing(_, _) => 7
    case Calling(_, _, _) => 8
    case LoadingData(_, _) => 9
    case LoadingCb(_) => 10
    case Testing(_) => 11
    case Flagging(_) => 12
  }

  /** The step of the thread that is due, apart from fetching. */
  function Due(pc: Pc): Step
    requires !pc.Waiting?
  {
    match pc
    case Flagging(_) => SetRun
    case Testing(_) => Test
    case LoadingCb(_) => LoadCb
    case LoadingData(_, _) => LoadData
    case Calling(_, cb, data) => Invoke(cb, data)
    case InUser(_) => Return
    case Comparing(_, _) => Compare
    case Unlocking(_, _) => ClearLock
    case CallingOld(_, _) => CallOld
    case Signalling(_) => Signal
    case InEvents(_) => SignalDone
    case Ending => ClearRun
  }

  /**
   * While a call waits, the thread is never blocked, and each of its steps brings it nearer to waiting for the next
   * event; no other step moves it.
   */
  lemma ThreadGetsOn(s: State, e: Step)
    requires s.client.Locking? && !s.pc.Waiting? && Enabled(s, e)
    ensures Enabled(s, Due(s.pc))
    ensures if e == Due(s.pc) then StepsLeft(Next(s, e).pc) < StepsLeft(s.pc) else Next(s, e).pc == s.pc
  {
    DueStep(s);
    if IsCall(e) {
      CallsKeepEvent(s, e);
    } else {
      OneIsDue(s, e);
    }
  }

  lemma DueStep(s: State)
    requires s.client.Locking? && !s.pc.Waiting?
    ensures Enabled(s, Due(s.pc)) && StepsLeft(Next(s, Due(s.pc)).pc) < StepsLeft(s.pc) && !IsCall(Due(s.pc))
  {
  }

  lemma OneIsDue(s: State, e: Step)
    requires !s.pc.Waiting? && Enabled(s, e) && !IsCall(e)
    ensures e == Due(s.pc)
  {
  }

  // ---- whether the answer is fresh --------------------------------------------------------------

  ghost predicate FetchedSince(d: seq<FendEvent>, base: nat, e: FendEvent) {
    exists k :: base <= k < |d| && d[k] == e
  }

  /** The result cell holds the status of a matching event that was fetched after the first `base` ones. */
  ghost predicate FreshAnswer(s: State, base: nat)
    requires !s.client.Free?
  {
    exists e :: FetchedSince(s.delivered, base, e) && Matches(s.mode, e, s.client.wanted) && s.status == e.status
  }

  /** Whatever can answer the call, or has answered it, is fresh. */
  ghost predicate FreshInv(s: State, base: nat) {
    && s.client.Locking? && base <= |s.delivered|
    && (HandledEvent(s.pc).Some? && Matches(s.mode, HandledEvent(s.pc).value, s.client.wanted) ==>
          FetchedSince(s.delivered, base, HandledEvent(s.pc).value))
    && (s.pc.Unlocking? || !s.flLock ==> FreshAnswer(s, base))
  }

  lemma FetchedStays(d: seq<FendEvent>, base: nat, e: FendEvent, x: FendEvent)
    requires FetchedSince(d, base, e)
    ensures FetchedSince(d + [x], base, e)
  {
    var k :| base <= k < |d| && d[k] == e;
    assert (d + [x])[k] == e;
  }

  lemma FreshFetched(s: State, base: nat, e: Step)
    requires FreshInv(s, base) && Enabled(s, e) && e.GetEvent?
    ensures FreshInv(Next(s, e), base)
  {
    if e.r.Some? {
      assert (s.delivered + [e.r.value])[|s.delivered|] == e.r.value;
      if FreshAnswer(s, base) {
        var x :| FetchedSince(s.delivered, base, x) && Matches(s.mode, x, s.client.wanted) && s.status == x.status;
        FetchedStays(s.delivered, base, x, e.r.value);
      }
    }
  }

  /** What no step changes while a call waits, apart from a fetch, a comparison and the end of the call. */
  lemma OtherStep(s: State, e: Step)
    requires s.client.Locking? && Enabled(s, e) && !e.LockEnd? && !e.GetEvent? && !e.Compare?
    ensures var t := Next(s, e);
            && t.client == s.client && t.mode == s.mode && t.status == s.status && t.delivered == s.delivered
            && (t.pc.Unlocking? ==> s.pc.Unlocking?) && (!t.flLock ==> !s.flLock || s.pc.Unlocking?)
  {
  }

  lemma FreshSame(s: State, t: State, base: nat)
    requires s.client.Locking? && t.client == s.client && t.mode == s.mode && t.status == s.status
    requires t.delivered == s.delivered && FreshAnswer(s, base)
    ensures FreshAnswer(t, base)
  {
    var x :| FetchedSince(s.delivered, base, x) && Matches(s.mode, x, s.client.wanted) && s.status == x.status;
    assert FetchedSince(t.delivered, base, x) && Matches(t.mode, x, t.client.wanted) && t.status == x.status;
  }

  lemma FreshCompared(s: State, base: nat)
    requires FreshInv(s, base) && BlockInv(s) && Enabled(s, Compare)
    ensures FreshInv(Next(s, Compare), base)
  {
    var t := Next(s, Compare);
    if t.pc.Unlocking? {
      assert FetchedSince(t.delivered, base, s.pc.evt) && Matches(t.mode, s.pc.evt, t.client.wanted);
    } else if FreshAnswer(s, base) {
      FreshSame(s, t, base);
    }
  }

  lemma FreshKept(s: State, base: nat, e: Step)
    requires FreshInv(s, base) && BlockInv(s) && Enabled(s, e) && !e.LockEnd? && !e.GetEvent?
    ensures FreshInv(Next(s, e), base)
  {
    if e.Compare? {
      FreshCompared(s, base);
    } else {
      HandledSame(s, e);
      OtherStep(s, e);
      if FreshAnswer(s, base) {
        FreshSame(s, Next(s, e), base);
      }
    }
  }

  lemma {:induction false} FreshStays(s: State, base: nat, run: seq<Step>)
    requires Inv(s) && FreshInv(s, base) && IsRun(Frontend(), s, run) && Continues(run)
    ensures FreshInv(After(Frontend(), s, run), base)
    decreases |run|
  {
    if run != [] {
      TailContinues(run);
      InvKept(s, run[0]);
      if run[0].GetEvent? {
        FreshFetched(s, base, run[0]);
      } else {
        FreshKept(s, base, run[0]);
      }
      FreshStays(Next(s, run[0]), base, run[1..]);
    }
  }

  /** Unless a matching event was already fetched when set_para accepted, the answer is one fetched after that. */
  lemma AnswerIsFresh(mode: Mode, before: seq<Step>, during: seq<Step>)
    requires IsRun(Frontend(), Init(mode), before) && Reach(mode, before).client.Tuning?
    requires !Pending(Reach(mode, before))
    requires var t := Next(Reach(mode, before), Tuned(0));
             IsRun(Frontend(), t, during) && Continues(during) && Enabled(After(Frontend(), t, during), LockEnd)
    ensures var t := Next(Reach(mode, before), Tuned(0));
            FreshAnswer(After(Frontend(), t, during), |t.delivered|)
  {
    var s := Reach(mode, before);
    InvHolds(Init(mode), before);
    InvKept(s, Tuned(0));
    FreshStays(Next(s, Tuned(0)), |s.delivered|, during);
  }

  ghost predicate NoFetch(run: seq<Step>) {
    forall k :: 0 <= k < |run| ==> !run[k].GetEvent?
  }

  /** The call can return with nothing fetched since set_para accepted. */
  ghost predicate CanReturnUnfetched(t: State) {
    exists run ::
      IsRun(Frontend(), t, run) && NoFetch(run) && Continues(run) && Enabled(After(Frontend(), t, run), LockEnd)
  }

  /**
   * The answer can be older than the tuning if and only if, when set_para accepts, a matching event is already
   * fetched and the callbacks are switched on.
   */
  lemma AnswerIsOldExactly(mode: Mode, before: seq<Step>)
    requires IsRun(Frontend(), Init(mode), before) && Reach(mode, before).client.Tuning?
    ensures var s := Reach(mode, before);
            CanReturnUnfetched(Next(s, Tuned(0))) <==> Pending(s) && s.enableCb
  {
    var s := Reach(mode, before);
    InvHolds(Init(mode), before);
    var t := Next(s, Tuned(0));
    if Pending(s) && s.enableCb {
      var run := Answer(t, s.pc.got.value);
    }
    if CanReturnUnfetched(t) {
      var run :| IsRun(Frontend(), t, run) && NoFetch(run) && Continues(run)
                 && Enabled(After(Frontend(), t, run), LockEnd);
      if !s.enableCb {
        StuckStays(t, run);
      } else if !Pending(s) {
        AnswerIsFresh(mode, before, run);
        NothingFetched(t, run);
      }
    }
  }

  lemma {:induction false} NothingFetched(s: State, run: seq<Step>)
    requires IsRun(Frontend(), s, run) && NoFetch(run)
    ensures After(Frontend(), s, run).delivered == s.delivered
    decreases |run|
  {
    if run != [] {
      assert !run[0].GetEvent? && NoFetch(run[1..]);
      NothingFetched(Next(s, run[0]), run[1..]);
    }
  }

  /** Such a state is reachable in every mode the comparison knows. */
  lemma AnswerMayBeOld(mode: Mode, wanted: Para) returns (before: seq<Step>)
    requires mode != OtherMode
    ensures IsRun(Frontend(), Init(mode), before) && Reach(mode, before).client.Tuning?
    ensures Pending(Reach(mode, before)) && CanReturnUnfetched(Next(Reach(mode, before), Tuned(0)))
  {
    before := Extended(Frontend(), Init(mode), [], GetEvent(Some(FendEvent(wanted, 1))));
    before := Extended(Frontend(), Init(mode), before, LockBegin(wanted));
    AnswerIsOldExactly(mode, before);
  }

  // ---- runs of the monitor thread ---------------------------------------------------------------

  /** A waiting call whose lock callback is in place, with the callbacks switched on. */
  predicate Armed(s: State) {
    s.client.Locking? && s.enableCb && s.pair == Pair(LockCb, LockPara(s.client.id))
  }

  ghost predicate Plain(run: seq<Step>) {
    forall k :: 0 <= k < |run| ==> !run[k].GetEvent? && !run[k].LockEnd? && !run[k].Tuned?
  }

  /** The thread brings a fetched event to the comparison of fend_lock_cb. */
  lemma Compared(s: State, evt: FendEvent) returns (run: seq<Step>)
    requires Armed(s) && s.pc == Flagging(Some(evt))
    ensures IsRun(Frontend(), s, run) && Plain(run)
    ensures After(Frontend(), s, run) == s.(runCb := true, pc := Comparing(evt, s.client.id))
  {
    run := Tested(s, evt);
    var called := Called(After(Frontend(), s, run), evt);
    RunJoin(Frontend(), s, run, called);
    run := run + called;
  }

  lemma Tested(s: State, evt: FendEvent) returns (run: seq<Step>)
    requires Armed(s) && s.pc == Flagging(Some(evt))
    ensures IsRun(Frontend(), s, run) && Plain(run)
    ensures After(Frontend(), s, run) == s.(runCb := true, pc := LoadingCb(evt))
  {
    run := Extended(Frontend(), s, [], SetRun);
    run := Extended(Frontend(), s, run, Test);
  }

  lemma Called(s: State, evt: FendEvent) returns (run: seq<Step>)
    requires Armed(s) && s.pc == LoadingCb(evt)
    ensures IsRun(Frontend(), s, run) && Plain(run)
    ensures After(Frontend(), s, run) == s.(pc := Comparing(evt, s.client.id))
  {
    run := Extended(Frontend(), s, [], LoadCb);
    run := Extended(Frontend(), s, run, LoadData);
    run := Extended(Frontend(), s, run, Invoke(LockCb, LockPara(s.client.id)));
  }

  /** The thread leaves an event it has dealt with. */
  lemma Left(s: State) returns (run: seq<Step>)
    requires s.pc.Signalling? && s.enableCb && LockFree(s)
    ensures IsRun(Frontend(), s, run) && Plain(run)
    ensures After(Frontend(), s, run) == s.(runCb := false, pc := Waiting)
  {
    run := Extended(Frontend(), s, [], Signal);
    run := Extended(Frontend(), s, run, SignalDone);
    run := Extended(Frontend(), s, run, ClearRun);
  }

  /** A matching event clears the flag the call waits for, and the earlier callback gets it too. */
  lemma Passed(s: State) returns (run: seq<Step>)
    requires Armed(s) && s.pc.Comparing? && s.pc.id == s.client.id && Matches(s.mode, s.pc.evt, s.client.wanted)
    ensures IsRun(Frontend(), s, run) && Plain(run)
    ensures After(Frontend(), s, run) == s.(status := s.pc.evt.status, flLock := false, pc := Signalling(s.pc.evt))
  {
    run := Extended(Frontend(), s, [], Compare);
    run := Extended(Frontend(), s, run, ClearLock);
    var others := OldCalled(After(Frontend(), s, run));
    RunJoin(Frontend(), s, run, others);
    run := run + others;
  }

  lemma OldCalled(s: State) returns (run: seq<Step>)
    requires s.client.Locking? && s.pc.CallingOld? && s.pc.id == s.client.id
    ensures IsRun(Frontend(), s, run) && Plain(run)
    ensures After(Frontend(), s, run) == s.(pc := Signalling(s.pc.evt))
  {
    run := Extended(Frontend(), s, [], CallOld);
    if s.client.before.cb != NoCb {
      run := Extended(Frontend(), s, run, Return);
    }
  }

  /** A fetched matching event answers the waiting call. */
  lemma Answer(s: State, evt: FendEvent) returns (run: seq<Step>)
    requires Armed(s) && s.pc == Flagging(Some(evt)) && Matches(s.mode, evt, s.client.wanted)
    ensures IsRun(Frontend(), s, run) && NoFetch(run) && Continues(run)
    ensures var t := After(Frontend(), s, run); Enabled(t, LockEnd) && t.status == evt.status
  {
    var compared := Compared(s, evt);
    var passed := Passed(After(Frontend(), s, compared));
    RunJoin(Frontend(), s, compared, passed);
    var left := Left(After(Frontend(), s, compared + passed));
    RunJoin(Frontend(), s, compared + passed, left);
    run := compared + passed + left;
  }

  /** The thread gets rid of what it has fetched; afterwards the call is answered or still armed. */
  lemma Drained(s: State) returns (run: seq<Step>)
    requires Armed(s) && (s.pc.Waiting? || s.pc.Flagging?) && (s.pc.Waiting? ==> !s.runCb)
    ensures IsRun(Frontend(), s, run)
    ensures var t := After(Frontend(), s, run);
            Enabled(t, LockEnd) || (Armed(t) && t.pc.Waiting? && t.client == s.client && t.mode == s.mode)
  {
    run := [];
    if s.pc.Flagging? {
      if s.pc.got.None? {
        run := Extended(Frontend(), s, run, SetRun);
        run := Extended(Frontend(), s, run, Test);
        run := Extended(Frontend(), s, run, ClearRun);
      } else if Matches(s.mode, s.pc.got.value, s.client.wanted) {
        run := Answer(s, s.pc.got.value);
      } else {
        run := Compared(s, s.pc.got.value);
        run := Extended(Frontend(), s, run, Compare);
        var left := Left(After(Frontend(), s, run));
        RunJoin(Frontend(), s, run, left);
        run := run + left;
      }
    }
  }
}
