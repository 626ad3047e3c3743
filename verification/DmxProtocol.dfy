// The data thread of am_adp/am_dmx/am_dmx.c beside API callers. A step is what runs between two moments at
// which another thread can get in: one locked region, one unlocked test, or the start or end of a callback.

module DmxProtocol {
  import opened Dmx
  import opened Runs

  datatype Thread = DataThread | Client

  /** Where the data thread is. */
  datatype Pc =
    | Polling
    | Flagging(mask: set<nat>)
    | Scanning(mask: set<nat>, id: nat)
    | Reading(mask: set<nat>, id: nat)
    | Calling(mask: set<nat>, id: nat, cb: nat, data: int)
    | InCallback(mask: set<nat>, id: nat)

  datatype State = State(fs: Table, runCb: bool, pc: Pc)

  function Init(): State {
    State(EmptyTable(), false, Polling)
  }

  /** Driver answers of `read` as the thread tells them apart. */
  datatype ReadAnswer = Data | Timeout | Failed

  datatype Event =
    // the data thread
    | Poll(mask: set<nat>)
    | SetFlag
    | Look
    | Read(answer: ReadAnswer)
    | Invoke(id: nat, cb: nat, data: int)
    | Return
    | ClearFlag
    // API calls, each one locked region
    | Alloc(who: Thread, drv: int)
    | Free(who: Thread, f: int, stopDrv: int, freeDrv: int)
    | Stop(who: Thread, f: int, drv: int)
    | Start(who: Thread, f: int, drv: int)
    | SetCb(who: Thread, f: int, newCb: nat, newData: int)
    | Sync(who: Thread)

  /** The data thread calls the API only from its callbacks. */
  predicate MayCall(who: Thread, s: State) {
    who == DataThread ==> s.pc.InCallback?
  }

  /** Whether an event can happen in a state. A client's AM_DMX_Sync returns only while the flag is clear. */
  predicate Enabled(s: State, e: Event) {
    match e
    case Poll(mask) => s.pc.Polling?
    case SetFlag => s.pc.Flagging?
    case Look => s.pc.Scanning? && s.pc.id < FILTER_COUNT
    case Read(_) => s.pc.Reading? && s.pc.id < FILTER_COUNT
    case Invoke(id, cb, data) => s.pc.Calling? && s.pc.id == id && s.pc.cb == cb && s.pc.data == data
    case Return => s.pc.InCallback?
    case ClearFlag => s.pc.Scanning? && s.pc.id >= FILTER_COUNT
    case Start(who, f, _) => MayCall(who, s) && LookupCode(s.fs, f) == AM_SUCCESS
    case Sync(who) => MayCall(who, s) && (who == Client ==> !s.runCb)
    case _ => MayCall(e.who, s)
  }

  /** The read under the lock: the pair is taken while the filter is enabled, or the slot is skipped. */
  function AfterRead(s: State, answer: ReadAnswer): Pc
    requires s.pc.Reading? && s.pc.id < FILTER_COUNT
  {
    var filter := s.fs[s.pc.id];
    if !filter.enable || !filter.used || answer.Failed? || filter.cb == 0
    then Scanning(s.pc.mask, s.pc.id + 1)
    else Calling(s.pc.mask, s.pc.id, filter.cb, filter.data)
  }

  function Next(s: State, e: Event): State
    requires Enabled(s, e)
  {
    match e
    case Poll(mask) => if mask == {} then s else s.(pc := Flagging(mask))
    case SetFlag => s.(runCb := true, pc := Scanning(s.pc.mask, 0))
    case Look =>
      var filter := s.fs[s.pc.id];
      if s.pc.id !in s.pc.mask || !filter.enable || !filter.used
      then s.(pc := Scanning(s.pc.mask, s.pc.id + 1))
      else s.(pc := Reading(s.pc.mask, s.pc.id))
    case Read(answer) => s.(pc := AfterRead(s, answer))
    case Invoke(_, _, _) => s.(pc := InCallback(s.pc.mask, s.pc.id))
    case Return => s.(pc := Scanning(s.pc.mask, s.pc.id + 1))
    case ClearFlag => s.(runCb := false, pc := Polling)
    case Alloc(_, drv) => s.(fs := Allocated(s.fs, drv))
    case Free(_, f, stopDrv, freeDrv) => s.(fs := FreedIn(s.fs, f, stopDrv, freeDrv))
    case Stop(_, f, drv) => s.(fs := StoppedIn(s.fs, f, drv))
    case Start(_, f, drv) => s.(fs := Started(s.fs, f, drv))
    case SetCb(_, f, newCb, newData) => s.(fs := CallbackSet(s.fs, f, newCb, newData))
    case Sync(_) => s
  }

  /** The device, its data thread and its callers. */
  function Demux(): Machine<State, Event> {
    Machine((s: State, e: Event) => Enabled(s, e), (s: State, e: Event) => if Enabled(s, e) then Next(s, e) else s)
  }

  // ---- invariants -------------------------------------------------------------------------------

  /** The flag is set exactly while the thread is between setting and clearing it. */
  predicate Inv(s: State) {
    && Sound(s.fs)
    && (s.runCb <==> !s.pc.Polling? && !s.pc.Flagging?)
    && (s.pc.Reading? || s.pc.Calling? || s.pc.InCallback? ==> s.pc.id < FILTER_COUNT)
  }

  lemma InvKept(s: State, e: Event)
    requires Inv(s) && Enabled(s, e)
    ensures Inv(Next(s, e))
  {
    match e
    case Free(_, f, stopDrv, freeDrv) =>
      if LookupCode(s.fs, f) == AM_SUCCESS {
        FreeTakesOneSlot(s.fs, f, stopDrv, freeDrv);
      }
    case Alloc(_, drv) => AllocTakesLowestSlot(s.fs, drv);
    case _ =>
  }

  lemma InvHolds(s: State, run: seq<Event>)
    requires Inv(s) && IsRun(Demux(), s, run)
    ensures Inv(After(Demux(), s, run))
  {
    forall t, e | Inv(t) && Enabled(t, e)
      ensures Inv(Next(t, e))
    {
      InvKept(t, e);
    }
    InvariantHolds(Demux(), t => Inv(t), s, run);
  }

  // ---- quiescence -------------------------------------------------------------------------------

  /** The event frees slot f with success. */
  predicate Frees(s: State, e: Event, f: nat) {
    && e.Free? && e.f == f && LookupCode(s.fs, f) == AM_SUCCESS
    && FreeCode(s.fs[f], e.stopDrv, e.freeDrv) == AM_SUCCESS
  }

  /** The event hands slot f out. */
  predicate Allocates(s: State, e: Event, f: nat) {
    e.Alloc? && AllocCode(s.fs, e.drv) == AM_SUCCESS && FirstFree(s.fs) == f
  }

  ghost predicate NeverAllocates(s: State, run: seq<Event>, f: nat)
    requires IsRun(Demux(), s, run)
    decreases |run|
  {
    run != [] ==> !Allocates(s, run[0], f) && NeverAllocates(Next(s, run[0]), run[1..], f)
  }

  predicate NeverStarts(run: seq<Event>, f: nat) {
    forall k :: 0 <= k < |run| && run[k].Start? ==> run[k].f != f
  }

  predicate NeverInvokes(run: seq<Event>, f: nat) {
    forall k :: 0 <= k < |run| && run[k].Invoke? ==> run[k].id != f
  }

  /** No callback for f is chosen or running. */
  predicate Quiet(s: State, f: nat) {
    (s.pc.Calling? || s.pc.InCallback?) ==> s.pc.id != f
  }

  /** A callback for f is chosen: the thread has read its pair and not made the call yet. */
  predicate Chosen(s: State, f: nat) {
    s.pc.Calling? && s.pc.id == f
  }

  lemma TailOf(run: seq<Event>)
    requires run != []
    ensures forall k :: 0 <= k < |run[1..]| ==> run[1..][k] == run[k + 1]
  {
  }

  /** A slot that is not handed out is not started either. */
  lemma {:induction false} UnusedIsNotStarted(s: State, run: seq<Event>, f: nat)
    requires Inv(s) && IsRun(Demux(), s, run) && f < FILTER_COUNT && !s.fs[f].used && NeverAllocates(s, run, f)
    ensures NeverStarts(run, f)
    decreases |run|
  {
    if run != [] {
      InvKept(s, run[0]);
      UnusedIsNotStarted(Next(s, run[0]), run[1..], f);
      forall k | 0 <= k < |run| && run[k].Start?
        ensures run[k].f != f
      {
        assert k > 0 ==> run[k] == run[1..][k - 1];
      }
    }
  }

  /** A disabled slot stays disabled until it is started. */
  lemma {:induction false} OffStays(s: State, run: seq<Event>, f: nat)
    requires Inv(s) && IsRun(Demux(), s, run) && f < FILTER_COUNT && !s.fs[f].enable && NeverStarts(run, f)
    ensures !After(Demux(), s, run).fs[f].enable
    decreases |run|
  {
    if run != [] {
      InvKept(s, run[0]);
      TailOf(run);
      assert run[0].Start? ==> run[0].f != f;
      OffStays(Next(s, run[0]), run[1..], f);
    }
  }

  /** While f is disabled and its callback is not chosen already, none is made; and a quiet slot stays quiet. */
  lemma {:induction false} QuietStays(s: State, run: seq<Event>, f: nat)
    requires Inv(s) && IsRun(Demux(), s, run) && f < FILTER_COUNT && !s.fs[f].enable && NeverStarts(run, f)
    requires !Chosen(s, f)
    ensures NeverInvokes(run, f) && (Quiet(s, f) ==> Quiet(After(Demux(), s, run), f))
    decreases |run|
  {
    if run != [] {
      InvKept(s, run[0]);
      TailOf(run);
      assert run[0].Start? ==> run[0].f != f;
      QuietStays(Next(s, run[0]), run[1..], f);
      forall k | 0 <= k < |run| && run[k].Invoke?
        ensures run[k].id != f
      {
        assert k > 0 ==> run[k] == run[1..][k - 1];
      }
    }
  }

  /**
   * Quiescence: in every interleaving, once a successful AM_DMX_FreeFilter(f) of any thread and then a
   * client's AM_DMX_Sync have returned, no callback for f runs, and none is started before f is handed out
   * again.
   */
  lemma Quiescence(before: seq<Event>, free: Event, between: seq<Event>, after: seq<Event>, f: nat)
    requires f < FILTER_COUNT && IsRun(Demux(), Init(), before)
    requires Enabled(After(Demux(), Init(), before), free) && Frees(After(Demux(), Init(), before), free, f)
    requires var s1 := Next(After(Demux(), Init(), before), free);
             && IsRun(Demux(), s1, between) && NeverAllocates(s1, between, f)
             && Enabled(After(Demux(), s1, between), Sync(Client))
             && IsRun(Demux(), After(Demux(), s1, between), after)
             && NeverAllocates(After(Demux(), s1, between), after, f)
    ensures var s2 := After(Demux(), Next(After(Demux(), Init(), before), free), between);
            Quiet(s2, f) && Quiet(After(Demux(), s2, after), f) && NeverInvokes(after, f)
  {
    var s0 := After(Demux(), Init(), before);
    InvHolds(Init(), before);
    FreedIsOff(s0, free, f);
    var s1 := Next(s0, free);
    InvHolds(s1, between);
    UnusedStays(s1, between, f);
    UnusedIsNotStarted(After(Demux(), s1, between), after, f);
    QuietStays(After(Demux(), s1, between), after, f);
  }

  lemma FreedIsOff(s: State, free: Event, f: nat)
    requires Inv(s) && f < FILTER_COUNT && Enabled(s, free) && Frees(s, free, f)
    ensures var t := Next(s, free); Inv(t) && t.pc == s.pc && !t.fs[f].used && !t.fs[f].enable
  {
    InvKept(s, free);
    FreeTakesOneSlot(s.fs, f, free.stopDrv, free.freeDrv);
    assert f !in UsedIn(Next(s, free).fs);
  }

  lemma {:induction false} UnusedStays(s: State, run: seq<Event>, f: nat)
    requires Inv(s) && IsRun(Demux(), s, run) && f < FILTER_COUNT && !s.fs[f].used && NeverAllocates(s, run, f)
    ensures !After(Demux(), s, run).fs[f].used
    decreases |run|
  {
    if run != [] {
      InvKept(s, run[0]);
      UnusedStays(Next(s, run[0]), run[1..], f);
    }
  }

  /** The event disables slot f: the driver answers 0 or above, or the slot was off already. */
  predicate Stops(s: State, e: Event, f: nat) {
    e.Stop? && e.f == f && LookupCode(s.fs, f) == AM_SUCCESS && StopCode(s.fs[f], e.drv) >= 0
  }

  /**
   * The same for AM_DMX_StopFilter: after it and a client's AM_DMX_Sync no callback for f runs, and none is made
   * before the slot is started again.
   */
  lemma StopQuiescence(before: seq<Event>, stop: Event, between: seq<Event>, after: seq<Event>, f: nat)
    requires f < FILTER_COUNT && IsRun(Demux(), Init(), before)
    requires Enabled(After(Demux(), Init(), before), stop) && Stops(After(Demux(), Init(), before), stop, f)
    requires NeverStarts(between, f) && NeverStarts(after, f)
    requires var s1 := Next(After(Demux(), Init(), before), stop);
             && IsRun(Demux(), s1, between) && Enabled(After(Demux(), s1, between), Sync(Client))
             && IsRun(Demux(), After(Demux(), s1, between), after)
    ensures var s2 := After(Demux(), Next(After(Demux(), Init(), before), stop), between);
            Quiet(s2, f) && Quiet(After(Demux(), s2, after), f) && NeverInvokes(after, f)
  {
    var s0 := After(Demux(), Init(), before);
    InvHolds(Init(), before);
    InvKept(s0, stop);
    var s1 := Next(s0, stop);
    InvHolds(s1, between);
    OffStays(s1, between, f);
    QuietStays(After(Demux(), s1, between), after, f);
  }

  // ---- without the sync -------------------------------------------------------------------------

  /** A callback for f can still be made although the slot is not handed out again. */
  ghost predicate LateCallback(s: State, f: nat) {
    exists run :: IsRun(Demux(), s, run) && NeverAllocates(s, run, f) && !NeverInvokes(run, f)
  }

  /**
   * After a successful free without a sync, by any thread and in every reachable state, a callback for the slot can
   * still be made if and only if the data thread had already chosen it.
   */
  lemma LateCallbackExactly(before: seq<Event>, free: Event, f: nat)
    requires f < FILTER_COUNT && IsRun(Demux(), Init(), before)
    requires Enabled(After(Demux(), Init(), before), free) && Frees(After(Demux(), Init(), before), free, f)
    ensures var s := After(Demux(), Init(), before); LateCallback(Next(s, free), f) <==> Chosen(s, f)
  {
    var s := After(Demux(), Init(), before);
    InvHolds(Init(), before);
    FreedIsOff(s, free, f);
    var t := Next(s, free);
    if Chosen(s, f) {
      var run := [Invoke(f, s.pc.cb, s.pc.data)];
      assert run[1..] == [] && IsRun(Demux(), t, run) && NeverAllocates(t, run, f);
      assert run[0].Invoke? && run[0].id == f;
    } else if LateCallback(t, f) {
      var run :| IsRun(Demux(), t, run) && NeverAllocates(t, run, f) && !NeverInvokes(run, f);
      UnusedIsNotStarted(t, run, f);
      QuietStays(t, run, f);
    }
  }

  /** Such a state is reachable: the thread may have read the pair just before. */
  lemma FreeAloneIsNotEnough() returns (before: seq<Event>, free: Event)
    ensures IsRun(Demux(), Init(), before)
    ensures var s := After(Demux(), Init(), before);
            Enabled(s, free) && Frees(s, free, 0) && Chosen(s, 0) && LateCallback(Next(s, free), 0)
  {
    before := OneFilterOn();
    before := Extended(Demux(), Init(), before, Poll({0}));
    before := Extended(Demux(), Init(), before, SetFlag);
    before := Extended(Demux(), Init(), before, Look);
    before := Extended(Demux(), Init(), before, Read(Data));
    free := Free(Client, 0, 0, 0);
    LateCallbackExactly(before, free, 0);
  }

  /** Slot 0 is handed out, given a callback and started. */
  lemma OneFilterOn() returns (run: seq<Event>)
    ensures IsRun(Demux(), Init(), run)
    ensures After(Demux(), Init(), run) == State(EmptyTable()[0 := Filter(true, true, 1, 7)], false, Polling)
  {
    run := Extended(Demux(), Init(), [], Alloc(Client, 0));
    run := Extended(Demux(), Init(), run, SetCb(Client, 0, 1, 7));
    run := Extended(Demux(), Init(), run, Start(Client, 0, 0));
  }

  // ---- where a callback and its parameter come from ---------------------------------------------

  /** Step j of the run is a locked read that found slot id allocated, enabled and with exactly this pair. */
  ghost predicate ReadsPair(run: seq<Event>, j: nat, id: nat, cb: nat, data: int)
    requires id < FILTER_COUNT
  {
    && j < |run| && run[j].Read? && IsRun(Demux(), Init(), run[..j])
    && var s := After(Demux(), Init(), run[..j]);
       s.pc.Reading? && s.pc.id == id && s.fs[id] == Filter(true, true, cb, data)
  }

  lemma {:induction false} ChosenPairWasRead(run: seq<Event>) returns (j: nat)
    requires IsRun(Demux(), Init(), run) && After(Demux(), Init(), run).pc.Calling?
    ensures var pc := After(Demux(), Init(), run).pc;
            pc.id < FILTER_COUNT && ReadsPair(run, j, pc.id, pc.cb, pc.data)
    decreases |run|
  {
    InvHolds(Init(), run);
    var n := |run| - 1;
    var init, last := run[..n], run[n];
    assert run == init + [last];
    RunSplit(Demux(), Init(), init, [last]);
    var s := After(Demux(), Init(), init);
    InvHolds(Init(), init);
    assert After(Demux(), s, [last]) == Next(s, last);
    if last.Read? {
      j := n;
    } else {
      assert s.pc == After(Demux(), Init(), run).pc;
      j := ChosenPairWasRead(init);
      assert run[..j] == init[..j];
    }
  }

  /**
   * Every callback is made with a pair that was read in one locked region, while the filter was allocated and
   * enabled.
   */
  lemma InvokedPairWasReadTogether(run: seq<Event>, k: nat) returns (j: nat)
    requires IsRun(Demux(), Init(), run) && k < |run| && run[k].Invoke?
    ensures j < k && run[k].id < FILTER_COUNT && ReadsPair(run, j, run[k].id, run[k].cb, run[k].data)
  {
    assert run == run[..k] + run[k..];
    RunSplit(Demux(), Init(), run[..k], run[k..]);
    j := ChosenPairWasRead(run[..k]);
    assert run[..k][..j] == run[..j];
  }

  // ---- changing the callback --------------------------------------------------------------------

  predicate NeverSets(run: seq<Event>, f: nat) {
    forall k :: 0 <= k < |run| && run[k].SetCb? ==> run[k].f != f
  }

  predicate HasPair(s: State, f: nat, cb: nat, data: int)
    requires f < FILTER_COUNT
  {
    s.fs[f].cb == cb && s.fs[f].data == data
  }

  lemma {:induction false} PairStays(s: State, run: seq<Event>, f: nat, cb: nat, data: int)
    requires IsRun(Demux(), s, run) && f < FILTER_COUNT && NeverSets(run, f) && HasPair(s, f, cb, data)
    ensures HasPair(After(Demux(), s, run), f, cb, data)
    decreases |run|
  {
    if run != [] {
      assert run[0].SetCb? ==> run[0].f != f;
      assert forall k :: 0 <= k < |run[1..]| ==> run[1..][k] == run[k + 1];
      PairStays(Next(s, run[0]), run[1..], f, cb, data);
    }
  }

  /** What is chosen for f is the pair f has. */
  predicate ChosenIsCurrent(s: State, f: nat)
    requires f < FILTER_COUNT
  {
    s.pc.Calling? && s.pc.id == f ==> HasPair(s, f, s.pc.cb, s.pc.data)
  }

  lemma {:induction false} CurrentStays(s: State, run: seq<Event>, f: nat, cb: nat, data: int)
    requires IsRun(Demux(), s, run) && f < FILTER_COUNT && NeverSets(run, f)
    requires HasPair(s, f, cb, data) && ChosenIsCurrent(s, f)
    ensures forall k :: 0 <= k < |run| && run[k].Invoke? && run[k].id == f ==> run[k].cb == cb && run[k].data == data
    decreases |run|
  {
    if run != [] {
      assert run[0].SetCb? ==> run[0].f != f;
      assert forall k :: 0 <= k < |run[1..]| ==> run[1..][k] == run[k + 1];
      CurrentStays(Next(s, run[0]), run[1..], f, cb, data);
      forall k | 0 <= k < |run| && run[k].Invoke? && run[k].id == f
        ensures run[k].cb == cb && run[k].data == data
      {
        assert k > 0 ==> run[k] == run[1..][k - 1];
      }
    }
  }

  /**
   * Once AM_DMX_SetCallback on an allocated slot and then a client's AM_DMX_Sync have returned, every later
   * callback for the slot gets the new pair, until the pair is set again; freeing and handing the slot out
   * again in between does not reset it.
   */
  lemma NewPairAfterSync(before: seq<Event>, chg: Event, between: seq<Event>, after: seq<Event>)
    requires IsRun(Demux(), Init(), before) && chg.SetCb? && Enabled(After(Demux(), Init(), before), chg)
    requires LookupCode(After(Demux(), Init(), before).fs, chg.f) == AM_SUCCESS
    requires var s1 := Next(After(Demux(), Init(), before), chg);
             && IsRun(Demux(), s1, between) && NeverSets(between, chg.f)
             && Enabled(After(Demux(), s1, between), Sync(Client))
             && IsRun(Demux(), After(Demux(), s1, between), after) && NeverSets(after, chg.f)
    ensures forall k :: 0 <= k < |after| && after[k].Invoke? && after[k].id == chg.f ==>
              after[k].cb == chg.newCb && after[k].data == chg.newData
  {
    var s1 := Next(After(Demux(), Init(), before), chg);
    InvHolds(Init(), before);
    InvKept(After(Demux(), Init(), before), chg);
    InvHolds(s1, between);
    PairStays(s1, between, chg.f, chg.newCb, chg.newData);
    CurrentStays(After(Demux(), s1, between), after, chg.f, chg.newCb, chg.newData);
  }

  // ---- what one pass delivers -------------------------------------------------------------------

  /** The data thread's own steps between setting and clearing the flag. */
  predicate InPass(e: Event) {
    e.Look? || e.Read? || e.Invoke? || e.Return?
  }

  ghost predicate Undisturbed(run: seq<Event>) {
    forall k :: 0 <= k < |run| ==> InPass(run[k])
  }

  /** The callbacks made in a run, in order. */
  function Made(run: seq<Event>): seq<Event> {
    if run == [] then [] else if run[0].Invoke? then [run[0]] + Made(run[1..]) else Made(run[1..])
  }

  /** `answers` tells what the driver answers to the read of each slot. */
  ghost predicate Answers(s: State, run: seq<Event>, answers: nat -> ReadAnswer)
    requires IsRun(Demux(), s, run)
    decreases |run|
  {
    run != [] ==>
      && (run[0].Read? ==> run[0].answer == answers(s.pc.id))
      && Answers(Next(s, run[0]), run[1..], answers)
  }

  /** The slot is enabled, has a callback, and its read gives data or times out. */
  predicate Delivers(fs: Table, id: nat, answers: nat -> ReadAnswer)
    requires id < FILTER_COUNT
  {
    fs[id].enable && fs[id].used && !answers(id).Failed? && fs[id].cb != 0
  }

  function Delivery(fs: Table, id: nat): seq<Event>
    requires id < FILTER_COUNT
  {
    [Invoke(id, fs[id].cb, fs[id].data)]
  }

  /** The callbacks due for the slots of a mask from `id` on, in order. */
  function Due(fs: Table, mask: set<nat>, id: nat, answers: nat -> ReadAnswer): seq<Event>
    decreases FILTER_COUNT - id
  {
    if id >= FILTER_COUNT then []
    else if id in mask && Delivers(fs, id, answers) then Delivery(fs, id) + Due(fs, mask, id + 1, answers)
    else Due(fs, mask, id + 1, answers)
  }

  /** The callbacks still due where the thread is. */
  function StillDue(s: State, answers: nat -> ReadAnswer): seq<Event> {
    match s.pc
    case Scanning(mask, id) => Due(s.fs, mask, id, answers)
    case Reading(mask, id) =>
      if id < FILTER_COUNT && Delivers(s.fs, id, answers) then Delivery(s.fs, id) + Due(s.fs, mask, id + 1, answers)
      else Due(s.fs, mask, id + 1, answers)
    case Calling(mask, id, cb, data) => [Invoke(id, cb, data)] + Due(s.fs, mask, id + 1, answers)
    case InCallback(mask, id) => Due(s.fs, mask, id + 1, answers)
    case _ => []
  }

  lemma StepDelivers(s: State, e: Event, answers: nat -> ReadAnswer)
    requires Enabled(s, e) && InPass(e) && (e.Read? ==> e.answer == answers(s.pc.id))
    ensures var more := StillDue(Next(s, e), answers); StillDue(s, answers) == if e.Invoke? then [e] + more else more
  {
    match e
    case Look => LookDelivers(s, answers);
    case Read(_) => ReadDelivers(s, e, answers);
    case _ =>
  }

  lemma LookDelivers(s: State, answers: nat -> ReadAnswer)
    requires Enabled(s, Look)
    ensures StillDue(Next(s, Look), answers) == StillDue(s, answers)
  {
  }

  lemma ReadDelivers(s: State, e: Event, answers: nat -> ReadAnswer)
    requires e.Read? && Enabled(s, e) && e.answer == answers(s.pc.id)
    ensures StillDue(Next(s, e), answers) == StillDue(s, answers)
  {
  }

  lemma {:induction false} PassGoesOn(s: State, run: seq<Event>, answers: nat -> ReadAnswer)
    requires IsRun(Demux(), s, run) && Undisturbed(run) && Answers(s, run, answers)
    ensures StillDue(s, answers) == Made(run) + StillDue(After(Demux(), s, run), answers)
    decreases |run|
  {
    if run != [] {
      StepDelivers(s, run[0], answers);
      TailOf(run);
      PassGoesOn(Next(s, run[0]), run[1..], answers);
    }
  }

  /**
   * A pass of the data thread that no API call disturbs makes the callbacks of exactly the slots of its mask that are
   * enabled, have a callback and can be read, each once, in order and with its own pair.
   */
  lemma PassDelivers(s: State, mask: set<nat>, run: seq<Event>, answers: nat -> ReadAnswer, f: nat, cb: nat, data: int)
    requires s.pc == Scanning(mask, 0) && IsRun(Demux(), s, run) && Undisturbed(run) && Answers(s, run, answers)
    requires Enabled(After(Demux(), s, run), ClearFlag)
    ensures Made(run) == Due(s.fs, mask, 0, answers)
    ensures Invoke(f, cb, data) in run <==>
            && f < FILTER_COUNT && f in mask && s.fs[f].enable && s.fs[f].used && !answers(f).Failed?
            && s.fs[f].cb != 0 && cb == s.fs[f].cb && data == s.fs[f].data
  {
    PassGoesOn(s, run, answers);
    assert Made(run) + [] == Made(run);
    MadeIs(run, Invoke(f, cb, data));
    DueIs(s.fs, mask, 0, answers, f, cb, data);
  }

  lemma {:induction false} MadeIs(run: seq<Event>, e: Event)
    requires e.Invoke?
    ensures e in run <==> e in Made(run)
  {
    if run != [] {
      MadeIs(run[1..], e);
    }
  }

  lemma {:induction false} DueIs(fs: Table, mask: set<nat>, id: nat, answers: nat -> ReadAnswer, f: nat, cb: nat,
                                 data: int)
    ensures Invoke(f, cb, data) in Due(fs, mask, id, answers) <==>
            && id <= f < FILTER_COUNT && f in mask && Delivers(fs, f, answers)
            && cb == fs[f].cb && data == fs[f].data
    decreases FILTER_COUNT - id
  {
    if id < FILTER_COUNT {
      DueIs(fs, mask, id + 1, answers, f, cb, data);
    }
  }
}
