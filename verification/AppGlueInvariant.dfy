/**
 The inductive invariant of the handshake, one predicate per concern, and the proof that
 every move of every thread keeps it.
 */
module AppGlueInvariant {
  import opened Wrappers
  import opened AppGlue

  // ---------------------------------------------------------------- mutual exclusion

  // Statements each function has, by last index.
  predicate InRange(pc: AppPc) {
    match pc
    case Boot(k) => k <= 3
    case ReadFree(k) => k <= 2
    case Pre(c, k) => k <= PreLast(c)
    case Post(c, k) => k <= PostLast(c)
    case Exit(k) => k <= 7
    case _ => true
  }

  predicate AppHolds(pc: AppPc) {
    match pc
    case Boot(k) => 1 <= k
    case ReadFree(k) => 1 <= k
    case Pre(_, k) => 1 <= k
    case Post(_, k) => 1 <= k
    case Exit(k) => k == 1 || k == 2 || 4 <= k
    case _ => false
  }

  predicate ActivityHolds(pc: ActivityPc) {
    pc.Body? || pc.Test? || pc.Leave?
  }

  predicate BodyInRange(pc: ActivityPc) {
    pc.Body? ==>
      match pc.call
      case SetInput(_) => pc.k <= 1
      case SetWindow(_) => pc.k <= 2
      case Save => pc.k <= 1
      case _ => pc.k == 0
  }

  predicate Locking(s: State) {
    && InRange(s.app)
    && BodyInRange(s.activity)
    && (s.mutex.AppThread? <==> AppHolds(s.app))
    && (s.mutex.ActivityThread? <==> ActivityHolds(s.activity))
  }

  // ---------------------------------------------------------------- where the activity thread is

  // The call being executed, if any.
  function Current(pc: ActivityPc): Option<Call> {
    match pc
    case Idle => None
    case Gone => None
    case _ => Some(pc.call)
  }

  predicate In(pc: ActivityPc, call: Call) {
    Current(pc) == Some(call)
  }

  // Past the statements that issue the commands of the call, up to the end of the wait loop.
  predicate Waiting(pc: ActivityPc) {
    pc.Test? || pc.Blocked? || pc.Woken?
  }

  predicate WaitingFor(pc: ActivityPc, call: Call) {
    Waiting(pc) && pc.call == call
  }

  // The Create call runs while the app thread boots, and nothing else happens meanwhile.
  predicate Booting(s: State) {
    && (s.flags.running <==> !(s.app.Boot? && s.app.k <= 1))
    && (s.app.Boot? ==> In(s.activity, Create))
    && (In(s.activity, Create) ==> s.pipe == [] && s.log.issued == [] && (s.app.Boot? || s.app.Poll?))
    && (s.activity.Leave? && s.activity.call.Create? ==> s.flags.running)
    && (s.activity.Enter? && s.activity.call.SetState? ==> IsLifecycle(s.activity.call.cmd))
    && (s.activity.Body? && s.activity.call.SetState? ==> IsLifecycle(s.activity.call.cmd))
    && (Waiting(s.activity) && s.activity.call.SetState? ==> IsLifecycle(s.activity.call.cmd))
  }

  // ---------------------------------------------------------------- command order

  predicate Ordered(s: State) {
    s.log.issued == s.log.executed + InFlight(s.app) + s.pipe
  }

  // ---------------------------------------------------------------- window

  // The in-flight command, if it is a window command that has not taken effect.
  function WindowLeft(pc: AppPc): seq<Cmd> {
    match pc
    case Pre(c, k) => if (c.InitWindow? && k <= 1) || c.TermWindow? then [c] else []
    case Client(c) => if c.TermWindow? then [c] else []
    case Post(c, k) => if c.TermWindow? && k <= 1 then [c] else []
    case _ => []
  }

  // The window after the app thread has executed `cmds`.
  function DrainWindow(window: Handle, cmds: seq<Cmd>, pending: Handle): Handle
    decreases |cmds|
  {
    if cmds == [] then window
    else
      DrainWindow(if cmds[0].InitWindow? then pending else if cmds[0].TermWindow? then NULL else window,
                  cmds[1..], pending)
  }

  function Drained(s: State): Handle {
    DrainWindow(s.window.current, WindowLeft(s.app) + s.pipe, s.window.pending)
  }

  predicate InWindowBody(pc: ActivityPc, k: nat) {
    pc.Body? && pc.call.SetWindow? && pc.k == k
  }

  // Has SetWindow(NULL) published the NULL without having returned yet?
  predicate ClearingWindow(pc: ActivityPc) {
    && (pc.Body? || Waiting(pc))
    && pc.call == SetWindow(NULL)
    && (pc.Body? ==> 2 <= pc.k)
  }

  predicate Windows(s: State) {
    && (InWindowBody(s.activity, 1) ==> Drained(s) == NULL)
    && (!InWindowBody(s.activity, 1) && !(InWindowBody(s.activity, 2) && s.activity.call.win != NULL) ==>
          Drained(s) == s.window.pending)
    && (s.window.pending == NULL && !ClearingWindow(s.activity) ==> s.window.current == NULL)
    && ((InWindowBody(s.activity, 2) || (Current(s.activity).Some? && Current(s.activity).value.SetWindow? &&
         (Waiting(s.activity) || s.activity.Leave?))) ==> s.window.pending == s.activity.call.win)
    && (s.activity.Leave? && s.activity.call.SetWindow? ==> s.window.current == s.window.pending)
  }

  // ---------------------------------------------------------------- input queue

  function InputLeft(pc: AppPc): seq<Cmd> {
    if pc.Pre? && pc.cmd.InputChanged? && pc.k <= 2 then [InputChanged] else []
  }

  predicate ClearingInput(pc: ActivityPc) {
    && (pc.Body? || Waiting(pc))
    && pc.call == SetInput(NULL)
    && (pc.Body? ==> 1 <= pc.k)
  }

  // The queue is detached from the looper here: inside the INPUT_CHANGED critical section
  // and after the structure's destruction began.
  predicate LooperDetached(pc: AppPc) {
    || (pc.Pre? && pc.cmd.InputChanged? && 2 <= pc.k <= 3)
    || (pc.Exit? && 5 <= pc.k)
    || pc.Done?
  }

  predicate Inputs(s: State) {
    && ((s.activity.Body? && s.activity.call.SetInput? && s.activity.k == 1)
        || InputChanged in InputLeft(s.app) + s.pipe
        || s.input.current == s.input.pending)
    && s.input.attached == (if s.input.current == NULL || LooperDetached(s.app) then {} else {s.input.current})
    && (s.input.pending == NULL && !ClearingInput(s.activity) ==> s.input.current == NULL)
    && (((s.activity.Body? && s.activity.k == 1) || Waiting(s.activity) || s.activity.Leave?) ==>
          s.activity.call.SetInput? ==> s.input.pending == s.activity.call.queue)
    && (s.activity.Leave? && s.activity.call.SetInput? ==> s.input.current == s.input.pending)
  }

  // ---------------------------------------------------------------- activity state

  function LifecycleLeft(pc: AppPc): seq<Cmd> {
    if pc.Pre? && IsLifecycle(pc.cmd) && pc.k <= 1 then [pc.cmd] else []
  }

  // Lifecycle commands not yet applied, with the others around them.
  function Unapplied(s: State): seq<Cmd> {
    LifecycleLeft(s.app) + s.pipe
  }

  // Every lifecycle command in `cmds` is `c`.
  predicate Only(cmds: seq<Cmd>, c: Cmd) {
    forall i :: 0 <= i < |cmds| && IsLifecycle(cmds[i]) ==> cmds[i] == c
  }

  function Front(cmds: seq<Cmd>): seq<Cmd>
    requires cmds != []
  {
    cmds[..|cmds| - 1]
  }

  // The lifecycle commands `cmds` not yet applied agree with the state `st`; during a wait
  // the awaited command may still be the last of them.
  predicate Settled(pc: ActivityPc, cmds: seq<Cmd>, st: Cmd) {
    if Waiting(pc) && pc.call.SetState? then
      || (st == pc.call.cmd && Only(cmds, st))
      || (cmds != [] && cmds[|cmds| - 1] == pc.call.cmd && Only(Front(cmds), st))
    else
      && Only(cmds, st)
      && (pc.Leave? && pc.call.SetState? ==> st == pc.call.cmd)
  }

  predicate Lifecycle(s: State) {
    Settled(s.activity, Unapplied(s), s.activityState)
  }

  // ---------------------------------------------------------------- saved state

  function Held(s: State): seq<nat> {
    if s.saved.held.Some? then [s.saved.held.value] else []
  }

  function Accounted(s: State): multiset<nat> {
    multiset(s.saved.freed) + multiset(s.saved.handed) + multiset(Held(s))
  }

  // Every buffer ever allocated is in exactly one place, once.
  ghost predicate Ledger(s: State) {
    forall b: nat :: Accounted(s)[b] == if b < s.saved.created then 1 else 0
  }

  // SAVE_STATE is being executed and stateSaved has not been set yet.
  predicate SaveUnfinished(pc: AppPc) {
    match pc
    case ReadFree(_) => true
    case Pre(c, _) => c.SaveState?
    case Client(c) => c.SaveState?
    case Post(c, k) => c.SaveState? && k <= 1
    case _ => false
  }

  predicate SaveSignalled(pc: AppPc) {
    pc.Post? && pc.cmd.SaveState? && 2 <= pc.k
  }

  // SAVE_STATE is outstanding: last in the pipe, or being executed with the pipe empty.
  predicate SavePending(s: State) {
    if SaveUnfinished(s.app) then s.pipe == []
    else s.pipe != [] && s.pipe[|s.pipe| - 1].SaveState? && SaveState !in Front(s.pipe) && !SaveSignalled(s.app)
  }

  // free_saved_state ran and no client code since.
  predicate BufferFreed(pc: AppPc) {
    || pc == ReadFree(2) || pc == Pre(SaveState, 0) || pc == Client(SaveState)
    || (pc.Exit? && 2 <= pc.k) || pc.Done?
  }

  predicate Saving(s: State) {
    && (if WaitingFor(s.activity, Save) then
          if s.flags.stateSaved then s.pipe == [] && (SaveSignalled(s.app) || s.app.Poll?) else SavePending(s)
        else
          SaveState !in s.pipe && !SaveUnfinished(s.app) && !SaveSignalled(s.app))
    && (s.activity.Leave? && s.activity.call.Save? ==> s.flags.stateSaved && s.pipe == [] && s.app.Poll?)
    && (BufferFreed(s.app) ==> s.saved.held.None?)
    && (s.activity.Body? && s.activity.call.Save? && s.activity.k == 1 ==> !s.flags.stateSaved)
  }

  // ---------------------------------------------------------------- destruction

  predicate DestroyHandled(pc: AppPc) {
    pc == Client(Destroy) || pc == Post(Destroy, 0) || pc.Poll? || pc.Exit? || pc.Done?
  }

  predicate Destruction(s: State) {
    && (s.flags.destroyed <==> (s.app.Exit? && 6 <= s.app.k) || s.app.Done?)
    && (s.app.Exit? || s.app.Done? ==> s.flags.destroyRequested)
    && (s.flags.destroyRequested ==> s.pipe == [] && DestroyHandled(s.app))
    && (s.flags.destroyRequested ==>
          (WaitingFor(s.activity, Free) || s.activity == Leave(Free) || s.activity.Gone?))
    && ((s.app == Client(Destroy) || s.app == Post(Destroy, 0)) ==> s.flags.destroyRequested)
    && (s.app == Pre(Destroy, 0) ==> !s.flags.destroyRequested && s.pipe == [])
    && (!WaitingFor(s.activity, Free) ==> Destroy !in s.pipe && s.app != Pre(Destroy, 0))
    && (WaitingFor(s.activity, Free) && !s.flags.destroyRequested ==>
          if s.app == Pre(Destroy, 0) then s.pipe == []
          else s.pipe != [] && s.pipe[|s.pipe| - 1].Destroy? && Destroy !in Front(s.pipe))
    && (s.activity == Leave(Free) || s.activity.Gone? ==> s.app.Done?)
  }

  // ---------------------------------------------------------------- wake-ups

  // A broadcast is still to come inside the critical section the app thread is in.
  predicate WillBroadcast(pc: AppPc) {
    || (pc.Boot? && pc.k == 2)
    || (pc.Pre? && pc.cmd.InputChanged? && 3 <= pc.k <= 4)
    || (pc.Pre? && (pc.cmd.InitWindow? || IsLifecycle(pc.cmd)) && pc.k == 2)
    || (pc.Post? && (pc.cmd.TermWindow? || pc.cmd.SaveState?) && pc.k == 2)
    || (pc.Exit? && pc.k == 6)
  }

  // No lost wake-up.
  predicate Wakeups(s: State) {
    s.activity.Blocked? && Satisfied(s, s.activity.call) ==> WillBroadcast(s.app)
  }

  ghost predicate Inv(s: State) {
    && Locking(s) && Booting(s) && Ordered(s) && Windows(s) && Inputs(s)
    && Lifecycle(s) && Ledger(s) && Saving(s) && Destruction(s) && Wakeups(s)
  }

  // ================================================================ preservation

  lemma InvInitial(restored: bool)
    ensures Inv(Initial(restored))
  {
  }

  // What one statement changes, field by field, leaving aside the program counter and the log.
  predicate OpFrame(s: State, t: State, op: Op) {
    && t.pipe == s.pipe
    && t.mutex == (if op.Lock? then AppThread else if op.Unlock? then Nobody else s.mutex)
    && t.activity == (if op.Broadcast? && s.activity.Blocked? then Woken(s.activity.call) else s.activity)
    && t.flags == Flags(s.flags.running || op.SetRunning?, s.flags.stateSaved || op.SetStateSaved?,
                        s.flags.destroyRequested || op.RequestDestroy?, s.flags.destroyed || op.SetDestroyed?)
    && t.window == WindowField(
                     if op.TakeWindow? then s.window.pending else if op.ClearWindow? then NULL else s.window.current,
                     s.window.pending)
    && t.input.pending == s.input.pending
    && t.input.current == (if op.TakeInput? then s.input.pending else s.input.current)
    && t.input.attached == (if op.DetachInput? then s.input.attached - {s.input.current}
                            else if op.AttachInput? && s.input.current != NULL then s.input.attached + {s.input.current}
                            else s.input.attached)
    && t.activityState == (if op.SetActivityState? then op.cmd else s.activityState)
    && (t.saved == s.saved || (op.FreeSaved? && t.saved == FreeHeld(s.saved)) ||
        (op == Callback(SaveState) && t.saved == Allocate(s.saved)))
    && (op.FreeSaved? ==> t.saved.held.None?)
  }

  lemma EffectOpFrame(s: State, op: Op, alloc: bool)
    requires NULL !in s.input.attached
    ensures OpFrame(s, Effect(s, op, alloc), op)
    ensures Effect(s, op, alloc).app == s.app && Effect(s, op, alloc).log == s.log
  {
  }

  // A statement of the app thread other than the read.
  predicate AppFrame(s: State, t: State) {
    && !s.app.Poll?
    && OpFrame(s, t, Code(s.app))
    && t.app == Follow(s.app)
    && t.log.issued == s.log.issued
    && t.log.executed == (if Follow(s.app).Poll? then s.log.executed + InFlight(s.app) else s.log.executed)
  }

  // The read at the head of the pipe, or leaving android_main.
  predicate ReadFrame(s: State, t: State) {
    && s.app.Poll?
    && if s.flags.destroyRequested then t == s.(app := Exit(0))
       else
         && s.pipe != []
         && t == s.(pipe := s.pipe[1..], app := if s.pipe[0].SaveState? then ReadFree(0) else Pre(s.pipe[0], 0))
  }

  lemma AppFrameHolds(s: State, alloc: bool)
    requires AppReady(s) && NULL !in s.input.attached
    ensures AppFrame(s, AppStep(s, alloc)) || ReadFrame(s, AppStep(s, alloc))
  {
    if !s.app.Poll? {
      EffectOpFrame(s, Code(s.app), alloc);
    }
  }

  // The command an activity-thread statement writes.
  function Written(s: State): seq<Cmd> {
    if !s.activity.Body? then []
    else
      var k := s.activity.k;
      match s.activity.call
      case Create => []
      case SetInput(_) => if k == 0 then [] else [InputChanged]
      case SetWindow(w) =>
        if k == 0 && s.window.pending != NULL then [TermWindow]
        else if k >= 2 && w != NULL then [InitWindow] else []
      case SetState(c) => [c]
      case Save => if k == 0 then [] else [SaveState]
      case Free => [Destroy]
  }

  // Where an activity-thread statement leads.
  function NextActivity(s: State): ActivityPc {
    match s.activity
    case Enter(call) => Body(call, 0)
    case Woken(call) => Test(call)
    case Body(call, k) =>
      if (call.SetInput? && k == 0) || (call.SetWindow? && k <= 1) || (call.Save? && k == 0)
      then Body(call, k + 1) else Test(call)
    case Test(call) => if Satisfied(s, call) then Leave(call) else Blocked(call)
    case Leave(call) => if call.Free? then Gone else Idle
    case _ => s.activity
  }

  predicate ActivityFrame(s: State, t: State) {
    && ActivityReady(s)
    && t.activity == NextActivity(s)
    && t.app == s.app
    && t.activityState == s.activityState
    && t.pipe == s.pipe + Written(s)
    && t.log == Log(s.log.issued + Written(s), s.log.executed)
    && t.mutex == (if t.activity.Blocked? || t.activity.Idle? || t.activity.Gone? then Nobody
                   else if s.activity.Enter? || s.activity.Woken? then ActivityThread else s.mutex)
    && t.flags == (if s.activity == Body(Save, 0) then s.flags.(stateSaved := false) else s.flags)
    && t.window == (if InWindowBody(s.activity, 1) then s.window.(pending := s.activity.call.win) else s.window)
    && t.input == (if s.activity.Body? && s.activity.call.SetInput? && s.activity.k == 0
                   then s.input.(pending := s.activity.call.queue) else s.input)
    && t.saved == (if s.activity == Leave(Save) then HandOver(s.saved) else s.saved)
  }

  lemma ActivityFrameHolds(s: State)
    requires ActivityReady(s) && BodyInRange(s.activity)
    ensures ActivityFrame(s, ActivityStep(s))
  {
  }

  // ---------------------------------------------------------------- Locking

  lemma LockControl(pc: AppPc)
    requires InRange(pc)
    ensures InRange(Follow(pc))
    ensures AppHolds(Follow(pc)) <==> Code(pc).Lock? || (AppHolds(pc) && !Code(pc).Unlock?)
    ensures AppHolds(pc) ==> !Code(pc).Lock?
    ensures Code(pc).Unlock? ==> AppHolds(pc)
  {
  }

  lemma LockingByApp(s: State, t: State)
    requires Locking(s) && (AppFrame(s, t) || ReadFrame(s, t)) && AppReady(s)
    ensures Locking(t)
  {
    LockControl(s.app);
  }

  lemma LockingByActivity(s: State, t: State)
    requires Locking(s) && ActivityFrame(s, t)
    ensures Locking(t)
  {
  }

  // ---------------------------------------------------------------- Booting

  lemma BootControl(pc: AppPc)
    requires InRange(pc) && !pc.Poll?
    ensures Follow(pc).Boot? ==> pc.Boot?
    ensures Code(pc).SetRunning? <==> pc == Boot(1)
    ensures pc.Boot? ==> Follow(pc).Boot? || Follow(pc).Poll?
    ensures Follow(pc).Boot? && Follow(pc).k <= 1 <==> pc == Boot(0)
  {
  }

  lemma BootingByApp(s: State, t: State)
    requires Locking(s) && Booting(s) && Destruction(s) && (AppFrame(s, t) || ReadFrame(s, t))
    ensures Booting(t)
  {
    if !s.app.Poll? {
      BootControl(s.app);
    }
  }

  lemma BootingByActivity(s: State, t: State)
    requires Locking(s) && Booting(s) && ActivityFrame(s, t)
    ensures Booting(t)
  {
  }

  // ---------------------------------------------------------------- Ordered

  lemma FlightControl(pc: AppPc)
    requires InRange(pc) && !pc.Poll?
    ensures InFlight(Follow(pc)) == if Follow(pc).Poll? then [] else InFlight(pc)
  {
  }

  lemma OrderedByApp(s: State, t: State)
    requires Locking(s) && Ordered(s) && (AppFrame(s, t) || ReadFrame(s, t))
    ensures Ordered(t)
  {
    if s.app.Poll? {
      assert s.pipe != [] ==> s.pipe == [s.pipe[0]] + s.pipe[1..];
    } else {
      FlightControl(s.app);
    }
  }

  lemma OrderedByActivity(s: State, t: State)
    requires Ordered(s) && ActivityFrame(s, t)
    ensures Ordered(t)
  {
    assert s.log.executed + InFlight(s.app) + s.pipe + Written(s) == s.log.executed + InFlight(s.app) + (s.pipe + Written(s));
  }

  lemma WakeupsByActivity(s: State, t: State)
    requires Wakeups(s) && ActivityFrame(s, t)
    ensures Wakeups(t)
  {
  }

  // ---------------------------------------------------------------- Windows

  lemma WindowControl(pc: AppPc)
    requires InRange(pc) && !pc.Poll?
    ensures Code(pc).TakeWindow? ==> WindowLeft(pc) == [InitWindow] && WindowLeft(Follow(pc)) == []
    ensures Code(pc).ClearWindow? ==> WindowLeft(pc) == [TermWindow] && WindowLeft(Follow(pc)) == []
    ensures !Code(pc).TakeWindow? && !Code(pc).ClearWindow? ==> WindowLeft(Follow(pc)) == WindowLeft(pc)
    ensures Code(pc).TakeWindow? || Code(pc).ClearWindow? ==> AppHolds(pc)
  {
  }

  lemma {:induction false} DrainAppend(w: Handle, cmds: seq<Cmd>, c: Cmd, pending: Handle)
    ensures DrainWindow(w, cmds + [c], pending) ==
            if c.InitWindow? then pending else if c.TermWindow? then NULL else DrainWindow(w, cmds, pending)
    decreases |cmds|
  {
    if cmds != [] {
      assert (cmds + [c])[1..] == cmds[1..] + [c];
      DrainAppend(if cmds[0].InitWindow? then pending else if cmds[0].TermWindow? then NULL else w,
                  cmds[1..], c, pending);
    }
  }

  // If draining ends in NULL, it still does once the pending window is NULL.
  lemma {:induction false} DrainCleared(w: Handle, cmds: seq<Cmd>, pending: Handle)
    requires DrainWindow(w, cmds, pending) == NULL
    ensures DrainWindow(w, cmds, NULL) == NULL
    decreases |cmds|
  {
    if cmds != [] {
      var v := if cmds[0].InitWindow? then pending else if cmds[0].TermWindow? then NULL else w;
      DrainCleared(v, cmds[1..], pending);
      DrainFromNull(cmds[1..]);
    }
  }

  lemma {:induction false} DrainFromNull(cmds: seq<Cmd>)
    ensures DrainWindow(NULL, cmds, NULL) == NULL
    decreases |cmds|
  {
    if cmds != [] {
      DrainFromNull(cmds[1..]);
    }
  }

  lemma WindowsByApp(s: State, t: State)
    requires Locking(s) && Windows(s) && AppFrame(s, t)
    ensures Windows(t)
  {
    WindowControl(s.app);
    assert ([InitWindow] + s.pipe)[1..] == s.pipe && ([TermWindow] + s.pipe)[1..] == s.pipe;
    assert [] + s.pipe == s.pipe;
    assert Drained(t) == Drained(s);
  }

  lemma WindowsByRead(s: State, t: State)
    requires Windows(s) && ReadFrame(s, t)
    ensures Windows(t)
  {
    assert WindowLeft(s.app) + s.pipe == s.pipe;
    if !s.flags.destroyRequested {
      assert WindowLeft(t.app) == [] ==> WindowLeft(t.app) + t.pipe == s.pipe[1..];
      assert WindowLeft(t.app) != [] ==> WindowLeft(t.app) + t.pipe == s.pipe;
    }
    assert Drained(t) == Drained(s);
  }

  // Writing `c` at the end of the pipe.
  lemma DrainedAfterWrite(s: State, t: State, c: Cmd)
    requires t.app == s.app && t.window == s.window && t.pipe == s.pipe + [c]
    ensures Drained(t) == if c.InitWindow? then s.window.pending else if c.TermWindow? then NULL else Drained(s)
  {
    var left := WindowLeft(s.app) + s.pipe;
    assert WindowLeft(s.app) + t.pipe == left + [c];
    DrainAppend(s.window.current, left, c, s.window.pending);
  }

  lemma WindowsByActivity(s: State, t: State)
    requires Locking(s) && Booting(s) && Windows(s) && ActivityFrame(s, t)
    ensures Windows(t)
  {
    if Written(s) != [] {
      DrainedAfterWrite(s, t, Written(s)[0]);
    } else {
      assert t.pipe == s.pipe;
      if InWindowBody(s.activity, 1) && s.activity.call.win == NULL {
        DrainCleared(s.window.current, WindowLeft(s.app) + s.pipe, s.window.pending);
      }
    }
  }

  // ---------------------------------------------------------------- Inputs

  lemma InputControl(pc: AppPc)
    requires InRange(pc) && !pc.Poll?
    ensures Code(pc).TakeInput? <==> pc == Pre(InputChanged, 2)
    ensures Code(pc).AttachInput? <==> pc == Pre(InputChanged, 3)
    ensures Code(pc).DetachInput? <==> pc == Pre(InputChanged, 1) || pc == Exit(4)
    ensures !Code(pc).TakeInput? ==> InputLeft(Follow(pc)) == InputLeft(pc)
    ensures Code(pc).DetachInput? ==> LooperDetached(Follow(pc)) && !LooperDetached(pc)
    ensures Code(pc).AttachInput? ==> !LooperDetached(Follow(pc)) && LooperDetached(pc)
    ensures !Code(pc).DetachInput? && !Code(pc).AttachInput? ==> (LooperDetached(Follow(pc)) <==> LooperDetached(pc))
    ensures Code(pc).TakeInput? ==> AppHolds(pc) && LooperDetached(pc)
  {
  }

  lemma InputsByApp(s: State, t: State)
    requires Locking(s) && Inputs(s) && AppFrame(s, t)
    ensures Inputs(t)
  {
    InputControl(s.app);
  }

  lemma InputsByRead(s: State, t: State)
    requires Inputs(s) && ReadFrame(s, t)
    ensures Inputs(t)
  {
    assert s.pipe != [] ==> s.pipe == [s.pipe[0]] + s.pipe[1..];
  }

  lemma InputsByActivity(s: State, t: State)
    requires Locking(s) && Inputs(s) && ActivityFrame(s, t)
    ensures Inputs(t)
  {
  }

  // ---------------------------------------------------------------- Lifecycle

  lemma LifecycleControl(pc: AppPc)
    requires InRange(pc) && !pc.Poll?
    ensures Code(pc).SetActivityState? ==>
              LifecycleLeft(pc) == [Code(pc).cmd] && IsLifecycle(Code(pc).cmd) && AppHolds(pc) && LifecycleLeft(Follow(pc)) == []
    ensures !Code(pc).SetActivityState? ==> LifecycleLeft(Follow(pc)) == LifecycleLeft(pc)
  {
  }

  lemma OnlyCons(c: Cmd, cmds: seq<Cmd>, x: Cmd)
    ensures Only([c] + cmds, x) <==> Only(cmds, x) && (IsLifecycle(c) ==> c == x)
  {
    assert ([c] + cmds)[0] == c;
    assert forall i :: 0 <= i < |cmds| ==> cmds[i] == ([c] + cmds)[i + 1];
    if Only(cmds, x) && (IsLifecycle(c) ==> c == x) {
      assert forall i :: 0 < i < |[c] + cmds| ==> ([c] + cmds)[i] == cmds[i - 1];
    }
  }

  lemma OnlyAppend(cmds: seq<Cmd>, c: Cmd, x: Cmd)
    ensures Only(cmds + [c], x) <==> Only(cmds, x) && (IsLifecycle(c) ==> c == x)
  {
    assert (cmds + [c])[|cmds|] == c;
    assert forall i :: 0 <= i < |cmds| ==> cmds[i] == (cmds + [c])[i];
  }

  // Dropping the first command, applied if it is a lifecycle command.
  lemma SettledTail(pc: ActivityPc, c: Cmd, cmds: seq<Cmd>, st: Cmd)
    requires Settled(pc, [c] + cmds, st)
    requires IsLifecycle(c) ==> !(pc.Leave?)
    requires Waiting(pc) && pc.call.SetState? ==> IsLifecycle(pc.call.cmd)
    ensures Settled(pc, cmds, if IsLifecycle(c) then c else st)
  {
    OnlyCons(c, cmds, st);
    if cmds != [] {
      assert Front([c] + cmds) == [c] + Front(cmds);
      OnlyCons(c, Front(cmds), st);
    }
  }

  // Adding a command that is not a lifecycle command, outside a lifecycle wait.
  lemma SettledAppend(cmds: seq<Cmd>, c: Cmd, st: Cmd)
    requires Only(cmds, st)
    ensures !IsLifecycle(c) ==> Only(cmds + [c], st)
    ensures cmds + [c] != [] && (cmds + [c])[|cmds + [c]| - 1] == c && Only(Front(cmds + [c]), st)
  {
    OnlyAppend(cmds, c, st);
    assert Front(cmds + [c]) == cmds;
  }

  lemma LifecycleByApp(s: State, t: State)
    requires Locking(s) && Booting(s) && Lifecycle(s) && AppFrame(s, t)
    ensures Lifecycle(t)
  {
    LifecycleControl(s.app);
    if Code(s.app).SetActivityState? {
      assert Unapplied(t) == s.pipe;
      SettledTail(s.activity, Code(s.app).cmd, s.pipe, s.activityState);
    }
  }

  lemma LifecycleByRead(s: State, t: State)
    requires Booting(s) && Lifecycle(s) && ReadFrame(s, t)
    ensures Lifecycle(t)
  {
    if !s.flags.destroyRequested {
      assert Unapplied(s) == s.pipe == [s.pipe[0]] + s.pipe[1..];
      if IsLifecycle(s.pipe[0]) {
        assert Unapplied(t) == Unapplied(s);
      } else {
        assert Unapplied(t) == s.pipe[1..];
        SettledTail(s.activity, s.pipe[0], s.pipe[1..], s.activityState);
      }
    }
  }

  // The end of a lifecycle wait.
  lemma SettledLeave(pc: ActivityPc, cmds: seq<Cmd>, st: Cmd)
    requires pc.Test? && pc.call == SetState(st) && Settled(pc, cmds, st)
    ensures Only(cmds, st)
  {
    if cmds != [] {
      assert cmds == Front(cmds) + [cmds[|cmds| - 1]];
      OnlyAppend(Front(cmds), cmds[|cmds| - 1], st);
    }
  }

  // A request writes at most one command, a lifecycle command only for a change of state.
  lemma WrittenShape(s: State)
    requires s.activity.Body?
    ensures var next, call, w := NextActivity(s), s.activity.call, Written(s);
            && |w| <= 1 && (next == Test(call) || (next.Body? && next.call == call))
            && (call.SetState? ==> w == [call.cmd] && next == Test(call))
            && (!call.SetState? && w != [] ==> !IsLifecycle(w[0]))
  {
  }

  lemma LifecycleByBody(s: State, t: State)
    requires Booting(s) && Lifecycle(s) && ActivityFrame(s, t) && s.activity.Body?
    ensures Lifecycle(t)
  {
    hide Written, NextActivity, Only, Booting, ActivityReady, InWindowBody, HandOver;
    WrittenShape(s);
    var u, w := Unapplied(s), Written(s);
    assert Unapplied(t) == u + w;
    if w == [] {
      assert u + w == u;
    } else {
      SettledAppend(u, w[0], s.activityState);
      assert w == [w[0]];
    }
  }

  lemma LifecycleByWait(s: State, t: State)
    requires Lifecycle(s) && ActivityFrame(s, t) && !s.activity.Body?
    ensures Lifecycle(t)
  {
    var u := Unapplied(s);
    assert t.pipe == s.pipe;
    if s.activity.Test? && s.activity.call == SetState(s.activityState) {
      SettledLeave(s.activity, u, s.activityState);
    }
  }

  // ---------------------------------------------------------------- Saving and Ledger

  lemma SaveControl(pc: AppPc)
    requires InRange(pc) && !pc.Poll?
    ensures SaveUnfinished(Follow(pc)) <==> SaveUnfinished(pc) && !Code(pc).SetStateSaved?
    ensures SaveSignalled(Follow(pc)) <==> Code(pc).SetStateSaved? || (SaveSignalled(pc) && !Follow(pc).Poll?)
    ensures Code(pc).SetStateSaved? ==> SaveUnfinished(pc) && AppHolds(pc)
    ensures SaveSignalled(pc) ==> AppHolds(pc) && !SaveUnfinished(pc)
    ensures BufferFreed(Follow(pc)) ==> Code(pc).FreeSaved? || (BufferFreed(pc) && !Code(pc).Callback?)
    ensures Code(pc).Callback? && Code(pc).cmd.SaveState? ==> pc == Client(SaveState)
  {
  }

  lemma SavingByApp(s: State, t: State)
    requires Locking(s) && Saving(s) && AppFrame(s, t)
    ensures Saving(t)
  {
    SaveControl(s.app);
  }

  lemma SavingByRead(s: State, t: State)
    requires Saving(s) && Destruction(s) && ReadFrame(s, t)
    ensures Saving(t)
  {
    assert s.pipe != [] ==> s.pipe == [s.pipe[0]] + s.pipe[1..];
  }

  lemma SavingByActivity(s: State, t: State)
    requires Locking(s) && Booting(s) && Saving(s) && ActivityFrame(s, t)
    ensures Saving(t)
  {
  }

  lemma LedgerKept(s: State, t: State)
    requires Ledger(s)
    requires t.saved == s.saved || t.saved == FreeHeld(s.saved) || t.saved == HandOver(s.saved) ||
             (t.saved == Allocate(s.saved) && s.saved.held.None?)
    ensures Ledger(t)
  {
    if t.saved.created == s.saved.created {
      assert Accounted(t) == Accounted(s);
    } else {
      assert Accounted(t) == Accounted(s) + multiset{s.saved.created};
    }
  }

  // ---------------------------------------------------------------- Destruction

  lemma DestroyControl(pc: AppPc)
    requires InRange(pc) && !pc.Poll?
    ensures Code(pc).RequestDestroy? <==> pc == Pre(Destroy, 0)
    ensures Code(pc).SetDestroyed? <==> pc == Exit(5)
    ensures Follow(pc) == Pre(Destroy, 0) <==> false
    ensures Follow(pc) == Client(Destroy) <==> pc == Pre(Destroy, 0)
    ensures Follow(pc) == Post(Destroy, 0) <==> pc == Client(Destroy)
    ensures pc == Post(Destroy, 0) ==> Follow(pc).Poll?
    ensures Follow(pc).Exit? || Follow(pc).Done? <==> pc.Exit? || pc.Done?
    ensures (Follow(pc).Exit? && 6 <= Follow(pc).k) || Follow(pc).Done? <==> (pc.Exit? && 5 <= pc.k) || pc.Done?
  {
  }

  lemma DestructionByApp(s: State, t: State)
    requires Locking(s) && Destruction(s) && AppFrame(s, t)
    ensures Destruction(t)
  {
    DestroyControl(s.app);
  }

  lemma DestructionByRead(s: State, t: State)
    requires Destruction(s) && ReadFrame(s, t)
    ensures Destruction(t)
  {
    assert s.pipe != [] ==> s.pipe == [s.pipe[0]] + s.pipe[1..];
  }

  lemma DestructionByWait(s: State, t: State)
    requires Locking(s) && Booting(s) && Destruction(s) && ActivityFrame(s, t) && !s.activity.Body?
    ensures Destruction(t)
  {
    hide HandOver, InWindowBody;
    assert t.pipe == s.pipe;
  }

  // android_app_free writes APP_CMD_DESTROY, nothing else does.
  lemma DestroyWritten(s: State)
    requires s.activity.Body? && Booting(s)
    ensures if s.activity.call.Free? then Written(s) == [Destroy] else Destroy !in Written(s)
  {
  }

  lemma DestructionByBody(s: State, t: State)
    requires Booting(s) && Destruction(s) && ActivityFrame(s, t) && s.activity.Body?
    ensures Destruction(t)
  {
    hide HandOver, InWindowBody, Written;
    DestroyWritten(s);
    if s.activity.call.Free? {
      assert Front(t.pipe) == s.pipe && t.pipe[|t.pipe| - 1] == Destroy;
    }
  }

  lemma DestructionByActivity(s: State, t: State)
    requires Locking(s) && Booting(s) && Destruction(s) && ActivityFrame(s, t)
    ensures Destruction(t)
  {
    hide Locking, Booting, Destruction, ActivityFrame;
    if s.activity.Body? {
      DestructionByBody(s, t);
    } else {
      DestructionByWait(s, t);
    }
  }

  // ---------------------------------------------------------------- Wakeups

  // Which statements can make a wait condition true, and what follows them.
  predicate Decides(op: Op) {
    op.SetRunning? || op.TakeInput? || op.TakeWindow? || op.ClearWindow? || op.SetActivityState? ||
    op.SetStateSaved? || op.SetDestroyed?
  }

  lemma WakeControl(pc: AppPc)
    requires InRange(pc) && !pc.Poll?
    ensures Decides(Code(pc)) ==> WillBroadcast(Follow(pc))
    ensures WillBroadcast(pc) ==> Code(pc).Broadcast? || WillBroadcast(Follow(pc))
  {
  }

  lemma WakeupsByApp(s: State, t: State)
    requires Locking(s) && Wakeups(s) && (AppFrame(s, t) || ReadFrame(s, t))
    ensures Wakeups(t)
  {
    if !s.app.Poll? {
      WakeControl(s.app);
    }
  }

  // ---------------------------------------------------------------- all together

  lemma InvByApp(s: State, alloc: bool)
    requires Inv(s) && AppReady(s)
    ensures Inv(AppStep(s, alloc))
  {
    var t := AppStep(s, alloc);
    AppFrameHolds(s, alloc);
    InvByFrame(s, t);
  }

  lemma InvByFrame(s: State, t: State)
    requires Inv(s) && AppReady(s) && (AppFrame(s, t) || ReadFrame(s, t))
    ensures Inv(t)
  {
    LockingByApp(s, t);
    BootingByApp(s, t);
    OrderedByApp(s, t);
    WakeupsByApp(s, t);
    if s.app.Poll? {
      WindowsByRead(s, t);
      InputsByRead(s, t);
      LifecycleByRead(s, t);
      SavingByRead(s, t);
      DestructionByRead(s, t);
    } else {
      WindowsByApp(s, t);
      InputsByApp(s, t);
      LifecycleByApp(s, t);
      SavingByApp(s, t);
      DestructionByApp(s, t);
      SaveControl(s.app);
    }
    LedgerKept(s, t);
  }

  lemma InvByActivity(s: State, t: State)
    requires Inv(s) && ActivityFrame(s, t)
    ensures Inv(t)
  {
    LockingByActivity(s, t);
    BootingByActivity(s, t);
    OrderedByActivity(s, t);
    WakeupsByActivity(s, t);
    WindowsByActivity(s, t);
    InputsByActivity(s, t);
    if s.activity.Body? { LifecycleByBody(s, t); } else { LifecycleByWait(s, t); }
    SavingByActivity(s, t);
    LedgerKept(s, t);
    DestructionByActivity(s, t);
  }

  // A command that nobody waits for.
  predicate NoticeFrame(s: State, t: State, c: Cmd) {
    && s.activity.Idle? && IsNotice(c)
    && t == s.(pipe := s.pipe + [c], log := Log(s.log.issued + [c], s.log.executed))
  }

  lemma LifecycleByNotice(s: State, t: State, c: Cmd)
    requires Lifecycle(s) && NoticeFrame(s, t, c)
    ensures Lifecycle(t)
  {
    assert Unapplied(t) == Unapplied(s) + [c];
    SettledAppend(Unapplied(s), c, s.activityState);
  }

  lemma WindowsByNotice(s: State, t: State, c: Cmd)
    requires Windows(s) && NoticeFrame(s, t, c)
    ensures Windows(t)
  {
    DrainedAfterWrite(s, t, c);
  }

  lemma RestByNotice(s: State, t: State, c: Cmd)
    requires Locking(s) && Booting(s) && Ordered(s) && Inputs(s) && Saving(s) && Destruction(s) && NoticeFrame(s, t, c)
    ensures Locking(t) && Booting(t) && Ordered(t) && Inputs(t) && Saving(t) && Destruction(t) && Wakeups(t)
  {
  }

  lemma InvByNotice(s: State, t: State, c: Cmd)
    requires Inv(s) && NoticeFrame(s, t, c)
    ensures Inv(t)
  {
    WindowsByNotice(s, t, c);
    LifecycleByNotice(s, t, c);
    RestByNotice(s, t, c);
    LedgerKept(s, t);
  }

  // The system invoking a callback, and a wake-up without a broadcast.
  predicate Jump(s: State, t: State) {
    && t == s.(activity := t.activity)
    && ((s.activity.Idle? && t.activity.Enter? && !t.activity.call.Create? &&
         (t.activity.call.SetState? ==> IsLifecycle(t.activity.call.cmd)))
        || (s.activity.Blocked? && t.activity == Woken(s.activity.call)))
  }

  lemma ControlByJump(s: State, t: State)
    requires Locking(s) && Booting(s) && Ordered(s) && Destruction(s) && Wakeups(s) && Jump(s, t)
    ensures Locking(t) && Booting(t) && Ordered(t) && Destruction(t) && Wakeups(t)
  {
  }

  lemma DataByJump(s: State, t: State)
    requires Windows(s) && Inputs(s) && Lifecycle(s) && Saving(s) && Jump(s, t)
    ensures Windows(t) && Inputs(t) && Lifecycle(t) && Saving(t)
  {
  }

  lemma InvByJump(s: State, t: State)
    requires Inv(s) && Jump(s, t)
    ensures Inv(t)
  {
    hide Locking, Booting, Ordered, Destruction, Wakeups, Windows, Inputs, Lifecycle, Saving;
    ControlByJump(s, t);
    DataByJump(s, t);
    LedgerKept(s, t);
  }

  lemma InvKept(s: State, m: Move)
    requires Inv(s) && Enabled(s, m)
    ensures Inv(Apply(s, m))
  {
    match m {
      case AppMove(alloc) => InvByApp(s, alloc);
      case ActivityMove =>
        ActivityFrameHolds(s);
        InvByActivity(s, ActivityStep(s));
      case Notice(c) => InvByNotice(s, Apply(s, m), c);
      case Input =>
      case _ => InvByJump(s, Apply(s, m));
    }
  }

  // Every state of every interleaving satisfies the invariant.
  lemma {:induction false} RunInv(states: seq<State>, moves: seq<Move>, i: nat)
    requires IsRun(states, moves) && i < |states|
    ensures Inv(states[i])
  {
    if i == 0 {
      var restored :| states[0] == Initial(restored);
      InvInitial(restored);
    } else {
      RunInv(states, moves, i - 1);
      assert StepAt(states, moves, i - 1);
      InvKept(states[i - 1], moves[i - 1]);
    }
  }

}
