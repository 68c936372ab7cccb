/**
 The two-thread handshake of the native-app glue, as a transition system.

 The activity thread turns lifecycle callbacks into command bytes on a pipe and waits on
 a condition variable; the app thread reads each command and runs its pre-exec part, the
 client callback and its post-exec part. One `Move` is one statement of one thread, and
 the mutex, the pipe and both program counters are part of the state.
 */
module AppGlue {
  import opened Wrappers

  // A window or an input queue; NULL is 0.
  type Handle = nat

  const NULL: Handle := 0

  // The APP_CMD_* enumerators, in order.
  datatype Cmd =
    | InputChanged | InitWindow | TermWindow | WindowResized | WindowRedrawNeeded
    | ContentRectChanged | GainedFocus | LostFocus | ConfigChanged | LowMemory
    | Start | Resume | SaveState | Pause | Stop | Destroy

  predicate IsLifecycle(c: Cmd) {
    c.Start? || c.Resume? || c.Pause? || c.Stop?
  }

  // Commands written without waiting for them.
  predicate IsNotice(c: Cmd) {
    c.ConfigChanged? || c.LowMemory? || c.GainedFocus? || c.LostFocus?
  }

  datatype Owner = Nobody | ActivityThread | AppThread

  // What the activity thread is executing and will wait for.
  datatype Call =
    | Create
    | SetInput(queue: Handle)
    | SetWindow(win: Handle)
    | SetState(cmd: Cmd)
    | Save
    | Free

  // Program counter of the activity thread. `Body` counts the statements between the lock
  // and the wait loop; `Test` evaluates the loop condition; `Blocked` is inside
  // pthread_cond_wait with the mutex released; `Woken` must take the mutex again.
  datatype ActivityPc =
    | Idle
    | Enter(call: Call)
    | Body(call: Call, k: nat)
    | Test(call: Call)
    | Blocked(call: Call)
    | Woken(call: Call)
    | Leave(call: Call)
    | Gone

  // Program counter of the app thread; `k` counts the statements of each function, with
  // statement 0 of a critical section being the lock.
  datatype AppPc =
    | Boot(k: nat)
    | Poll
    | ReadFree(k: nat)
    | Pre(cmd: Cmd, k: nat)
    | Client(cmd: Cmd)
    | Post(cmd: Cmd, k: nat)
    | Exit(k: nat)
    | Done

  datatype Flags = Flags(running: bool, stateSaved: bool, destroyRequested: bool, destroyed: bool)

  datatype WindowField = WindowField(current: Handle, pending: Handle)

  // `attached` holds the queues attached to the looper.
  datatype InputField = InputField(current: Handle, pending: Handle, attached: set<Handle>)

  // The saved-state buffer. Buffers are numbered in allocation order; `freed` and `handed`
  // log what the glue freed and what it gave to the activity.
  datatype SavedField = SavedField(held: Option<nat>, created: nat, freed: seq<nat>, handed: seq<nat>)

  // Commands written to the pipe, and commands whose process_cmd returned.
  datatype Log = Log(issued: seq<Cmd>, executed: seq<Cmd>)

  datatype State = State(
    mutex: Owner,
    activity: ActivityPc,
    app: AppPc,
    pipe: seq<Cmd>,
    flags: Flags,
    window: WindowField,
    input: InputField,
    activityState: Cmd,
    saved: SavedField,
    log: Log)

  // The zeroed structure right after pthread_create; the zero of `activityState` is the
  // first enumerator.
  function Initial(restored: bool): State {
    State(Nobody, Enter(Create), Boot(0), [], Flags(false, false, false, false),
          WindowField(NULL, NULL), InputField(NULL, NULL, {}), InputChanged,
          if restored then SavedField(Some(0), 1, [], []) else SavedField(None, 0, [], []), Log([], []))
  }

  // ---------------------------------------------------------------- app thread

  // The statements of the app thread's functions.
  datatype Op =
    | Lock | Unlock | Broadcast | Skip
    | SetRunning
    | FreeSaved
    | DetachInput | TakeInput | AttachInput
    | TakeWindow | ClearWindow
    | SetActivityState(cmd: Cmd)
    | RequestDestroy
    | Callback(cmd: Cmd)
    | SetStateSaved
    | SetDestroyed

  // Statement k of android_app_pre_exec_cmd.
  function PreCode(c: Cmd, k: nat): Op {
    match c
    case InputChanged =>
      if k == 0 then Lock else if k == 1 then DetachInput else if k == 2 then TakeInput
      else if k == 3 then AttachInput else if k == 4 then Broadcast else Unlock
    case InitWindow =>
      if k == 0 then Lock else if k == 1 then TakeWindow else if k == 2 then Broadcast else Unlock
    case TermWindow => Broadcast
    case Destroy => RequestDestroy
    case _ =>
      if !IsLifecycle(c) then Skip
      else if k == 0 then Lock else if k == 1 then SetActivityState(c) else if k == 2 then Broadcast else Unlock
  }

  // Statement k of android_app_post_exec_cmd.
  function PostCode(c: Cmd, k: nat): Op {
    match c
    case TermWindow =>
      if k == 0 then Lock else if k == 1 then ClearWindow else if k == 2 then Broadcast else Unlock
    case SaveState =>
      if k == 0 then Lock else if k == 1 then SetStateSaved else if k == 2 then Broadcast else Unlock
    case Resume =>
      if k == 0 then Lock else if k == 1 then FreeSaved else Unlock
    case _ => Skip
  }

  // Index of the last statement of each function.
  function PreLast(c: Cmd): nat {
    if c.InputChanged? then 5 else if c.InitWindow? || IsLifecycle(c) then 3 else 0
  }

  function PostLast(c: Cmd): nat {
    if c.TermWindow? || c.SaveState? then 3 else if c.Resume? then 2 else 0
  }

  // The statement the app thread executes next, when it is not polling.
  function Code(pc: AppPc): Op {
    match pc
    case Boot(k) => if k == 0 then Lock else if k == 1 then SetRunning else if k == 2 then Broadcast else Unlock
    case ReadFree(k) => if k == 0 then Lock else if k == 1 then FreeSaved else Unlock
    case Pre(c, k) => PreCode(c, k)
    case Client(c) => Callback(c)
    case Post(c, k) => PostCode(c, k)
    case Exit(k) =>
      if k == 0 || k == 3 then Lock else if k == 1 then FreeSaved else if k == 4 then DetachInput
      else if k == 5 then SetDestroyed else if k == 6 then Broadcast else Unlock
    case _ => Skip
  }

  // Where that statement leads.
  function Follow(pc: AppPc): AppPc {
    match pc
    case Boot(k) => if k < 3 then Boot(k + 1) else Poll
    case Poll => Poll
    case ReadFree(k) => if k < 2 then ReadFree(k + 1) else Pre(SaveState, 0)
    case Pre(c, k) => if k < PreLast(c) then Pre(c, k + 1) else Client(c)
    case Client(c) => Post(c, 0)
    case Post(c, k) => if k < PostLast(c) then Post(c, k + 1) else Poll
    case Exit(k) => if k < 7 then Exit(k + 1) else Done
    case Done => Done
  }

  // The command between android_app_read_cmd and the return of process_cmd.
  function InFlight(pc: AppPc): seq<Cmd> {
    match pc
    case ReadFree(_) => [SaveState]
    case Pre(c, _) => [c]
    case Client(c) => [c]
    case Post(c, _) => [c]
    case _ => []
  }

  function FreeHeld(f: SavedField): SavedField {
    if f.held.Some? then f.(freed := f.freed + [f.held.value], held := None) else f
  }

  function Allocate(f: SavedField): SavedField {
    f.(held := Some(f.created), created := f.created + 1)
  }

  // The effect of one statement. The client callback may store a buffer of its own only
  // while handling SAVE_STATE.
  function Effect(s: State, op: Op, alloc: bool): State {
    match op
    case Lock => s.(mutex := AppThread)
    case Unlock => s.(mutex := Nobody)
    case Broadcast => if s.activity.Blocked? then s.(activity := Woken(s.activity.call)) else s
    case Skip => s
    case SetRunning => s.(flags := s.flags.(running := true))
    case FreeSaved => s.(saved := FreeHeld(s.saved))
    case DetachInput =>
      if s.input.current == NULL then s
      else s.(input := s.input.(attached := s.input.attached - {s.input.current}))
    case TakeInput => s.(input := s.input.(current := s.input.pending))
    case AttachInput =>
      if s.input.current == NULL then s
      else s.(input := s.input.(attached := s.input.attached + {s.input.current}))
    case TakeWindow => s.(window := s.window.(current := s.window.pending))
    case ClearWindow => s.(window := s.window.(current := NULL))
    case SetActivityState(c) => s.(activityState := c)
    case RequestDestroy => s.(flags := s.flags.(destroyRequested := true))
    case Callback(c) => if c.SaveState? && alloc then s.(saved := Allocate(s.saved)) else s
    case SetStateSaved => s.(flags := s.flags.(stateSaved := true))
    case SetDestroyed => s.(flags := s.flags.(destroyed := true))
  }

  predicate AppReady(s: State) {
    && !s.app.Done?
    && (Code(s.app).Lock? ==> s.mutex.Nobody?)
    && (s.app.Poll? ==> s.flags.destroyRequested || s.pipe != [])
  }

  // One statement of the app thread. `android_main` is the documented loop that polls
  // until destroyRequested; reading a command is one statement.
  function AppStep(s: State, alloc: bool): State
    requires AppReady(s)
  {
    if s.app.Poll? then
      if s.flags.destroyRequested then s.(app := Exit(0))
      else s.(pipe := s.pipe[1..], app := if s.pipe[0].SaveState? then ReadFree(0) else Pre(s.pipe[0], 0))
    else
      var t := Effect(s, Code(s.app), alloc);
      if Follow(s.app).Poll? then t.(app := Poll, log := s.log.(executed := s.log.executed + InFlight(s.app)))
      else t.(app := Follow(s.app))
  }

  // ---------------------------------------------------------------- activity thread

  // The condition each wait loop waits for.
  predicate Satisfied(s: State, call: Call) {
    match call
    case Create => s.flags.running
    case SetInput(_) => s.input.current == s.input.pending
    case SetWindow(_) => s.window.current == s.window.pending
    case SetState(c) => s.activityState == c
    case Save => s.flags.stateSaved
    case Free => s.flags.destroyed
  }

  function WriteCmd(s: State, c: Cmd): State {
    s.(pipe := s.pipe + [c], log := s.log.(issued := s.log.issued + [c]))
  }

  // Statement k between the lock and the wait loop.
  function BodyStep(s: State, call: Call, k: nat): State {
    match call
    case Create => s.(activity := Test(call))
    case SetInput(q) =>
      if k == 0 then s.(input := s.input.(pending := q), activity := Body(call, 1))
      else WriteCmd(s, InputChanged).(activity := Test(call))
    case SetWindow(w) =>
      if k == 0 then
        (if s.window.pending != NULL then WriteCmd(s, TermWindow) else s).(activity := Body(call, 1))
      else if k == 1 then s.(window := s.window.(pending := w), activity := Body(call, 2))
      else (if w != NULL then WriteCmd(s, InitWindow) else s).(activity := Test(call))
    case SetState(c) => WriteCmd(s, c).(activity := Test(call))
    case Save =>
      if k == 0 then s.(flags := s.flags.(stateSaved := false), activity := Body(call, 1))
      else WriteCmd(s, SaveState).(activity := Test(call))
    case Free => WriteCmd(s, Destroy).(activity := Test(call))
  }

  function HandOver(f: SavedField): SavedField {
    if f.held.Some? then f.(handed := f.handed + [f.held.value], held := None) else f
  }

  // After the wait loop: take the saved state, unlock, and return or free the structure.
  function LeaveStep(s: State, call: Call): State {
    var t := if call.Save? then s.(saved := HandOver(s.saved)) else s;
    t.(mutex := Nobody, activity := if call.Free? then Gone else Idle)
  }

  predicate ActivityReady(s: State) {
    match s.activity
    case Enter(_) => s.mutex.Nobody?
    case Woken(_) => s.mutex.Nobody?
    case Body(_, _) => true
    case Test(_) => true
    case Leave(_) => true
    case _ => false
  }

  function ActivityStep(s: State): State
    requires ActivityReady(s)
  {
    match s.activity
    case Enter(call) => s.(mutex := ActivityThread, activity := Body(call, 0))
    case Woken(call) => s.(mutex := ActivityThread, activity := Test(call))
    case Body(call, k) => BodyStep(s, call, k)
    case Test(call) =>
      if Satisfied(s, call) then s.(activity := Leave(call))
      else s.(mutex := Nobody, activity := Blocked(call))
    case Leave(call) => LeaveStep(s, call)
  }

  // ---------------------------------------------------------------- moves and runs

  // AppMove and ActivityMove are the threads' own statements; Dispatch and Notice are the
  // system invoking a callback; Spurious wakes a waiter without a broadcast; Input is
  // process_input, which reads `inputQueue` and changes nothing modelled here.
  datatype Move =
    | AppMove(alloc: bool)
    | ActivityMove
    | Dispatch(call: Call)
    | Notice(cmd: Cmd)
    | Spurious
    | Input

  predicate Enabled(s: State, m: Move) {
    match m
    case AppMove(_) => AppReady(s)
    case ActivityMove => ActivityReady(s)
    case Dispatch(call) => s.activity.Idle? && !call.Create? && (call.SetState? ==> IsLifecycle(call.cmd))
    case Notice(c) => s.activity.Idle? && IsNotice(c)
    case Spurious => s.activity.Blocked?
    case Input => s.app.Poll? && !s.flags.destroyRequested && s.input.attached != {}
  }

  function Apply(s: State, m: Move): State
    requires Enabled(s, m)
  {
    match m
    case AppMove(alloc) => AppStep(s, alloc)
    case ActivityMove => ActivityStep(s)
    case Dispatch(call) => s.(activity := Enter(call))
    case Notice(c) => WriteCmd(s, c)
    case Spurious => s.(activity := Woken(s.activity.call))
    case Input => s
  }

  ghost predicate StepAt(states: seq<State>, moves: seq<Move>, i: nat)
    requires |states| == |moves| + 1 && i < |moves|
  {
    Enabled(states[i], moves[i]) && states[i + 1] == Apply(states[i], moves[i])
  }

  // Any interleaving of the two threads from a fresh structure.
  ghost predicate IsRun(states: seq<State>, moves: seq<Move>) {
    && |states| == |moves| + 1
    && (exists restored :: states[0] == Initial(restored))
    && forall i :: 0 <= i < |moves| ==> StepAt(states, moves, i)
  }
}
