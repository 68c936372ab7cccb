/**
 What the handshake guarantees in every state of every interleaving of the two threads.
 */
module AppGlueTheorems {
  import opened Wrappers
  import opened AppGlue
  import opened AppGlueInvariant

  // ---------------------------------------------------------------- commands and their effects

  // No command is lost, duplicated or reordered.
  lemma CommandsInOrder(states: seq<State>, moves: seq<Move>, i: nat)
    requires IsRun(states, moves) && i < |states|
    ensures var s := states[i]; s.log.issued == s.log.executed + InFlight(s.app) + s.pipe
  {
    RunInv(states, moves, i);
  }

  // Outside the body of set_window, executing the window commands still outstanding leaves
  // the pending window current; so a waiting set_window has a command to wait for.
  lemma OutstandingWindowCommands(states: seq<State>, moves: seq<Move>, i: nat)
    requires IsRun(states, moves) && i < |states|
    ensures var s := states[i];
            var left := WindowLeft(s.app) + s.pipe;
            && (!(s.activity.Body? && s.activity.call.SetWindow?) ==>
                  DrainWindow(s.window.current, left, s.window.pending) == s.window.pending)
            && (Waiting(s.activity) && s.activity.call.SetWindow? && s.window.current != s.window.pending ==>
                  InitWindow in left || TermWindow in left)
  {
    RunInv(states, moves, i);
    var s := states[i];
    var left := WindowLeft(s.app) + s.pipe;
    if InitWindow !in left && TermWindow !in left {
      DrainNothing(s.window.current, left, s.window.pending);
    }
  }

  lemma {:induction false} DrainNothing(w: Handle, cmds: seq<Cmd>, pending: Handle)
    requires InitWindow !in cmds && TermWindow !in cmds
    ensures DrainWindow(w, cmds, pending) == w
    decreases |cmds|
  {
    if cmds != [] {
      assert cmds[0] in cmds;
      DrainNothing(w, cmds[1..], pending);
    }
  }

  // The statement that ends a call.
  predicate Returns(s: State, m: Move, call: Call) {
    s.activity == Leave(call) && m.ActivityMove?
  }

  // The call being executed and the pending handles change only in the obvious places.
  lemma PendingFrame(s: State, m: Move)
    requires Enabled(s, m) && BodyInRange(s.activity) && NULL !in s.input.attached
    ensures var t := Apply(s, m);
            && (!(s.activity.Body? && s.activity.call.SetWindow?) ==> t.window.pending == s.window.pending)
            && (!(s.activity.Body? && s.activity.call.SetInput?) ==> t.input.pending == s.input.pending)
            && (Current(t.activity) == Current(s.activity) || Current(t.activity).None? ||
                m == Dispatch(Current(t.activity).value))
            && (s.activity.Leave? && m.ActivityMove? ==> Current(t.activity).None?)
  {
    match m {
      case AppMove(alloc) => AppFrameHolds(s, alloc);
      case ActivityMove => ActivityFrameHolds(s);
      case _ =>
    }
  }

  lemma RunPendingFrame(states: seq<State>, moves: seq<Move>, i: nat)
    requires IsRun(states, moves) && i < |moves|
    ensures var s, m, t := states[i], moves[i], states[i + 1];
            && (!(s.activity.Body? && s.activity.call.SetWindow?) ==> t.window.pending == s.window.pending)
            && (!(s.activity.Body? && s.activity.call.SetInput?) ==> t.input.pending == s.input.pending)
            && (Current(t.activity) == Current(s.activity) || Current(t.activity).None? ||
                m == Dispatch(Current(t.activity).value))
            && (s.activity.Leave? && m.ActivityMove? ==> Current(t.activity).None?)
  {
    RunInv(states, moves, i);
    assert StepAt(states, moves, i);
    PendingFrame(states[i], moves[i]);
  }

  lemma RunWindows(states: seq<State>, moves: seq<Move>, i: nat)
    requires IsRun(states, moves) && i < |states|
    ensures Windows(states[i])
  {
    RunInv(states, moves, i);
  }

  lemma RunInputs(states: seq<State>, moves: seq<Move>, i: nat)
    requires IsRun(states, moves) && i < |states|
    ensures Inputs(states[i])
  {
    RunInv(states, moves, i);
  }

  // Once set_window(NULL) has returned, the window stays NULL until set_window is called
  // again, whatever commands are left over from earlier calls.
  lemma {:induction false} WindowStaysNull(states: seq<State>, moves: seq<Move>, i: nat, j: nat)
    requires IsRun(states, moves) && i < j < |states|
    requires Returns(states[i], moves[i], SetWindow(NULL))
    requires forall k :: i < k < j ==> !(moves[k].Dispatch? && moves[k].call.SetWindow?)
    ensures states[j].window.current == NULL && states[j].window.pending == NULL
    ensures Current(states[j].activity).Some? ==> !Current(states[j].activity).value.SetWindow?
    decreases j
  {
    if j == i + 1 {
      RunWindows(states, moves, i);
    } else {
      WindowStaysNull(states, moves, i, j - 1);
    }
    RunPendingFrame(states, moves, j - 1);
    RunWindows(states, moves, j);
  }

  // The same for set_input(NULL) and the input queue.
  lemma {:induction false} InputStaysNull(states: seq<State>, moves: seq<Move>, i: nat, j: nat)
    requires IsRun(states, moves) && i < j < |states|
    requires Returns(states[i], moves[i], SetInput(NULL))
    requires forall k :: i < k < j ==> !(moves[k].Dispatch? && moves[k].call.SetInput?)
    ensures states[j].input.current == NULL && states[j].input.pending == NULL
    ensures Current(states[j].activity).Some? ==> !Current(states[j].activity).value.SetInput?
    decreases j
  {
    if j == i + 1 {
      RunInputs(states, moves, i);
    } else {
      InputStaysNull(states, moves, i, j - 1);
    }
    RunPendingFrame(states, moves, j - 1);
    RunInputs(states, moves, j);
  }

  // The looper is attached to exactly the current queue, except inside the critical section
  // that replaces it and once the destruction of the structure has detached it.
  lemma LooperFollowsQueue(states: seq<State>, moves: seq<Move>, i: nat)
    requires IsRun(states, moves) && i < |states|
    ensures var s := states[i];
            && (!LooperDetached(s.app) && s.input.current != NULL ==> s.input.attached == {s.input.current})
            && (LooperDetached(s.app) || s.input.current == NULL ==> s.input.attached == {})
            && (Enabled(s, Input) ==> s.input.current != NULL && s.input.attached == {s.input.current})
  {
    RunInv(states, moves, i);
  }

  // set_activity_state returns only when its command is the current state, and no lifecycle
  // command still outstanding can take the state elsewhere.
  lemma LifecycleIsCurrent(states: seq<State>, moves: seq<Move>, i: nat)
    requires IsRun(states, moves) && i < |states|
    ensures var s := states[i];
            && (!(Waiting(s.activity) && s.activity.call.SetState?) ==>
                  forall c :: c in LifecycleLeft(s.app) + s.pipe && IsLifecycle(c) ==> c == s.activityState)
            && (s.activity.Leave? && s.activity.call.SetState? ==> s.activityState == s.activity.call.cmd)
  {
    RunInv(states, moves, i);
  }

  // ---------------------------------------------------------------- the saved state

  // Every buffer ever allocated is held, freed or handed over, exactly once; when the client
  // is asked for a new one none is held, so nothing is lost; and once the structure is gone
  // none is held.
  lemma BufferOwnedOnce(states: seq<State>, moves: seq<Move>, i: nat, b: nat)
    requires IsRun(states, moves) && i < |states|
    ensures var f := states[i].saved;
            && multiset(f.freed)[b] + multiset(f.handed)[b] + (if f.held == Some(b) then 1 else 0) ==
               (if b < f.created then 1 else 0)
            && (states[i].app == Client(SaveState) ==> f.held.None?)
            && (states[i].activity.Gone? ==> f.held.None?)
  {
    RunInv(states, moves, i);
    var s := states[i];
    assert Accounted(s)[b] == multiset(s.saved.freed)[b] + multiset(s.saved.handed)[b] + multiset(Held(s))[b];
  }

  // After stateSaved is set, nothing is left to execute until the activity thread takes the
  // buffer: it takes what the client stored, with an empty pipe and an idle app thread.
  lemma SavedStateIsQuiet(states: seq<State>, moves: seq<Move>, i: nat)
    requires IsRun(states, moves) && i < |states|
    ensures var s := states[i];
            && (WaitingFor(s.activity, Save) && s.flags.stateSaved ==> s.pipe == [])
            && (s.activity == Leave(Save) ==> s.flags.stateSaved && s.pipe == [] && s.app.Poll?)
  {
    RunInv(states, moves, i);
  }

  // ---------------------------------------------------------------- destruction

  lemma GoneIsFinal(s: State, m: Move)
    requires s.activity.Gone? && s.app.Done?
    ensures !Enabled(s, m)
  {
  }

  // When the structure is freed the app thread has taken its last step, and so has the run.
  lemma NoUseAfterFree(states: seq<State>, moves: seq<Move>, i: nat)
    requires IsRun(states, moves) && i < |states| && states[i].activity.Gone?
    ensures states[i].app.Done? && states[i].flags.destroyed && states[i].pipe == []
    ensures i == |moves|
  {
    RunInv(states, moves, i);
    if i < |moves| {
      assert StepAt(states, moves, i);
      GoneIsFinal(states[i], moves[i]);
    }
  }

  // ---------------------------------------------------------------- progress

  function PcRank(pc: AppPc): nat {
    match pc
    case Boot(k) => if k <= 3 then 30 - k else 0
    case Poll => 9
    case ReadFree(k) => if k <= 2 then 26 - k else 0
    case Pre(_, k) => if k <= 5 then 22 - k else 0
    case Client(_) => 15
    case Post(_, k) => if k <= 3 then 14 - k else 0
    case Exit(k) => if k <= 7 then 8 - k else 0
    case Done => 0
  }

  // Statements the app thread can still execute without new commands, at most.
  function Rank(s: State): nat {
    32 * |s.pipe| + PcRank(s.app)
  }

  lemma FollowRank(pc: AppPc)
    requires InRange(pc) && !pc.Poll? && !pc.Done?
    ensures PcRank(Follow(pc)) < PcRank(pc)
  {
  }

  lemma RankDecreases(s: State, alloc: bool)
    requires Inv(s) && AppReady(s)
    ensures Rank(AppStep(s, alloc)) < Rank(s)
  {
    AppFrameHolds(s, alloc);
    if !s.app.Poll? {
      FollowRank(s.app);
    }
  }

  // While the activity thread waits, the app thread can only be stuck polling an empty pipe
  // or finished, with the mutex free.
  lemma StuckApp(s: State)
    requires Locking(s) && Waiting(s.activity) && !s.activity.Test? && !AppReady(s)
    ensures s.mutex.Nobody? && (s.app.Done? || (s.app.Poll? && s.pipe == [] && !s.flags.destroyRequested))
  {
  }

  lemma QuietSatisfied(s: State)
    requires Booting(s) && Windows(s) && Inputs(s) && Lifecycle(s) && Saving(s) && Destruction(s)
    requires Waiting(s.activity)
    requires s.app.Done? || (s.app.Poll? && s.pipe == [] && !s.flags.destroyRequested)
    ensures Satisfied(s, s.activity.call)
  {
    assert WindowLeft(s.app) + s.pipe == s.pipe && Unapplied(s) == s.pipe;
  }

  // An app thread that cannot move has nothing left to do: the wait condition holds and the
  // waiter has been woken.
  lemma WaiterNotStranded(s: State)
    requires Inv(s) && Waiting(s.activity) && !s.activity.Test? && !AppReady(s)
    ensures s.activity.Woken? && s.mutex.Nobody? && Satisfied(s, s.activity.call)
  {
    StuckApp(s);
    QuietSatisfied(s);
  }

  // Deadlock freedom: unless the structure is gone or the activity thread is idle between
  // callbacks, one of the two threads can execute a statement.
  lemma NoDeadlock(states: seq<State>, moves: seq<Move>, i: nat)
    requires IsRun(states, moves) && i < |states|
    requires !states[i].activity.Gone? && !states[i].activity.Idle?
    ensures AppReady(states[i]) || ActivityReady(states[i])
  {
    RunInv(states, moves, i);
    var s := states[i];
    if !ActivityReady(s) && !AppReady(s) {
      if s.activity.Enter? {
        assert s.mutex.AppThread?;
        LockControl(s.app);
        assert false;
      } else {
        WaiterNotStranded(s);
      }
    }
  }

  predicate IsThreadMove(m: Move) {
    m.AppMove? || m.ActivityMove?
  }

  function Measure(s: State): nat {
    4 * Rank(s) + match s.activity case Woken(_) => 2 case Test(_) => 1 case _ => 0
  }

  lemma MeasureDecreases(s: State, m: Move)
    requires Inv(s) && Enabled(s, m) && IsThreadMove(m)
    requires Waiting(s.activity) && Waiting(Apply(s, m).activity)
    ensures Measure(Apply(s, m)) < Measure(s)
  {
    if m.AppMove? {
      RankDecreases(s, m.alloc);
      AppFrameHolds(s, m.alloc);
    } else {
      ActivityFrameHolds(s);
    }
  }

  function AppMoves(moves: seq<Move>): nat {
    if moves == [] then 0 else AppMoves(moves[..|moves| - 1]) + (if moves[|moves| - 1].AppMove? then 1 else 0)
  }

  function ThreadMoves(moves: seq<Move>): nat {
    if moves == [] then 0 else ThreadMoves(moves[..|moves| - 1]) + (if IsThreadMove(moves[|moves| - 1]) then 1 else 0)
  }

  function SpuriousMoves(moves: seq<Move>): nat {
    if moves == [] then 0 else SpuriousMoves(moves[..|moves| - 1]) + (if moves[|moves| - 1].Spurious? then 1 else 0)
  }

  // One move of a wait: a thread's statement lowers the measure, a spurious wake-up raises it by
  // two, and only the app thread's statements change the rank.
  lemma WaitMove(states: seq<State>, moves: seq<Move>, i: nat)
    requires IsRun(states, moves) && i < |moves|
    requires Waiting(states[i].activity) && Waiting(states[i + 1].activity)
    ensures var s, m, t := states[i], moves[i], states[i + 1];
            && Rank(t) + (if m.AppMove? then 1 else 0) <= Rank(s)
            && Measure(t) + (if IsThreadMove(m) then 1 else 0) <= Measure(s) + (if m.Spurious? then 2 else 0)
  {
    RunInv(states, moves, i);
    assert StepAt(states, moves, i);
    var s, m := states[i], moves[i];
    match m {
      case AppMove(alloc) =>
        RankDecreases(s, alloc);
        MeasureDecreases(s, m);
      case ActivityMove =>
        ActivityFrameHolds(s);
        MeasureDecreases(s, m);
      case _ =>
    }
  }

  // Every wait ends, whatever spurious wake-ups and input events fall into it: the app thread
  // executes at most as many statements as the rank allows, and the two threads together at most
  // as many as the measure allows and two more for each spurious wake-up. By NoDeadlock one of
  // them can always execute a statement.
  lemma {:induction false} WaitIsBounded(states: seq<State>, moves: seq<Move>, i: nat, j: nat)
    requires IsRun(states, moves) && i <= j < |states|
    requires forall k :: i <= k <= j ==> Waiting(states[k].activity)
    ensures AppMoves(moves[i..j]) + Rank(states[j]) <= Rank(states[i])
    ensures ThreadMoves(moves[i..j]) + Measure(states[j]) <= Measure(states[i]) + 2 * SpuriousMoves(moves[i..j])
    decreases j
  {
    hide StepAt, Rank, Measure, IsThreadMove, Waiting;
    if i < j {
      WaitIsBounded(states, moves, i, j - 1);
      WaitMove(states, moves, j - 1);
      assert moves[i..j][..|moves[i..j]| - 1] == moves[i..j - 1];
    }
  }
}
