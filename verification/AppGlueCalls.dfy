/**
 Whole calls: what the client is told, what each callback issues, and which saved-state buffer
 onSaveInstanceState returns.
 */
module AppGlueCalls {
  import opened Wrappers
  import opened AppGlue
  import opened AppGlueInvariant
  import opened AppGlueTheorems

  // ---------------------------------------------------------------- commands delivered to the client

  // The client callback runs in this move.
  predicate Delivers(s: State, m: Move) {
    m.AppMove? && s.app.Client?
  }

  // The commands the client callback was given in the first n moves.
  ghost function Delivered(states: seq<State>, moves: seq<Move>, n: nat): seq<Cmd>
    requires |states| == |moves| + 1 && n <= |moves|
  {
    if n == 0 then []
    else Delivered(states, moves, n - 1) + if Delivers(states[n - 1], moves[n - 1]) then [states[n - 1].app.cmd] else []
  }

  // The command read from the pipe that the client has not been given yet.
  function Undelivered(pc: AppPc): seq<Cmd> {
    match pc
    case ReadFree(_) => [SaveState]
    case Pre(c, _) => [c]
    case Client(c) => [c]
    case _ => []
  }

  lemma DeliveryControl(pc: AppPc)
    requires InRange(pc) && !pc.Poll?
    ensures Undelivered(pc) == (if pc.Client? then [pc.cmd] else Undelivered(Follow(pc)))
    ensures pc.Client? ==> Undelivered(Follow(pc)) == []
  {
  }

  lemma DeliveryByApp(s: State, alloc: bool)
    requires Inv(s) && AppReady(s)
    ensures var t := AppStep(s, alloc);
            var given := if s.app.Client? then [s.app.cmd] else [];
            t.log.issued == s.log.issued && given + (Undelivered(t.app) + t.pipe) == Undelivered(s.app) + s.pipe
  {
    hide OpFrame, Booting, Windows, Lifecycle, Ledger, Saving, Destruction, Wakeups, AppStep;
    AppFrameHolds(s, alloc);
    if s.app.Poll? {
      if !s.flags.destroyRequested {
        assert s.pipe == [s.pipe[0]] + s.pipe[1..];
      }
    } else {
      DeliveryControl(s.app);
      PipeKept(s, AppStep(s, alloc));
    }
  }

  lemma DeliveryByOthers(s: State, m: Move) returns (w: seq<Cmd>)
    requires Locking(s) && Enabled(s, m) && !m.AppMove?
    ensures var t := Apply(s, m);
            t.app == s.app && t.log.issued == s.log.issued + w && t.pipe == s.pipe + w
  {
    match m {
      case ActivityMove =>
        ActivityFrameHolds(s);
        w := Written(s);
      case Notice(c) => w := [c];
      case _ => w := [];
    }
  }

  lemma PipeKept(s: State, t: State)
    requires AppFrame(s, t)
    ensures t.pipe == s.pipe
  {
  }

  // The client is given every command issued, once and in order; what it has not been given is the
  // command just read and the pipe.
  lemma {:induction false} DeliveredInOrder(states: seq<State>, moves: seq<Move>, i: nat)
    requires IsRun(states, moves) && i < |states|
    ensures var s := states[i];
            s.log.issued == Delivered(states, moves, i) + Undelivered(s.app) + s.pipe
  {
    hide Inv, Apply, Undelivered, Enabled, Locking;
    if i == 0 {
      NothingIssued(states[0]);
    } else {
      var s, m, t := states[i - 1], moves[i - 1], states[i];
      DeliveredInOrder(states, moves, i - 1);
      RunInv(states, moves, i - 1);
      assert AppGlue.StepAt(states, moves, i - 1);
      var before := Delivered(states, moves, i - 1);
      if m.AppMove? {
        AppMoveIs(s, m);
        DeliveryByApp(s, m.alloc);
        Shifted(before, if s.app.Client? then [s.app.cmd] else [], Undelivered(s.app), s.pipe, Undelivered(t.app), t.pipe);
      } else {
        OnlyAppDelivers(s, m);
        LockingOf(s);
        var w := DeliveryByOthers(s, m);
        Extended(before, Undelivered(s.app), s.pipe, w);
      }
    }
  }

  lemma Shifted(before: seq<Cmd>, given: seq<Cmd>, u: seq<Cmd>, p: seq<Cmd>, u': seq<Cmd>, p': seq<Cmd>)
    requires given + (u' + p') == u + p
    ensures before + u + p == before + given + u' + p'
  {
    assert before + u + p == before + (u + p);
    assert before + given + u' + p' == before + (given + (u' + p'));
  }

  lemma Extended(before: seq<Cmd>, u: seq<Cmd>, p: seq<Cmd>, w: seq<Cmd>)
    ensures before + u + p + w == before + [] + u + (p + w)
  {
    assert before + [] == before;
    assert before + u + p + w == before + u + (p + w);
  }

  lemma AppMoveIs(s: State, m: Move)
    requires Enabled(s, m) && m.AppMove?
    ensures AppReady(s) && Apply(s, m) == AppStep(s, m.alloc)
  {
  }

  lemma LockingOf(s: State)
    requires Inv(s)
    ensures Locking(s)
  {
  }

  lemma OnlyAppDelivers(s: State, m: Move)
    requires !m.AppMove?
    ensures !Delivers(s, m)
  {
  }

  lemma NothingIssued(s: State)
    requires exists restored :: s == Initial(restored)
    ensures s.log.issued == [] && s.pipe == [] && Undelivered(s.app) == []
  {
  }

  // ---------------------------------------------------------------- one call, from callback to return

  // The system invokes `call` at move i, and it returns at move j.
  ghost predicate Executes(states: seq<State>, moves: seq<Move>, i: nat, j: nat, call: Call) {
    && IsRun(states, moves) && i < j < |moves|
    && moves[i] == Dispatch(call) && Returns(states[j], moves[j], call)
    && forall k :: i < k <= j ==> In(states[k].activity, call)
  }

  // The commands a call issues, given the pending window it finds.
  function Commands(call: Call, pending: Handle): seq<Cmd> {
    match call
    case Create => []
    case SetInput(_) => [InputChanged]
    case SetWindow(w) => (if pending == NULL then [] else [TermWindow]) + if w == NULL then [] else [InitWindow]
    case SetState(c) => [c]
    case Save => [SaveState]
    case Free => [Destroy]
  }

  // How many of them are issued at a program counter of the call.
  predicate IssuedSoFar(s: State, call: Call, pending: Handle, before: seq<Cmd>) {
    match s.activity
    case Enter(_) => s.log.issued == before && s.window.pending == pending
    case Body(_, k) =>
      if call.SetWindow? && k >= 1 then s.log.issued == before + if pending == NULL then [] else [TermWindow]
      else s.log.issued == before && s.window.pending == pending
    case _ => s.log.issued == before + Commands(call, pending)
  }

  lemma IssueStep(s: State, m: Move, call: Call, pending: Handle, before: seq<Cmd>)
    requires Inv(s) && Enabled(s, m) && In(s.activity, call) && In(Apply(s, m).activity, call)
    requires IssuedSoFar(s, call, pending, before)
    ensures IssuedSoFar(Apply(s, m), call, pending, before)
  {
    match m {
      case AppMove(alloc) => AppFrameHolds(s, alloc);
      case ActivityMove =>
        ActivityFrameHolds(s);
        if s.activity.Body? {
          IssueBody(s, ActivityStep(s), call, pending, before);
        } else {
          assert ActivityStep(s).log.issued == s.log.issued + [];
        }
      case _ =>
    }
  }

  lemma IssueBody(s: State, t: State, call: Call, pending: Handle, before: seq<Cmd>)
    requires BodyInRange(s.activity) && ActivityFrame(s, t) && s.activity.Body? && s.activity.call == call
    requires IssuedSoFar(s, call, pending, before)
    ensures IssuedSoFar(t, call, pending, before)
  {
    var term: seq<Cmd> := if pending == NULL then [] else [TermWindow];
    assert before + term + [InitWindow] == before + (term + [InitWindow]);
    assert before + term + [] == before + (term + []);
    assert before + [] == before;
  }

  lemma {:induction false} IssuedUpTo(states: seq<State>, moves: seq<Move>, i: nat, k: nat, j: nat, call: Call)
    requires Executes(states, moves, i, j, call) && i < k <= j
    ensures IssuedSoFar(states[k], call, states[i].window.pending, states[i].log.issued)
    decreases k
  {
    hide Inv, IssuedSoFar, In;
    assert AppGlue.StepAt(states, moves, k - 1);
    if k == i + 1 {
      EnterIssued(states[i], call);
    } else {
      IssuedUpTo(states, moves, i, k - 1, j, call);
      RunInv(states, moves, k - 1);
      IssueStep(states[k - 1], moves[k - 1], call, states[i].window.pending, states[i].log.issued);
    }
  }

  lemma EnterIssued(s: State, call: Call)
    ensures IssuedSoFar(s.(activity := Enter(call)), call, s.window.pending, s.log.issued)
  {
  }

  lemma LeaveIssued(s: State, call: Call, pending: Handle, before: seq<Cmd>)
    requires IssuedSoFar(s, call, pending, before) && s.activity == Leave(call)
    ensures ActivityStep(s).log.issued == before + Commands(call, pending)
  {
  }

  // A call issues exactly its commands: one for an input queue, a lifecycle change, a save or the
  // destruction, and for a window TERM_WINDOW if there was one and INIT_WINDOW if there is one.
  lemma CallIssues(states: seq<State>, moves: seq<Move>, i: nat, j: nat, call: Call)
    requires Executes(states, moves, i, j, call)
    ensures states[j + 1].log.issued == states[i].log.issued + Commands(call, states[i].window.pending)
  {
    hide IssuedSoFar, Commands, In;
    IssuedUpTo(states, moves, i, j, j, call);
    assert AppGlue.StepAt(states, moves, j);
    LeaveIssued(states[j], call, states[i].window.pending, states[i].log.issued);
  }

  // ---------------------------------------------------------------- freed buffers

  // The three places where free_saved_state frees: reading SAVE_STATE, after RESUME, at the end.
  predicate Frees(pc: AppPc) {
    pc == ReadFree(1) || pc == Post(Resume, 1) || pc == Exit(1)
  }

  lemma FreeControl(pc: AppPc)
    requires InRange(pc)
    ensures Code(pc).FreeSaved? <==> Frees(pc)
  {
  }

  lemma FreeEffect(s: State, op: Op, alloc: bool)
    ensures var t := Effect(s, op, alloc);
            if op.FreeSaved? then t.saved.held.None? && t.saved.freed == s.saved.freed + Held(s)
            else t.saved.freed == s.saved.freed
  {
  }

  lemma FreeStep(s: State, m: Move)
    requires InRange(s.app) && BodyInRange(s.activity) && Enabled(s, m)
    ensures var t := Apply(s, m);
            if m.AppMove? && Frees(s.app) then t.saved.held.None? && t.saved.freed == s.saved.freed + Held(s)
            else t.saved.freed == s.saved.freed
  {
    match m {
      case AppMove(alloc) =>
        hide Effect, Code, Follow, InRange;
        FreeControl(s.app);
        FreeEffect(s, Code(s.app), alloc);
      case ActivityMove => ActivityFrameHolds(s);
      case _ =>
    }
  }

  // In every run a buffer is freed exactly there: if one is held it is freed and none is left held.
  lemma FreedExactly(states: seq<State>, moves: seq<Move>, i: nat)
    requires IsRun(states, moves) && i < |moves|
    ensures var s, t := states[i], states[i + 1];
            if moves[i].AppMove? && Frees(s.app) then t.saved.held.None? && t.saved.freed == s.saved.freed + Held(s)
            else t.saved.freed == s.saved.freed
  {
    hide Booting, Ordered, Windows, Inputs, Lifecycle, Ledger, Saving, Destruction, Wakeups, Apply, Frees;
    RunInv(states, moves, i);
    assert AppGlue.StepAt(states, moves, i);
    FreeStep(states[i], moves[i]);
  }

  lemma KeepStep(s: State, m: Move, b: nat)
    requires Inv(s) && Enabled(s, m) && s.saved.held == Some(b)
    requires !(m.AppMove? && Frees(s.app)) && !Returns(s, m, Save)
    ensures Apply(s, m).saved == s.saved
  {
    match m {
      case AppMove(alloc) => KeepByApp(s, alloc, b);
      case ActivityMove => ActivityFrameHolds(s);
      case _ =>
    }
  }

  lemma KeepByApp(s: State, alloc: bool, b: nat)
    requires Inv(s) && AppReady(s) && s.saved.held == Some(b) && !Frees(s.app)
    ensures AppStep(s, alloc).saved == s.saved
  {
    hide Booting, Ordered, Windows, Inputs, Lifecycle, Ledger, Destruction, Wakeups, Effect, Code, Follow;
    if !s.app.Poll? {
      FreeControl(s.app);
      if Code(s.app).Callback? {
        CallbackIs(s.app);
      }
      KeepEffect(s, Code(s.app), alloc);
    }
  }

  lemma CallbackIs(pc: AppPc)
    requires InRange(pc) && Code(pc).Callback?
    ensures pc == Client(Code(pc).cmd)
  {
  }

  lemma KeepEffect(s: State, op: Op, alloc: bool)
    requires !op.FreeSaved? && op != Callback(SaveState)
    ensures Effect(s, op, alloc).saved == s.saved
  {
  }

  // The state restored by the system, buffer 0, stays available to the client until it is freed or
  // handed over.
  lemma {:induction false} RestoredKept(states: seq<State>, moves: seq<Move>, i: nat)
    requires IsRun(states, moves) && i < |states| && states[0] == Initial(true)
    requires forall k :: 0 <= k < i ==> !(moves[k].AppMove? && Frees(states[k].app)) && !Returns(states[k], moves[k], Save)
    ensures states[i].saved == SavedField(Some(0), 1, [], [])
  {
    hide Inv, Frees, Returns;
    if i > 0 {
      RestoredKept(states, moves, i - 1);
      RunInv(states, moves, i - 1);
      assert AppGlue.StepAt(states, moves, i - 1);
      KeepStep(states[i - 1], moves[i - 1], 0);
    }
  }

  // ---------------------------------------------------------------- broadcasts

  // The places where the condition is broadcast: once the structure is running, when an input queue, a
  // window or a lifecycle state has been taken, before and after the client handles TERM_WINDOW, when
  // the state has been saved, and at the end.
  predicate Wakes(pc: AppPc) {
    || pc == Boot(2) || pc == Pre(InputChanged, 4) || pc == Pre(InitWindow, 2) || pc == Pre(TermWindow, 0)
    || pc == Pre(Start, 2) || pc == Pre(Resume, 2) || pc == Pre(Pause, 2) || pc == Pre(Stop, 2)
    || pc == Post(TermWindow, 2) || pc == Post(SaveState, 2) || pc == Exit(6)
  }

  lemma WakeCode(pc: AppPc)
    requires InRange(pc)
    ensures Code(pc).Broadcast? <==> Wakes(pc)
  {
  }

  lemma WakeStep(s: State, alloc: bool)
    requires Inv(s) && AppReady(s) && s.activity.Blocked?
    ensures AppStep(s, alloc).activity == if Wakes(s.app) then Woken(s.activity.call) else s.activity
  {
    hide Booting, Windows, Lifecycle, Ledger, Saving, Destruction, Wakeups, AppStep, Wakes, Code;
    WakeCode(s.app);
    AppFrameHolds(s, alloc);
    if s.app.Poll? {
      PollWakesNobody();
    }
  }

  lemma PollWakesNobody()
    ensures !Wakes(Poll)
  {
  }

  // In every run the app thread wakes a blocked waiter exactly there.
  lemma WokenExactly(states: seq<State>, moves: seq<Move>, i: nat)
    requires IsRun(states, moves) && i < |moves| && moves[i].AppMove? && states[i].activity.Blocked?
    ensures states[i + 1].activity == if Wakes(states[i].app) then Woken(states[i].activity.call) else states[i].activity
  {
    hide Inv, AppStep, Wakes;
    RunInv(states, moves, i);
    assert AppGlue.StepAt(states, moves, i);
    WakeStep(states[i], moves[i].alloc);
  }

  // ---------------------------------------------------------------- the buffer handed over

  // The return of onSaveInstanceState takes the buffer held, if any, and leaves none.
  lemma SaveHandsOver(states: seq<State>, moves: seq<Move>, i: nat)
    requires IsRun(states, moves) && i < |moves| && Returns(states[i], moves[i], Save)
    ensures states[i + 1].saved.held.None?
    ensures states[i + 1].saved.handed == states[i].saved.handed + Held(states[i])
  {
    assert AppGlue.StepAt(states, moves, i);
  }

  // The client callback for SAVE_STATE runs in this move.
  predicate AsksClient(s: State, m: Move) {
    m.AppMove? && s.app == Client(SaveState)
  }

  // What the client stores when it is asked.
  function Stored(s: State, m: Move): seq<nat>
    requires AsksClient(s, m)
  {
    if m.alloc then [s.saved.created] else []
  }

  // Before the client is asked: SAVE_STATE is still to be issued, read or handed to the client.
  predicate Asking(s: State) {
    && !SaveSignalled(s.app)
    && (s.activity.Enter? || s.activity.Body? || WaitingFor(s.activity, Save))
    && (WaitingFor(s.activity, Save) ==> !s.flags.stateSaved && (s.app.Post? ==> !s.app.cmd.SaveState?))
  }

  // After it: the app thread finishes SAVE_STATE and then has nothing to do.
  predicate Asked(s: State, stored: seq<nat>) {
    && s.pipe == [] && !s.flags.destroyRequested && Held(s) == stored
    && (WaitingFor(s.activity, Save) || s.activity == Leave(Save))
    && ((s.app.Post? && s.app.cmd.SaveState?) || s.app.Poll?)
  }

  // One move of the call: the client is asked once.
  lemma SaveStep(s: State, m: Move, stored: seq<nat>)
    requires Inv(s) && Enabled(s, m) && In(s.activity, Save) && In(Apply(s, m).activity, Save)
    ensures Apply(s, m).saved.handed == s.saved.handed
    ensures Asking(s) ==> if AsksClient(s, m) then Asked(Apply(s, m), Stored(s, m)) else Asking(Apply(s, m))
    ensures Asked(s, stored) ==> !AsksClient(s, m) && Asked(Apply(s, m), stored)
  {
    match m {
      case AppMove(alloc) => SaveAppStep(s, alloc, stored);
      case ActivityMove => SaveActivityStep(s, stored);
      case _ =>
    }
  }

  lemma SaveAppStep(s: State, alloc: bool, stored: seq<nat>)
    requires Inv(s) && AppReady(s) && In(s.activity, Save)
    ensures var t, m := AppStep(s, alloc), AppMove(alloc);
            && t.saved.handed == s.saved.handed
            && (Asking(s) ==> if AsksClient(s, m) then Asked(t, Stored(s, m)) else Asking(t))
            && (Asked(s, stored) ==> !AsksClient(s, m) && Asked(t, stored))
  {
    AppFrameHolds(s, alloc);
    if !s.app.Poll? {
      SaveControl(s.app);
    }
  }

  lemma SaveActivityStep(s: State, stored: seq<nat>)
    requires Inv(s) && ActivityReady(s) && In(s.activity, Save) && In(ActivityStep(s).activity, Save)
    ensures var t := ActivityStep(s);
            && t.saved.handed == s.saved.handed
            && (Asking(s) ==> Asking(t))
            && (Asked(s, stored) ==> Asked(t, stored))
  {
    ActivityFrameHolds(s);
  }

  // The call up to state k: not asked yet, or asked once, at move `at`.
  ghost predicate SavedUpTo(states: seq<State>, moves: seq<Move>, i: nat, k: nat, at: Option<nat>) {
    && |states| == |moves| + 1 && i < k <= |moves|
    && states[k].saved.handed == states[i].saved.handed
    && match at
       case None => Asking(states[k]) && forall n :: i < n < k ==> !AsksClient(states[n], moves[n])
       case Some(n) =>
         && i < n < k && AsksClient(states[n], moves[n]) && Asked(states[k], Stored(states[n], moves[n]))
         && forall n' :: i < n' < k && AsksClient(states[n'], moves[n']) ==> n' == n
  }

  lemma {:induction false} SaveProgress(states: seq<State>, moves: seq<Move>, i: nat, k: nat, j: nat) returns (at: Option<nat>)
    requires Executes(states, moves, i, j, Save) && i < k <= j
    ensures SavedUpTo(states, moves, i, k, at)
    decreases k
  {
    hide Inv, Asking, Asked, AsksClient, Stored, In, Enabled, Apply;
    if k == i + 1 {
      DispatchAsks(states, moves, i);
      at := None;
    } else {
      at := SaveProgress(states, moves, i, k - 1, j);
      RunInv(states, moves, k - 1);
      assert AppGlue.StepAt(states, moves, k - 1);
      var s, m := states[k - 1], moves[k - 1];
      SaveStep(s, m, if at.Some? then Stored(states[at.value], moves[at.value]) else []);
      if at.None? && AsksClient(s, m) {
        at := Some(k - 1);
      }
    }
  }

  lemma DispatchAsks(states: seq<State>, moves: seq<Move>, i: nat)
    requires IsRun(states, moves) && i < |moves| && moves[i] == Dispatch(Save)
    ensures Asking(states[i + 1]) && states[i + 1].saved == states[i].saved
  {
    hide Inv;
    RunInv(states, moves, i);
    assert AppGlue.StepAt(states, moves, i);
    EnterAsks(states[i]);
  }

  lemma EnterAsks(s: State)
    requires Inv(s) && s.activity.Idle?
    ensures Asking(s.(activity := Enter(Save)))
  {
  }

  lemma LeaveAsked(s: State)
    requires s.activity == Leave(Save)
    ensures !Asking(s)
  {
  }

  // onSaveInstanceState returns the client's buffer: during the call the client is asked exactly
  // once, at move n, and what is handed to the activity is what it stores then, nothing if it stores
  // nothing; no buffer is left held.
  lemma SaveReturnsBuffer(states: seq<State>, moves: seq<Move>, i: nat, j: nat) returns (n: nat)
    requires Executes(states, moves, i, j, Save)
    ensures i < n < j && AsksClient(states[n], moves[n])
    ensures forall n' :: i < n' <= j && AsksClient(states[n'], moves[n']) ==> n' == n
    ensures states[j + 1].saved.handed == states[i].saved.handed + Stored(states[n], moves[n])
    ensures states[j + 1].saved.held.None?
  {
    hide Asking, Stored, In;
    var at := SaveProgress(states, moves, i, j, j);
    LeaveAsked(states[j]);
    n := at.value;
    SaveHandsOver(states, moves, j);
  }
}
