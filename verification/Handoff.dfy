/**
 What the milestones of a hand-off stand for: every one in the log was earned by a step, in a state of client, worker,
 owner and timer that it names.
 */
module Handoff {
  import opened Prelude
  import opened Clipboard
  import Utf8

  /** The worker's place says how far its timer is. */
  predicate Timed(s: State) {
    && (s.worker in {AwaitStart, Spawn, MakeTimer} ==> s.timer == NoTimer)
    && (s.worker in {SayReady, AwaitDone, Arm} ==> s.timer == Made)
    && (s.worker in {CheckOwner, SayAccepted, AwaitEnd} ==> s.timer == Armed)
  }

  /** Client and world leave the worker where it is, or dead. */
  lemma OthersLeaveWorker(s: State, x: Step)
    requires Enabled(s, x) && (IsClientStep(x) || IsWorldStep(x))
    ensures After(s, x).timer == s.timer && (After(s, x).worker == s.worker || After(s, x).worker == WorkerDead)
  {
    match x
    case SendStart(_, _) =>
    case ReceiveReady(_) =>
    case WriteSome(_) =>
    case SendDone(_, _) =>
    case ReceiveAccepted(_) =>
    case GiveUp(_, _) =>
    case _ =>
  }

  /** On the way out: returned, or about to look at the owner. */
  predicate Leaves(t: State) {
    t.worker.Exited? || (t.worker.Ending? && t.worker.stage == Look)
  }

  lemma CleanupLeaves(s: State, tells: bool, st: Status)
    ensures Leaves(Cleanup(s, st)) && Leaves(Cleanup(Tell(s, tells), st)) && Leaves(Cleanup(Tell(Wait(s), tells), st))
  {
    hide Cleanup, Tell, Wait, Leaves;
    OneLeaves(s, st);
    OneLeaves(Tell(s, tells), st);
    OneLeaves(Tell(Wait(s), tells), st);
  }

  lemma OneLeaves(s: State, st: Status)
    ensures Leaves(Cleanup(s, st))
  {
  }

  /** The worker's next place on success up to READY; every other way on is out. */
  predicate Opens(s: State, x: Step, t: State) {
    match x
    case ReceiveStart => s.worker == AwaitStart && t.worker == Spawn && t.timer == s.timer
    case SpawnOwner(_, _) => s.worker == Spawn && t.worker == MakeTimer && t.timer == s.timer
    case CreateTimer(_, _) => t.worker == SayReady && t.timer == Made
    case SendReady(_) => s.worker == SayReady && t.worker == AwaitDone && t.timer == s.timer
    case _ => false
  }

  /** ... and from DONE on. */
  predicate Closes(s: State, x: Step, t: State) {
    match x
    case ReceiveDone(_) => s.worker == AwaitDone && t.worker == Arm && t.timer == s.timer
    case ArmTimer(_, _) => t.worker == CheckOwner && t.timer == Armed
    case LookAtOwner(_) => s.worker == CheckOwner && t.worker == SayAccepted && t.timer == s.timer
    case SendAccepted(_) => s.worker == SayAccepted && t.worker == AwaitEnd && t.timer == s.timer
    case _ => false
  }

  lemma OpeningGoesOn(s: State, x: Step)
    requires Enabled(s, x) && IsOpening(x)
    ensures Leaves(WorkerStep(s, x)) || Opens(s, x, WorkerStep(s, x))
  {
    hide Cleanup, Tell, Wait, Gone, Leaves;
    match x
    case ReceiveStart => CleanupLeaves(s.(toWorker := s.toWorker[1..]), false, StateError);
    case StartFails => CleanupLeaves(s, false, StateError);
    case SpawnOwner(_, tells) => CleanupLeaves(s, tells, External);
    case CreateTimer(_, tells) => CleanupLeaves(s, tells, IO);
    case SendReady(_) => CleanupLeaves(s, false, IO);
  }

  predicate IsEnd(x: Step) {
    x.OwnerGone? || x.WaitFails? || x.Expire? || x.DoneFails?
  }

  lemma EndGoesOn(s: State, x: Step)
    requires Enabled(s, x) && IsEnd(x)
    ensures Leaves(WorkerStep(s, x))
  {
    hide Cleanup, Tell, Gone;
    match x
    case OwnerGone =>
    case WaitFails => CleanupLeaves(s, false, IO);
    case Expire =>
    case DoneFails(_, tells) => CleanupLeaves(s, tells, External);
  }

  lemma ClosingGoesOn(s: State, x: Step)
    requires Enabled(s, x) && (x.ReceiveDone? || x.ArmTimer? || x.LookAtOwner? || x.SendAccepted?)
    ensures Leaves(WorkerStep(s, x)) || Closes(s, x, WorkerStep(s, x))
  {
    hide Cleanup, Tell, Wait, Gone, Leaves;
    match x
    case ReceiveDone(tells) => CleanupLeaves(s.(toWorker := s.toWorker[1..]), tells, External);
    case ArmTimer(_, tells) => CleanupLeaves(s, tells, IO);
    case LookAtOwner(tells) => CleanupLeaves(s, tells, External);
    case SendAccepted(_) => CleanupLeaves(s, false, IO);
  }

  lemma WorkerGoesOn(s: State, x: Step)
    requires Enabled(s, x) && !IsClientStep(x) && !IsWorldStep(x) && !x.EndStep?
    ensures Leaves(After(s, x)) || Opens(s, x, After(s, x)) || Closes(s, x, After(s, x))
  {
    hide Enabled, WorkerStep, Opens, Closes, Leaves;
    if IsOpening(x) {
      OpeningGoesOn(s, x);
    } else if IsEnd(x) {
      EndGoesOn(s, x);
    } else {
      ClosingGoesOn(s, x);
    }
  }

  lemma TimedStep(s: State, x: Step)
    requires Timed(s) && Enabled(s, x)
    ensures Timed(After(s, x))
  {
    hide Enabled, After;
    if x.EndStep? {
      EndingTimed(s, x);
    } else if IsClientStep(x) || IsWorldStep(x) {
      OthersLeaveWorker(s, x);
    } else {
      WorkerGoesOn(s, x);
    }
  }

  lemma EndingTimed(s: State, x: Step)
    requires Enabled(s, x) && x.EndStep?
    ensures After(s, x).worker.Ending? || After(s, x).worker.Exited?
  {
    hide EndingStep;
    EndingFrame(s, x.ok);
  }

  /** What a milestone means: the step that set it, and how things stood. */
  predicate Earned(s: State, x: Step, e: Event) {
    match e
    case StartSent => x.SendStart? && x.ok && s.client == Begin && s.written == []
    case StartReceived => x.ReceiveStart? && s.owner == Unborn && s.toWorker != [] && s.toWorker[0] == StartOf(s.secret) && !s.stop
    case OwnerSpawned => x.SpawnOwner? && x.ok && s.owner == Unborn && s.text == IsText(s.secret)
    case TimerMade => x.CreateTimer? && x.ok && s.owner != Unborn && s.timer == NoTimer
    case ReadySent => x.SendReady? && x.ok && s.owner != Unborn && s.timer == Made
    case ReadyReceived => x.ReceiveReady? && s.toClient != [] && s.toClient[0] == Ready && s.written == []
    case SecretWritten => x.WriteSome? && s.written <= s.secret && |s.written| + x.n == |s.secret|
    case DoneSent => x.SendDone? && x.ok && s.written == s.secret
    case DoneReceived => x.ReceiveDone? && s.toWorker != [] && s.toWorker[0] == Done && !s.stop
    case TimerArmed => x.ArmTimer? && x.ok && s.timer == Made
    case OwnerSeen => x.LookAtOwner? && s.owner == Alive && !s.stop && s.timer == Armed
    case AcceptedSent => x.SendAccepted? && x.ok && s.timer == Armed
    case AcceptedReceived => x.ReceiveAccepted? && s.toClient != [] && s.toClient[0] == Accepted
  }

  /** `e` is what the step from `s` to `t` adds to the log. */
  predicate Adds(s: State, t: State, e: Event) {
    t.log == s.log + [e]
  }

  lemma ClientEarns(s: State, x: Step)
    requires Inv(s) && Enabled(s, x) && IsClientStep(x)
    ensures After(s, x).log == s.log || exists e :: Adds(s, After(s, x), e) && Earned(s, x, e)
  {
    hide Reached, Marks, Kind, Owned;
    var t := After(s, x);
    match x
    case SendStart(ok, _) => assert ok ==> Adds(s, t, StartSent);
    case ReceiveReady(_) => assert s.toClient[0] == Ready ==> Adds(s, t, ReadyReceived);
    case WriteSome(_) => assert t.log != s.log ==> Adds(s, t, SecretWritten);
    case SendDone(ok, _) => assert ok ==> Adds(s, t, DoneSent);
    case ReceiveAccepted(_) => assert s.toClient[0] == Accepted ==> Adds(s, t, AcceptedReceived);
    case GiveUp(_, _) =>
  }

  lemma OpeningEarns(s: State, x: Step)
    requires Inv(s) && Timed(s) && Enabled(s, x) && IsOpening(x)
    ensures After(s, x).log == s.log || exists e :: Adds(s, After(s, x), e) && Earned(s, x, e)
  {
    hide Reached, Marks, Data, IsText;
    var t := After(s, x);
    match x
    case ReceiveStart => assert t.log != s.log ==> Adds(s, t, StartReceived);
    case SpawnOwner(ok, _) => assert ok ==> Adds(s, t, OwnerSpawned);
    case CreateTimer(ok, _) => assert ok ==> Adds(s, t, TimerMade);
    case SendReady(ok) => assert ok ==> Adds(s, t, ReadySent);
    case StartFails =>
  }

  lemma ClosingEarns(s: State, x: Step)
    requires Inv(s) && Timed(s) && Enabled(s, x) && !IsClientStep(x) && !IsWorldStep(x) && !IsOpening(x) && !IsEnd(x) && !x.EndStep?
    ensures After(s, x).log == s.log || exists e :: Adds(s, After(s, x), e) && Earned(s, x, e)
  {
    hide Reached, Marks, Data, Kind, IsText;
    var t := After(s, x);
    match x
    case ReceiveDone(_) => assert t.log != s.log ==> Adds(s, t, DoneReceived);
    case ArmTimer(ok, _) => assert ok ==> Adds(s, t, TimerArmed);
    case LookAtOwner(_) => assert t.log != s.log ==> Adds(s, t, OwnerSeen);
    case SendAccepted(ok) => assert ok ==> Adds(s, t, AcceptedSent);
  }

  lemma EndEarns(s: State, x: Step)
    requires Enabled(s, x) && IsEnd(x)
    ensures After(s, x).log == s.log
  {
    match x
    case OwnerGone =>
    case WaitFails =>
    case Expire =>
    case DoneFails(_, _) =>
  }

  lemma EndingEarns(s: State, x: Step)
    requires Enabled(s, x) && x.EndStep?
    ensures After(s, x).log == s.log
  {
    hide EndingStep;
    EndingFrame(s, x.ok);
  }

  lemma StepEarns(s: State, x: Step)
    requires Inv(s) && Timed(s) && Enabled(s, x)
    ensures After(s, x).log == s.log || exists e :: Adds(s, After(s, x), e) && Earned(s, x, e)
  {
    hide Enabled, Inv, Earned, ClientStep, WorkerStep;
    if IsClientStep(x) {
      ClientEarns(s, x);
    } else if x.EndStep? {
      EndingEarns(s, x);
    } else if IsEnd(x) {
      EndEarns(s, x);
    } else if IsOpening(x) {
      OpeningEarns(s, x);
    } else if !IsWorldStep(x) {
      ClosingEarns(s, x);
    }
  }

  lemma {:induction false} RunTimed(ss: seq<State>, xs: seq<Step>, k: nat)
    requires Run(ss, xs) && k < |ss|
    ensures Timed(ss[k])
  {
    hide Enabled, After;
    if k > 0 {
      RunTimed(ss, xs, k - 1);
      assert Enabled(ss[k - 1], xs[k - 1]);
      TimedStep(ss[k - 1], xs[k - 1]);
    }
  }

  /** Every milestone in the log of a run was earned by an earlier step of it. */
  lemma {:induction false} EventEarned(ss: seq<State>, xs: seq<Step>, k: nat, i: nat) returns (j: nat)
    requires Run(ss, xs) && k < |ss| && i < |ss[k].log|
    ensures j < k && |ss[j].log| == i && Earned(ss[j], xs[j], ss[k].log[i])
    decreases k
  {
    hide Enabled, After, Inv, Earned;
    assert k > 0;
    var s, x := ss[k - 1], xs[k - 1];
    assert Enabled(s, x) && ss[k] == After(s, x);
    RunKeeps(ss, xs, k - 1);
    RunTimed(ss, xs, k - 1);
    StepEarns(s, x);
    if i < |s.log| {
      j := EventEarned(ss, xs, k - 1, i);
    } else {
      j := k - 1;
    }
  }

  lemma {:induction false} LogGrows(ss: seq<State>, xs: seq<Step>, a: nat, b: nat)
    requires Run(ss, xs) && a <= b < |ss|
    ensures |ss[a].log| <= |ss[b].log|
    decreases b
  {
    hide Enabled, After, Inv, Earned;
    if a < b {
      LogGrows(ss, xs, a, b - 1);
      assert Enabled(ss[b - 1], xs[b - 1]) && ss[b] == After(ss[b - 1], xs[b - 1]);
      RunKeeps(ss, xs, b - 1);
      RunTimed(ss, xs, b - 1);
      StepEarns(ss[b - 1], xs[b - 1]);
    }
  }

  /** Where in the log the first `n` milestones are. */
  lemma {:induction false} ReachedAt(log: seq<Event>, n: nat) returns (at: seq<nat>)
    requires n <= |Milestones| && Reached(log, n)
    ensures |at| == n && forall m :: 0 <= m < n ==> at[m] < |log| && log[at[m]] == Milestones[m]
    ensures forall l, m :: 0 <= l < m < n ==> at[l] < at[m]
    decreases n
  {
    if n == 0 {
      at := [];
    } else {
      var k :| 0 <= k < |log| && log[k] == Milestones[n - 1] && Reached(log[..k], n - 1);
      var before := ReachedAt(log[..k], n - 1);
      at := before + [k];
    }
  }

  /** The steps behind a successful hand-off, one for each milestone, in order. */
  lemma SendOkSteps(ss: seq<State>, xs: seq<Step>, k: nat) returns (js: seq<nat>)
    requires Run(ss, xs) && k < |ss| && ss[k].client == Returned(OK)
    ensures |js| == 13 && (forall n :: 0 <= n < 13 ==> js[n] < k && Earned(ss[js[n]], xs[js[n]], Milestones[n]))
    ensures forall m, n :: 0 <= m < n < 13 ==> js[m] < js[n]
  {
    hide Enabled, After, Earned, Reached;
    RunKeeps(ss, xs, k);
    var at := ReachedAt(ss[k].log, 13);
    js := [];
    for n := 0 to 13
      invariant |js| == n
      invariant forall m :: 0 <= m < n ==> js[m] < k && |ss[js[m]].log| == at[m] && Earned(ss[js[m]], xs[js[m]], Milestones[m])
      invariant forall l, m :: 0 <= l < m < n ==> js[l] < js[m]
    {
      var j := EventEarned(ss, xs, k, at[n]);
      forall m | 0 <= m < n
        ensures js[m] < j
      {
        if j <= js[m] {
          LogGrows(ss, xs, j, js[m]);
        }
      }
      js := js + [j];
    }
  }

  /**
   The client returns OK only if, in this order: the whole secret was written and DONE sent; the worker received DONE, not
   being stopped; armed the timer it had made; looked at the owner, with the timer armed, and found it alive, still not
   being stopped; and sent the ACCEPTED that the client received.
   */
  lemma SendOkMeans(ss: seq<State>, xs: seq<Step>, k: nat) returns (sent: nat, received: nat, armed: nat, looked: nat, told: nat, heard: nat)
    requires Run(ss, xs) && k < |ss| && ss[k].client == Returned(OK)
    ensures sent < received < armed < looked < told < heard < k
    ensures xs[sent].SendDone? && ss[sent].written == ss[sent].secret
    ensures xs[received].ReceiveDone? && ss[received].toWorker != [] && ss[received].toWorker[0] == Done && !ss[received].stop
    ensures xs[armed].ArmTimer? && xs[armed].ok && ss[armed].timer == Made
    ensures xs[looked].LookAtOwner? && ss[looked].owner == Alive && !ss[looked].stop && ss[looked].timer == Armed
    ensures xs[told].SendAccepted? && xs[told].ok
    ensures xs[heard].ReceiveAccepted? && ss[heard].toClient != [] && ss[heard].toClient[0] == Accepted
  {
    hide Run;
    var js := SendOkSteps(ss, xs, k);
    sent, received, armed, looked, told, heard := js[7], js[8], js[9], js[10], js[11], js[12];
  }

  /** No byte of the secret is written before a step that made the timer and a step that spawned the owner. */
  lemma SecretMeans(ss: seq<State>, xs: seq<Step>, k: nat) returns (spawned: nat, made: nat, heard: nat)
    requires Run(ss, xs) && k < |ss| && ss[k].written != []
    ensures spawned < made < heard < k
    ensures xs[spawned].SpawnOwner? && xs[spawned].ok && ss[spawned].text == IsText(ss[spawned].secret)
    ensures xs[made].CreateTimer? && xs[made].ok
    ensures xs[heard].ReceiveReady? && ss[heard].toClient != [] && ss[heard].toClient[0] == Ready && ss[heard].written == []
  {
    hide Run, Reached;
    RunKeeps(ss, xs, k);
    var at := ReachedAt(ss[k].log, 6);
    spawned := EventEarned(ss, xs, k, at[2]);
    made := EventEarned(ss, xs, k, at[3]);
    heard := EventEarned(ss, xs, k, at[5]);
    if made <= spawned {
      LogGrows(ss, xs, made, spawned);
    }
    if heard <= made {
      LogGrows(ss, xs, heard, made);
    }
  }

  // ---------- the grace period ----------

  /** Step `j` looks at the owner during the grace period, and finds it there. */
  predicate LooksInVain(ss: seq<State>, xs: seq<Step>, j: nat)
    requires j < |xs| && j < |ss|
  {
    xs[j].EndStep? && ss[j].worker.Ending? && ss[j].worker.stage.Grace? && !Gone(ss[j])
  }

  lemma GraceStep(s: State, x: Step)
    requires Enabled(s, x) && After(s, x).worker.Ending?
    ensures var t := After(s, x);
      && (t.worker.stage.Grace? ==>
            || (s.worker == t.worker && !x.EndStep?)
            || (x.EndStep? && s.worker.Ending? && s.worker.stage == Terminate && t.worker.stage.ticks == 25)
            || (x.EndStep? && s.worker.Ending? && s.worker.stage == Grace(t.worker.stage.ticks + 1) && !Gone(s)))
      && (t.worker.stage == Kill ==> (s.worker == t.worker && !x.EndStep?) || (s.worker.Ending? && s.worker.stage == Grace(0)))
  {
    hide After, Enabled;
    if IsClientStep(x) || IsWorldStep(x) {
      OthersLeaveWorker(s, x);
    } else if x.EndStep? {
      EndingIs(s, x);
      GraceEnding(s, x.ok);
    } else {
      WorkerGoesOn(s, x);
    }
  }

  lemma EndingIs(s: State, x: Step)
    requires Enabled(s, x) && x.EndStep?
    ensures s.worker.Ending? && After(s, x) == EndingStep(s, x.ok)
  {
    hide EndingStep;
  }

  lemma GraceEnding(s: State, ok: bool)
    requires s.worker.Ending?
    ensures var t := EndingStep(s, ok);
      && (t.worker.Ending? && t.worker.stage.Grace? ==>
            (s.worker.stage == Terminate && t.worker.stage.ticks == 25) || (s.worker.stage == Grace(t.worker.stage.ticks + 1) && !Gone(s)))
      && (t.worker.Ending? && t.worker.stage == Kill ==> s.worker.stage == Grace(0))
  {
    match s.worker.stage
    case Look =>
    case Terminate =>
    case Grace(_) =>
    case Kill =>
    case Reap =>
  }

  /** SIGKILL comes only after twenty-five looks, ten milliseconds apart, that found the owner still there. */
  lemma {:induction false} KillWaits(ss: seq<State>, xs: seq<Step>, k: nat) returns (js: seq<nat>)
    requires Run(ss, xs) && k < |ss| && ss[k].worker.Ending? && (ss[k].worker.stage.Grace? || ss[k].worker.stage == Kill)
    ensures |js| == 25 - if ss[k].worker.stage.Grace? then ss[k].worker.stage.ticks else 0
    ensures forall n :: 0 <= n < |js| ==> js[n] < k && LooksInVain(ss, xs, js[n])
    ensures forall m, n :: 0 <= m < n < |js| ==> js[m] < js[n]
    decreases k
  {
    hide Enabled, After, Gone;
    assert k > 0;
    var s, x := ss[k - 1], xs[k - 1];
    assert Enabled(s, x) && ss[k] == After(s, x);
    GraceStep(s, x);
    if s.worker.Ending? && s.worker.stage == Terminate {
      js := [];
    } else {
      js := KillWaits(ss, xs, k - 1);
      if x.EndStep? && ss[k].worker.stage.Grace? {
        js := js + [k - 1];
      }
    }
  }

  /** A secret is offered as text exactly if it has no zero byte and is UTF-8. */
  lemma TextOffered(secret: Bytes)
    ensures IsText(secret) <==> (forall k :: 0 <= k < |secret| ==> secret[k] != 0) && Utf8.IsUtf8(secret)
    ensures StartOf(secret) == if IsText(secret) then StartText else StartBinary
  {
    Utf8.ValidIsUtf8(secret);
  }

  // ---------- how a hand-off fails ----------

  /** What the worker returns when it leaves at this step. */
  function LeavesWith(x: Step): Status {
    match x
    case ReceiveStart => StateError
    case StartFails => StateError
    case SpawnOwner(_, _) => External
    case CreateTimer(_, _) => IO
    case SendReady(_) => IO
    case ReceiveDone(_) => External
    case DoneFails(_, _) => External
    case ArmTimer(_, _) => IO
    case LookAtOwner(_) => External
    case SendAccepted(_) => IO
    case WaitFails => IO
    case _ => OK
  }

  /** The failures the client is told of, if the message goes out. */
  function Tells(x: Step): bool {
    match x
    case SpawnOwner(ok, tells) => !ok && tells
    case CreateTimer(ok, tells) => !ok && tells
    case ReceiveDone(tells) => tells
    case DoneFails(_, tells) => tells
    case ArmTimer(ok, tells) => !ok && tells
    case LookAtOwner(tells) => tells
    case _ => false
  }

  predicate LeftWith(s: State, x: Step, t: State) {
    && Leaves(t) && t.worker.result == LeavesWith(x)
    && t.toClient == s.toClient + if Tells(x) && ClientOpen(s) then [Failed] else []
  }

  lemma CleanupLeft(s: State, tells: bool, st: Status)
    ensures var t := Cleanup(Tell(s, tells), st);
      Leaves(t) && t.worker.result == st && t.toClient == s.toClient + if tells && ClientOpen(s) then [Failed] else []
    ensures Cleanup(Tell(s, false), st) == Cleanup(s, st)
  {
    hide Cleanup, Tell, Leaves;
    ToldIs(s, tells);
    ToldIs(s, false);
    CleanupIs(Tell(s, tells), st);
  }

  lemma ToldIs(s: State, tells: bool)
    ensures Tell(s, tells).toClient == s.toClient + if tells && ClientOpen(s) then [Failed] else []
    ensures !tells ==> Tell(s, tells) == s
  {
    assert s.toClient + [] == s.toClient;
  }

  lemma CleanupIs(s: State, st: Status)
    ensures Leaves(Cleanup(s, st)) && Cleanup(s, st).worker.result == st && Cleanup(s, st).toClient == s.toClient
  {
  }

  lemma WaitLeft(s: State)
    ensures Wait(s).toClient == s.toClient && ClientOpen(Wait(s)) == ClientOpen(s)
  {
  }

  lemma OpeningLeft(s: State, x: Step)
    requires Enabled(s, x) && IsOpening(x) && Leaves(WorkerStep(s, x))
    ensures LeftWith(s, x, WorkerStep(s, x))
  {
    hide Cleanup, Tell;
    match x
    case ReceiveStart => CleanupLeft(s.(toWorker := s.toWorker[1..]), false, StateError);
    case StartFails => CleanupLeft(s, false, StateError);
    case SpawnOwner(_, tells) => CleanupLeft(s, tells, External);
    case CreateTimer(_, tells) => CleanupLeft(s, tells, IO);
    case SendReady(_) => CleanupLeft(s, false, IO);
  }

  lemma ClosingLeft(s: State, x: Step)
    requires Enabled(s, x) && (x.ReceiveDone? || x.ArmTimer? || x.LookAtOwner? || x.SendAccepted?) && Leaves(WorkerStep(s, x))
    ensures LeftWith(s, x, WorkerStep(s, x))
  {
    hide Cleanup, Tell, Wait, Gone;
    match x
    case ReceiveDone(tells) => CleanupLeft(s.(toWorker := s.toWorker[1..]), tells, External);
    case ArmTimer(_, tells) => CleanupLeft(s, tells, IO);
    case LookAtOwner(tells) =>
      WaitLeft(s);
      CleanupLeft(s, tells, External);
      CleanupLeft(Wait(s), tells, External);
    case SendAccepted(_) => CleanupLeft(s, false, IO);
  }

  lemma EndLeft(s: State, x: Step)
    requires Enabled(s, x) && IsEnd(x)
    ensures LeftWith(s, x, WorkerStep(s, x))
  {
    hide Cleanup, Tell, Gone;
    match x
    case OwnerGone =>
    case WaitFails => CleanupLeft(s, false, IO);
    case Expire =>
    case DoneFails(_, tells) =>
      WaitLeft(s);
      CleanupLeft(s, tells, External);
      CleanupLeft(Wait(s), tells, External);
  }

  /** A worker that leaves does so with the status of the step at which it does, and tells the client of most failures. */
  lemma WorkerLeavesWith(s: State, x: Step)
    requires Enabled(s, x) && !IsClientStep(x) && !IsWorldStep(x) && !x.EndStep? && Leaves(After(s, x))
    ensures LeftWith(s, x, After(s, x))
  {
    hide Enabled, WorkerStep, LeftWith, Leaves;
    if IsOpening(x) {
      OpeningLeft(s, x);
    } else if IsEnd(x) {
      EndLeft(s, x);
    } else {
      ClosingLeft(s, x);
    }
  }

  /** A client that returns says OK for ACCEPTED, and otherwise External, or the status its waiting or writing failed with. */
  lemma ClientLeavesWith(s: State, x: Step)
    requires Enabled(s, x) && IsClientStep(x) && After(s, x).client.Returned?
    ensures var st := After(s, x).client.status;
      if x.GiveUp? then st == x.status && (st == External || st == IO)
      else if x.ReceiveAccepted? && s.toClient[0] == Accepted then st == OK
      else st == External
  {
    match x
    case SendStart(_, _) =>
    case ReceiveReady(_) =>
    case WriteSome(_) =>
    case SendDone(_, _) =>
    case ReceiveAccepted(_) =>
    case GiveUp(_, _) =>
  }
}
