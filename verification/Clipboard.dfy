/**
 The clipboard hand-off (src/clipboard.c) as a step system: the client that sends the secret, the detached worker, and
 the owner program that holds the selection.  Every call that can fail may fail, either process may die and a stop
 signal may arrive at any step.
 */
module Clipboard {
  import opened Prelude
  import Utf8

  // ---------- states ----------

  datatype Message = StartText | StartBinary | Ready | Done | Accepted | Failed

  /** pv_clipboard_send, from its first message to its result. */
  datatype Client = Begin | AwaitReady | Writing | AwaitAccepted | Returned(status: Status) | ClientDead

  /** worker_loop, from waiting for the start message; `Ending` is terminate_owner on the way out. */
  datatype Worker =
    | AwaitStart
    | Spawn
    | MakeTimer
    | SayReady
    | AwaitDone
    | Arm
    | CheckOwner
    | SayAccepted
    | AwaitEnd
    | Ending(result: Status, stage: Stage)
    | Exited(result: Status)
    | WorkerDead

  /** terminate_owner: look, signal, wait out the grace period, kill, reap. */
  datatype Stage = Look | Terminate | Grace(ticks: nat) | Kill | Reap

  /** The owner child as the worker's kernel sees it. */
  datatype Owner = Unborn | Alive | Zombie | Reaped

  /** The timer that ends the hand-off: created, then set running for the time to live. */
  datatype Timer = NoTimer | Made | Armed

  datatype Event =
    | StartSent | StartReceived | OwnerSpawned | TimerMade | ReadySent | ReadyReceived | SecretWritten
    | DoneSent | DoneReceived | TimerArmed | OwnerSeen | AcceptedSent | AcceptedReceived

  /** The order in which a hand-off that succeeds happens, across the two processes. */
  const Milestones: seq<Event> := [
    StartSent, StartReceived, OwnerSpawned, TimerMade, ReadySent, ReadyReceived, SecretWritten,
    DoneSent, DoneReceived, TimerArmed, OwnerSeen, AcceptedSent, AcceptedReceived]

  datatype State = State(
    secret: Bytes, client: Client, worker: Worker, owner: Owner,
    toWorker: seq<Message>, toClient: seq<Message>, written: Bytes, text: bool,
    stop: bool, timer: Timer, signalled: bool, refused: bool, log: seq<Event>)

  /** Whether the secret is offered as text: no zero byte, and UTF-8. */
  predicate IsText(secret: Bytes) {
    0 !in secret && Utf8.Valid(secret)
  }

  function StartOf(secret: Bytes): Message {
    if IsText(secret) then StartText else StartBinary
  }

  /** The grace period in ticks of ten milliseconds. */
  const GraceTicks: nat := 25

  predicate ClientOpen(s: State) {
    !s.client.Returned? && !s.client.ClientDead?
  }

  predicate WorkerOpen(s: State) {
    !s.worker.Exited? && !s.worker.WorkerDead?
  }

  ghost predicate Initial(s: State) {
    && s.secret != [] && s.client == Begin && s.worker == AwaitStart && s.owner == Unborn
    && s.toWorker == [] && s.toClient == [] && s.written == [] && s.text && !s.stop && s.timer == NoTimer && !s.signalled && !s.refused && s.log == []
  }

  // ---------- steps ----------

  datatype Step =
    // the client
    | SendStart(ok: bool, sig: bool)
    | ReceiveReady(sig: bool)
    | WriteSome(n: nat)
    | SendDone(ok: bool, sig: bool)
    | ReceiveAccepted(sig: bool)
    | GiveUp(status: Status, sig: bool)
    // the worker
    | ReceiveStart
    | StartFails
    | SpawnOwner(ok: bool, tells: bool)
    | CreateTimer(ok: bool, tells: bool)
    | SendReady(ok: bool)
    | ReceiveDone(tells: bool)
    | DoneFails(sawExit: bool, tells: bool)
    | ArmTimer(ok: bool, tells: bool)
    | LookAtOwner(tells: bool)
    | SendAccepted(ok: bool)
    | OwnerGone
    | WaitFails
    | Expire
    | EndStep(ok: bool)
    // the world
    | OwnerExits
    | StopSignal
    | ClientDies
    | WorkerDies

  /** pv_clipboard_cancel and the return: the ends are closed and the worker may be signalled. */
  function Cancel(s: State, st: Status, sig: bool): State {
    s.(client := Returned(st), stop := s.stop || sig)
  }

  /** send_control of FAILED, when it works and somebody listens. */
  function Tell(s: State, tells: bool): State {
    if tells && ClientOpen(s) then s.(toClient := s.toClient + [Failed]) else s
  }

  /** The cleanup label: terminate_owner if there is an owner. */
  function Cleanup(s: State, st: Status): State {
    if s.owner == Unborn then s.(worker := Exited(st)) else s.(worker := Ending(st, Look))
  }

  /** waitpid: an exited child is reaped. */
  function Wait(s: State): State {
    if s.owner == Zombie then s.(owner := Reaped) else s
  }

  predicate Gone(s: State) {
    s.owner == Zombie || s.owner == Reaped
  }

  predicate Enabled(s: State, x: Step) {
    match x
    case SendStart(ok, _) => s.client == Begin && (ok ==> WorkerOpen(s))
    case ReceiveReady(_) => s.client == AwaitReady && s.toClient != []
    case WriteSome(n) => s.client == Writing && 0 < n <= |s.secret| - |s.written|
    case SendDone(ok, _) => s.client == Writing && |s.written| == |s.secret| && (ok ==> WorkerOpen(s))
    case ReceiveAccepted(_) => s.client == AwaitAccepted && s.toClient != []
    case GiveUp(st, _) => s.client in {AwaitReady, Writing, AwaitAccepted} && (st == External || st == IO)
    case ReceiveStart => s.worker == AwaitStart && s.toWorker != []
    case StartFails => s.worker == AwaitStart
    case SpawnOwner(_, _) => s.worker == Spawn
    case CreateTimer(_, _) => s.worker == MakeTimer
    case SendReady(ok) => s.worker == SayReady && (ok ==> ClientOpen(s))
    case ReceiveDone(_) => s.worker == AwaitDone && s.toWorker != [] && !s.stop
    case DoneFails(sawExit, _) => s.worker == AwaitDone && (sawExit ==> Gone(s) && !s.stop)
    case ArmTimer(_, _) => s.worker == Arm
    case LookAtOwner(_) => s.worker == CheckOwner
    case SendAccepted(ok) => s.worker == SayAccepted && (ok ==> ClientOpen(s))
    case OwnerGone => s.worker == AwaitEnd && Gone(s) && !s.stop
    case WaitFails => s.worker == AwaitEnd
    case Expire => s.worker == AwaitEnd && !s.stop && s.timer == Armed
    case EndStep(_) => s.worker.Ending? && (s.worker.stage == Reap ==> Gone(s))
    case OwnerExits => s.owner == Alive
    case StopSignal => true
    case ClientDies => ClientOpen(s)
    case WorkerDies => WorkerOpen(s)
  }

  /** One stage of terminate_owner. */
  function EndingStep(s: State, ok: bool): State
    requires s.worker.Ending?
  {
    var st := s.worker.result;
    match s.worker.stage
    case Look => if Gone(s) then Wait(s).(worker := Exited(st)) else s.(worker := Ending(st, Terminate))
    case Terminate => s.(signalled := ok, worker := Ending(st, Grace(GraceTicks)))
    case Grace(n) =>
      if n == 0 then s.(worker := Ending(st, Kill))
      else if Gone(s) then Wait(s).(worker := Exited(st))
      else s.(worker := Ending(st, Grace(n - 1)))
    case Kill => if ok then s.(signalled := true, worker := Ending(st, Reap)) else s.(refused := true, worker := Exited(st))
    case Reap => Wait(s).(worker := Exited(st))
  }

  function ClientStep(s: State, x: Step): State
    requires Enabled(s, x)
  {
    match x
    case SendStart(ok, sig) =>
      if !ok then Cancel(s, External, sig)
      else s.(client := AwaitReady, toWorker := s.toWorker + [StartOf(s.secret)], log := s.log + [StartSent])
    case ReceiveReady(sig) =>
      var t := s.(toClient := s.toClient[1..]);
      if s.toClient[0] == Ready then t.(client := Writing, log := s.log + [ReadyReceived]) else Cancel(t, External, sig)
    case WriteSome(n) =>
      var now := s.secret[..|s.written| + n];
      if now == s.secret then s.(written := now, log := s.log + [SecretWritten]) else s.(written := now)
    case SendDone(ok, sig) =>
      if !ok then Cancel(s, External, sig)
      else s.(client := AwaitAccepted, toWorker := s.toWorker + [Done], log := s.log + [DoneSent])
    case ReceiveAccepted(sig) =>
      var t := s.(toClient := s.toClient[1..]);
      if s.toClient[0] == Accepted then t.(client := Returned(OK), log := s.log + [AcceptedReceived])
      else Cancel(t, External, sig)
    case GiveUp(st, sig) => Cancel(s, st, sig)
    case _ => s
  }

  function WorkerStep(s: State, x: Step): State
    requires Enabled(s, x)
  {
    match x
    case ReceiveStart =>
      var t := s.(toWorker := s.toWorker[1..]);
      if s.toWorker[0] in {StartText, StartBinary} && !s.stop then
        t.(worker := Spawn, text := s.toWorker[0] == StartText, log := s.log + [StartReceived])
      else Cleanup(t, StateError)
    case StartFails => Cleanup(s, StateError)
    case SpawnOwner(ok, tells) =>
      if ok then s.(worker := MakeTimer, owner := Alive, log := s.log + [OwnerSpawned]) else Cleanup(Tell(s, tells), External)
    case CreateTimer(ok, tells) =>
      if ok then s.(worker := SayReady, timer := Made, log := s.log + [TimerMade]) else Cleanup(Tell(s, tells), IO)
    case SendReady(ok) =>
      if ok then s.(worker := AwaitDone, toClient := s.toClient + [Ready], log := s.log + [ReadySent]) else Cleanup(s, IO)
    case ReceiveDone(tells) =>
      var t := s.(toWorker := s.toWorker[1..]);
      if s.toWorker[0] == Done then t.(worker := Arm, log := s.log + [DoneReceived]) else Cleanup(Tell(t, tells), External)
    case DoneFails(sawExit, tells) => Cleanup(Tell(if sawExit then Wait(s) else s, tells), External)
    case ArmTimer(ok, tells) =>
      if ok then s.(worker := CheckOwner, timer := Armed, log := s.log + [TimerArmed]) else Cleanup(Tell(s, tells), IO)
    case LookAtOwner(tells) =>
      if s.stop then Cleanup(Tell(s, tells), External)
      else if Gone(s) then Cleanup(Tell(Wait(s), tells), External)
      else s.(worker := SayAccepted, log := s.log + [OwnerSeen])
    case SendAccepted(ok) =>
      if ok then s.(worker := AwaitEnd, toClient := s.toClient + [Accepted], log := s.log + [AcceptedSent]) else Cleanup(s, IO)
    case OwnerGone => Wait(s).(worker := Exited(OK))
    case WaitFails => Cleanup(s, IO)
    case Expire => s.(worker := Ending(OK, Look))
    case EndStep(ok) => EndingStep(s, ok)
    case _ => s
  }

  function WorldStep(s: State, x: Step): State
    requires Enabled(s, x)
  {
    match x
    case OwnerExits => s.(owner := Zombie)
    case StopSignal => s.(stop := true)
    case ClientDies => s.(client := ClientDead)
    case WorkerDies => s.(worker := WorkerDead)
    case _ => s
  }

  predicate IsClientStep(x: Step) {
    x.SendStart? || x.ReceiveReady? || x.WriteSome? || x.SendDone? || x.ReceiveAccepted? || x.GiveUp?
  }

  predicate IsWorldStep(x: Step) {
    x.OwnerExits? || x.StopSignal? || x.ClientDies? || x.WorkerDies?
  }

  function After(s: State, x: Step): State
    requires Enabled(s, x)
  {
    if IsClientStep(x) then ClientStep(s, x) else if IsWorldStep(x) then WorldStep(s, x) else WorkerStep(s, x)
  }

  // ---------- order in the log ----------

  /** The first `n` milestones occur in the log, in their order. */
  predicate Reached(log: seq<Event>, n: nat)
    requires n <= |Milestones|
    decreases n
  {
    n == 0 || exists k :: 0 <= k < |log| && log[k] == Milestones[n - 1] && Reached(log[..k], n - 1)
  }

  lemma ReachedMore(log: seq<Event>, n: nat, e: Event)
    requires n <= |Milestones| && Reached(log, n)
    ensures Reached(log + [e], n)
  {
    if n > 0 {
      var k :| 0 <= k < |log| && log[k] == Milestones[n - 1] && Reached(log[..k], n - 1);
      assert (log + [e])[k] == log[k] && (log + [e])[..k] == log[..k];
    }
  }

  lemma ReachedNext(log: seq<Event>, n: nat)
    requires n < |Milestones| && Reached(log, n)
    ensures Reached(log + [Milestones[n]], n + 1)
  {
    var all := log + [Milestones[n]];
    assert all[|log|] == Milestones[n] && all[..|log|] == log;
  }

  lemma {:induction false} ReachedLess(log: seq<Event>, m: nat, n: nat)
    requires m <= n <= |Milestones| && Reached(log, n)
    ensures Reached(log, m)
    decreases n
  {
    if m < n {
      var k :| 0 <= k < |log| && log[k] == Milestones[n - 1] && Reached(log[..k], n - 1);
      ReachedLater(log, k, n - 1);
      ReachedLess(log, m, n - 1);
    }
  }

  lemma {:induction false} ReachedLater(log: seq<Event>, k: nat, n: nat)
    requires k <= |log| && n <= |Milestones| && Reached(log[..k], n)
    ensures Reached(log, n)
    decreases |log| - k
  {
    if k < |log| {
      ReachedMore(log[..k], n, log[k]);
      assert log[..k + 1] == log[..k] + [log[k]];
      ReachedLater(log, k + 1, n);
    } else {
      assert log[..k] == log;
    }
  }

  /** `a` happened, and `b` after it. */
  predicate Before(log: seq<Event>, a: Event, b: Event) {
    exists i, j :: 0 <= i < j < |log| && log[i] == a && log[j] == b
  }

  /** Reaching a milestone means every earlier one happened, and in order. */
  lemma ReachedInOrder(log: seq<Event>, m: nat, n: nat)
    requires m < n < |Milestones| && Reached(log, n + 1)
    ensures Before(log, Milestones[m], Milestones[n])
  {
    var j :| 0 <= j < |log| && log[j] == Milestones[n] && Reached(log[..j], n);
    ReachedLess(log[..j], m + 1, n);
    var i :| 0 <= i < |log[..j]| && log[..j][i] == Milestones[m];
    assert log[i] == Milestones[m];
  }

  // ---------- the invariant ----------

  /** How far a process at this point knows the hand-off to be. */
  function ClientMark(c: Client): (n: nat)
    ensures n <= |Milestones|
  {
    match c
    case AwaitReady => 1
    case Writing => 6
    case AwaitAccepted => 8
    case Returned(st) => if st == OK then 13 else 0
    case _ => 0
  }

  function WorkerMark(w: Worker): (n: nat)
    ensures n <= |Milestones|
  {
    match w
    case Spawn => 2
    case MakeTimer => 3
    case SayReady => 4
    case AwaitDone => 5
    case Arm => 9
    case CheckOwner => 10
    case SayAccepted => 11
    case AwaitEnd => 12
    case Ending(st, _) => if st == OK then 12 else 0
    case Exited(st) => if st == OK then 12 else 0
    case _ => 0
  }

  /** What a message in flight proves. */
  function MessageMark(m: Message): (n: nat)
    ensures n <= |Milestones|
  {
    match m
    case StartText => 1
    case StartBinary => 1
    case Ready => 5
    case Done => 8
    case Accepted => 12
    case Failed => 0
  }

  ghost predicate Marks(s: State) {
    && Reached(s.log, ClientMark(s.client)) && Reached(s.log, WorkerMark(s.worker))
    && (forall k :: 0 <= k < |s.toWorker| ==> Reached(s.log, MessageMark(s.toWorker[k])))
    && (forall k :: 0 <= k < |s.toClient| ==> Reached(s.log, MessageMark(s.toClient[k])))
  }

  /** What has gone through the data pipe. */
  ghost predicate Data(s: State) {
    && s.secret != [] && s.written <= s.secret
    && (s.written != [] ==> Reached(s.log, 6))
    && (s.client == Begin || s.client == AwaitReady ==> s.written == [])
    && (s.client == Writing && s.written == s.secret ==> Reached(s.log, 7))
    && (s.client == AwaitAccepted || s.client == Returned(OK) ==> s.written == s.secret)
  }

  /** The start message says what the secret is, and so does the worker that has received it. */
  predicate Kind(s: State) {
    && (forall k :: 0 <= k < |s.toWorker| ==>
          (s.toWorker[k] == StartText ==> IsText(s.secret)) && (s.toWorker[k] == StartBinary ==> !IsText(s.secret)))
    && (s.worker == Spawn || s.owner != Unborn ==> s.text == IsText(s.secret))
    && (OwnerSpawned in s.log ==> s.owner != Unborn)
  }

  /** There is an owner process that has not been reaped. */
  predicate OwnerLeft(s: State) {
    s.owner == Alive || s.owner == Zombie
  }

  /** The owner is never forgotten: a worker that has returned left one exactly if SIGKILL was refused. */
  predicate Owned(s: State) {
    match s.worker
    case AwaitStart => s.owner == Unborn && !s.refused
    case Spawn => s.owner == Unborn && !s.refused
    case Ending(_, stage) => s.owner != Unborn && !s.refused && (!stage.Look? ==> OwnerLeft(s)) && (stage.Reap? ==> s.signalled)
    case Exited(_) => OwnerLeft(s) <==> s.refused
    case WorkerDead => true
    case _ => s.owner != Unborn && !s.refused
  }

  ghost predicate Inv(s: State) {
    Marks(s) && Data(s) && Kind(s) && Owned(s)
  }

  /** Nothing that had been reached is lost. */
  ghost predicate Kept(a: seq<Event>, b: seq<Event>) {
    forall n: nat :: n <= |Milestones| && Reached(a, n) ==> Reached(b, n)
  }

  lemma KeptAppend(log: seq<Event>, e: Event)
    ensures Kept(log, log + [e]) && Kept(log, log)
  {
    forall n: nat | n <= |Milestones| && Reached(log, n) ensures Reached(log + [e], n) {
      ReachedMore(log, n, e);
    }
  }

  lemma InitialInv(s: State)
    requires Initial(s)
    ensures Inv(s)
  {
  }

  /** The event that comes next after mark `n`. */
  lemma Advance(log: seq<Event>, n: nat)
    requires n < |Milestones| && Reached(log, n)
    ensures Kept(log, log + [Milestones[n]]) && Reached(log + [Milestones[n]], n + 1)
  {
    hide Reached;
    KeptAppend(log, Milestones[n]);
    ReachedNext(log, n);
  }

  lemma ReachedNone(log: seq<Event>)
    ensures Reached(log, 0)
  {
  }

  /** Every message was there before, or is proved by the log. */
  ghost predicate Carried(a: seq<Message>, b: seq<Message>, log: seq<Event>) {
    forall k :: 0 <= k < |b| ==> b[k] in a || Reached(log, MessageMark(b[k]))
  }

  /** What a step has to show for the marks. */
  lemma MarksGrow(s: State, t: State)
    requires Marks(s) && Kept(s.log, t.log)
    requires Reached(t.log, ClientMark(t.client)) && Reached(t.log, WorkerMark(t.worker))
    requires Carried(s.toWorker, t.toWorker, t.log) && Carried(s.toClient, t.toClient, t.log)
    ensures Marks(t)
  {
    hide Reached, ClientMark, WorkerMark, MessageMark;
  }

  /** The data part, when nothing is written and the client stays, or leaves without success. */
  lemma DataStays(s: State, t: State)
    requires Data(s) && Kept(s.log, t.log) && t.secret == s.secret && t.written == s.written
    requires t.client == s.client || t.client == ClientDead || (t.client.Returned? && t.client.status != OK)
    ensures Data(t)
  {
    hide Reached;
  }

  /** The kind part, when no start message is sent or taken and no owner is born. */
  lemma KindStays(s: State, t: State)
    requires Kind(s) && t.secret == s.secret && t.text == s.text
    requires forall k :: 0 <= k < |t.toWorker| ==> t.toWorker[k] in s.toWorker || t.toWorker[k] == Done
    requires t.worker == Spawn ==> s.worker == Spawn
    requires s.owner == Unborn <==> t.owner == Unborn
    requires OwnerSpawned in t.log ==> OwnerSpawned in s.log
    ensures Kind(t)
  {
    hide IsText;
  }

  /** Steps that leave the log and the queues alone, or drop the first message. */
  lemma Quiet(s: State, t: State)
    requires Inv(s) && t.log == s.log && t.secret == s.secret && t.written == s.written && t.text == s.text
    requires t.toWorker == s.toWorker || (s.toWorker != [] && t.toWorker == s.toWorker[1..])
    requires t.toClient == s.toClient || (s.toClient != [] && t.toClient == s.toClient[1..]) || t.toClient == s.toClient + [Failed]
    requires t.client == s.client || t.client == ClientDead || (t.client.Returned? && t.client.status != OK)
    requires t.worker == s.worker || WorkerMark(t.worker) == 0 || (s.worker == AwaitEnd && WorkerMark(t.worker) == 12)
      || (s.worker.Ending? && (t.worker.Ending? || t.worker.Exited?) && t.worker.result == s.worker.result)
    requires s.owner == Unborn <==> t.owner == Unborn
    requires Owned(t)
    ensures Inv(t)
  {
    hide Reached, Owned, IsText, MessageMark;
    KeptAppend(s.log, StartSent);
    ReachedNone(s.log);
    FailedProvesNothing(s.log);
    MarksGrow(s, t);
    DataStays(s, t);
    KindStays(s, t);
  }

  lemma FailedProvesNothing(log: seq<Event>)
    ensures Reached(log, MessageMark(Failed))
  {
  }

  /** A client that leaves without success. */
  lemma CancelKeeps(s: State, st: Status, sig: bool)
    requires Inv(s) && st != OK
    ensures Inv(Cancel(s, st, sig))
  {
    hide Reached, Marks, Data, Kind;
    Quiet(s, Cancel(s, st, sig));
  }

  /** The client takes the first message and leaves. */
  lemma TakenFromWorker(s: State)
    requires Inv(s) && s.toClient != []
    ensures Inv(s.(toClient := s.toClient[1..]))
  {
    hide Reached, Marks, Data, Kind;
    Quiet(s, s.(toClient := s.toClient[1..]));
  }

  // ---------- the client's steps ----------

  lemma ClientKnows(s: State)
    requires Inv(s)
    ensures Reached(s.log, ClientMark(s.client))
    ensures s.toClient != [] ==> Reached(s.log, MessageMark(s.toClient[0]))
  {
    hide Reached;
  }

  /** A client that records its next milestone. */
  lemma ClientProgress(s: State, t: State, n: nat)
    requires Inv(s) && n < |Milestones| && Reached(s.log, n) && ClientMark(t.client) <= n + 1
    requires t.log == s.log + [Milestones[n]] && t.secret == s.secret && t.worker == s.worker && t.owner == s.owner
    requires Milestones[n] != OwnerSpawned && t.text == s.text && t.signalled == s.signalled && t.refused == s.refused
    requires t.toClient == s.toClient || (s.toClient != [] && t.toClient == s.toClient[1..])
    requires t.toWorker == s.toWorker || (n == 0 && t.toWorker == s.toWorker + [StartOf(s.secret)]) || (n == 7 && t.toWorker == s.toWorker + [Done])
    requires Data(t)
    ensures Inv(t)
  {
    hide Data, IsText, Reached, ClientMark, WorkerMark, Owned, Kind;
    Advance(s.log, n);
    ReachedLess(t.log, ClientMark(t.client), n + 1);
    StartProves(s.secret);
    MarksGrow(s, t);
    KindWithStart(s, t);
    OwnedSame(s, t);
  }

  lemma StartProves(secret: Bytes)
    ensures MessageMark(StartOf(secret)) == 1 && MessageMark(Done) == 8
  {
  }

  /** The kind part, when a start message or DONE is sent. */
  lemma KindWithStart(s: State, t: State)
    requires Kind(s) && t.secret == s.secret && t.text == s.text && t.worker == s.worker && t.owner == s.owner
    requires forall k :: 0 <= k < |t.toWorker| ==> t.toWorker[k] in s.toWorker || t.toWorker[k] in {Done, StartOf(s.secret)}
    requires OwnerSpawned in t.log ==> OwnerSpawned in s.log
    ensures Kind(t)
  {
    hide IsText;
  }

  lemma StartSentKeeps(s: State, ok: bool, sig: bool)
    requires Inv(s) && Enabled(s, SendStart(ok, sig))
    ensures Inv(ClientStep(s, SendStart(ok, sig)))
  {
    hide Reached, Marks, Kind, Owned, StartOf;
    if ok {
      ReachedNone(s.log);
      ClientProgress(s, ClientStep(s, SendStart(ok, sig)), 0);
    } else {
      CancelKeeps(s, External, sig);
    }
  }

  lemma ReadyKeeps(s: State, sig: bool)
    requires Inv(s) && Enabled(s, ReceiveReady(sig))
    ensures Inv(ClientStep(s, ReceiveReady(sig)))
  {
    hide Reached, Marks, Kind, Owned;
    var t := ClientStep(s, ReceiveReady(sig));
    ClientKnows(s);
    if s.toClient[0] == Ready {
      Advance(s.log, 5);
      ClientProgress(s, t, 5);
    } else {
      hide Inv;
      TakenFromWorker(s);
      CancelKeeps(s.(toClient := s.toClient[1..]), External, sig);
    }
  }

  lemma WriteKeeps(s: State, n: nat)
    requires Inv(s) && Enabled(s, WriteSome(n))
    ensures Inv(ClientStep(s, WriteSome(n)))
  {
    hide Reached, Kind, Owned;
    var t := ClientStep(s, WriteSome(n));
    KeptAppend(s.log, StartSent);
    if t.written == s.secret {
      Advance(s.log, 6);
      ClientProgress(s, t, 6);
    } else {
      assert Marks(t);
      KindStays(s, t);
      OwnedSame(s, t);
    }
  }

  lemma OwnedSame(s: State, t: State)
    requires Owned(s) && t.worker == s.worker && t.owner == s.owner && t.signalled == s.signalled && t.refused == s.refused
    ensures Owned(t)
  {
  }

  lemma DoneSentKeeps(s: State, ok: bool, sig: bool)
    requires Inv(s) && Enabled(s, SendDone(ok, sig))
    ensures Inv(ClientStep(s, SendDone(ok, sig)))
  {
    hide Reached, Kind, Owned;
    if ok {
      assert s.written == s.secret;
      Advance(s.log, 7);
      ClientProgress(s, ClientStep(s, SendDone(ok, sig)), 7);
    } else {
      CancelKeeps(s, External, sig);
    }
  }

  lemma AcceptedKeeps(s: State, sig: bool)
    requires Inv(s) && Enabled(s, ReceiveAccepted(sig))
    ensures Inv(ClientStep(s, ReceiveAccepted(sig)))
  {
    hide Reached, Marks, Kind, Owned;
    var t := ClientStep(s, ReceiveAccepted(sig));
    ClientKnows(s);
    if s.toClient[0] == Accepted {
      Advance(s.log, 12);
      ClientProgress(s, t, 12);
    } else {
      hide Inv;
      TakenFromWorker(s);
      CancelKeeps(s.(toClient := s.toClient[1..]), External, sig);
    }
  }

  lemma ClientStepKeeps(s: State, x: Step)
    requires Inv(s) && Enabled(s, x) && IsClientStep(x)
    ensures Inv(ClientStep(s, x))
  {
    hide Inv;
    match x
    case SendStart(ok, sig) => StartSentKeeps(s, ok, sig);
    case ReceiveReady(sig) => ReadyKeeps(s, sig);
    case WriteSome(n) => WriteKeeps(s, n);
    case SendDone(ok, sig) => DoneSentKeeps(s, ok, sig);
    case ReceiveAccepted(sig) => AcceptedKeeps(s, sig);
    case GiveUp(st, sig) => CancelKeeps(s, st, sig);
  }

  // ---------- the world's and the worker's steps ----------

  lemma WorldStepKeeps(s: State, x: Step)
    requires Inv(s) && Enabled(s, x) && IsWorldStep(x)
    ensures Inv(WorldStep(s, x))
  {
    hide Reached, Marks, Data, Kind;
    Quiet(s, WorldStep(s, x));
  }

  /** Leaving by the cleanup label, with a status other than OK, an owner or none. */
  lemma CleanupOwned(s: State, st: Status)
    requires Owned(s) && WorkerOpen(s) && !s.worker.Ending?
    ensures Owned(Cleanup(s, st))
  {
  }

  lemma CleanupKeeps(s: State, st: Status)
    requires Inv(s) && st != OK && WorkerOpen(s) && !s.worker.Ending?
    ensures Inv(Cleanup(s, st))
  {
    hide Reached, Marks, Data, Kind, Owned;
    CleanupOwned(s, st);
    Quiet(s, Cleanup(s, st));
  }

  lemma TellKeeps(s: State, tells: bool)
    requires Inv(s)
    ensures Inv(Tell(s, tells))
  {
    hide Reached, Marks, Data, Kind;
    Quiet(s, Tell(s, tells));
  }

  lemma WaitKeeps(s: State)
    requires Inv(s) && WorkerOpen(s) && !s.worker.Ending?
    ensures Inv(Wait(s)) && Wait(s).worker == s.worker
  {
    hide Reached, Marks, Data, Kind;
    Quiet(s, Wait(s));
  }

  lemma TakenKeeps(s: State)
    requires Inv(s) && s.toWorker != []
    ensures Inv(s.(toWorker := s.toWorker[1..]))
  {
    hide Reached, Marks, Data, Kind;
    Quiet(s, s.(toWorker := s.toWorker[1..]));
  }

  lemma EndingOwned(s: State, ok: bool)
    requires Owned(s) && s.worker.Ending? && (s.worker.stage == Reap ==> Gone(s))
    ensures Owned(EndingStep(s, ok))
  {
  }

  /** Stopping the owner concerns only the worker, the owner and what has been signalled. */
  predicate OnlyEnding(s: State, t: State) {
    && t.secret == s.secret && t.client == s.client && t.toWorker == s.toWorker && t.toClient == s.toClient
    && t.written == s.written && t.text == s.text && t.log == s.log && (s.owner == Unborn <==> t.owner == Unborn)
  }

  lemma WaitOnly(s: State, w: Worker)
    ensures OnlyEnding(s, Wait(s).(worker := w)) && Wait(s).(worker := w).worker == w
  {
  }

  lemma WorkerOnly(s: State, w: Worker)
    ensures OnlyEnding(s, s.(worker := w)) && s.(worker := w).worker == w
  {
  }

  lemma SignalOnly(s: State, w: Worker, signalled: bool)
    ensures OnlyEnding(s, s.(signalled := signalled, worker := w)) && s.(signalled := signalled, worker := w).worker == w
    ensures OnlyEnding(s, s.(refused := signalled, worker := w)) && s.(refused := signalled, worker := w).worker == w
  {
  }

  lemma EndingFrame(s: State, ok: bool)
    requires s.worker.Ending?
    ensures var t := EndingStep(s, ok);
      OnlyEnding(s, t) && (t.worker.Ending? || t.worker.Exited?) && t.worker.result == s.worker.result
  {
    hide OnlyEnding, Wait, Gone;
    var st := s.worker.result;
    match s.worker.stage
    case Look =>
      WaitOnly(s, Exited(st));
      WorkerOnly(s, Ending(st, Terminate));
    case Terminate =>
      SignalOnly(s, Ending(st, Grace(GraceTicks)), ok);
    case Grace(n) =>
      if n == 0 {
        WorkerOnly(s, Ending(st, Kill));
      } else {
        WaitOnly(s, Exited(st));
        WorkerOnly(s, Ending(st, Grace(n - 1)));
      }
    case Kill =>
      SignalOnly(s, Ending(st, Reap), true);
      SignalOnly(s, Exited(st), true);
    case Reap =>
      WaitOnly(s, Exited(st));
  }

  lemma EndingKeeps(s: State, ok: bool)
    requires Inv(s) && s.worker.Ending? && (s.worker.stage == Reap ==> Gone(s))
    ensures Inv(EndingStep(s, ok))
  {
    hide Reached, Marks, Data, Kind, Owned, EndingStep, WorkerMark;
    EndingOwned(s, ok);
    EndingFrame(s, ok);
    Quiet(s, EndingStep(s, ok));
  }

  /** The two ways to a successful end. */
  lemma OkKeeps(s: State, t: State)
    requires Inv(s) && s.worker == AwaitEnd
    requires (t == Wait(s).(worker := Exited(OK)) && Gone(s)) || t == s.(worker := Ending(OK, Look))
    ensures Inv(t)
  {
    hide Reached, Marks, Data, Kind;
    Quiet(s, t);
  }

  /** The failing outcomes of the worker's steps. */
  lemma FailureKeeps(s: State, tells: bool, st: Status)
    requires Inv(s) && st != OK && WorkerOpen(s) && !s.worker.Ending?
    ensures Inv(Cleanup(Tell(s, tells), st))
  {
    hide Inv;
    TellKeeps(s, tells);
    CleanupKeeps(Tell(s, tells), st);
  }

  /** A worker that records its next milestone. */
  lemma ProgressKeeps(s: State, t: State, n: nat)
    requires Inv(s) && n < |Milestones| && Reached(s.log, n) && WorkerMark(t.worker) == n + 1
    requires t.log == s.log + [Milestones[n]] && t.secret == s.secret && t.client == s.client && t.written == s.written
    requires t.toWorker == s.toWorker
    requires t.toClient == s.toClient || (t.toClient == s.toClient + [Ready] && n == 4) || (t.toClient == s.toClient + [Accepted] && n == 11)
    requires Kind(t) && Owned(t)
    ensures Inv(t)
  {
    hide IsText, Kind, Owned, Reached, ClientMark, WorkerMark;
    Advance(s.log, n);
    MarksGrow(s, t);
    DataStays(s, t);
  }

  lemma WorkerKnows(s: State)
    requires Inv(s)
    ensures Reached(s.log, WorkerMark(s.worker))
    ensures s.toWorker != [] ==> Reached(s.log, MessageMark(s.toWorker[0]))
  {
    hide Reached;
  }

  lemma StartKeeps(s: State)
    requires Inv(s) && Enabled(s, ReceiveStart)
    ensures Inv(WorkerStep(s, ReceiveStart))
  {
    hide Reached, IsText, Marks, Data;
    var t := WorkerStep(s, ReceiveStart);
    WorkerKnows(s);
    TakenKeeps(s);
    var u := s.(toWorker := s.toWorker[1..]);
    if s.toWorker[0] in {StartText, StartBinary} && !s.stop {
      ProgressKeeps(u, t, 1);
    } else {
      hide Inv;
      CleanupKeeps(u, StateError);
    }
  }

  lemma DoneKeeps(s: State, tells: bool)
    requires Inv(s) && Enabled(s, ReceiveDone(tells))
    ensures Inv(WorkerStep(s, ReceiveDone(tells)))
  {
    hide Reached, IsText, Marks, Data;
    var t := WorkerStep(s, ReceiveDone(tells));
    WorkerKnows(s);
    TakenKeeps(s);
    var u := s.(toWorker := s.toWorker[1..]);
    if s.toWorker[0] == Done {
      KindStays(u, t);
      ProgressKeeps(u, t, 8);
    } else {
      hide Inv;
      FailureKeeps(u, tells, External);
    }
  }

  /** A step at which only the worker's place changes: the kind stays. */
  lemma PlainProgress(s: State, t: State, n: nat)
    requires Inv(s) && n < |Milestones| && Reached(s.log, n) && WorkerMark(t.worker) == n + 1 && Milestones[n] != OwnerSpawned
    requires t.log == s.log + [Milestones[n]] && t.secret == s.secret && t.client == s.client && t.written == s.written
    requires t.toWorker == s.toWorker && t.text == s.text && t.owner == s.owner && t.worker != Spawn
    requires t.toClient == s.toClient || (t.toClient == s.toClient + [Ready] && n == 4) || (t.toClient == s.toClient + [Accepted] && n == 11)
    requires Owned(t)
    ensures Inv(t)
  {
    hide Reached, Marks, Data, Owned, IsText, WorkerMark;
    KindStays(s, t);
    ProgressKeeps(s, t, n);
  }

  lemma LookKeeps(s: State, tells: bool)
    requires Inv(s) && Enabled(s, LookAtOwner(tells))
    ensures Inv(WorkerStep(s, LookAtOwner(tells)))
  {
    hide Reached, Marks, Data, Kind;
    WorkerKnows(s);
    WaitKeeps(s);
    if s.stop {
      FailureKeeps(s, tells, External);
    } else if Gone(s) {
      FailureKeeps(Wait(s), tells, External);
    } else {
      PlainProgress(s, WorkerStep(s, LookAtOwner(tells)), 10);
    }
  }

  lemma DoneFailsKeeps(s: State, sawExit: bool, tells: bool)
    requires Inv(s) && Enabled(s, DoneFails(sawExit, tells))
    ensures Inv(WorkerStep(s, DoneFails(sawExit, tells)))
  {
    hide Inv;
    WaitKeeps(s);
    FailureKeeps(if sawExit then Wait(s) else s, tells, External);
  }

  predicate IsOpening(x: Step) {
    x.ReceiveStart? || x.StartFails? || x.SpawnOwner? || x.CreateTimer? || x.SendReady?
  }

  /** The worker's steps up to READY. */
  lemma OpeningKeeps(s: State, x: Step)
    requires Inv(s) && Enabled(s, x) && IsOpening(x)
    ensures Inv(WorkerStep(s, x))
  {
    hide Reached, IsText, Marks, Data;
    var t := WorkerStep(s, x);
    WorkerKnows(s);
    match x
    case ReceiveStart => StartKeeps(s);
    case StartFails => CleanupKeeps(s, StateError);
    case SpawnOwner(ok, tells) => if ok { ProgressKeeps(s, t, 2); } else { FailureKeeps(s, tells, External); }
    case CreateTimer(ok, tells) => if ok { PlainProgress(s, t, 3); } else { FailureKeeps(s, tells, IO); }
    case SendReady(ok) => if ok { PlainProgress(s, t, 4); } else { CleanupKeeps(s, IO); }
  }

  /** The worker's steps from DONE on. */
  lemma ClosingKeeps(s: State, x: Step)
    requires Inv(s) && Enabled(s, x) && !IsClientStep(x) && !IsWorldStep(x) && !IsOpening(x)
    ensures Inv(WorkerStep(s, x))
  {
    hide Reached, IsText, Marks, Data, Kind;
    var t := WorkerStep(s, x);
    WorkerKnows(s);
    match x
    case ReceiveDone(tells) => DoneKeeps(s, tells);
    case DoneFails(sawExit, tells) => DoneFailsKeeps(s, sawExit, tells);
    case ArmTimer(ok, tells) => if ok { PlainProgress(s, t, 9); } else { FailureKeeps(s, tells, IO); }
    case LookAtOwner(tells) => LookKeeps(s, tells);
    case SendAccepted(ok) => if ok { PlainProgress(s, t, 11); } else { CleanupKeeps(s, IO); }
    case OwnerGone => OkKeeps(s, t);
    case WaitFails => CleanupKeeps(s, IO);
    case Expire => OkKeeps(s, t);
    case EndStep(ok) => EndingKeeps(s, ok);
  }

  lemma StepKeeps(s: State, x: Step)
    requires Inv(s) && Enabled(s, x)
    ensures Inv(After(s, x))
  {
    hide Inv, ClientStep, WorkerStep, WorldStep, Enabled;
    if IsClientStep(x) {
      ClientStepKeeps(s, x);
    } else if IsWorldStep(x) {
      WorldStepKeeps(s, x);
    } else if IsOpening(x) {
      OpeningKeeps(s, x);
    } else {
      ClosingKeeps(s, x);
    }
  }

  // ---------- over whole runs ----------

  ghost predicate Run(ss: seq<State>, xs: seq<Step>) {
    && |ss| == |xs| + 1 && Initial(ss[0])
    && forall k :: 0 <= k < |xs| ==> Enabled(ss[k], xs[k]) && ss[k + 1] == After(ss[k], xs[k])
  }

  lemma {:induction false} RunKeeps(ss: seq<State>, xs: seq<Step>, k: nat)
    requires Run(ss, xs) && k < |ss|
    ensures Inv(ss[k])
  {
    hide Inv, Initial, Enabled, After;
    if k == 0 {
      InitialInv(ss[0]);
    } else {
      RunKeeps(ss, xs, k - 1);
      assert Enabled(ss[k - 1], xs[k - 1]);
      StepKeeps(ss[k - 1], xs[k - 1]);
    }
  }

  /** No byte of the secret goes out before the worker has an owner and a timer and its READY has arrived. */
  lemma SecretOnlyAfterReady(ss: seq<State>, xs: seq<Step>, k: nat)
    requires Run(ss, xs) && k < |ss| && ss[k].written != []
    ensures ss[k].written <= ss[k].secret
    ensures Before(ss[k].log, OwnerSpawned, ReadyReceived) && Before(ss[k].log, TimerMade, ReadySent)
    ensures Before(ss[k].log, ReadySent, ReadyReceived)
  {
    hide Run, Before;
    RunKeeps(ss, xs, k);
    var log := ss[k].log;
    ReachedLess(log, 5, 6);
    ReachedInOrder(log, 2, 5);
    ReachedInOrder(log, 3, 4);
    ReachedInOrder(log, 4, 5);
  }

  /**
   The client returns OK only when the whole secret was written, and the worker had received DONE, then armed the timer,
   then seen the owner alive, and only then sent the ACCEPTED that the client received.
   */
  lemma SendOkIsAccepted(ss: seq<State>, xs: seq<Step>, k: nat)
    requires Run(ss, xs) && k < |ss| && ss[k].client == Returned(OK)
    ensures ss[k].written == ss[k].secret && ss[k].text == IsText(ss[k].secret)
    ensures Before(ss[k].log, SecretWritten, DoneSent) && Before(ss[k].log, DoneSent, DoneReceived)
    ensures Before(ss[k].log, DoneReceived, TimerArmed) && Before(ss[k].log, TimerArmed, OwnerSeen)
    ensures Before(ss[k].log, OwnerSeen, AcceptedSent) && Before(ss[k].log, AcceptedSent, AcceptedReceived)
  {
    hide Run, Before, IsText, Reached;
    RunKeeps(ss, xs, k);
    var log := ss[k].log;
    ReachedLess(log, 8, 13);
    ReachedLess(log, 9, 13);
    ReachedLess(log, 10, 13);
    ReachedLess(log, 11, 13);
    ReachedLess(log, 12, 13);
    SpawnedInLog(log);
    ReachedInOrder(log, 6, 7);
    ReachedInOrder(log, 7, 8);
    ReachedInOrder(log, 8, 9);
    ReachedInOrder(log, 9, 10);
    ReachedInOrder(log, 10, 11);
    ReachedInOrder(log, 11, 12);
  }

  lemma SpawnedInLog(log: seq<Event>)
    requires Reached(log, 13)
    ensures OwnerSpawned in log
  {
    ReachedLess(log, 3, 13);
  }

  /** The worker returns leaving an owner behind if and only if SIGKILL was refused, and returns OK only after ACCEPTED. */
  lemma NoOwnerLeft(ss: seq<State>, xs: seq<Step>, k: nat)
    requires Run(ss, xs) && k < |ss| && ss[k].worker.Exited?
    ensures OwnerLeft(ss[k]) <==> ss[k].refused
    ensures ss[k].worker.result == OK ==> Before(ss[k].log, OwnerSeen, AcceptedSent)
  {
    hide Run;
    RunKeeps(ss, xs, k);
    if ss[k].worker.result == OK {
      ReachedInOrder(ss[k].log, 10, 11);
    }
  }
}
