/** The one-slot mailbox between the window's thread and the inference worker, as a step model
    of its mutex, condition variable and `busy` flag.  Main results, over every run: the
    worker takes frames in strictly increasing order and never an empty one, the newest
    frame handed over is never lost, the published pair is always from one frame, the worker
    never sleeps through a request, and the destructor's join returns. */
module Mailbox {

  // ---- State ----------------------------------------------------------------------------------------
  // Frames are numbered from 1 in the order the pipeline delivers them; 0 stands for no frame.
  // A thread's position is the statement it is about to perform.

  datatype Window =
    | Idle | CheckBusy | LockToStore | StorePending | SetPending | UnlockStored | Notify
    | LockToDraw | Draw | UnlockDrawn
    | LockToStop | SetStop | UnlockStopped | NotifyAll | Join | Closed

  datatype Worker =
    | Lock | Test | Parked | Relock | Decide | Leave | Take | ClearPending | Unlock | SetBusy | Infer
    | LockToPublish | PublishDets | PublishBox | SetResult | UnlockPublished | ClearBusy | Exited

  datatype Owner = Nobody | TheWindow | TheWorker

  /** A drawing: the frame drawn on, and the frames its boxes and letterbox came from, 0 for none. */
  datatype Drawing = Drawing(frame: nat, dets: nat, box: nat)

  /** The slot, with the frames handed over and taken so far. */
  datatype Mail = Mail(pending: nat, dispatched: seq<nat>, taken: seq<nat>)

  /** The latest result, as the frames its two parts come from, with the frames published so far. */
  datatype Latest = Latest(dets: nat, box: nat, published: seq<nat>)

  datatype State = State(
    window: Window, frame: nat, worker: Worker, inHand: nat,
    owner: Owner, hasPending: bool, stop: bool, busy: bool, hasResult: bool,
    mail: Mail, latest: Latest, drawn: seq<Drawing>)

  const INITIAL :=
    State(Idle, 0, Lock, 0, Nobody, false, false, false, false, Mail(0, [], []), Latest(0, 0, []), [])

  // ---- Statements -----------------------------------------------------------------------------------
  // Each function says what the statement at a position does to one part of the state.

  predicate WindowCan(w: Window, owner: Owner, worker: Worker) {
    match w
    case Idle => false
    case LockToStore => owner == Nobody
    case LockToDraw => owner == Nobody
    case LockToStop => owner == Nobody
    case Join => worker == Exited
    case Closed => false
    case _ => true
  }

  function WindowNext(w: Window, busy: bool): Window {
    match w
    case CheckBusy => if busy then LockToDraw else LockToStore
    case LockToStore => StorePending
    case StorePending => SetPending
    case SetPending => UnlockStored
    case UnlockStored => Notify
    case Notify => LockToDraw
    case LockToDraw => Draw
    case Draw => UnlockDrawn
    case UnlockDrawn => Idle
    case LockToStop => SetStop
    case SetStop => UnlockStopped
    case UnlockStopped => NotifyAll
    case NotifyAll => Join
    case Join => Closed
    case Idle => Idle
    case Closed => Closed
  }

  function OwnerAfterWindow(w: Window, owner: Owner): Owner {
    match w
    case LockToStore => TheWindow
    case LockToDraw => TheWindow
    case LockToStop => TheWindow
    case UnlockStored => Nobody
    case UnlockDrawn => Nobody
    case UnlockStopped => Nobody
    case _ => owner
  }

  /** A notification reaches the worker only if it is waiting. */
  function WorkerAfterWindow(w: Window, worker: Worker): Worker {
    if (w == Notify || w == NotifyAll) && worker == Parked then Relock else worker
  }

  function MailAfterWindow(w: Window, frame: nat, m: Mail): Mail {
    if w == StorePending then Mail(frame, m.dispatched + [frame], m.taken) else m
  }

  function DrawnAfterWindow(w: Window, frame: nat, hasResult: bool, l: Latest, drawn: seq<Drawing>): seq<Drawing> {
    if w == Draw then drawn + [if hasResult then Drawing(frame, l.dets, l.box) else Drawing(frame, 0, 0)] else drawn
  }

  function WindowStep(s: State): State {
    State(WindowNext(s.window, s.busy), s.frame, WorkerAfterWindow(s.window, s.worker), s.inHand,
          OwnerAfterWindow(s.window, s.owner), s.hasPending || s.window == SetPending, s.stop || s.window == SetStop,
          s.busy, s.hasResult, MailAfterWindow(s.window, s.frame, s.mail), s.latest,
          DrawnAfterWindow(s.window, s.frame, s.hasResult, s.latest, s.drawn))
  }

  predicate WorkerCan(w: Worker, owner: Owner) {
    match w
    case Lock => owner == Nobody
    case Relock => owner == Nobody
    case LockToPublish => owner == Nobody
    case Parked => false
    case Exited => false
    case _ => true
  }

  /** `fails` tells whether inference throws. */
  function WorkerNext(w: Worker, hasPending: bool, stop: bool, fails: bool): Worker {
    match w
    case Lock => Test
    case Relock => Test
    case Test => if hasPending || stop then Decide else Parked
    case Decide => if stop then Leave else Take
    case Leave => Exited
    case Take => ClearPending
    case ClearPending => Unlock
    case Unlock => SetBusy
    case SetBusy => Infer
    case Infer => if fails then ClearBusy else LockToPublish
    case LockToPublish => PublishDets
    case PublishDets => PublishBox
    case PublishBox => SetResult
    case SetResult => UnlockPublished
    case UnlockPublished => ClearBusy
    case ClearBusy => Lock
    case Parked => Parked
    case Exited => Exited
  }

  /** Waiting gives the mutex up. */
  function OwnerAfterWorker(w: Worker, hasPending: bool, stop: bool, owner: Owner): Owner {
    match w
    case Lock => TheWorker
    case Relock => TheWorker
    case LockToPublish => TheWorker
    case Test => if hasPending || stop then owner else Nobody
    case Leave => Nobody
    case Unlock => Nobody
    case UnlockPublished => Nobody
    case _ => owner
  }

  /** Moving the frame out leaves the slot empty. */
  function MailAfterWorker(w: Worker, m: Mail): Mail {
    if w == Take then Mail(0, m.dispatched, m.taken + [m.pending]) else m
  }

  function LatestAfterWorker(w: Worker, inHand: nat, l: Latest): Latest {
    if w == PublishDets then Latest(inHand, l.box, l.published + [inHand])
    else if w == PublishBox then Latest(l.dets, inHand, l.published)
    else l
  }

  function WorkerStep(s: State, fails: bool): State {
    State(s.window, s.frame, WorkerNext(s.worker, s.hasPending, s.stop, fails),
          if s.worker == Take then s.mail.pending else s.inHand,
          OwnerAfterWorker(s.worker, s.hasPending, s.stop, s.owner),
          s.hasPending && s.worker != ClearPending, s.stop,
          if s.worker == SetBusy then true else if s.worker == ClearBusy then false else s.busy,
          s.hasResult || s.worker == SetResult,
          MailAfterWorker(s.worker, s.mail), LatestAfterWorker(s.worker, s.inHand, s.latest), s.drawn)
  }

  /** One event: a frame arrives or the window closes while it is idle, a thread performs its next
      statement, or the condition variable wakes the worker for no reason. */
  datatype Event = Arrive | Close | WindowActs | WorkerActs(fails: bool) | Spurious

  predicate Enabled(s: State, e: Event) {
    match e
    case Arrive => s.window == Idle
    case Close => s.window == Idle
    case WindowActs => WindowCan(s.window, s.owner, s.worker)
    case WorkerActs(_) => WorkerCan(s.worker, s.owner)
    case Spurious => s.worker == Parked
  }

  function Next(s: State, e: Event): State
    requires Enabled(s, e)
  {
    match e
    case Arrive => s.(frame := s.frame + 1, window := CheckBusy)
    case Close => s.(window := LockToStop)
    case WindowActs => WindowStep(s)
    case WorkerActs(fails) => WorkerStep(s, fails)
    case Spurious => s.(worker := Relock)
  }

  /** `s` is reached from `from` by these events, one after another. */
  predicate Reached(from: State, events: seq<Event>, s: State)
    decreases |events|
  {
    if events == [] then s == from
    else Enabled(from, events[0]) && Reached(Next(from, events[0]), events[1..], s)
  }

  // ---- Invariants -----------------------------------------------------------------------------------

  function Last(s: seq<nat>): nat { if s == [] then 0 else s[|s| - 1] }

  /** Real frames, each later than the ones before. */
  predicate Increasing(s: seq<nat>) {
    (forall i :: 0 <= i < |s| ==> 0 < s[i]) && (forall i, j :: 0 <= i < j < |s| ==> s[i] < s[j])
  }

  lemma IncreasingAppend(s: seq<nat>, x: nat)
    requires Increasing(s) && Last(s) < x
    ensures Increasing(s + [x]) && Last(s + [x]) == x
  {
  }

  predicate WindowHolds(w: Window) {
    w.StorePending? || w.SetPending? || w.UnlockStored? || w.Draw? || w.UnlockDrawn? || w.SetStop? || w.UnlockStopped?
  }

  predicate WorkerHolds(w: Worker) {
    || w.Test? || w.Decide? || w.Leave? || w.Take? || w.ClearPending? || w.Unlock?
    || w.PublishDets? || w.PublishBox? || w.SetResult? || w.UnlockPublished?
  }

  /** The mutex: a thread is inside a locked section exactly when it owns it. */
  predicate Exclusive(window: Window, worker: Worker, owner: Owner) {
    (WindowHolds(window) <==> owner == TheWindow) && (WorkerHolds(worker) <==> owner == TheWorker)
  }

  /** The current frame has not been stored yet. */
  predicate Unstored(w: Window) { w.CheckBusy? || w.LockToStore? || w.StorePending? }

  predicate Stopping(w: Window) { w.UnlockStopped? || w.NotifyAll? || w.Join? || w.Closed? }

  predicate Owes(w: Window) { w.UnlockStored? || w.Notify? || w.UnlockStopped? || w.NotifyAll? }

  /** The slot: full exactly when the flag says so, except between the two statements that fill or empty it. */
  predicate Slot(window: Window, worker: Worker, pending: nat, hasPending: bool, stop: bool) {
    && (stop <==> Stopping(window))
    && (worker.Decide? ==> hasPending || stop)
    && (worker.Leave? || worker.Exited? ==> stop)
    && (worker.Take? ==> hasPending)
    && (worker.ClearPending? ==> hasPending && pending == 0)
    && (window.SetPending? ==> pending != 0)
    && (!worker.ClearPending? && !window.SetPending? ==> (hasPending <==> pending != 0))
  }

  /** A sleeping worker has nothing to do, or a notification is on its way. */
  predicate Awake(window: Window, worker: Worker, hasPending: bool, stop: bool) {
    worker.Parked? && (hasPending || stop) ==> Owes(window)
  }

  /** Frames move forward; the slot holds the newest one handed over until it is taken. */
  predicate Forward(unstored: bool, frame: nat, m: Mail) {
    && Increasing(m.dispatched) && Increasing(m.taken)
    && Last(m.dispatched) <= frame && (unstored ==> Last(m.dispatched) < frame)
    && (m.pending != 0 ==> m.pending == Last(m.dispatched) && Last(m.taken) < m.pending)
    && (m.pending == 0 ==> Last(m.taken) == Last(m.dispatched))
  }

  predicate Working(w: Worker) {
    w.PublishBox? || w.SetResult? || w.UnlockPublished? || w.ClearBusy? || Unpublished(w)
  }

  predicate Unpublished(w: Worker) {
    w.ClearPending? || w.Unlock? || w.SetBusy? || w.Infer? || w.LockToPublish? || w.PublishDets?
  }

  /** The published pair is of one frame, outside the two statements that replace it. */
  predicate Consistent(w: Worker, inHand: nat, taken: nat, hasResult: bool, l: Latest) {
    && Increasing(l.published) && l.dets == Last(l.published) <= taken
    && (Working(w) ==> inHand == taken && 0 < taken)
    && (Unpublished(w) ==> l.dets < inHand)
    && (w.PublishBox? || w.SetResult? ==> l.dets == inHand)
    && (!w.PublishBox? ==> l.box == l.dets)
    && (!w.PublishBox? && !w.SetResult? ==> (hasResult <==> l.dets != 0))
  }

  /** Every drawing used boxes and a letterbox of one frame, no newer than the one drawn on; later
      drawings are on later frames and never use an older result. */
  predicate InOrder(drawn: seq<Drawing>) {
    && (forall i :: 0 <= i < |drawn| ==> drawn[i].dets == drawn[i].box <= drawn[i].frame)
    && (forall i, j :: 0 <= i < j < |drawn| ==> drawn[i].frame < drawn[j].frame && drawn[i].dets <= drawn[j].dets)
  }

  predicate UpTo(drawn: seq<Drawing>, frame: int, dets: nat) {
    forall i :: 0 <= i < |drawn| ==> drawn[i].frame <= frame && drawn[i].dets <= dets
  }

  predicate Undrawn(w: Window) {
    || w.CheckBusy? || w.LockToStore? || w.StorePending? || w.SetPending? || w.UnlockStored? || w.Notify?
    || w.LockToDraw? || w.Draw?
  }

  predicate Drawings(undrawn: bool, frame: nat, dets: nat, drawn: seq<Drawing>) {
    (undrawn ==> frame > 0) && InOrder(drawn) && UpTo(drawn, if undrawn then frame - 1 else frame, dets)
  }

  ghost predicate Inv(s: State) {
    && Exclusive(s.window, s.worker, s.owner)
    && Slot(s.window, s.worker, s.mail.pending, s.hasPending, s.stop)
    && Awake(s.window, s.worker, s.hasPending, s.stop)
    && Forward(Unstored(s.window), s.frame, s.mail)
    && Consistent(s.worker, s.inHand, Last(s.mail.taken), s.hasResult, s.latest)
    && Drawings(Undrawn(s.window), s.frame, s.latest.dets, s.drawn)
  }

  // ---- What single statements keep ------------------------------------------------------------------

  lemma StoreKeeps(frame: nat, m: Mail)
    requires Forward(true, frame, m)
    ensures Forward(false, frame, Mail(frame, m.dispatched + [frame], m.taken)) && frame > 0
  {
    IncreasingAppend(m.dispatched, frame);
  }

  lemma TakeKeeps(unstored: bool, frame: nat, m: Mail)
    requires Forward(unstored, frame, m) && m.pending != 0
    ensures Forward(unstored, frame, Mail(0, m.dispatched, m.taken + [m.pending]))
    ensures Last(m.taken) < m.pending == Last(m.taken + [m.pending]) <= frame
  {
    IncreasingAppend(m.taken, m.pending);
  }

  lemma ForwardBounds(unstored: bool, frame: nat, m: Mail)
    requires Forward(unstored, frame, m)
    ensures Last(m.taken) <= frame
    ensures Forward(false, frame, m) && Forward(true, frame + 1, m)
  {
  }

  lemma DrawKeeps(frame: nat, dets: nat, drawn: seq<Drawing>)
    requires Drawings(true, frame, dets, drawn) && dets <= frame
    ensures Drawings(false, frame, dets, drawn + [Drawing(frame, dets, dets)])
  {
  }

  lemma DrawingsMore(undrawn: bool, frame: nat, dets: nat, drawn: seq<Drawing>, dets': nat)
    requires Drawings(undrawn, frame, dets, drawn) && dets <= dets'
    ensures Drawings(undrawn, frame, dets', drawn)
    ensures !undrawn ==> Drawings(true, frame + 1, dets, drawn)
  {
  }

  // ---- Every step keeps the invariants --------------------------------------------------------------

  lemma WindowKeepsExclusive(w: Window, busy: bool, worker: Worker, owner: Owner)
    requires Exclusive(w, worker, owner) && WindowCan(w, owner, worker)
    ensures Exclusive(WindowNext(w, busy), WorkerAfterWindow(w, worker), OwnerAfterWindow(w, owner))
  {
  }

  lemma WindowKeepsSlot(w: Window, busy: bool, worker: Worker, owner: Owner, pending: nat, hasPending: bool, stop: bool,
                        p: nat)
    requires Exclusive(w, worker, owner) && WindowCan(w, owner, worker) && Slot(w, worker, pending, hasPending, stop)
    requires if w == StorePending then p != 0 else p == pending
    ensures Slot(WindowNext(w, busy), WorkerAfterWindow(w, worker), p,
                 hasPending || w == SetPending, stop || w == SetStop)
  {
  }

  lemma WindowKeepsAwake(w: Window, busy: bool, worker: Worker, owner: Owner, hasPending: bool, stop: bool)
    requires WindowCan(w, owner, worker) && Awake(w, worker, hasPending, stop)
    ensures Awake(WindowNext(w, busy), WorkerAfterWindow(w, worker),
                  hasPending || w == SetPending, stop || w == SetStop)
  {
  }

  lemma WindowKeepsForward(w: Window, busy: bool, frame: nat, m: Mail)
    requires Forward(Unstored(w), frame, m)
    ensures Forward(Unstored(WindowNext(w, busy)), frame, MailAfterWindow(w, frame, m))
    ensures w == StorePending ==> frame != 0
  {
    hide Forward;
    if w == StorePending { StoreKeeps(frame, m); } else { ForwardBounds(Unstored(w), frame, m); }
  }

  lemma WindowKeepsDrawings(w: Window, busy: bool, frame: nat, hasResult: bool, l: Latest, drawn: seq<Drawing>)
    requires Drawings(Undrawn(w), frame, l.dets, drawn)
    requires w == Draw ==> l.dets <= frame && l.box == l.dets && (hasResult <==> l.dets != 0)
    ensures Drawings(Undrawn(WindowNext(w, busy)), frame, l.dets, DrawnAfterWindow(w, frame, hasResult, l, drawn))
  {
    hide Drawings;
    if w == Draw { DrawKeeps(frame, l.dets, drawn); }
  }

  lemma WindowKeepsInv(s: State)
    requires Inv(s) && WindowCan(s.window, s.owner, s.worker)
    ensures Inv(WindowStep(s))
  {
    WindowKeepsExclusive(s.window, s.busy, s.worker, s.owner);
    WindowKeepsForward(s.window, s.busy, s.frame, s.mail);
    WindowKeepsSlot(s.window, s.busy, s.worker, s.owner, s.mail.pending, s.hasPending, s.stop,
                    MailAfterWindow(s.window, s.frame, s.mail).pending);
    WindowKeepsAwake(s.window, s.busy, s.worker, s.owner, s.hasPending, s.stop);
    ForwardBounds(Unstored(s.window), s.frame, s.mail);
    DrawnFrom(s);
    WindowKeepsDrawings(s.window, s.busy, s.frame, s.hasResult, s.latest, s.drawn);
    WokenConsistent(s);
    hide Exclusive, Slot, Awake, Forward, Consistent, Drawings, Last;
  }

  /** While the window draws, the worker is not replacing the result. */
  lemma DrawnFrom(s: State)
    requires Exclusive(s.window, s.worker, s.owner)
    requires Consistent(s.worker, s.inHand, Last(s.mail.taken), s.hasResult, s.latest)
    ensures s.window == Draw ==> s.latest.box == s.latest.dets && (s.hasResult <==> s.latest.dets != 0)
    ensures s.latest.dets <= Last(s.mail.taken)
  {
  }

  lemma WokenConsistent(s: State)
    requires Consistent(s.worker, s.inHand, Last(s.mail.taken), s.hasResult, s.latest)
    ensures Consistent(WorkerAfterWindow(s.window, s.worker), s.inHand, Last(s.mail.taken), s.hasResult, s.latest)
  {
  }

  lemma WorkerKeepsExclusive(window: Window, w: Worker, owner: Owner, hasPending: bool, stop: bool, fails: bool)
    requires Exclusive(window, w, owner) && WorkerCan(w, owner)
    ensures Exclusive(window, WorkerNext(w, hasPending, stop, fails), OwnerAfterWorker(w, hasPending, stop, owner))
  {
  }

  lemma WorkerKeepsSlot(window: Window, w: Worker, owner: Owner, pending: nat, hasPending: bool, stop: bool,
                        fails: bool)
    requires Exclusive(window, w, owner) && Slot(window, w, pending, hasPending, stop)
    ensures Slot(window, WorkerNext(w, hasPending, stop, fails), if w == Take then 0 else pending,
                 hasPending && w != ClearPending, stop)
  {
  }

  lemma WorkerKeepsAwake(window: Window, w: Worker, hasPending: bool, stop: bool, fails: bool)
    requires Awake(window, w, hasPending, stop)
    ensures Awake(window, WorkerNext(w, hasPending, stop, fails), hasPending && w != ClearPending, stop)
  {
  }

  lemma WorkerKeepsConsistent(w: Worker, inHand: nat, taken: nat, hasPending: bool, stop: bool, fails: bool,
                              hasResult: bool, l: Latest, inHand': nat, taken': nat)
    requires Consistent(w, inHand, taken, hasResult, l)
    requires if w == Take then taken < inHand' == taken' else inHand' == inHand && taken' == taken
    ensures Consistent(WorkerNext(w, hasPending, stop, fails), inHand', taken', hasResult || w == SetResult,
                       LatestAfterWorker(w, inHand, l))
  {
    hide Increasing, Last;
    if w == PublishDets { IncreasingAppend(l.published, inHand); }
  }

  lemma WorkerKeepsInv(s: State, fails: bool)
    requires Inv(s) && WorkerCan(s.worker, s.owner)
    ensures Inv(WorkerStep(s, fails))
  {
    WorkerKeepsExclusive(s.window, s.worker, s.owner, s.hasPending, s.stop, fails);
    WorkerKeepsSlot(s.window, s.worker, s.owner, s.mail.pending, s.hasPending, s.stop, fails);
    WorkerKeepsAwake(s.window, s.worker, s.hasPending, s.stop, fails);
    WorkerTakes(s);
    var t := WorkerStep(s, fails);
    WorkerKeepsConsistent(s.worker, s.inHand, Last(s.mail.taken), s.hasPending, s.stop, fails,
                          s.hasResult, s.latest, t.inHand, Last(t.mail.taken));
    DrawingsMore(Undrawn(s.window), s.frame, s.latest.dets, s.drawn, t.latest.dets);
    hide Exclusive, Slot, Awake, Forward, Consistent, Drawings, Last;
  }

  lemma WorkerTakes(s: State)
    requires Inv(s)
    ensures Forward(Unstored(s.window), s.frame, MailAfterWorker(s.worker, s.mail))
    ensures s.worker == Take ==> Last(s.mail.taken) < s.mail.pending == Last(s.mail.taken + [s.mail.pending])
    ensures s.worker == PublishDets ==> s.latest.dets < s.inHand
  {
    if s.worker == Take { TakeKeeps(Unstored(s.window), s.frame, s.mail); }
  }

  lemma OtherEventsKeepInv(s: State, e: Event)
    requires Inv(s) && Enabled(s, e) && (e.Arrive? || e.Close? || e.Spurious?)
    ensures Inv(Next(s, e))
  {
    if e.Spurious? {
      hide Forward, Drawings, Last, Increasing, Unstored, Undrawn;
    } else {
      ForwardBounds(Unstored(s.window), s.frame, s.mail);
      DrawingsMore(Undrawn(s.window), s.frame, s.latest.dets, s.drawn, s.latest.dets);
      hide Forward, Drawings, Last, Increasing, Consistent;
    }
  }

  lemma NextKeepsInv(s: State, e: Event)
    requires Inv(s) && Enabled(s, e)
    ensures Inv(Next(s, e))
  {
    hide Inv;
    match e
    case WindowActs => WindowKeepsInv(s);
    case WorkerActs(fails) => WorkerKeepsInv(s, fails);
    case _ => OtherEventsKeepInv(s, e);
  }

  lemma {:induction false} ReachedKeepsInv(from: State, events: seq<Event>, s: State)
    requires Inv(from) && Reached(from, events, s)
    ensures Inv(s)
    decreases |events|
  {
    hide Enabled, Next, Inv;
    if events != [] {
      NextKeepsInv(from, events[0]);
      ReachedKeepsInv(Next(from, events[0]), events[1..], s);
    }
  }

  // ---- Safety over every run ------------------------------------------------------------------------

  lemma InitialInv()
    ensures Inv(INITIAL)
  {
  }

  /** No frame comes from nowhere: what was taken had been handed over, what was published had been taken. */
  ghost predicate FromBefore(m: Mail, l: Latest) {
    (forall x :: x in m.taken ==> x in m.dispatched) && (forall x :: x in l.published ==> x in m.taken)
  }

  lemma LastIn(s: seq<nat>)
    ensures Last(s) != 0 ==> Last(s) in s
  {
  }

  lemma FromBeforeNext(s: State, e: Event)
    requires Inv(s) && Enabled(s, e) && FromBefore(s.mail, s.latest)
    ensures FromBefore(Next(s, e).mail, Next(s, e).latest)
  {
    LastIn(s.mail.dispatched);
    LastIn(s.mail.taken);
    hide Exclusive, Awake, Drawings, Increasing, Last;
  }

  lemma {:induction false} FromBeforeAlong(from: State, events: seq<Event>, s: State)
    requires Inv(from) && FromBefore(from.mail, from.latest) && Reached(from, events, s)
    ensures FromBefore(s.mail, s.latest)
    decreases |events|
  {
    hide Enabled, Next, Inv, FromBefore;
    if events != [] {
      NextKeepsInv(from, events[0]);
      FromBeforeNext(from, events[0]);
      FromBeforeAlong(Next(from, events[0]), events[1..], s);
    }
  }

  /** Whatever the interleaving: the worker takes only frames that were handed over and publishes only
      frames that it took, each in strictly increasing order, the newest frame handed over is either
      waiting or the last taken, the two parts of the result are of the last frame published whenever the
      mutex is free, drawings use one frame's result and never an older one, and a sleeping worker is owed
      a notification if there is something to do. */
  lemma EveryRun(events: seq<Event>, s: State)
    requires Reached(INITIAL, events, s)
    ensures Increasing(s.mail.taken) && Increasing(s.latest.published) && FromBefore(s.mail, s.latest)
    ensures Last(s.mail.dispatched) == if s.mail.pending != 0 then s.mail.pending else Last(s.mail.taken)
    ensures s.owner == Nobody ==> s.latest.box == s.latest.dets == Last(s.latest.published)
    ensures s.owner == Nobody ==> (s.hasPending <==> s.mail.pending != 0)
    ensures s.owner == Nobody ==> (s.hasResult <==> s.latest.published != [])
    ensures InOrder(s.drawn)
    ensures s.worker == Parked && (s.hasPending || s.stop) ==> Owes(s.window)
  {
    InitialInv();
    ReachedKeepsInv(INITIAL, events, s);
    FromBeforeAlong(INITIAL, events, s);
  }

  // ---- What is handed over, published and drawn, over every run ------------------------------------------

  /** From raising the flag to lowering it again. */
  predicate Inferring(w: Worker) {
    || w.Infer? || w.LockToPublish? || w.PublishDets? || w.PublishBox? || w.SetResult? || w.UnlockPublished?
    || w.ClearBusy?
  }

  /** The frames that arrived while the worker was not inferring. */
  function Offered(from: State, events: seq<Event>, s: State): seq<nat>
    requires Reached(from, events, s)
    decreases |events|
  {
    if events == [] then []
    else
      (if from.window.CheckBusy? && events[0].WindowActs? && !Inferring(from.worker) then [from.frame] else [])
      + Offered(Next(from, events[0]), events[1..], s)
  }

  /** The frames whose inference succeeded. */
  function Succeeded(from: State, events: seq<Event>, s: State): seq<nat>
    requires Reached(from, events, s)
    decreases |events|
  {
    if events == [] then []
    else
      (if from.worker.Infer? && events[0] == WorkerActs(false) then [from.inHand] else [])
      + Succeeded(Next(from, events[0]), events[1..], s)
  }

  /** A frame on its way into the slot, and one on its way into the result. */
  function Storing(s: State): seq<nat> { if s.window.LockToStore? || s.window.StorePending? then [s.frame] else [] }

  function Publishing(s: State): seq<nat> {
    if s.worker.LockToPublish? || s.worker.PublishDets? then [s.inHand] else []
  }

  predicate BusyMeans(s: State) { s.busy <==> Inferring(s.worker) }

  lemma OfferedNext(s: State, e: Event)
    requires Enabled(s, e) && BusyMeans(s)
    ensures BusyMeans(Next(s, e))
    ensures Next(s, e).mail.dispatched + Storing(Next(s, e))
         == s.mail.dispatched + Storing(s)
            + (if s.window.CheckBusy? && e.WindowActs? && !Inferring(s.worker) then [s.frame] else [])
  {}

  lemma SucceededNext(s: State, e: Event)
    requires Enabled(s, e)
    ensures Next(s, e).latest.published + Publishing(Next(s, e))
         == s.latest.published + Publishing(s)
            + (if s.worker.Infer? && e == WorkerActs(false) then [s.inHand] else [])
  {}

  lemma ThreeLists(a: seq<nat>, b: seq<nat>, c: seq<nat>)
    ensures a + b + c == a + (b + c)
  {}

  lemma {:induction false} OfferedAlong(from: State, events: seq<Event>, s: State)
    requires Reached(from, events, s) && BusyMeans(from)
    ensures BusyMeans(s)
    ensures s.mail.dispatched + Storing(s) == from.mail.dispatched + Storing(from) + Offered(from, events, s)
    decreases |events|
  {
    hide Enabled, Next, BusyMeans, Storing;
    if events != [] {
      var n := Next(from, events[0]);
      OfferedNext(from, events[0]);
      OfferedAlong(n, events[1..], s);
      var one :=
        if from.window.CheckBusy? && events[0].WindowActs? && !Inferring(from.worker) then [from.frame] else [];
      ThreeLists(from.mail.dispatched + Storing(from), one, Offered(n, events[1..], s));
    }
  }

  lemma {:induction false} SucceededAlong(from: State, events: seq<Event>, s: State)
    requires Reached(from, events, s)
    ensures s.latest.published + Publishing(s) == from.latest.published + Publishing(from) + Succeeded(from, events, s)
    decreases |events|
  {
    hide Enabled, Next, Publishing;
    if events != [] {
      var n := Next(from, events[0]);
      SucceededNext(from, events[0]);
      SucceededAlong(n, events[1..], s);
      var one := if from.worker.Infer? && events[0] == WorkerActs(false) then [from.inHand] else [];
      ThreeLists(from.latest.published + Publishing(from), one, Succeeded(n, events[1..], s));
    }
  }

  /** Over every run exactly the frames that arrive while the worker is not inferring are handed over, in order;
      the last of them may still be on its way into the slot. */
  lemma HandedOverExactly(events: seq<Event>, s: State)
    requires Reached(INITIAL, events, s)
    ensures s.mail.dispatched + Storing(s) == Offered(INITIAL, events, s)
    ensures s.busy <==> Inferring(s.worker)
  {
    OfferedAlong(INITIAL, events, s);
    assert [] + [] + Offered(INITIAL, events, s) == Offered(INITIAL, events, s);
  }

  /** Over every run exactly the frames whose inference succeeded are published, in order; the last of them may
      still be on its way into the result. */
  lemma PublishedExactly(events: seq<Event>, s: State)
    requires Reached(INITIAL, events, s)
    ensures s.latest.published + Publishing(s) == Succeeded(INITIAL, events, s)
  {
    SucceededAlong(INITIAL, events, s);
    assert [] + [] + Succeeded(INITIAL, events, s) == Succeeded(INITIAL, events, s);
  }

  /** A failed inference changes neither the result nor the flag that there is one, and lowers `busy` next. */
  lemma FailureChangesNothing(s: State)
    requires s.worker == Infer
    ensures Enabled(s, WorkerActs(true))
    ensures var t := Next(s, WorkerActs(true));
      && t.latest == s.latest && t.hasResult == s.hasResult && t.drawn == s.drawn && t.mail == s.mail
      && t.worker == ClearBusy && Enabled(t, WorkerActs(true)) && Enabled(t, WorkerActs(false))
      && forall fails :: !Next(t, WorkerActs(fails)).busy && Next(t, WorkerActs(fails)).latest == s.latest
  {}

  /** The worker has performed `k` statements since the inference of frame `f` began and succeeded, with the
      frames `before` published until then. */
  predicate Progress(before: seq<nat>, f: nat, k: nat, s: State) {
    && s.window == Idle && s.inHand == f
    && s.owner == (if k <= 1 then Nobody else TheWorker)
    && s.worker == (if k == 1 then LockToPublish else if k == 2 then PublishDets else if k == 3 then PublishBox
                    else if k == 4 then SetResult else UnlockPublished)
    && s.latest.published == (if k < 3 then before else before + [f])
    && (k >= 3 ==> s.latest.dets == f) && (k >= 4 ==> s.latest.box == f) && (k >= 5 ==> s.hasResult)
  }

  lemma ProgressNext(before: seq<nat>, f: nat, k: nat, s: State, fails: bool)
    requires Progress(before, f, k, s) && 1 <= k < 5
    ensures WorkerCan(s.worker, s.owner) && Progress(before, f, k + 1, WorkerStep(s, fails))
  {}

  lemma {:induction false} ProgressAlong(before: seq<nat>, f: nat, k: nat, s: State, events: seq<Event>, t: State)
    requires Progress(before, f, k, s) && 1 <= k && k + |events| <= 5
    requires Reached(s, events, t) && forall i :: 0 <= i < |events| ==> events[i].WorkerActs?
    ensures Progress(before, f, k + |events|, t)
    decreases |events|
  {
    hide Progress, WorkerStep;
    if events != [] {
      ProgressNext(before, f, k, s, events[0].fails);
      ProgressAlong(before, f, k + 1, Next(s, events[0]), events[1..], t);
    }
  }

  /** After a success the worker, none of whose statements is blocked while the window is idle, has published
      its frame with the third statement, and both parts and the flag with the fifth. */
  lemma SuccessIsPublished(s: State, events: seq<Event>, t: State)
    requires Inv(s) && s.window == Idle && s.worker == Infer && Reached(s, events, t)
    requires events != [] && events[0] == WorkerActs(false) && forall i :: 0 <= i < |events| ==> events[i].WorkerActs?
    requires |events| <= 5
    ensures WorkerCan(t.worker, t.owner)
    ensures |events| >= 3 ==> t.latest.published == s.latest.published + [s.inHand] && t.latest.dets == s.inHand
    ensures |events| == 5 ==> t.hasResult && t.latest.box == s.inHand
  {
    assert s.owner == Nobody && Progress(s.latest.published, s.inHand, 1, Next(s, events[0]));
    hide Inv, Next;
    ProgressAlong(s.latest.published, s.inHand, 1, Next(s, events[0]), events[1..], t);
  }

  /** Over every run each drawing shows the result of the last frame published, and nothing before the first. */
  lemma EveryDrawing(events: seq<Event>, s: State)
    requires Reached(INITIAL, events, s) && s.window == Draw
    ensures WindowStep(s).drawn
         == s.drawn + [Drawing(s.frame, Last(s.latest.published), Last(s.latest.published))]
  {
    InitialInv();
    ReachedKeepsInv(INITIAL, events, s);
    DrawnFrom(s);
  }

  /** The first `n` frames have been drawn on, each once. */
  predicate AllDrawn(drawn: seq<Drawing>, n: int) {
    |drawn| == n && forall i :: 0 <= i < n ==> drawn[i].frame == i + 1
  }

  predicate DrawnSoFar(s: State) {
    if Undrawn(s.window) then s.frame > 0 && AllDrawn(s.drawn, s.frame - 1) else AllDrawn(s.drawn, s.frame)
  }

  lemma {:induction false} DrawnAlong(from: State, events: seq<Event>, s: State)
    requires Reached(from, events, s) && DrawnSoFar(from)
    ensures DrawnSoFar(s)
    decreases |events|
  {
    hide Enabled, Next, DrawnSoFar;
    if events != [] {
      DrawnNext(from, events[0]);
      DrawnAlong(Next(from, events[0]), events[1..], s);
    }
  }

  lemma DrawnNext(s: State, e: Event)
    requires Enabled(s, e) && DrawnSoFar(s)
    ensures DrawnSoFar(Next(s, e))
  {}

  /** Over every run each frame that has arrived is drawn on exactly once, in order, whether or not it is handed
      over; the last one may still be about to be. */
  lemma EveryFrameDrawn(events: seq<Event>, s: State)
    requires Reached(INITIAL, events, s)
    ensures s.window == Idle ==> |s.drawn| == s.frame
    ensures |s.drawn| <= s.frame <= |s.drawn| + 1
    ensures forall i :: 0 <= i < |s.drawn| ==> s.drawn[i].frame == i + 1
  {
    DrawnAlong(INITIAL, events, s);
  }

  // ---- Frames that are dropped ----------------------------------------------------------------------

  lemma {:induction false} ReachedOneMore(from: State, events: seq<Event>, s: State, e: Event)
    requires Reached(from, events, s) && Enabled(s, e)
    ensures Reached(from, events + [e], Next(s, e))
    decreases |events|
  {
    hide Enabled, Next;
    if events == [] {
      assert Reached(Next(s, e), [], Next(s, e));
      assert [e][1..] == [];
    } else {
      ReachedOneMore(Next(from, events[0]), events[1..], s, e);
      assert (events + [e])[1..] == events[1..] + [e];
    }
  }

  lemma ThenWindow(from: State, events: seq<Event>, s: State) returns (events': seq<Event>, t: State)
    requires Reached(from, events, s) && WindowCan(s.window, s.owner, s.worker)
    ensures Reached(from, events', t) && t == WindowStep(s)
  {
    ReachedOneMore(from, events, s, WindowActs);
    events', t := events + [WindowActs], WindowStep(s);
  }

  lemma ThenWorker(from: State, events: seq<Event>, s: State) returns (events': seq<Event>, t: State)
    requires Reached(from, events, s) && WorkerCan(s.worker, s.owner)
    ensures Reached(from, events', t) && t == WorkerStep(s, false)
  {
    ReachedOneMore(from, events, s, WorkerActs(false));
    events', t := events + [WorkerActs(false)], WorkerStep(s, false);
  }

  /** The window alone can hand over a frame as long as the worker has not started. */
  lemma HandOver(from: State, events: seq<Event>, s: State) returns (events': seq<Event>, t: State)
    requires Reached(from, events, s)
    requires s.window == Idle && s.worker == Lock && s.owner == Nobody && !s.busy && !s.stop
    ensures Reached(from, events', t)
    ensures t.window == LockToDraw && t.worker == Lock && t.owner == Nobody && !t.busy && !t.stop && t.hasPending
    ensures t.frame == s.frame + 1 && t.mail == Mail(t.frame, s.mail.dispatched + [t.frame], s.mail.taken)
  {
    hide Reached;
    ReachedOneMore(from, events, s, Arrive);
    events', t := events + [Arrive], Next(s, Arrive);
    events', t := ThenWindow(from, events', t);
    events', t := ThenWindow(from, events', t);
    events', t := ThenWindow(from, events', t);
    events', t := ThenWindow(from, events', t);
    events', t := ThenWindow(from, events', t);
    events', t := ThenWindow(from, events', t);
  }

  lemma DrawAlone(from: State, events: seq<Event>, s: State) returns (events': seq<Event>, t: State)
    requires Reached(from, events, s) && s.window == LockToDraw && s.owner == Nobody
    ensures Reached(from, events', t) && t.window == Idle && t.owner == Nobody && t.worker == s.worker
    ensures t.frame == s.frame && t.mail == s.mail
    ensures t.busy == s.busy && t.stop == s.stop && t.hasPending == s.hasPending
  {
    hide Reached;
    events', t := ThenWindow(from, events, s);
    events', t := ThenWindow(from, events', t);
    events', t := ThenWindow(from, events', t);
  }

  /** The `busy` flag is set only after the slot was emptied, so a second frame can replace the first. */
  lemma FrameMayBeReplaced() returns (events: seq<Event>, s: State)
    ensures Reached(INITIAL, events, s)
    ensures s.mail.dispatched == [1, 2] && s.mail.taken == [2]
  {
    events, s := [], INITIAL;
    events, s := HandOver(INITIAL, events, s);
    events, s := DrawAlone(INITIAL, events, s);
    events, s := HandOver(INITIAL, events, s);
    hide Reached;
    events, s := ThenWorker(INITIAL, events, s);
    events, s := ThenWorker(INITIAL, events, s);
    events, s := ThenWorker(INITIAL, events, s);
    events, s := ThenWorker(INITIAL, events, s);
  }

  /** A frame replaced in the slot is never taken, whatever follows. */
  lemma {:induction false} ReplacedIsLost(s: State, x: nat, events: seq<Event>, t: State)
    requires Inv(s) && Reached(s, events, t)
    requires x !in s.mail.taken && 0 < x < Last(s.mail.dispatched)
    ensures x !in t.mail.taken
    decreases |events|
  {
    if events != [] {
      var n := Next(s, events[0]);
      NextKeepsInv(s, events[0]);
      LostStays(s, x, events[0]);
      hide Enabled, Next, Inv;
      ReplacedIsLost(n, x, events[1..], t);
    }
  }

  lemma LostStays(s: State, x: nat, e: Event)
    requires Inv(s) && Enabled(s, e) && x !in s.mail.taken && 0 < x < Last(s.mail.dispatched)
    ensures x !in Next(s, e).mail.taken && x < Last(Next(s, e).mail.dispatched)
  {
    hide Exclusive, Awake, Consistent, Drawings;
  }

  /** Every frame handed over has been taken or is waiting. */
  ghost predicate Delivered(m: Mail) {
    forall x :: x in m.dispatched ==> x in m.taken || x == m.pending
  }

  /** The window is about to store a frame and finds the slot full. */
  predicate Overwrites(s: State, e: Event) {
    e.WindowActs? && s.window.StorePending? && s.hasPending
  }

  /** A frame that is neither taken nor waiting is older than the newest one. */
  lemma LostIsOlder(unstored: bool, frame: nat, m: Mail, x: nat)
    requires Forward(unstored, frame, m) && x in m.dispatched && x !in m.taken && x != m.pending
    ensures 0 < x < Last(m.dispatched)
  {
    var i :| 0 <= i < |m.dispatched| && m.dispatched[i] == x;
    assert x != Last(m.dispatched) by {
      if m.pending == 0 && m.taken != [] { assert Last(m.taken) in m.taken; }
    }
  }

  /** Exactly the statement that stores into a full slot loses a frame. */
  lemma DeliveredNext(s: State, e: Event)
    requires Inv(s) && Enabled(s, e) && Delivered(s.mail)
    ensures Delivered(Next(s, e).mail) <==> !Overwrites(s, e)
  {
    hide Awake, Consistent, Drawings;
    var m, t := s.mail, Next(s, e).mail;
    if e.WindowActs? && s.window.StorePending? {
      if m.pending != 0 {
        assert m.pending in m.dispatched && m.pending in t.dispatched;
        if m.pending in m.taken { NotTakenYet(m.taken, m.pending); }
        assert !Delivered(t);
      }
    } else if e.WorkerActs? && s.worker.Take? {
      forall x | x in t.dispatched ensures x in t.taken { assert x in m.taken || x == m.pending; }
    }
  }

  lemma NotTakenYet(taken: seq<nat>, x: nat)
    requires Increasing(taken) && Last(taken) < x
    ensures x !in taken
  {
  }

  /** A frame once lost stays lost. */
  lemma LostNext(s: State, e: Event)
    requires Inv(s) && Enabled(s, e) && !Delivered(s.mail)
    ensures !Delivered(Next(s, e).mail)
  {
    var x :| x in s.mail.dispatched && !(x in s.mail.taken || x == s.mail.pending);
    LostIsOlder(Unstored(s.window), s.frame, s.mail, x);
    LostStays(s, x, e);
    NextKeepsInv(s, e);
    StillLost(s, x, e);
  }

  lemma StillLost(s: State, x: nat, e: Event)
    requires Enabled(s, e) && x in s.mail.dispatched && x != s.mail.pending && x < Last(s.mail.dispatched)
    requires 0 < x && x < Last(Next(s, e).mail.dispatched)
    ensures x in Next(s, e).mail.dispatched && x != Next(s, e).mail.pending
  {
  }

  /** Somewhere along the events a store finds the slot full. */
  predicate SomeOverwrite(from: State, events: seq<Event>, s: State)
    requires Reached(from, events, s)
    decreases |events|
  {
    events != [] && (Overwrites(from, events[0]) || SomeOverwrite(Next(from, events[0]), events[1..], s))
  }

  /** Along any events: all frames are delivered at the end exactly if they were at the start and no
      store found the slot full. */
  lemma {:induction false} DeliveredAlong(from: State, events: seq<Event>, s: State)
    requires Inv(from) && Reached(from, events, s)
    ensures Delivered(s.mail) <==> Delivered(from.mail) && !SomeOverwrite(from, events, s)
    decreases |events|
  {
    hide Enabled, Next, Inv, Delivered, Overwrites;
    if events != [] {
      var e := events[0];
      NextKeepsInv(from, e);
      if Delivered(from.mail) { DeliveredNext(from, e); } else { LostNext(from, e); }
      DeliveredAlong(Next(from, e), events[1..], s);
    }
  }

  /** Over every run: every frame handed over is taken or waiting if and only if no store found the
      slot full. */
  lemma DeliveredExactly(events: seq<Event>, s: State)
    requires Reached(INITIAL, events, s)
    ensures Delivered(s.mail) <==> !SomeOverwrite(INITIAL, events, s)
  {
    InitialInv();
    DeliveredAlong(INITIAL, events, s);
  }

  // ---- Progress -------------------------------------------------------------------------------------

  /** Statements left to the worker before it takes a waiting frame. */
  function ToTake(w: Worker): nat {
    match w
    case Take => 0
    case Decide => 1
    case Test => 2
    case Lock => 3
    case Relock => 3
    case ClearBusy => 4
    case UnlockPublished => 5
    case SetResult => 6
    case PublishBox => 7
    case PublishDets => 8
    case LockToPublish => 9
    case Infer => 10
    case SetBusy => 11
    case Unlock => 12
    case ClearPending => 13
    case _ => 0
  }

  lemma TakerProceeds(s: State, fails: bool)
    requires Inv(s) && s.window == Idle && s.mail.pending != 0
    ensures WorkerCan(s.worker, s.owner)
    ensures var t := WorkerStep(s, fails);
      if s.worker == Take then s.mail.pending in t.mail.taken
      else t.mail.pending == s.mail.pending && t.window == Idle && ToTake(t.worker) < ToTake(s.worker)
  {
    hide Forward, Consistent, Drawings;
  }

  lemma {:induction false} TakenStays(s: State, x: nat, events: seq<Event>, t: State)
    requires Reached(s, events, t) && x in s.mail.taken
    ensures x in t.mail.taken
    decreases |events|
  {
    if events != [] { TakenStays(Next(s, events[0]), x, events[1..], t); }
  }

  /** A frame that waits while the window is idle is taken within a bounded number of the worker's
      statements, none of which can block. */
  lemma {:induction false} WaitingIsTaken(s: State, events: seq<Event>, t: State)
    requires Inv(s) && s.window == Idle && s.mail.pending != 0
    requires Reached(s, events, t) && forall i :: 0 <= i < |events| ==> events[i].WorkerActs?
    ensures s.mail.pending in t.mail.taken || WorkerCan(t.worker, t.owner)
    ensures s.mail.pending in t.mail.taken || |events| <= ToTake(s.worker)
    decreases |events|
  {
    TakerProceeds(s, false);
    if events != [] {
      var e := events[0];
      var n := Next(s, e);
      NextKeepsInv(s, e);
      TakerProceeds(s, e.fails);
      hide Inv, WorkerStep;
      if s.worker == Take {
        TakenStays(n, s.mail.pending, events[1..], t);
      } else {
        WaitingIsTaken(n, events[1..], t);
      }
    }
  }

  /** Statements left to the worker once it has been told to stop. */
  function ToExit(w: Worker): nat {
    match w
    case Exited => 0
    case Leave => 1
    case Decide => 2
    case Test => 3
    case Lock => 4
    case Relock => 4
    case ClearBusy => 5
    case UnlockPublished => 6
    case SetResult => 7
    case PublishBox => 8
    case PublishDets => 9
    case LockToPublish => 10
    case Infer => 11
    case SetBusy => 12
    case Unlock => 13
    case ClearPending => 14
    case Take => 15
    case Parked => 5
  }

  lemma WorkerLeaves(s: State, fails: bool)
    requires Inv(s) && s.window == Join && s.worker != Exited
    ensures s.worker != Parked && WorkerCan(s.worker, s.owner)
    ensures WorkerStep(s, fails).window == Join && ToExit(WorkerStep(s, fails).worker) < ToExit(s.worker)
  {
    hide Forward, Consistent, Drawings;
  }

  /** Once the window waits in the destructor, every run is finite and can only end with the worker gone
      and the wait over. */
  lemma {:induction false} JoinReturns(s: State, events: seq<Event>, t: State)
    requires Inv(s) && s.window == Join && Reached(s, events, t)
    ensures |events| <= ToExit(s.worker) + 1
    ensures t.window == Closed ==> t.worker == Exited
    ensures t.window != Closed ==> Enabled(t, WindowActs) || Enabled(t, WorkerActs(false))
    decreases |events|
  {
    hide Inv, WorkerStep, ToExit;
    if s.worker != Exited { WorkerLeaves(s, false); }
    if events != [] {
      var e := events[0];
      NextKeepsInv(s, e);
      var n := Next(s, e);
      if s.worker != Exited {
        assert e.WorkerActs?;
        WorkerLeaves(s, e.fails);
        JoinReturns(n, events[1..], t);
      } else {
        assert e.WindowActs? && n.window == Closed;
      }
    }
  }
}
