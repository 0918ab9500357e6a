/** The worker and push protocol of the thread pool, as the interleaved steps of its threads. */
module ThreadPool {
  import opened Options

  // ---- counting ----

  function Count<T>(s: seq<T>, p: T -> bool): nat {
    if s == [] then 0 else Count(s[..|s| - 1], p) + if p(s[|s| - 1]) then 1 else 0
  }

  function One(b: bool): nat {
    if b then 1 else 0
  }

  lemma {:induction false} CountUpdate<T>(s: seq<T>, p: T -> bool, i: nat, x: T)
    requires i < |s|
    ensures Count(s[i := x], p) + One(p(s[i])) == Count(s, p) + One(p(x))
    decreases |s|
  {
    var n := |s| - 1;
    if i < n {
      assert s[i := x][..n] == s[..n][i := x];
      CountUpdate(s[..n], p, i, x);
    } else {
      assert s[i := x][..n] == s[..n];
    }
  }

  lemma CountAppend<T>(s: seq<T>, p: T -> bool, x: T)
    ensures Count(s + [x], p) == Count(s, p) + One(p(x))
  {
    assert (s + [x])[..|s|] == s;
  }

  lemma {:induction false} CountDropFirst<T>(s: seq<T>, p: T -> bool)
    requires s != []
    ensures Count(s, p) == One(p(s[0])) + Count(s[1..], p)
    decreases |s|
  {
    var n := |s| - 1;
    if n > 0 {
      CountDropFirst(s[..n], p);
      assert s[..n][1..] == s[1..][..n - 1] && s[1..][n - 1] == s[n];
    }
  }

  lemma {:induction false} CountSome<T>(s: seq<T>, p: T -> bool)
    ensures Count(s, p) > 0 <==> exists i: nat :: i < |s| && p(s[i])
    decreases |s|
  {
    if s != [] {
      var n := |s| - 1;
      CountSome(s[..n], p);
      if i: nat :| i < |s[..n]| && p(s[..n][i]) {
        assert p(s[i]);
      }
      if i: nat :| i < |s| && p(s[i]) {
        if i < n { assert p(s[..n][i]); }
      }
    }
  }

  // ---- threads ----

  datatype Kind = Std | Terminal

  datatype Item = Item(id: nat, kind: Kind)

  /** Where a worker is. */
  datatype Worker =
    | Starting                    // about to count itself active
    | Taking(last: Kind)          // at the test of the inner loop, after work of kind `last`
    | Taken(item: Item)           // has taken an item, not yet counted down
    | Working(item: Item)         // runs it
    | Locking(last: Kind)         // waits for the mutex
    | Locked(last: Kind)          // holds it, about to count itself inactive
    | LastActive(last: Kind)      // holds it, was the last active one, about to look whether anything is counted
    | Finishing(last: Kind)       // holds it, has seen nothing counted, about to set the flag
    | Left(last: Kind)            // holds it, no longer active
    | Ending                      // holds it, no longer counted, about to end
    | Deciding                    // holds it, about to look for work
    | Leaving                     // holds it, has seen work, about to release it
    | Sleepy                      // holds it, has seen no work
    | Asleep                      // blocked on the signal
    | Woken                       // notified, or awake for no reason, and waits for the mutex
    | Gone

  /** Where a call of push is. */
  datatype Pusher =
    | Ready(item: Item)           // waits for the mutex
    | Entered(item: Item)         // holds it
    | Announced(item: Item)       // has counted the item
    | Pushed                      // has queued it
    | Notified                    // has signalled
    | Returned

  datatype Owner = Free | ByWorker(w: nat) | ByPusher(p: nat)

  datatype State = State(
    workers: seq<Worker>,
    pushers: seq<Pusher>,
    owner: Owner,                 // of the signal mutex
    queue: seq<Item>,
    size: int,                    // work_queue_size_
    active: int,                  // active_worker_count_
    workerCount: int,             // worker_count_
    uncounted: nat,               // workers created but not yet counted
    allFinished: bool,            // are_all_really_finished_
    done: seq<Item>,
    posted: nat)

  const START := State([], [], Free, [], 0, 0, 0, 0, true, [], 0)

  // ---- steps ----

  datatype Action =
    | Spawn                              // new Worker
    | CountWorker                        // ++worker_count_
    | Post(kind: Kind)                   // a call of push begins
    | PusherStep(p: nat, waiter: nat)    // `waiter` is the thread that a signal wakes
    | WorkerStep(w: nat)
    | Spurious(w: nat)                   // a blocked thread wakes for no reason

  function Step(s: State, a: Action): Option<State> {
    match a
    case Spawn => Some(s.(workers := s.workers + [Starting], uncounted := s.uncounted + 1))
    case CountWorker => if s.uncounted > 0
        then Some(s.(uncounted := s.uncounted - 1, workerCount := s.workerCount + 1)) else None
    case Post(kind) => Some(s.(allFinished := false, pushers := s.pushers + [Ready(Item(s.posted, kind))],
        posted := s.posted + 1))
    case PusherStep(p, waiter) => if p < |s.pushers| then StepPusher(s, p, waiter) else None
    case WorkerStep(w) => if w < |s.workers| then StepWorker(s, w) else None
    case Spurious(w) => if w < |s.workers| && s.workers[w].Asleep? then Some(s.(workers := s.workers[w := Woken]))
        else None
  }

  function StepPusher(s: State, p: nat, waiter: nat): Option<State>
    requires p < |s.pushers|
  {
    match s.pushers[p]
    case Ready(item) =>
      if s.owner == Free then Some(s.(owner := ByPusher(p), pushers := s.pushers[p := Entered(item)])) else None
    case Entered(item) =>
      Some(s.(size := s.size + 1, pushers := s.pushers[p := Announced(item)]))
    case Announced(item) =>
      Some(s.(queue := s.queue + [item], pushers := s.pushers[p := Pushed]))
    case Pushed =>
      if waiter < |s.workers| && s.workers[waiter].Asleep? then
        Some(s.(workers := s.workers[waiter := Woken], pushers := s.pushers[p := Notified]))
      else if NoneAsleep(s) then
        Some(s.(pushers := s.pushers[p := Notified]))
      else None
    case Notified =>
      Some(s.(owner := Free, pushers := s.pushers[p := Returned]))
    case Returned => None
  }

  predicate NoneAsleep(s: State) {
    forall w: nat | w < |s.workers| :: !s.workers[w].Asleep?
  }

  function StepWorker(s: State, w: nat): Option<State>
    requires w < |s.workers|
  {
    match s.workers[w]
    case Starting =>
      Some(s.(active := s.active + 1, workers := s.workers[w := Taking(Std)]))
    case Taking(last) =>
      if last == Std && s.queue != [] then
        Some(s.(queue := s.queue[1..], workers := s.workers[w := Taken(s.queue[0])]))
      else
        Some(s.(workers := s.workers[w := Locking(last)]))
    case Taken(item) =>
      Some(s.(size := s.size - 1, workers := s.workers[w := Working(item)]))
    case Working(item) =>
      Some(s.(done := s.done + [item], workers := s.workers[w := Taking(item.kind)]))
    case Locking(last) =>
      if s.owner == Free then Some(s.(owner := ByWorker(w), workers := s.workers[w := Locked(last)])) else None
    case Locked(last) =>
      Some(s.(active := s.active - 1, workers := s.workers[w := if s.active == 1 then LastActive(last)
          else Left(last)]))
    case LastActive(last) =>
      Some(s.(workers := s.workers[w := if s.size == 0 then Finishing(last) else Left(last)]))
    case Finishing(last) =>
      Some(s.(allFinished := true, workers := s.workers[w := Left(last)]))
    case Left(last) =>
      if last == Terminal then
        Some(s.(workerCount := s.workerCount - 1, workers := s.workers[w := Ending]))
      else
        Some(s.(workers := s.workers[w := Deciding]))
    case Ending =>
      Some(s.(owner := Free, workers := s.workers[w := Gone]))
    case Deciding =>
      Some(s.(workers := s.workers[w := if s.size > 0 then Leaving else Sleepy]))
    case Leaving =>
      Some(s.(owner := Free, workers := s.workers[w := Starting]))
    case Sleepy =>
      Some(s.(owner := Free, workers := s.workers[w := Asleep]))
    case Asleep => None
    case Woken =>
      if s.owner == Free then Some(s.(owner := ByWorker(w), workers := s.workers[w := Deciding])) else None
    case Gone => None
  }

  /** The state after a run that begins in s, if every step of it was possible. */
  function RunFrom(s: State, actions: seq<Action>): Option<State> {
    if actions == [] then Some(s)
    else
      match RunFrom(s, actions[..|actions| - 1])
      case Some(t) => Step(t, actions[|actions| - 1])
      case None => None
  }

  ghost predicate Reachable(s: State) {
    exists actions :: RunFrom(START, actions) == Some(s)
  }

  // ---- what threads hold ----

  predicate WorkerLocks(w: Worker) {
    w.Locked? || w.LastActive? || w.Finishing? || w.Left? || w.Ending? || w.Deciding? || w.Leaving? || w.Sleepy?
  }

  predicate PusherLocks(p: Pusher) {
    p.Entered? || p.Announced? || p.Pushed? || p.Notified?
  }

  /** Not blocked, and no TERMINAL item taken: such a worker will look at the queue again. */
  predicate IsAwake(w: Worker) {
    match w
    case Taking(last) => last == Std
    case Taken(item) => item.kind == Std
    case Working(item) => item.kind == Std
    case Locking(last) => last == Std
    case Locked(last) => last == Std
    case LastActive(last) => last == Std
    case Finishing(last) => last == Std
    case Left(last) => last == Std
    case Asleep => false
    case Ending => false
    case Gone => false
    case _ => true
  }

  predicate IsActive(w: Worker) {
    w.Taking? || w.Taken? || w.Working? || w.Locking? || w.Locked?
  }

  const AWAKE: Worker -> bool := (w: Worker) => IsAwake(w)
  const ASLEEP: Worker -> bool := (w: Worker) => w.Asleep?
  const TAKEN: Worker -> bool := (w: Worker) => w.Taken?
  const ACTIVE: Worker -> bool := (w: Worker) => IsActive(w)
  const ALIVE: Worker -> bool := (w: Worker) => !w.Gone? && !w.Ending?
  const ANNOUNCED: Pusher -> bool := (p: Pusher) => p.Announced?
  const PUSHED: Pusher -> bool := (p: Pusher) => p.Pushed?

  function WorkerHas(id: nat): Worker -> bool {
    (w: Worker) => (w.Taken? || w.Working?) && w.item.id == id
  }

  function PusherHas(id: nat): Pusher -> bool {
    (p: Pusher) => (p.Ready? || p.Entered? || p.Announced?) && p.item.id == id
  }

  function IsItem(id: nat): Item -> bool {
    (i: Item) => i.id == id
  }

  // ---- the invariant ----

  ghost predicate MutexHeld(s: State) {
    && (forall w: nat | w < |s.workers| :: WorkerLocks(s.workers[w]) <==> s.owner == ByWorker(w))
    && (forall p: nat | p < |s.pushers| :: PusherLocks(s.pushers[p]) <==> s.owner == ByPusher(p))
    && (s.owner.ByWorker? ==> s.owner.w < |s.workers|)
    && (s.owner.ByPusher? ==> s.owner.p < |s.pushers|)
  }

  ghost predicate CountersAgree(s: State) {
    && s.size == |s.queue| + Count(s.workers, TAKEN) + Count(s.pushers, ANNOUNCED)
    && s.active == Count(s.workers, ACTIVE)
    && s.workerCount + s.uncounted == Count(s.workers, ALIVE)
  }

  predicate HasSeenNothing(w: Worker) {
    w.Sleepy? || w.Finishing?
  }

  /** A worker that has seen no work, and still holds the mutex, has not been overtaken. */
  ghost predicate SleepySawNothing(s: State) {
    forall w: nat | w < |s.workers| && HasSeenNothing(s.workers[w]) :: s.size == 0
  }

  ghost predicate EnoughAwake(s: State) {
    Count(s.workers, ASLEEP) > 0 ==> Count(s.workers, AWAKE) + Count(s.pushers, PUSHED) >= |s.queue|
  }

  /** In how many places item `id` is. */
  function Places(s: State, id: nat): nat {
    Count(s.pushers, PusherHas(id)) + Count(s.queue, IsItem(id)) + Count(s.workers, WorkerHas(id)) +
        Count(s.done, IsItem(id))
  }

  ghost predicate EachOnce(s: State) {
    forall id: nat :: Places(s, id) == One(id < s.posted)
  }

  ghost predicate Inv(s: State) {
    MutexHeld(s) && CountersAgree(s) && SleepySawNothing(s) && EnoughAwake(s) && EachOnce(s)
  }

  // ---- every step keeps the invariant ----

  /** How the counts change when one worker moves. */
  lemma WorkerMoves(s: State, w: nat, x: Worker)
    requires w < |s.workers|
    ensures var ws, was := s.workers[w := x], s.workers[w];
      && Count(ws, AWAKE) + One(IsAwake(was)) == Count(s.workers, AWAKE) + One(IsAwake(x))
      && Count(ws, ASLEEP) + One(was.Asleep?) == Count(s.workers, ASLEEP) + One(x.Asleep?)
      && Count(ws, TAKEN) + One(was.Taken?) == Count(s.workers, TAKEN) + One(x.Taken?)
      && Count(ws, ACTIVE) + One(IsActive(was)) == Count(s.workers, ACTIVE) + One(IsActive(x))
      && Count(ws, ALIVE) + One(ALIVE(was)) == Count(s.workers, ALIVE) + One(ALIVE(x))
    ensures forall id: nat ::
      Count(s.workers[w := x], WorkerHas(id)) + One(WorkerHas(id)(s.workers[w])) ==
      Count(s.workers, WorkerHas(id)) + One(WorkerHas(id)(x))
  {
    hide Count;
    CountUpdate(s.workers, AWAKE, w, x);
    CountUpdate(s.workers, ASLEEP, w, x);
    CountUpdate(s.workers, TAKEN, w, x);
    CountUpdate(s.workers, ACTIVE, w, x);
    CountUpdate(s.workers, ALIVE, w, x);
    forall id: nat ensures Count(s.workers[w := x], WorkerHas(id)) +
        One(WorkerHas(id)(s.workers[w])) == Count(s.workers, WorkerHas(id)) + One(WorkerHas(id)(x)) {
      CountUpdate(s.workers, WorkerHas(id), w, x);
    }
  }

  lemma PusherMoves(s: State, p: nat, x: Pusher)
    requires p < |s.pushers|
    ensures Count(s.pushers[p := x], ANNOUNCED) + One(s.pushers[p].Announced?) == Count(s.pushers, ANNOUNCED) +
        One(x.Announced?)
    ensures Count(s.pushers[p := x], PUSHED) + One(s.pushers[p].Pushed?) == Count(s.pushers, PUSHED) + One(x.Pushed?)
    ensures forall id: nat ::
      Count(s.pushers[p := x], PusherHas(id)) + One(PusherHas(id)(s.pushers[p])) ==
      Count(s.pushers, PusherHas(id)) + One(PusherHas(id)(x))
  {
    hide Count;
    CountUpdate(s.pushers, ANNOUNCED, p, x);
    CountUpdate(s.pushers, PUSHED, p, x);
    forall id: nat ensures Count(s.pushers[p := x], PusherHas(id)) +
        One(PusherHas(id)(s.pushers[p])) == Count(s.pushers, PusherHas(id)) + One(PusherHas(id)(x)) {
      CountUpdate(s.pushers, PusherHas(id), p, x);
    }
  }

  lemma ItemMoves(queue: seq<Item>, item: Item)
    ensures forall id: nat :: Count(queue + [item], IsItem(id)) == Count(queue, IsItem(id)) + One(item.id == id)
    ensures queue != [] ==> forall id: nat ::
        Count(queue, IsItem(id)) == One(queue[0].id == id) + Count(queue[1..], IsItem(id))
  {
    hide Count;
    forall id: nat ensures Count(queue + [item], IsItem(id)) == Count(queue, IsItem(id)) + One(item.id == id) {
      CountAppend(queue, IsItem(id), item);
    }
    if queue != [] {
      forall id: nat ensures Count(queue, IsItem(id)) == One(queue[0].id == id) + Count(queue[1..], IsItem(id)) {
        CountDropFirst(queue, IsItem(id));
      }
    }
  }

  lemma WorkerStepKeepsMutex(s: State, w: nat, t: State)
    requires w < |s.workers| && MutexHeld(s) && StepWorker(s, w) == Some(t)
    ensures MutexHeld(t)
  {
    assert WorkerLocks(s.workers[w]) <==> s.owner == ByWorker(w);
    forall v: nat | v < |t.workers| ensures WorkerLocks(t.workers[v]) <==> t.owner == ByWorker(v) {
      assert WorkerLocks(s.workers[v]) <==> s.owner == ByWorker(v);
    }
    forall p: nat | p < |t.pushers| ensures PusherLocks(t.pushers[p]) <==> t.owner == ByPusher(p) {
      assert PusherLocks(s.pushers[p]) <==> s.owner == ByPusher(p);
    }
  }

  lemma PusherStepKeepsMutex(s: State, p: nat, waiter: nat, t: State)
    requires p < |s.pushers| && MutexHeld(s) && StepPusher(s, p, waiter) == Some(t)
    ensures MutexHeld(t)
  {
    hide NoneAsleep;
    assert PusherLocks(s.pushers[p]) <==> s.owner == ByPusher(p);
  }

  /** A step of a worker moves that worker only, and the counters along with it. */
  lemma WorkerStepBalances(s: State, w: nat, t: State)
    requires w < |s.workers| && StepWorker(s, w) == Some(t)
    ensures |t.workers| == |s.workers| && t.workers == s.workers[w := t.workers[w]]
    ensures t.pushers == s.pushers && t.uncounted == s.uncounted && t.posted == s.posted
    ensures t.size - |t.queue| - One(t.workers[w].Taken?) == s.size - |s.queue| - One(s.workers[w].Taken?)
    ensures t.active - One(IsActive(t.workers[w])) == s.active - One(IsActive(s.workers[w]))
    ensures t.workerCount - One(ALIVE(t.workers[w])) == s.workerCount - One(ALIVE(s.workers[w]))
  {
  }

  lemma {:induction false} WorkerStepKeepsCounters(s: State, w: nat, t: State)
    requires w < |s.workers| && CountersAgree(s) && StepWorker(s, w) == Some(t)
    ensures CountersAgree(t)
  {
    hide Count, StepWorker, One, IsActive;
    WorkerStepBalances(s, w, t);
    WorkerMoves(s, w, t.workers[w]);
  }

  lemma {:induction false} PusherStepKeepsCounters(s: State, p: nat, waiter: nat, t: State)
    requires p < |s.pushers| && CountersAgree(s) && StepPusher(s, p, waiter) == Some(t)
    ensures CountersAgree(t)
  {
    hide Count;
    PusherMoves(s, p, t.pushers[p]);
    assert t.pushers == s.pushers[p := t.pushers[p]];
    if s.pushers[p].Pushed? && waiter < |s.workers| && s.workers[waiter].Asleep? {
      WorkerMoves(s, waiter, Woken);
    }
  }

  lemma WorkerStepKeepsSleepy(s: State, w: nat, t: State)
    requires w < |s.workers| && MutexHeld(s) && CountersAgree(s) && SleepySawNothing(s) && StepWorker(s, w) == Some(t)
    ensures SleepySawNothing(t)
  {
    hide CountersAgree;
    SizeIsNotNegative(s);
    if s.workers[w].Taken? { TakenIsCounted(s, w); }
    forall v: nat | v < |t.workers| && HasSeenNothing(t.workers[v]) ensures t.size == 0 {
      if v != w {
        assert HasSeenNothing(s.workers[v]);
      }
    }
  }

  /** An item that a worker has taken is still counted. */
  lemma TakenIsCounted(s: State, w: nat)
    requires CountersAgree(s) && w < |s.workers| && s.workers[w].Taken?
    ensures s.size > 0
  {
    hide Count;
    CountSome(s.workers, TAKEN);
    assert TAKEN(s.workers[w]);
  }

  lemma SizeIsNotNegative(s: State)
    requires CountersAgree(s)
    ensures s.size >= |s.queue| && s.size >= 0
  {
    hide Count;
  }

  lemma PusherStepKeepsSleepy(s: State, p: nat, waiter: nat, t: State)
    requires p < |s.pushers| && MutexHeld(s) && SleepySawNothing(s) && StepPusher(s, p, waiter) == Some(t)
    ensures SleepySawNothing(t)
  {
    hide NoneAsleep;
    forall v: nat | v < |t.workers| && HasSeenNothing(t.workers[v]) ensures t.size == 0 {
      assert HasSeenNothing(s.workers[v]);
      assert WorkerLocks(s.workers[v]) <==> s.owner == ByWorker(v);
      assert PusherLocks(s.pushers[p]) <==> s.owner == ByPusher(p);
    }
  }

  lemma WorkerStepKeepsAwake(s: State, w: nat, t: State)
    requires w < |s.workers| && CountersAgree(s) && SleepySawNothing(s) && EnoughAwake(s) && StepWorker(s, w) == Some(t)
    ensures EnoughAwake(t)
  {
    hide Count;
    hide CountersAgree;
    SizeIsNotNegative(s);
    WorkerMoves(s, w, t.workers[w]);
    assert t.workers == s.workers[w := t.workers[w]];
  }

  lemma PusherStepKeepsAwake(s: State, p: nat, waiter: nat, t: State)
    requires p < |s.pushers| && EnoughAwake(s) && StepPusher(s, p, waiter) == Some(t)
    ensures EnoughAwake(t)
  {
    hide Count;
    PusherMoves(s, p, t.pushers[p]);
    assert t.pushers == s.pushers[p := t.pushers[p]];
    if s.pushers[p].Pushed? && waiter < |s.workers| && s.workers[waiter].Asleep? {
      WorkerMoves(s, waiter, Woken);
    }
    if NoneAsleep(s) { NoneCounted(s); }
  }

  lemma NoneCounted(s: State)
    requires NoneAsleep(s)
    ensures Count(s.workers, ASLEEP) == 0
  {
    hide Count;
    CountSome(s.workers, ASLEEP);
  }

  /** An item leaves the queue for a worker, or a worker for what is done, or stays where it is. */
  lemma WorkerStepCarries(s: State, w: nat, t: State, id: nat)
    requires w < |s.workers| && StepWorker(s, w) == Some(t)
    ensures
      || (t.queue == s.queue && t.done == s.done && (WorkerHas(id)(t.workers[w]) <==> WorkerHas(id)(s.workers[w])))
      || (s.queue != [] && t.queue == s.queue[1..] && t.done == s.done && !WorkerHas(id)(s.workers[w]) &&
          (WorkerHas(id)(t.workers[w]) <==> s.queue[0].id == id))
      || (s.workers[w].Working? && t.queue == s.queue && t.done == s.done + [s.workers[w].item] &&
          !WorkerHas(id)(t.workers[w]))
  {
  }

  lemma WorkerStepKeepsPlaces(s: State, w: nat, t: State, id: nat)
    requires w < |s.workers| && StepWorker(s, w) == Some(t)
    ensures Places(t, id) == Places(s, id)
  {
    hide Count, StepWorker, IsActive;
    WorkerStepBalances(s, w, t);
    WorkerMoves(s, w, t.workers[w]);
    WorkerStepCarries(s, w, t, id);
    if s.workers[w].Working? { ItemMoves(s.done, s.workers[w].item); }
    if s.queue != [] { ItemMoves(s.queue, s.queue[0]); }
  }

  lemma PusherStepKeepsPlaces(s: State, p: nat, waiter: nat, t: State, id: nat)
    requires p < |s.pushers| && StepPusher(s, p, waiter) == Some(t)
    ensures Places(t, id) == Places(s, id)
  {
    hide Count, NoneAsleep;
    PusherMoves(s, p, t.pushers[p]);
    assert t.pushers == s.pushers[p := t.pushers[p]];
    if s.pushers[p].Announced? { ItemMoves(s.queue, s.pushers[p].item); }
    if s.pushers[p].Pushed? && waiter < |s.workers| && s.workers[waiter].Asleep? {
      WorkerMoves(s, waiter, Woken);
    }
  }

  lemma WorkerStepKeeps(s: State, w: nat, t: State)
    requires w < |s.workers| && Inv(s) && StepWorker(s, w) == Some(t)
    ensures Inv(t)
  {
    hide MutexHeld, CountersAgree, SleepySawNothing, EnoughAwake, Places;
    WorkerStepKeepsMutex(s, w, t);
    WorkerStepKeepsCounters(s, w, t);
    WorkerStepKeepsSleepy(s, w, t);
    WorkerStepKeepsAwake(s, w, t);
    forall id: nat ensures Places(t, id) == One(id < t.posted) {
      WorkerStepKeepsPlaces(s, w, t, id);
    }
  }

  lemma PusherStepKeeps(s: State, p: nat, waiter: nat, t: State)
    requires p < |s.pushers| && Inv(s) && StepPusher(s, p, waiter) == Some(t)
    ensures Inv(t)
  {
    hide MutexHeld, CountersAgree, SleepySawNothing, EnoughAwake, Places, NoneAsleep;
    PusherStepKeepsMutex(s, p, waiter, t);
    PusherStepKeepsCounters(s, p, waiter, t);
    PusherStepKeepsSleepy(s, p, waiter, t);
    PusherStepKeepsAwake(s, p, waiter, t);
    forall id: nat ensures Places(t, id) == One(id < t.posted) {
      PusherStepKeepsPlaces(s, p, waiter, t, id);
    }
  }

  lemma SpawnKeeps(s: State, t: State)
    requires Inv(s) && Step(s, Spawn) == Some(t)
    ensures Inv(t)
  {
    hide Count;
    CountAppend(s.workers, AWAKE, Starting);
    CountAppend(s.workers, ASLEEP, Starting);
    CountAppend(s.workers, TAKEN, Starting);
    CountAppend(s.workers, ACTIVE, Starting);
    CountAppend(s.workers, ALIVE, Starting);
    forall id: nat ensures Places(t, id) == One(id < t.posted) {
      CountAppend(s.workers, WorkerHas(id), Starting);
      assert Places(s, id) == One(id < s.posted);
    }
  }

  lemma PostKeeps(s: State, kind: Kind, t: State)
    requires Inv(s) && Step(s, Post(kind)) == Some(t)
    ensures Inv(t)
  {
    hide Count;
    var x := Ready(Item(s.posted, kind));
    CountAppend(s.pushers, ANNOUNCED, x);
    CountAppend(s.pushers, PUSHED, x);
    forall id: nat ensures Places(t, id) == One(id < t.posted) {
      CountAppend(s.pushers, PusherHas(id), x);
      assert Places(s, id) == One(id < s.posted);
    }
  }

  lemma SpuriousKeeps(s: State, w: nat, t: State)
    requires Inv(s) && Step(s, Spurious(w)) == Some(t)
    ensures Inv(t)
  {
    hide Count;
    WorkerMoves(s, w, Woken);
    forall id: nat ensures Places(t, id) == One(id < t.posted) {
      assert Places(s, id) == One(id < s.posted);
    }
  }

  lemma CountWorkerKeeps(s: State, t: State)
    requires Inv(s) && Step(s, CountWorker) == Some(t)
    ensures Inv(t)
  {
    hide Count;
    forall id: nat ensures Places(t, id) == One(id < t.posted) {
      assert Places(s, id) == One(id < s.posted);
    }
  }

  lemma StartHolds()
    ensures Inv(START)
  {
    hide Places, CountersAgree, EnoughAwake;
    IdleCounters(START);
    forall id: nat ensures Places(START, id) == One(id < START.posted) {
      IdlePlaces(START, id);
    }
  }

  lemma IdleCounters(s: State)
    requires s.workers == [] && s.pushers == [] && s.queue == [] &&
        s.size == s.active == s.workerCount == s.uncounted == 0
    ensures CountersAgree(s) && EnoughAwake(s)
  {
    hide Count;
    NothingCounted(ASLEEP);
    NothingCounted(TAKEN);
    NothingCounted(ACTIVE);
    NothingCounted(ALIVE);
    NothingCounted(ANNOUNCED);
  }

  lemma IdlePlaces(s: State, id: nat)
    requires s.workers == [] && s.pushers == [] && s.queue == [] && s.done == []
    ensures Places(s, id) == 0
  {
    hide Count;
    NothingCounted(PusherHas(id));
    NothingCounted(IsItem(id));
    NothingCounted(WorkerHas(id));
  }

  lemma NothingCounted<T>(p: T -> bool)
    ensures Count([], p) == 0
  {
  }

  /** Runs keep the invariant. */
  lemma {:induction false} RunKeeps(s: State, actions: seq<Action>, t: State)
    requires Inv(s) && RunFrom(s, actions) == Some(t)
    ensures Inv(t)
    decreases |actions|
  {
    hide Inv, Step, StepWorker, StepPusher;
    if actions != [] {
      var before := RunFrom(s, actions[..|actions| - 1]).value;
      RunKeeps(s, actions[..|actions| - 1], before);
      StepKeeps(before, actions[|actions| - 1], t);
    }
  }

  /** The invariant holds in every reachable state. */
  lemma RunsKeep(actions: seq<Action>, s: State)
    requires RunFrom(START, actions) == Some(s)
    ensures Inv(s)
  {
    hide Inv, RunFrom;
    StartHolds();
    RunKeeps(START, actions, s);
  }

  lemma StepKeeps(s: State, a: Action, t: State)
    requires Inv(s) && Step(s, a) == Some(t)
    ensures Inv(t)
  {
    hide Inv, StepWorker, StepPusher;
    match a
    case Spawn => SpawnKeeps(s, t);
    case CountWorker => CountWorkerKeeps(s, t);
    case Post(kind) => PostKeeps(s, kind, t);
    case PusherStep(p, waiter) => PusherStepKeeps(s, p, waiter, t);
    case WorkerStep(w) => WorkerStepKeeps(s, w, t);
    case Spurious(w) => SpuriousKeeps(s, w, t);
  }

  // ---- what the pool promises ----

  /** No wake-up is lost: unless a call of push holds the mutex, blocked workers that have not been notified leave at
      least as many awake ones that will look at the queue as there are items in it. */
  lemma NoLostWakeUp(s: State, w: nat)
    requires Reachable(s) && !s.owner.ByPusher? && w < |s.workers| && s.workers[w].Asleep?
    ensures Count(s.workers, AWAKE) >= |s.queue|
  {
    hide Count, RunFrom, EachOnce, CountersAgree;
    var actions :| RunFrom(START, actions) == Some(s);
    RunsKeep(actions, s);
    CountSome(s.workers, ASLEEP);
    assert ASLEEP(s.workers[w]);
    CountSome(s.pushers, PUSHED);
    forall p: nat | p < |s.pushers| ensures !PUSHED(s.pushers[p]) {
      assert PusherLocks(s.pushers[p]) <==> s.owner == ByPusher(p);
    }
  }

  /** The counter never falls short of the queue, and exceeds it by the items just taken or just announced. */
  lemma SizeCoversQueue(s: State)
    requires Reachable(s)
    ensures s.size == |s.queue| + Count(s.workers, TAKEN) + Count(s.pushers, ANNOUNCED)
    ensures s.active == Count(s.workers, ACTIVE) && s.workerCount + s.uncounted == Count(s.workers, ALIVE)
  {
    hide Count, RunFrom, MutexHeld, EachOnce;
    var actions :| RunFrom(START, actions) == Some(s);
    RunsKeep(actions, s);
  }

  /** Every posted item, and no other, is in exactly one place: with its call of push, queued, with a worker, done. */
  lemma EveryItemOnce(s: State, id: nat)
    requires Reachable(s)
    ensures Places(s, id) == One(id < s.posted)
  {
    hide Places, RunFrom, MutexHeld, CountersAgree, SleepySawNothing, EnoughAwake;
    var actions :| RunFrom(START, actions) == Some(s);
    RunsKeep(actions, s);
  }

  /** At most one thread holds the mutex. */
  lemma MutexExcludes(s: State, v: nat, w: nat, p: nat)
    requires Reachable(s) && v < |s.workers| && w < |s.workers| && p < |s.pushers|
    ensures WorkerLocks(s.workers[v]) && WorkerLocks(s.workers[w]) ==> v == w
    ensures !(WorkerLocks(s.workers[v]) && PusherLocks(s.pushers[p]))
  {
    hide RunFrom, EachOnce, CountersAgree, EnoughAwake;
    var actions :| RunFrom(START, actions) == Some(s);
    RunsKeep(actions, s);
    assert WorkerLocks(s.workers[v]) <==> s.owner == ByWorker(v);
    assert WorkerLocks(s.workers[w]) <==> s.owner == ByWorker(w);
    assert PusherLocks(s.pushers[p]) <==> s.owner == ByPusher(p);
  }

  lemma ReachableIsSound(s: State)
    requires Reachable(s)
    ensures Inv(s)
  {
    hide Inv, RunFrom;
    var actions :| RunFrom(START, actions) == Some(s);
    RunsKeep(actions, s);
  }

  // ---- runs of some kinds of steps ----

  /** The kinds of steps a run is made of. */
  datatype Steps = Any | NoPost | Progress | Without(w: nat) {
    predicate Has(a: Action) {
      match this
      case Any => true
      case NoPost => !a.Post?
      case Progress => a.WorkerStep? || a.PusherStep?
      case Without(w) => a != WorkerStep(w)
    }
  }

  /** t is reached from s by steps of these kinds. */
  ghost predicate Leads(k: Steps, s: State, t: State) {
    exists actions :: (forall a | a in actions :: k.Has(a)) && RunFrom(s, actions) == Some(t)
  }

  lemma LeadsNowhere(k: Steps, s: State)
    ensures Leads(k, s, s)
  {
    assert RunFrom(s, []) == Some(s);
  }

  lemma LeadsOn(k: Steps, s: State, t: State, a: Action, u: State)
    requires Leads(k, s, t) && k.Has(a) && Step(t, a) == Some(u)
    ensures Leads(k, s, u)
  {
    hide Step;
    var actions :| (forall b | b in actions :: k.Has(b)) && RunFrom(s, actions) == Some(t);
    RunOn(s, actions, t, a, u);
    assert forall b | b in actions + [a] :: k.Has(b);
  }

  lemma {:induction false} LeadsFurther(k: Steps, s: State, t: State, actions: seq<Action>, u: State)
    requires Leads(k, s, t) && (forall a | a in actions :: k.Has(a)) && RunFrom(t, actions) == Some(u)
    ensures Leads(k, s, u)
    decreases |actions|
  {
    hide Step;
    if actions != [] {
      var fewer, last := actions[..|actions| - 1], actions[|actions| - 1];
      var v := RunFrom(t, fewer).value;
      LeadsFurther(k, s, t, fewer, v);
      LeadsOn(k, s, v, last, u);
    }
  }

  lemma LeadsTwice(k: Steps, s: State, t: State, u: State)
    requires Leads(k, s, t) && Leads(k, t, u)
    ensures Leads(k, s, u)
  {
    hide RunFrom;
    var actions :| (forall a | a in actions :: k.Has(a)) && RunFrom(t, actions) == Some(u);
    LeadsFurther(k, s, t, actions, u);
  }

  /** What every step of a kind keeps, runs keep. */
  lemma {:induction false} RunStays(k: Steps, s: State, actions: seq<Action>, t: State, keeps: State -> bool)
    requires keeps(s) && (forall a | a in actions :: k.Has(a)) && RunFrom(s, actions) == Some(t)
    requires forall u: State, a: Action, v: State | keeps(u) && k.Has(a) && Step(u, a) == Some(v) :: keeps(v)
    ensures keeps(t)
    decreases |actions|
  {
    hide Step;
    if actions != [] {
      var fewer, last := actions[..|actions| - 1], actions[|actions| - 1];
      RunStays(k, s, fewer, RunFrom(s, fewer).value, keeps);
      assert k.Has(last);
    }
  }

  lemma LeadsStays(k: Steps, s: State, t: State, keeps: State -> bool)
    requires keeps(s) && Leads(k, s, t)
    requires forall u: State, a: Action, v: State | keeps(u) && k.Has(a) && Step(u, a) == Some(v) :: keeps(v)
    ensures keeps(t)
  {
    hide Step, RunFrom;
    var actions :| (forall a | a in actions :: k.Has(a)) && RunFrom(s, actions) == Some(t);
    RunStays(k, s, actions, t, keeps);
  }

  lemma LeadsKeeps(k: Steps, s: State, t: State)
    requires Inv(s) && Leads(k, s, t)
    ensures Inv(t)
  {
    hide Inv, RunFrom;
    var actions :| (forall a | a in actions :: k.Has(a)) && RunFrom(s, actions) == Some(t);
    RunKeeps(s, actions, t);
  }

  // ---- queued work is served ----

  /** Awake, or blocked and so to be woken: a worker that may still take an item. */
  predicate IsWilling(w: Worker) {
    IsAwake(w) || w.Asleep?
  }

  ghost predicate SomeWilling(s: State) {
    exists w: nat :: w < |s.workers| && IsWilling(s.workers[w])
  }

  /** From s to u a worker has taken the first item of the queue. */
  ghost predicate Served(s: State, u: State)
    requires s.queue != []
  {
    && s.queue <= [s.queue[0]] + u.queue
    && exists v: nat :: v < |u.workers| && u.workers[v] == Taken(s.queue[0])
  }

  /** How many steps an awake worker with the mutex free, or its own, is from the test of its inner loop, or any
      holder of the mutex from releasing it. */
  function Distance(w: Worker): nat {
    match w
    case Locking(_) => 9
    case Locked(_) => 8
    case LastActive(_) => 7
    case Finishing(_) => 6
    case Left(_) => 5
    case Woken => 5
    case Deciding => 4
    case Leaving => 3
    case Sleepy => 3
    case Ending => 3
    case Taken(_) => 2
    case Starting => 1
    case Working(_) => 1
    case _ => 0
  }

  /** An awake worker that need not wait comes to take the first item. */
  lemma {:induction false} ComesToServe(s: State, v: nat) returns (u: State)
    requires Inv(s) && s.queue != [] && v < |s.workers| && IsAwake(s.workers[v])
    requires s.owner == Free || s.owner == ByWorker(v)
    ensures Leads(Progress, s, u) && Served(s, u)
    decreases Distance(s.workers[v])
  {
    hide RunFrom, CountersAgree, EnoughAwake, EachOnce;
    LeadsNowhere(Progress, s);
    SizeIsNotNegative(s);
    assert WorkerLocks(s.workers[v]) <==> s.owner == ByWorker(v);
    var t := StepWorker(s, v).value;
    LeadsOn(Progress, s, s, WorkerStep(v), t);
    if s.workers[v].Taking? {
      u := t;
      assert u.workers[v] == Taken(s.queue[0]);
      assert s.queue == [s.queue[0]] + u.queue;
    } else {
      StepKeeps(s, WorkerStep(v), t);
      CloserToServe(s, v, t);
      u := ComesToServe(t, v);
      LeadsTwice(Progress, s, t, u);
    }
  }

  lemma CloserToServe(s: State, v: nat, t: State)
    requires v < |s.workers| && s.queue != [] && s.size > 0 && IsAwake(s.workers[v]) && StepWorker(s, v) == Some(t)
    requires SleepySawNothing(s) && !s.workers[v].Taking?
    requires s.owner == Free || s.owner == ByWorker(v)
    ensures |t.workers| == |s.workers| && IsAwake(t.workers[v]) && Distance(t.workers[v]) < Distance(s.workers[v])
    ensures t.queue == s.queue && (t.owner == Free || t.owner == ByWorker(v))
  {
  }

  /** Only its own steps move a worker that is not blocked; others can wake it at most. */
  lemma OthersLeave(s: State, a: Action, t: State, w: nat)
    requires Step(s, a) == Some(t) && a != WorkerStep(w) && w < |s.workers|
    ensures w < |t.workers|
    ensures t.workers[w] == s.workers[w] || (s.workers[w].Asleep? && t.workers[w].Woken?)
  {
    hide NoneAsleep, StepWorker;
    if a.WorkerStep? { WorkerStepBalances(s, a.w, t); }
  }

  lemma NewcomersStart(s: State, a: Action, t: State, w: nat)
    requires Step(s, a) == Some(t) && |s.workers| <= w < |t.workers|
    ensures t.workers[w] == Starting
  {
    hide NoneAsleep, StepWorker;
    if a.WorkerStep? { WorkerStepBalances(s, a.w, t); }
  }

  /** A step of progress that takes nothing leaves willing workers willing, and queued items queued. */
  lemma WillingStays(s: State, a: Action, t: State, w: nat)
    requires Progress.Has(a) && Step(s, a) == Some(t) && w < |s.workers| && IsWilling(s.workers[w])
    requires !(a == WorkerStep(w) && s.workers[w].Taking?)
    ensures w < |t.workers| && IsWilling(t.workers[w])
  {
    hide StepPusher;
    if a != WorkerStep(w) { OthersLeave(s, a, t, w); }
  }

  lemma HolderMoves(s: State, h: nat, t: State)
    requires MutexHeld(s) && s.owner == ByWorker(h) && h < |s.workers| && StepWorker(s, h) == Some(t)
    ensures t.queue == s.queue && (t.owner == s.owner || t.owner == Free) && !s.workers[h].Taking?
    ensures |t.workers| == |s.workers|
    ensures t.owner == s.owner ==> Distance(t.workers[h]) < Distance(s.workers[h])
  {
    assert WorkerLocks(s.workers[h]);
  }

  /** How many steps a call of push is from releasing the mutex. */
  function StepsLeft(p: Pusher): nat {
    match p
    case Entered(_) => 4
    case Announced(_) => 3
    case Pushed => 2
    case Notified => 1
    case _ => 0
  }

  lemma PushMoves(s: State, p: nat) returns (a: Action, t: State)
    requires MutexHeld(s) && s.owner == ByPusher(p)
    ensures Progress.Has(a) && a.PusherStep? && Step(s, a) == Some(t)
    ensures s.queue <= t.queue && (t.owner == s.owner || t.owner == Free)
    ensures p < |t.pushers| && (t.owner == s.owner ==> StepsLeft(t.pushers[p]) < StepsLeft(s.pushers[p]))
    ensures t.owner == Free ==> t.pushers[p].Returned?
  {
    assert PusherLocks(s.pushers[p]);
    if NoneAsleep(s) {
      a := PusherStep(p, 0);
    } else {
      var w: nat :| w < |s.workers| && s.workers[w].Asleep?;
      a := PusherStep(p, w);
    }
    t := Step(s, a).value;
  }

  /** Whoever holds the mutex comes to release it; nothing is taken on the way. */
  lemma {:induction false} MutexComesFree(s: State) returns (u: State)
    requires Inv(s)
    ensures Leads(Progress, s, u) && Inv(u) && u.owner == Free && s.queue <= u.queue
    ensures forall w: nat | w < |s.workers| && IsWilling(s.workers[w]) :: w < |u.workers| && IsWilling(u.workers[w])
    decreases match s.owner
      case Free => 0
      case ByWorker(h) => 1 + Distance(s.workers[h])
      case ByPusher(p) => 1 + StepsLeft(s.pushers[p])
  {
    hide RunFrom, CountersAgree, EnoughAwake, EachOnce, StepWorker, StepPusher, IsWilling, Distance, StepsLeft;
    LeadsNowhere(Progress, s);
    var a, t;
    match s.owner {
      case Free =>
        u := s;
        return;
      case ByWorker(h) =>
        assert WorkerLocks(s.workers[h]);
        HolderSteps(s, h);
        a, t := WorkerStep(h), StepWorker(s, h).value;
        HolderMoves(s, h, t);
      case ByPusher(p) =>
        a, t := PushMoves(s, p);
    }
    forall w: nat | w < |s.workers| && IsWilling(s.workers[w]) ensures w < |t.workers| && IsWilling(t.workers[w]) {
      WillingStays(s, a, t, w);
    }
    StepKeeps(s, a, t);
    LeadsOn(Progress, s, s, a, t);
    u := MutexComesFree(t);
    LeadsTwice(Progress, s, t, u);
  }

  lemma HolderSteps(s: State, h: nat)
    requires h < |s.workers| && WorkerLocks(s.workers[h])
    ensures StepWorker(s, h).Some?
  {
  }

  lemma SomeAwake(s: State, w: nat) returns (v: nat)
    requires Inv(s) && s.owner == Free && s.queue != [] && w < |s.workers| && IsWilling(s.workers[w])
    ensures v < |s.workers| && IsAwake(s.workers[v])
  {
    hide Count, IsAwake;
    if IsAwake(s.workers[w]) {
      v := w;
    } else {
      CountSome(s.workers, ASLEEP);
      assert ASLEEP(s.workers[w]);
      CountSome(s.pushers, PUSHED);
      forall p: nat | p < |s.pushers| ensures !PUSHED(s.pushers[p]) {
        assert PusherLocks(s.pushers[p]) <==> s.owner == ByPusher(p);
      }
      CountSome(s.workers, AWAKE);
      var x: nat :| x < |s.workers| && AWAKE(s.workers[x]);
      v := x;
    }
  }

  /** What no willing worker means: none takes an item, so queued items stay. */
  ghost predicate Stuck(s: State, queue: seq<Item>) {
    !SomeWilling(s) && queue <= s.queue
  }

  lemma StuckStays(s: State, a: Action, t: State, queue: seq<Item>)
    requires Stuck(s, queue) && Progress.Has(a) && Step(s, a) == Some(t)
    ensures Stuck(t, queue)
  {
    hide NoneAsleep;
    forall w: nat | w < |t.workers| ensures !IsWilling(t.workers[w]) {
      assert w < |s.workers| && !IsWilling(s.workers[w]);
    }
  }

  lemma StuckIsNotServed(s: State, u: State)
    requires Inv(u) && s.queue != [] && Stuck(u, s.queue)
    ensures !Served(s, u)
  {
    hide Count, MutexHeld, CountersAgree, EnoughAwake;
    var head := s.queue[0];
    assert u.queue != [] && u.queue[0] == head;
    CountSome(u.queue, IsItem(head.id));
    assert IsItem(head.id)(u.queue[0]);
    CountSome(u.workers, WorkerHas(head.id));
    assert Places(u, head.id) == One(head.id < u.posted);
    forall v: nat | v < |u.workers| ensures u.workers[v] != Taken(head) {
      assert !WorkerHas(head.id)(u.workers[v]);
    }
  }

  /** Queued work can be served by the steps of the threads there are, exactly if some worker is awake, with no
      TERMINAL item taken, or blocked: then they come to take the first item. */
  lemma WorkIsServed(s: State)
    requires Reachable(s) && s.queue != []
    ensures (exists u :: Leads(Progress, s, u) && Served(s, u)) <==> SomeWilling(s)
  {
    hide Inv, RunFrom, Step, IsWilling, Served, Leads, Stuck;
    ReachableIsSound(s);
    if SomeWilling(s) {
      var w: nat :| w < |s.workers| && IsWilling(s.workers[w]);
      var t := MutexComesFree(s);
      var v := SomeAwake(t, w);
      var u := ComesToServe(t, v);
      LeadsTwice(Progress, s, t, u);
      ServedFromThere(s, t, u);
    } else {
      forall u | Leads(Progress, s, u) ensures !Served(s, u) {
        LeadsKeeps(Progress, s, u);
        StuckForGood(s, u);
        StuckIsNotServed(s, u);
      }
    }
  }

  lemma ServedFromThere(s: State, t: State, u: State)
    requires s.queue != [] && s.queue <= t.queue && Served(t, u)
    ensures Served(s, u)
  {
    assert t.queue[0] == s.queue[0];
  }

  lemma StuckForGood(s: State, u: State)
    requires !SomeWilling(s) && Leads(Progress, s, u)
    ensures Stuck(u, s.queue)
  {
    hide Step, Leads, SomeWilling;
    forall x: State, a: Action, y: State | Stuck(x, s.queue) && Progress.Has(a) && Step(x, a) == Some(y)
      ensures Stuck(y, s.queue)
    {
      StuckStays(x, a, y, s.queue);
    }
    LeadsStays(Progress, s, u, (x: State) => Stuck(x, s.queue));
  }

  // ---- the flag that waitAll waits for ----

  ghost predicate NoneActive(s: State) {
    forall w: nat | w < |s.workers| :: !IsActive(s.workers[w])
  }

  ghost predicate NoneTaken(s: State) {
    forall w: nat | w < |s.workers| :: !s.workers[w].Taken?
  }

  /** A worker that counts itself out goes on to look for work if and only if it was the last active one. */
  lemma LastActiveExactly(s: State, w: nat, t: State)
    requires Reachable(s) && w < |s.workers| && s.workers[w].Locked? && StepWorker(s, w) == Some(t)
    ensures t.workers[w].LastActive? <==> NoneActive(t)
  {
    hide Count, RunFrom, MutexHeld, SleepySawNothing, EnoughAwake, EachOnce;
    ReachableIsSound(s);
    WorkerStepKeepsCounters(s, w, t);
    CountSome(t.workers, ACTIVE);
    if NoneActive(t) {
      forall v: nat | v < |t.workers| ensures !ACTIVE(t.workers[v]) { assert !IsActive(t.workers[v]); }
    } else {
      var v: nat :| v < |t.workers| && IsActive(t.workers[v]);
      assert ACTIVE(t.workers[v]);
    }
  }

  /** It goes on to set the flag if and only if nothing is queued and no worker has just taken an item. */
  lemma FinishingExactly(s: State, w: nat, t: State)
    requires Reachable(s) && w < |s.workers| && s.workers[w].LastActive? && StepWorker(s, w) == Some(t)
    ensures t.workers[w].Finishing? <==> s.queue == [] && NoneTaken(s)
  {
    hide Count, RunFrom, SleepySawNothing, EnoughAwake, EachOnce;
    ReachableIsSound(s);
    assert WorkerLocks(s.workers[w]) <==> s.owner == ByWorker(w);
    CountSome(s.workers, TAKEN);
    CountSome(s.pushers, ANNOUNCED);
    forall p: nat | p < |s.pushers| ensures !ANNOUNCED(s.pushers[p]) {
      assert PusherLocks(s.pushers[p]) <==> s.owner == ByPusher(p);
    }
    if NoneTaken(s) {
      forall v: nat | v < |s.workers| ensures !TAKEN(s.workers[v]) { assert !s.workers[v].Taken?; }
    } else {
      var v: nat :| v < |s.workers| && s.workers[v].Taken?;
      assert TAKEN(s.workers[v]);
    }
  }

  /** Only a worker that has come so far sets the flag. */
  lemma OnlyFinishingSets(s: State, a: Action, t: State)
    requires Step(s, a) == Some(t) && !s.allFinished && t.allFinished
    ensures a.WorkerStep? && a.w < |s.workers| && s.workers[a.w].Finishing?
  {
    hide NoneAsleep;
  }

  /** A step that finds worker w as the last active one, or about to set the flag, and leaves it so is not its own. */
  lemma FlaggerWaits(s: State, a: Action, t: State, w: nat)
    requires Step(s, a) == Some(t) && w < |t.workers|
    ensures t.workers[w].LastActive? && w < |s.workers| && s.workers[w].LastActive? ==> Without(w).Has(a)
    ensures t.workers[w].Finishing? && w < |s.workers| && s.workers[w].Finishing? ==> Without(w).Has(a)
    ensures t.workers[w].LastActive? && !(w < |s.workers| && s.workers[w].LastActive?) ==>
        a == WorkerStep(w) && w < |s.workers| && s.workers[w].Locked?
    ensures t.workers[w].Finishing? && !(w < |s.workers| && s.workers[w].Finishing?) ==>
        a == WorkerStep(w) && w < |s.workers| && s.workers[w].LastActive?
  {
    hide StepPusher, IsActive;
    if w >= |s.workers| {
      NewcomersStart(s, a, t, w);
    } else if a != WorkerStep(w) {
      OthersLeave(s, a, t, w);
    }
  }

  /** When worker w became the last active one. */
  lemma {:induction false} CountedOutLast(actions: seq<Action>, s: State, w: nat) returns (out: State)
    requires RunFrom(START, actions) == Some(s) && w < |s.workers| && s.workers[w].LastActive?
    ensures Reachable(out) && w < |out.workers| && out.workers[w].LastActive? && NoneActive(out)
    ensures Leads(Without(w), out, s)
    decreases |actions|
  {
    hide Step, Leads, NoneActive;
    LeadsNowhere(Without(w), s);
    NoWorkers();
    var fewer, a := actions[..|actions| - 1], actions[|actions| - 1];
    var r := RunFrom(START, fewer).value;
    FlaggerWaits(r, a, s, w);
    if w < |r.workers| && r.workers[w].LastActive? {
      out := CountedOutLast(fewer, r, w);
      LeadsOn(Without(w), out, r, a, s);
    } else {
      StepOfWorker(r, w);
      LastActiveExactly(r, w, s);
      out := s;
    }
  }

  lemma NoWorkers()
    ensures START.workers == []
  {
  }

  lemma StepOfWorker(s: State, w: nat)
    requires w < |s.workers|
    ensures Step(s, WorkerStep(w)) == StepWorker(s, w)
  {
  }

  /** When worker w, about to set the flag, saw nothing counted. */
  lemma {:induction false} SawNothing(actions: seq<Action>, s: State, w: nat)
    returns (out: State, looks: State, sees: State)
    requires RunFrom(START, actions) == Some(s) && w < |s.workers| && s.workers[w].Finishing?
    ensures Reachable(out) && w < |out.workers| && out.workers[w].LastActive? && NoneActive(out)
    ensures Leads(Without(w), out, looks) && w < |looks.workers| && StepWorker(looks, w) == Some(sees)
    ensures looks.workers[w].LastActive? && looks.queue == [] && NoneTaken(looks)
    ensures Leads(Without(w), sees, s)
    decreases |actions|
  {
    hide Step, StepWorker, Leads, NoneActive, NoneTaken;
    LeadsNowhere(Without(w), s);
    NoWorkers();
    var fewer, a := actions[..|actions| - 1], actions[|actions| - 1];
    var r := RunFrom(START, fewer).value;
    FlaggerWaits(r, a, s, w);
    if w < |r.workers| && r.workers[w].Finishing? {
      out, looks, sees := SawNothing(fewer, r, w);
      LeadsOn(Without(w), sees, r, a, s);
    } else {
      StepOfWorker(r, w);
      out := CountedOutLast(fewer, r, w);
      FinishingExactly(r, w, s);
      looks, sees := r, s;
    }
  }

  /** A call of push clears the flag, and only it does. */
  lemma OnlyPostClears(s: State, a: Action, t: State)
    requires Step(s, a) == Some(t)
    ensures a.Post? ==> !t.allFinished && t.posted == s.posted + 1
    ensures !a.Post? ==> (s.allFinished ==> t.allFinished) && t.posted == s.posted
  {
    hide NoneAsleep;
  }

  /** How the flag came to be set: some worker counted itself out when no other was active, later saw that nothing was
      queued or just taken, later set the flag, and since then nothing has been posted. */
  lemma {:induction false} FlagWasSet(actions: seq<Action>, s: State)
    returns (w: nat, out: State, looks: State, sees: State, sets: State, after: State)
    requires RunFrom(START, actions) == Some(s) && s.allFinished && s.posted > 0
    ensures Reachable(out) && w < |out.workers| && out.workers[w].LastActive? && NoneActive(out)
    ensures Leads(Without(w), out, looks) && w < |looks.workers| && StepWorker(looks, w) == Some(sees)
    ensures looks.workers[w].LastActive? && looks.queue == [] && NoneTaken(looks)
    ensures Leads(Without(w), sees, sets) && w < |sets.workers| && StepWorker(sets, w) == Some(after)
    ensures Reachable(sets) && sets.workers[w].Finishing? && Leads(NoPost, after, s)
    decreases |actions|
  {
    hide Step, StepWorker, Leads, NoneActive, NoneTaken;
    LeadsNowhere(NoPost, s);
    var fewer, a := actions[..|actions| - 1], actions[|actions| - 1];
    var r := RunFrom(START, fewer).value;
    OnlyPostClears(r, a, s);
    if r.allFinished {
      w, out, looks, sees, sets, after := FlagWasSet(fewer, r);
      LeadsOn(NoPost, after, r, a, s);
    } else {
      OnlyFinishingSets(r, a, s);
      w, sets, after := a.w, r, s;
      StepOfWorker(r, w);
      out, looks, sees := SawNothing(fewer, r, w);
    }
  }

  /** Every item posted has been run. */
  ghost predicate AllDone(s: State) {
    forall id: nat | id < s.posted :: Count(s.done, IsItem(id)) == 1
  }

  predicate Carries(p: Pusher) {
    p.Ready? || p.Entered? || p.Announced?
  }

  predicate Runs(w: Worker) {
    w.Taken? || w.Working?
  }

  /** No item is anywhere but among those done. */
  ghost predicate NothingLeft(s: State) {
    && s.queue == []
    && (forall w: nat | w < |s.workers| :: !Runs(s.workers[w]))
    && (forall p: nat | p < |s.pushers| :: !Carries(s.pushers[p]))
  }

  lemma NothingLeftIsDone(s: State)
    requires Inv(s)
    ensures NothingLeft(s) <==> AllDone(s)
  {
    hide Count, MutexHeld, CountersAgree, SleepySawNothing, EnoughAwake;
    if NothingLeft(s) {
      forall id: nat | id < s.posted ensures Count(s.done, IsItem(id)) == 1 {
        NowhereElse(s, id);
        assert Places(s, id) == One(id < s.posted);
      }
    }
    if AllDone(s) {
      forall w: nat | w < |s.workers| ensures !Runs(s.workers[w]) {
        if Runs(s.workers[w]) { OnlyDone(s, s.workers[w].item.id); }
        if Runs(s.workers[w]) { WorkerCounts(s, w); }
      }
      forall p: nat | p < |s.pushers| ensures !Carries(s.pushers[p]) {
        if Carries(s.pushers[p]) { OnlyDone(s, s.pushers[p].item.id); }
        if Carries(s.pushers[p]) { PusherCounts(s, p); }
      }
      if s.queue != [] { OnlyDone(s, s.queue[0].id); }
      if s.queue != [] { QueueCounts(s); }
    }
  }

  lemma NowhereElse(s: State, id: nat)
    requires NothingLeft(s)
    ensures Places(s, id) == Count(s.done, IsItem(id))
  {
    hide Count;
    CountSome(s.pushers, PusherHas(id));
    CountSome(s.queue, IsItem(id));
    CountSome(s.workers, WorkerHas(id));
  }

  /** An item that is done, or has not been posted, is nowhere else. */
  lemma OnlyDone(s: State, id: nat)
    requires EachOnce(s) && AllDone(s)
    ensures Count(s.pushers, PusherHas(id)) == Count(s.queue, IsItem(id)) == Count(s.workers, WorkerHas(id)) == 0
  {
    hide Count;
    assert Places(s, id) == One(id < s.posted);
  }

  lemma WorkerCounts(s: State, w: nat)
    requires w < |s.workers| && Runs(s.workers[w])
    ensures Count(s.workers, WorkerHas(s.workers[w].item.id)) > 0
  {
    hide Count;
    CountSome(s.workers, WorkerHas(s.workers[w].item.id));
    assert WorkerHas(s.workers[w].item.id)(s.workers[w]);
  }

  lemma PusherCounts(s: State, p: nat)
    requires p < |s.pushers| && Carries(s.pushers[p])
    ensures Count(s.pushers, PusherHas(s.pushers[p].item.id)) > 0
  {
    hide Count;
    CountSome(s.pushers, PusherHas(s.pushers[p].item.id));
    assert PusherHas(s.pushers[p].item.id)(s.pushers[p]);
  }

  lemma QueueCounts(s: State)
    requires s.queue != []
    ensures Count(s.queue, IsItem(s.queue[0].id)) > 0
  {
    hide Count;
    CountSome(s.queue, IsItem(s.queue[0].id));
    assert IsItem(s.queue[0].id)(s.queue[0]);
  }

  /** No call of push waits for the mutex. */
  ghost predicate NoneWaiting(s: State) {
    forall p: nat | p < |s.pushers| :: !s.pushers[p].Ready?
  }

  ghost predicate NoneRunning(s: State) {
    forall w: nat | w < |s.workers| :: !s.workers[w].Working?
  }

  /** When the flag is set nothing is queued or just taken, and calls of push have returned or wait. */
  lemma SetterSeesNothing(s: State, w: nat)
    requires Inv(s) && w < |s.workers| && s.workers[w].Finishing?
    ensures s.owner == ByWorker(w) && s.size == 0 && s.queue == []
    ensures forall v: nat | v < |s.workers| :: !s.workers[v].Taken?
    ensures forall p: nat | p < |s.pushers| :: s.pushers[p].Ready? || s.pushers[p].Returned?
  {
    hide Count, EnoughAwake, EachOnce;
    assert WorkerLocks(s.workers[w]) <==> s.owner == ByWorker(w);
    assert HasSeenNothing(s.workers[w]);
    CountSome(s.workers, TAKEN);
    forall v: nat | v < |s.workers| ensures !s.workers[v].Taken? {
      assert !TAKEN(s.workers[v]);
    }
    forall p: nat | p < |s.pushers| ensures s.pushers[p].Ready? || s.pushers[p].Returned? {
      assert PusherLocks(s.pushers[p]) <==> s.owner == ByPusher(p);
    }
  }

  /** All calls of push have returned and nothing is queued: so it stays until the next one. */
  ghost predicate Quiet(s: State) {
    s.queue == [] && forall p: nat | p < |s.pushers| :: s.pushers[p].Returned?
  }

  lemma QuietStays(s: State, a: Action, t: State)
    requires Quiet(s) && NoPost.Has(a) && Step(s, a) == Some(t)
    ensures Quiet(t) && (NothingLeft(s) ==> NothingLeft(t))
  {
    hide NoneAsleep;
  }

  lemma FlagStays(s: State, a: Action, t: State)
    requires s.allFinished && NoPost.Has(a) && Step(s, a) == Some(t)
    ensures t.allFinished
  {
    hide NoneAsleep;
  }

  lemma FlagStaysSet(t: State, u: State)
    requires t.allFinished && Leads(NoPost, t, u)
    ensures u.allFinished
  {
    hide Step, Leads;
    forall x: State, a: Action, y: State | x.allFinished && NoPost.Has(a) && Step(x, a) == Some(y)
        ensures y.allFinished {
      FlagStays(x, a, y);
    }
    LeadsStays(NoPost, t, u, (x: State) => x.allFinished);
  }

  lemma QuietForGood(t: State, u: State)
    requires Quiet(t) && Leads(NoPost, t, u)
    ensures Quiet(u)
  {
    hide Step, Leads, Quiet, NothingLeft;
    forall x: State, a: Action, y: State | Quiet(x) && NoPost.Has(a) && Step(x, a) == Some(y) ensures Quiet(y) {
      QuietStays(x, a, y);
    }
    LeadsStays(NoPost, t, u, (x: State) => Quiet(x));
  }

  lemma NothingLeftForGood(t: State, u: State)
    requires Quiet(t) && NothingLeft(t) && Leads(NoPost, t, u)
    ensures NothingLeft(u)
  {
    hide Step, Leads, Quiet, NothingLeft;
    forall x: State, a: Action, y: State | Quiet(x) && NothingLeft(x) && NoPost.Has(a) && Step(x, a) == Some(y)
      ensures Quiet(y) && NothingLeft(y)
    {
      QuietStays(x, a, y);
    }
    LeadsStays(NoPost, t, u, (x: State) => Quiet(x) && NothingLeft(x));
  }

  /** The worker that has set the flag goes on to release the mutex. */
  lemma SetterReleases(s: State, w: nat) returns (u: State)
    requires w < |s.workers| && s.workers[w].Left? && s.owner == ByWorker(w) && s.size == 0
    ensures Leads(NoPost, s, u) && u.owner == Free && u.pushers == s.pushers && u.queue == s.queue
  {
    hide RunFrom, StepPusher;
    LeadsNowhere(NoPost, s);
    var t := StepWorker(s, w).value;
    LeadsOn(NoPost, s, s, WorkerStep(w), t);
    var t2 := StepWorker(t, w).value;
    LeadsOn(NoPost, s, t, WorkerStep(w), t2);
    u := t2;
    if t2.workers[w].Sleepy? {
      u := StepWorker(t2, w).value;
      LeadsOn(NoPost, s, t2, WorkerStep(w), u);
    }
  }

  /** A call of push that waits goes on to queue its item. */
  lemma WaitingQueues(s: State, p: nat) returns (u: State)
    requires p < |s.pushers| && s.pushers[p].Ready? && s.owner == Free
    ensures Leads(NoPost, s, u) && u.queue != []
  {
    hide RunFrom, StepWorker, NoneAsleep;
    LeadsNowhere(NoPost, s);
    var a := StepPusher(s, p, 0).value;
    LeadsOn(NoPost, s, s, PusherStep(p, 0), a);
    var b := StepPusher(a, p, 0).value;
    LeadsOn(NoPost, s, a, PusherStep(p, 0), b);
    u := StepPusher(b, p, 0).value;
    LeadsOn(NoPost, s, b, PusherStep(p, 0), u);
  }

  /** Once a worker has set the flag it stays set until the next call of push. Until then the queue stays empty
      exactly if no call of push was waiting for the mutex when the flag was set; and it tells the truth, every item
      posted has been run, exactly if no worker was running one either. */
  lemma FinishedFlagExactly(s: State, w: nat, t: State)
    requires Reachable(s) && w < |s.workers| && s.workers[w].Finishing? && StepWorker(s, w) == Some(t)
    ensures t.allFinished && forall u | Leads(NoPost, t, u) :: u.allFinished
    ensures (forall u | Leads(NoPost, t, u) :: u.queue == []) <==> NoneWaiting(s)
    ensures (forall u | Leads(NoPost, t, u) :: AllDone(u)) <==> NoneWaiting(s) && NoneRunning(s)
  {
    hide Inv, AllDone, Leads, RunFrom;
    ReachableIsSound(s);
    SetterSeesNothing(s, w);
    StepKeeps(s, WorkerStep(w), t);
    LeadsNowhere(NoPost, t);
    NothingLeftIsDone(t);
    forall u | Leads(NoPost, t, u) ensures u.allFinished { FlagStaysSet(t, u); }
    if NoneWaiting(s) {
      forall u | Leads(NoPost, t, u) ensures u.queue == [] { QuietForGood(t, u); }
      if NoneRunning(s) {
        forall u | Leads(NoPost, t, u) ensures AllDone(u) {
          NothingLeftForGood(t, u);
          LeadsKeeps(NoPost, t, u);
          NothingLeftIsDone(u);
        }
      } else {
        var v: nat :| v < |s.workers| && s.workers[v].Working?;
        assert Runs(t.workers[v]);
      }
    } else {
      var p: nat :| p < |s.pushers| && s.pushers[p].Ready?;
      assert Carries(t.pushers[p]);
      var free := SetterReleases(t, w);
      var u := WaitingQueues(free, p);
      LeadsTwice(NoPost, t, free, u);
    }
  }

  // ---- two interleavings ----

  lemma ReachableStep(s: State, a: Action) returns (t: State)
    requires Reachable(s) && Step(s, a).Some?
    ensures Reachable(t) && Step(s, a) == Some(t)
  {
    hide Step, RunFrom;
    t := Step(s, a).value;
    var actions :| RunFrom(START, actions) == Some(s);
    RunOn(START, actions, s, a, t);
  }

  lemma NothingRun()
    ensures Reachable(START)
  {
    assert RunFrom(START, []) == Some(START);
  }

  /** Two workers; the first has found the queue empty. */
  lemma LooksForWork() returns (s: State)
    ensures Reachable(s) && s == State([Locking(Std), Starting], [], Free, [], 0, 1, 0, 2, true, [], 0)
  {
    hide RunFrom, StepPusher;
    NothingRun();
    s := ReachableStep(START, Spawn);
    s := ReachableStep(s, Spawn);
    s := ReachableStep(s, WorkerStep(0));
    s := ReachableStep(s, WorkerStep(0));
    assert s.workers == [Locking(Std), Starting];
  }

  /** A call of push begins, and the first worker, the only active one, sees nothing counted. */
  lemma FinishesBeforePush() returns (s: State)
    ensures Reachable(s) && s.workers == [Finishing(Std), Starting] && s.pushers == [Ready(Item(0, Std))]
  {
    hide RunFrom, StepPusher;
    s := LooksForWork();
    s := ReachableStep(s, Post(Std));
    s := ReachableStep(s, WorkerStep(0));
    s := ReachableStep(s, WorkerStep(0));
    s := ReachableStep(s, WorkerStep(0));
    assert s.workers == [Finishing(Std), Starting] && s.pushers == [Ready(Item(0, Std))];
  }

  /** A call of push comes and returns. */
  lemma PushReturns() returns (s: State)
    ensures Reachable(s)
    ensures s == State([Locking(Std), Starting], [Returned], Free, [Item(0, Std)], 1, 1, 0, 2, false, [], 1)
  {
    hide RunFrom, StepWorker;
    s := LooksForWork();
    s := ReachableStep(s, Post(Std));
    s := ReachableStep(s, PusherStep(0, 0));
    s := ReachableStep(s, PusherStep(0, 0));
    s := ReachableStep(s, PusherStep(0, 0));
    assert NoneAsleep(s);
    s := ReachableStep(s, PusherStep(0, 0));
    s := ReachableStep(s, PusherStep(0, 0));
    assert s.pushers == [Returned] && s.queue == [Item(0, Std)];
  }

  /** The first worker counts itself inactive, the second takes the item and counts it down, and the first sees
      nothing counted. */
  lemma FinishesWhileRunning() returns (s: State)
    ensures Reachable(s) && s.workers == [Finishing(Std), Working(Item(0, Std))] && s.pushers == [Returned]
  {
    hide RunFrom, StepPusher;
    s := PushReturns();
    s := ReachableStep(s, WorkerStep(0));
    s := ReachableStep(s, WorkerStep(0));
    s := ReachableStep(s, WorkerStep(1));
    s := ReachableStep(s, WorkerStep(1));
    s := ReachableStep(s, WorkerStep(1));
    s := ReachableStep(s, WorkerStep(0));
    assert s.workers == [Finishing(Std), Working(Item(0, Std))];
  }

  /** The flag is cleared before the mutex is taken, so a worker that was about to go idle can set it again, and it
      can stay set while an item is queued; and a worker that is not yet counted as active can run an item, whose push
      has returned, while the flag is set. */
  lemma FinishedFlagMayBeWrong() returns (s: State, t: State)
    ensures Reachable(s) && s.allFinished && s.queue != []
    ensures Reachable(t) && t.allFinished && t.pushers == [Returned] && exists w: nat ::
        w < |t.workers| && t.workers[w].Working?
  {
    hide RunFrom, Step, Leads;
    var a := FinishesBeforePush();
    var b := SetsFlag(a);
    FinishedFlagExactly(a, 0, b);
    assert a.pushers[0].Ready?;
    s :| Leads(NoPost, b, s) && s.queue != [];
    ReachableOn(b, s);
    var c := FinishesWhileRunning();
    t := SetsFlag(c);
    assert t.workers[1].Working?;
  }

  lemma SetsFlag(s: State) returns (t: State)
    requires Reachable(s) && s.workers != [] && s.workers[0].Finishing?
    ensures StepWorker(s, 0) == Some(t) && Reachable(t) && t.allFinished && t.pushers == s.pushers
    ensures |t.workers| == |s.workers| && forall w: nat | 0 < w < |s.workers| :: t.workers[w] == s.workers[w]
  {
    hide RunFrom;
    t := ReachableStep(s, WorkerStep(0));
  }

  lemma ReachableOn(s: State, t: State)
    requires Reachable(s) && Leads(NoPost, s, t)
    ensures Reachable(t)
  {
    hide RunFrom, Step;
    var first :| RunFrom(START, first) == Some(s);
    var later :| RunFrom(s, later) == Some(t);
    RunsJoin(START, first, s, later, t);
  }

  lemma {:induction false} RunsJoin(r: State, first: seq<Action>, s: State, later: seq<Action>, t: State)
    requires RunFrom(r, first) == Some(s) && RunFrom(s, later) == Some(t)
    ensures RunFrom(r, first + later) == Some(t)
    decreases |later|
  {
    hide Step;
    if later == [] {
      assert first + later == first;
    } else {
      var fewer, last := later[..|later| - 1], later[|later| - 1];
      var v := RunFrom(s, fewer).value;
      RunsJoin(r, first, s, fewer, v);
      RunOn(r, first + fewer, v, last, t);
      assert first + later == first + fewer + [last];
    }
  }

  lemma RunOn(s: State, actions: seq<Action>, t: State, a: Action, u: State)
    requires RunFrom(s, actions) == Some(t) && Step(t, a) == Some(u)
    ensures RunFrom(s, actions + [a]) == Some(u)
  {
    hide Step;
    assert (actions + [a])[..|actions|] == actions;
  }
}
