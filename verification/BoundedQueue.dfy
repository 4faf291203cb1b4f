/** BoundedBlockingQueue: producers and consumers that share a ring buffer, one mutex and two condition variables.
    Every step of every thread is a step of the state machine, in any interleaving of any number of threads.
    A notification wakes one waiting thread, and a waiting thread may also wake up by itself at any time. */
module BoundedQueue {
  import opened Basics
  import opened Threads

  datatype Kind = Putting | Taking

  datatype Op<T> = Put(x: T) | Take {
    function Kind(): Kind { if Put? then Putting else Taking }
  }

  /** Where a thread stands in put or take:
      MutexLock::lock (Lock, Assign), the loop test (Test), Condition::wait (Unassign, Block, Parked, Woken, Reassign),
      the change of the queue (Update), the notification (Notify), and MutexLock::unlock (Release, Unlock). */
  datatype Stage = Lock | Assign | Test
    | Unassign | Block | Parked | Woken | Reassign | Update | Notify | Release | Unlock {
    /** The thread owns the pthread mutex. */
    predicate Owns() { !Lock? && !Parked? && !Woken? }

    /** The thread has written its identifier to holder_ and has not cleared it. */
    predicate Assigned() { Test? || Unassign? || Update? || Notify? || Release? }
  }

  /** A call under way, and the elements it has got from the queue. */
  datatype Thread<T> = Thread(op: Op<T>, stage: Stage, got: seq<T>) {
    predicate Is(k: Kind, st: Stage) { op.Kind() == k && stage == st }
  }

  datatype State<T> = State(
    capacity: nat, queue: seq<T>, mutex: Option<Tid>, holder: int, threads: map<Tid, Thread<T>>,
    puts: seq<T>, taken: seq<T>)
  {
    /** How many operations of this kind could go ahead: free slots for put, elements for take. */
    function Room(k: Kind): int { if k == Putting then capacity - |queue| else |queue| }

    predicate At(t: Tid, st: Stage) { t in threads && threads[t].stage == st }

    ghost predicate Waiting(k: Kind) { exists t :: t in threads && threads[t].Is(k, Parked) }

    function Move(t: Tid, st: Stage): State<T>
      requires t in threads
    {
      this.(threads := threads[t := threads[t].(stage := st)])
    }

    function Hand(t: Tid, st: Stage, xs: seq<T>): State<T>
      requires t in threads
    {
      this.(threads := threads[t := threads[t].(stage := st, got := xs)])
    }
  }

  function Other(k: Kind): Kind { if k == Putting then Taking else Putting }

  ghost predicate Init<T>(s: State<T>) {
    s.queue == [] && s.mutex == None && s.holder == 0 && s.threads == map[] && s.puts == [] && s.taken == []
  }

  /** boost::circular_buffer::push_back, which overwrites the oldest element of a full buffer. */
  function PushBack<T>(capacity: nat, queue: seq<T>, x: T): seq<T> {
    if |queue| < capacity then queue + [x] else if queue == [] then [] else queue[1..] + [x]
  }

  /** A thread calls put or take; a thread makes its next step; a thread notifies and thereby wakes another one;
      a waiting thread wakes up by itself. */
  datatype Action<T> = Enter(t: Tid, op: Op<T>) | Run(t: Tid) | Wake(t: Tid, woken: Tid) | Spurious(t: Tid)

  /** When a step can be made. That a take finds an element to take holds no thread up:
      by FirstInFirstOut it always does. */
  ghost predicate Enabled<T>(s: State<T>, a: Action<T>) {
    match a
    case Enter(t, _) => t !in s.threads
    case Run(t) =>
      && t in s.threads && !s.At(t, Parked)
      && (s.At(t, Lock) || s.At(t, Woken) ==> s.mutex == None)
      && (s.At(t, Update) && s.threads[t].op.Take? ==> s.queue != [])
      && (s.At(t, Notify) ==> !s.Waiting(Other(s.threads[t].op.Kind())))
    case Wake(t, w) => s.At(t, Notify) && w in s.threads && s.threads[w].Is(Other(s.threads[t].op.Kind()), Parked)
    case Spurious(t) => s.At(t, Parked)
  }

  ghost function Do<T>(s: State<T>, a: Action<T>): State<T>
    requires Enabled(s, a)
  {
    match a
    case Enter(t, op) => s.(threads := s.threads[t := Thread(op, Lock, [])])
    case Wake(t, w) => s.Move(w, Woken).Move(t, Release)
    case Spurious(t) => s.Move(t, Woken)
    case Run(t) =>
      var th := s.threads[t];
      match th.stage
      case Lock => s.Move(t, Assign).(mutex := Some(t))
      case Assign => s.Move(t, Test).(holder := t)
      case Test => s.Move(t, if s.Room(th.op.Kind()) > 0 then Update else Unassign)
      case Unassign => s.Move(t, Block).(holder := 0)
      case Block => s.Move(t, Parked).(mutex := None)
      case Parked => s
      case Woken => s.Move(t, Reassign).(mutex := Some(t))
      case Reassign => s.Move(t, Test).(holder := t)
      case Update =>
        if th.op.Put? then
          s.Move(t, Notify).(queue := PushBack(s.capacity, s.queue, th.op.x), puts := s.puts + [th.op.x])
        else s.Hand(t, Notify, [s.queue[0]]).(queue := s.queue[1..], taken := s.taken + [s.queue[0]])
      case Notify => s.Move(t, Release)
      case Release => s.Move(t, Unlock).(holder := 0)
      case Unlock => s.(mutex := None, threads := s.threads - {t})
  }

  // ---------- the invariant

  /** The mutex is owned by the thread whose stage says so, and by no other. */
  ghost predicate MutexInv<T>(s: State<T>) {
    && (s.mutex.Some? ==> s.mutex.value in s.threads)
    && (forall t :: t in s.threads ==> (s.threads[t].stage.Owns() <==> s.mutex == Some(t)))
  }

  ghost predicate HolderInv<T>(s: State<T>) {
    s.holder == if s.mutex.Some? && s.mutex.value in s.threads && s.threads[s.mutex.value].stage.Assigned()
      then s.mutex.value else 0
  }

  /** What the owner of the mutex knows about the queue. */
  ghost predicate OwnerInv<T>(s: State<T>) {
    s.mutex.Some? && s.mutex.value in s.threads ==>
      var th := s.threads[s.mutex.value];
      && (th.stage.Update? ==> s.Room(th.op.Kind()) > 0)
      && (th.stage.Unassign? || th.stage.Block? ==> s.Room(th.op.Kind()) == 0)
  }

  ghost predicate FifoInv<T>(s: State<T>) { |s.queue| <= s.capacity && s.puts == s.taken + s.queue }

  /** Threads that have been woken and have not tested again. */
  function WokenWeight<T>(k: Kind): Thread<T> -> nat {
    (th: Thread<T>) => if th.Is(k, Woken) || th.Is(k, Reassign) then 1 else 0
  }

  ghost function WokenCount<T>(s: State<T>, k: Kind): nat { Sum(s.threads, WokenWeight(k)) }

  /** One if the owner of the mutex is about to use up one unit of room, or to notify that there is one more. */
  function Pending<T>(s: State<T>, k: Kind): nat {
    if s.mutex.Some? && s.mutex.value in s.threads
       && (var th := s.threads[s.mutex.value];
            th.Is(k, Test) || th.Is(k, Update) || th.Is(Other(k), Notify)) then 1 else 0
  }

  ghost predicate WakeInv<T>(s: State<T>, k: Kind) {
    s.Waiting(k) ==> s.Room(k) <= WokenCount(s, k) + Pending(s, k)
  }

  ghost predicate Inv<T>(s: State<T>) {
    MutexInv(s) && HolderInv(s) && OwnerInv(s) && FifoInv(s) && WakeInv(s, Putting) && WakeInv(s, Taking)
  }

  lemma InitInv<T>(s: State<T>)
    requires Init(s)
    ensures Inv(s)
  {
  }

  lemma StepMutex<T>(s: State<T>, a: Action<T>)
    requires MutexInv(s) && Enabled(s, a)
    ensures MutexInv(Do(s, a))
  {
    match a
    case Run(t) => RunMutex(s, t);
    case _ =>
  }

  lemma RunMutex<T>(s: State<T>, t: Tid)
    requires MutexInv(s) && Enabled(s, Run(t))
    ensures MutexInv(Do(s, Run(t)))
  {
  }

  lemma StepHolder<T>(s: State<T>, a: Action<T>)
    requires MutexInv(s) && HolderInv(s) && Enabled(s, a)
    ensures HolderInv(Do(s, a))
  {
  }

  lemma StepOwner<T>(s: State<T>, a: Action<T>)
    requires MutexInv(s) && OwnerInv(s) && FifoInv(s) && Enabled(s, a)
    ensures OwnerInv(Do(s, a)) && FifoInv(Do(s, a))
  {
    if a.Run? && s.At(a.t, Update) {
      var op := s.threads[a.t].op;
      if op.Put? {
        assert s.taken + (s.queue + [op.x]) == s.taken + s.queue + [op.x];
      } else {
        assert s.taken + [s.queue[0]] + s.queue[1..] == s.taken + s.queue;
      }
    }
  }

  /** Unless a thread has just found no room, a step leaves no more room than woken threads and
      the owner will use up. */
  lemma RoomAfter<T>(s: State<T>, a: Action<T>, k: Kind)
    requires MutexInv(s) && OwnerInv(s) && FifoInv(s) && Enabled(s, a)
    requires s.Waiting(k) && WakeInv(s, k)
    ensures var s2 := Do(s, a); s2.Room(k) <= WokenCount(s2, k) + Pending(s2, k)
  {
    hide Sum, WokenWeight, WokenCount, FifoInv;
    CountAfter(s, a, k);
    match a
    case Run(t) => RoomAfterRun(s, t, k);
    case _ =>
  }

  lemma RoomAfterRun<T>(s: State<T>, t: Tid, k: Kind)
    requires MutexInv(s) && OwnerInv(s) && FifoInv(s) && Enabled(s, Run(t))
    requires s.Waiting(k) && WakeInv(s, k)
    ensures var s2 := Do(s, Run(t)); s2.Room(k) <= WokenCount(s2, k) + Pending(s2, k)
  {
    hide Sum, WokenWeight, WokenCount;
    CountAfter(s, Run(t), k);
  }

  lemma StepWake<T>(s: State<T>, a: Action<T>, k: Kind)
    requires Inv(s) && Enabled(s, a)
    ensures WakeInv(Do(s, a), k)
  {
    hide Sum, WokenWeight, WokenCount;
    if s.Waiting(k) {
      RoomAfter(s, a, k);
    } else if Do(s, a).Waiting(k) {
      FirstParked(s, a, k);
    }
  }

  /** The first thread that waits has found no room. */
  lemma FirstParked<T>(s: State<T>, a: Action<T>, k: Kind)
    requires MutexInv(s) && OwnerInv(s) && Enabled(s, a) && !s.Waiting(k) && Do(s, a).Waiting(k)
    ensures Do(s, a).Room(k) == 0
  {
    var s2 := Do(s, a);
    var w :| w in s2.threads && s2.threads[w].Is(k, Parked);
    assert !(w in s.threads && s.threads[w].Is(k, Parked));
    assert a == Run(w) && s.At(w, Block);
  }

  /** How a step changes the number of woken threads of a kind. */
  lemma CountAfter<T>(s: State<T>, a: Action<T>, k: Kind)
    requires Enabled(s, a)
    ensures WokenCount(Do(s, a), k) == WokenCount(s, k) +
      match a
      case Enter(_, _) => 0
      case Wake(_, w) => if s.threads[w].op.Kind() == k then 1 else 0
      case Spurious(t) => if s.threads[t].op.Kind() == k then 1 else 0
      case Run(t) => if s.threads[t].Is(k, Reassign) then -1 else 0
  {
    hide Sum;
    var f := WokenWeight<T>(k);
    var m := s.threads;
    var t := a.t;
    match a
    case Enter(_, op) => SumSet(m, f, t, Thread(op, Lock, []));
    case Spurious(_) => SumSet(m, f, t, m[t].(stage := Woken));
    case Wake(_, w) =>
      var m1 := m[w := m[w].(stage := Woken)];
      SumSet(m, f, w, m1[w]);
      SumSet(m1, f, t, m1[t].(stage := Release));
    case Run(_) => CountAfterRun(s, t, k);
  }

  lemma CountAfterRun<T>(s: State<T>, t: Tid, k: Kind)
    requires Enabled(s, Run(t))
    ensures WokenCount(Do(s, Run(t)), k) == WokenCount(s, k) + if s.threads[t].Is(k, Reassign) then -1 else 0
  {
    hide Sum, Do, Enabled, Thread.Is;
    RunMoves(s, t, k);
    if s.threads[t].stage.Unlock? {
      SumWithout(s.threads, WokenWeight(k), t);
    } else {
      SumSet(s.threads, WokenWeight(k), t, Do(s, Run(t)).threads[t]);
    }
  }

  lemma RunMoves<T>(s: State<T>, t: Tid, k: Kind)
    requires Enabled(s, Run(t))
    ensures t in s.threads
    ensures s.threads[t].stage.Unlock? ==> Do(s, Run(t)).threads == s.threads - {t} && WokenWeight(k)(s.threads[t]) == 0
    ensures var ts := Do(s, Run(t)).threads; !s.threads[t].stage.Unlock? ==>
      && t in ts && ts == s.threads[t := ts[t]]
      && WokenWeight(k)(ts[t]) == WokenWeight(k)(s.threads[t]) + if s.threads[t].Is(k, Reassign) then -1 else 0
  {
  }

  lemma StepInv<T>(s: State<T>, a: Action<T>)
    requires Inv(s) && Enabled(s, a)
    ensures Inv(Do(s, a))
  {
    StepMutex(s, a);
    StepHolder(s, a);
    StepOwner(s, a);
    StepWake(s, a, Putting);
    StepWake(s, a, Taking);
  }

  // ---------- runs

  /** The actions can be taken one after the other. */
  ghost predicate IsRun<T>(s: State<T>, acts: seq<Action<T>>)
    decreases |acts|
  {
    acts != [] ==> Enabled(s, acts[0]) && IsRun(Do(s, acts[0]), acts[1..])
  }

  ghost function After<T>(s: State<T>, acts: seq<Action<T>>): State<T>
    requires IsRun(s, acts)
    decreases |acts|
  {
    if acts == [] then s else After(Do(s, acts[0]), acts[1..])
  }

  lemma {:induction false} RunInv<T>(s: State<T>, acts: seq<Action<T>>)
    requires Inv(s) && IsRun(s, acts)
    ensures Inv(After(s, acts)) && After(s, acts).capacity == s.capacity
    decreases |acts|
  {
    hide Inv;
    if acts != [] {
      StepInv(s, acts[0]);
      SameCapacity(s, acts[0]);
      RunInv(Do(s, acts[0]), acts[1..]);
    }
  }

  lemma SameCapacity<T>(s: State<T>, a: Action<T>)
    requires Enabled(s, a)
    ensures Do(s, a).capacity == s.capacity
  {
  }

  /** No lost wakeup: at every point of every run, while threads of a kind wait, there is at most as much room for them
      as woken threads will use up, and when the mutex is free this holds exactly. So producers and consumers
      never wait at the same time with nobody on the way to continue. */
  lemma NoLostWakeup<T>(init: State<T>, acts: seq<Action<T>>)
    requires Init(init) && IsRun(init, acts)
    ensures var s := After(init, acts);
      && (forall k :: s.Waiting(k) ==> s.Room(k) <= WokenCount(s, k) + Pending(s, k))
      && (s.mutex == None ==> forall k :: s.Waiting(k) ==> s.Room(k) <= WokenCount(s, k))
      && (init.capacity > 0 && s.Waiting(Putting) && s.Waiting(Taking) ==>
            0 < WokenCount(s, Putting) + WokenCount(s, Taking) + Pending(s, Putting) + Pending(s, Taking))
  {
    hide WokenCount, IsRun, After, Init, State.Waiting;
    InitInv(init);
    RunInv(init, acts);
    var s := After(init, acts);
    forall k ensures WakeInv(s, k) { if k != Putting { assert k == Taking; } }
  }

  /** At every point of every run the elements put so far are those taken so far followed by the content of the queue,
      the queue is within its capacity, and both assertions behind the wait loops hold. */
  lemma FirstInFirstOut<T>(init: State<T>, acts: seq<Action<T>>)
    requires Init(init) && IsRun(init, acts)
    ensures var s := After(init, acts);
      && s.puts == s.taken + s.queue && |s.queue| <= init.capacity
      && forall t :: s.At(t, Update) ==> s.Room(s.threads[t].op.Kind()) > 0
  {
    hide WakeInv, IsRun, After;
    InitInv(init);
    RunInv(init, acts);
  }

  /** At every point of every run a holder_ other than 0 names the thread that owns the mutex, a thread between lock and
      unlock is named by it whenever it touches the queue, and one that waits is not. */
  lemma HolderSound<T>(init: State<T>, acts: seq<Action<T>>)
    requires Init(init) && IsRun(init, acts)
    ensures var s := After(init, acts);
      && (s.holder != 0 ==> s.mutex.Some? && s.mutex.value == s.holder)
      && (forall t :: s.At(t, Test) || s.At(t, Update) || s.At(t, Notify) ==> s.mutex == Some(t) && s.holder == t)
      && (forall t :: s.At(t, Parked) || s.At(t, Woken) ==> s.mutex != Some(t) && s.holder != t)
  {
    hide WakeInv, OwnerInv, FifoInv, IsRun, After;
    InitInv(init);
    RunInv(init, acts);
  }

  /** holder_ is written only by the thread that owns the mutex, and then to its own name or to 0. */
  lemma HolderWrittenByOwner<T>(s: State<T>, a: Action<T>)
    requires MutexInv(s) && Enabled(s, a) && Do(s, a).holder != s.holder
    ensures a.Run? && s.mutex == Some(a.t) && (Do(s, a).holder == a.t || Do(s, a).holder == 0)
  {
  }

  /** isLockedByThisThread reads holder_ without the mutex. Its answer is sound all the same: whatever other threads do,
      a thread that makes no step of its own keeps getting the same answer. */
  lemma {:induction false} AnswerStays<T>(s: State<T>, acts: seq<Action<T>>, t: Tid)
    requires Inv(s) && IsRun(s, acts) && Run(t) !in acts
    ensures After(s, acts).holder == t <==> s.holder == t
    decreases |acts|
  {
    hide Do, Enabled, OwnerInv, FifoInv, WakeInv, MutexInv;
    if acts != [] {
      var a := acts[0];
      StepInv(s, a);
      if Do(s, a).holder != s.holder {
        HolderWrittenByOwner(s, a);
        assert a != Run(t) && a.t != t;
      }
      AnswerStays(Do(s, a), acts[1..], t);
    }
  }

  // ---------- what the calls do, one after the other

  /** A call takes effect in its Update step; this is the call with the elements it got. */
  datatype Event<T> = Event(op: Op<T>, got: seq<T>)

  ghost function Happened<T>(s: State<T>, a: Action<T>): seq<Event<T>>
    requires Enabled(s, a)
  {
    if a.Run? && s.At(a.t, Update) then [Event(s.threads[a.t].op, Do(s, a).threads[a.t].got)] else []
  }

  ghost function History<T>(s: State<T>, acts: seq<Action<T>>): seq<Event<T>>
    requires IsRun(s, acts)
    decreases |acts|
  {
    if acts == [] then [] else Happened(s, acts[0]) + History(Do(s, acts[0]), acts[1..])
  }

  /** What a plain queue allows: a put finds a free slot and gets nothing, and a take gets exactly the front element. */
  ghost predicate Plain<T>(capacity: nat, q: seq<T>, e: Event<T>) {
    match e.op
    case Put(x) => e.got == [] && |q| < capacity
    case Take => q != [] && e.got == [q[0]]
  }

  function PlainNext<T>(q: seq<T>, e: Event<T>): seq<T> {
    match e.op
    case Put(x) => q + [x]
    case Take => if q == [] then [] else q[1..]
  }

  ghost predicate PlainRun<T>(capacity: nat, q: seq<T>, es: seq<Event<T>>)
    decreases |es|
  {
    es != [] ==> Plain(capacity, q, es[0]) && PlainRun(capacity, PlainNext(q, es[0]), es[1..])
  }

  function PlainAfter<T>(q: seq<T>, es: seq<Event<T>>): seq<T>
    decreases |es|
  {
    if es == [] then q else PlainAfter(PlainNext(q, es[0]), es[1..])
  }

  /** The arguments of the put calls. */
  function PutsOf<T>(es: seq<Event<T>>): seq<T> {
    if es == [] then [] else (if es[0].op.Put? then [es[0].op.x] else []) + PutsOf(es[1..])
  }

  function GotsOf<T>(es: seq<Event<T>>): seq<T> {
    if es == [] then [] else es[0].got + GotsOf(es[1..])
  }

  /** Before its Update step a call has got nothing, and a put never gets anything. */
  ghost predicate GotInv<T>(s: State<T>) {
    forall t :: t in s.threads && (s.threads[t].op.Put? || Early(s.threads[t].stage)) ==> s.threads[t].got == []
  }

  predicate Early(st: Stage) { !st.Notify? && !st.Release? && !st.Unlock? }

  lemma StepGot<T>(s: State<T>, a: Action<T>)
    requires GotInv(s) && Enabled(s, a)
    ensures GotInv(Do(s, a))
  {
    match a
    case Run(t) => RunGot(s, t);
    case _ =>
  }

  lemma RunGot<T>(s: State<T>, t: Tid)
    requires GotInv(s) && Enabled(s, Run(t))
    ensures GotInv(Do(s, Run(t)))
  {
  }

  /** What a call got stays as it is until the call returns, whatever other threads do, and it does not return before
      it has taken effect. */
  lemma GotStays<T>(s: State<T>, a: Action<T>, t: Tid)
    requires Enabled(s, a) && t in s.threads && !(a == Run(t) && s.At(t, Update))
    ensures var after := Do(s, a).threads;
            if t in after then after[t].got == s.threads[t].got && after[t].op == s.threads[t].op
            else s.At(t, Unlock)
  {
  }

  /** One step as a step of a plain queue. */
  lemma StepPlain<T>(s: State<T>, a: Action<T>)
    requires GotInv(s) && MutexInv(s) && OwnerInv(s) && Enabled(s, a)
    ensures var es := Happened(s, a);
      && PlainRun(s.capacity, s.queue, es) && Do(s, a).queue == PlainAfter(s.queue, es)
      && Do(s, a).puts == s.puts + PutsOf(es) && Do(s, a).taken == s.taken + GotsOf(es)
  {
    var es := Happened(s, a);
    if a.Run? && s.At(a.t, Update) {
      assert es[1..] == [];
      assert PutsOf(es) == (if es[0].op.Put? then [es[0].op.x] else []) + [];
      assert GotsOf(es) == es[0].got + [];
    }
  }

  lemma PlainAppend<T>(capacity: nat, q: seq<T>, es: seq<Event<T>>, fs: seq<Event<T>>)
    requires |es| <= 1
    ensures PlainRun(capacity, q, es + fs) <==> PlainRun(capacity, q, es) && PlainRun(capacity, PlainAfter(q, es), fs)
    ensures PlainAfter(q, es + fs) == PlainAfter(PlainAfter(q, es), fs)
    ensures PutsOf(es + fs) == PutsOf(es) + PutsOf(fs) && GotsOf(es + fs) == GotsOf(es) + GotsOf(fs)
  {
    hide PlainRun, PlainAfter, PutsOf, GotsOf;
    NoEvents(capacity, q);
    if es == [] {
      assert es + fs == fs && [] + PutsOf(fs) == PutsOf(fs) && [] + GotsOf(fs) == GotsOf(fs);
    } else {
      assert es == [es[0]] && [es[0]] + [] == [es[0]];
      OneEvent(capacity, q, es[0], []);
      OneEvent(capacity, q, es[0], fs);
      NoEvents(capacity, PlainNext(q, es[0]));
    }
  }

  lemma {:induction false} OneEvent<T>(capacity: nat, q: seq<T>, e: Event<T>, fs: seq<Event<T>>)
    ensures PlainRun(capacity, q, [e] + fs) <==> Plain(capacity, q, e) && PlainRun(capacity, PlainNext(q, e), fs)
    ensures PlainAfter(q, [e] + fs) == PlainAfter(PlainNext(q, e), fs)
    ensures PutsOf([e] + fs) == (if e.op.Put? then [e.op.x] else []) + PutsOf(fs)
    ensures GotsOf([e] + fs) == e.got + GotsOf(fs)
  {
    hide Plain, PlainNext;
    assert ([e] + fs)[1..] == fs;
  }

  /** Over every run the calls, in the order in which they take effect, are calls of a plain bounded queue: they get
      what that one gives, the queue holds what that one holds, and the elements put are the arguments of the put
      calls. */
  lemma {:induction false} AsPlainQueue<T>(s: State<T>, acts: seq<Action<T>>)
    requires GotInv(s) && Inv(s) && IsRun(s, acts)
    ensures var es := History(s, acts);
      && PlainRun(s.capacity, s.queue, es) && After(s, acts).queue == PlainAfter(s.queue, es)
      && After(s, acts).puts == s.puts + PutsOf(es) && After(s, acts).taken == s.taken + GotsOf(es)
    decreases |acts|
  {
    hide Enabled, Do, GotInv, HolderInv, FifoInv, WakeInv, Happened, PlainRun, PlainAfter, PutsOf, GotsOf;
    if acts == [] {
      NoEvents(s.capacity, s.queue);
    } else {
      var a := acts[0];
      StepGot(s, a);
      StepInv(s, a);
      SameCapacity(s, a);
      StepPlain(s, a);
      AsPlainQueue(Do(s, a), acts[1..]);
      AtMostOne(s, a);
      PlainAppend(s.capacity, s.queue, Happened(s, a), History(Do(s, a), acts[1..]));
    }
  }

  lemma AtMostOne<T>(s: State<T>, a: Action<T>)
    requires Enabled(s, a)
    ensures |Happened(s, a)| <= 1
  {
    hide Do;
  }

  lemma NoEvents<T>(capacity: nat, q: seq<T>)
    ensures PlainRun(capacity, q, []) && PlainAfter(q, []) == q && PutsOf<T>([]) == [] && GotsOf<T>([]) == []
  {
  }

  lemma InitGot<T>(s: State<T>)
    requires Init(s)
    ensures GotInv(s)
  {
  }

  /** From a new queue: what the calls put and got over a whole run, whatever the threads and their steps, is what they
      would put and get if each took effect at once, in the order of their Update steps. */
  lemma Linearizable<T>(init: State<T>, acts: seq<Action<T>>)
    requires Init(init) && IsRun(init, acts)
    ensures var s, es := After(init, acts), History(init, acts);
      && PlainRun(init.capacity, [], es) && s.queue == PlainAfter([], es)
      && s.puts == PutsOf(es) && s.taken == GotsOf(es)
  {
    hide IsRun, After, History, PlainRun, PlainAfter, PutsOf, GotsOf;
    InitGot(init);
    InitInv(init);
    AsPlainQueue(init, acts);
    var es := History(init, acts);
    assert [] + PutsOf(es) == PutsOf(es) && [] + GotsOf(es) == GotsOf(es);
  }

  // ---------- progress

  /** A step of a call that is under way, which no other event has to trigger. */
  ghost predicate CanMove<T>(s: State<T>, a: Action<T>) { (a.Run? || a.Wake?) && Enabled(s, a) }

  ghost predicate Quiet<T(!new)>(s: State<T>) { forall a: Action<T> :: !CanMove(s, a) }

  /** No deadlock: nothing moves only when every call under way waits; then there is no room for those that wait,
      and they are all of one kind. */
  lemma NoDeadlock<T(!new)>(init: State<T>, acts: seq<Action<T>>)
    requires Init(init) && IsRun(init, acts)
    ensures var s := After(init, acts);
      && (Quiet(s) <==> forall t :: t in s.threads ==> s.At(t, Parked))
      && (Quiet(s) ==> forall k :: s.Waiting(k) ==> s.Room(k) == 0)
      && (Quiet(s) && init.capacity > 0 ==> !(s.Waiting(Putting) && s.Waiting(Taking)))
  {
    hide IsRun, After, State.Waiting;
    InitInv(init);
    RunInv(init, acts);
    var s := After(init, acts);
    if Quiet(s) {
      QuietParked(s);
      QuietRoom(s, Putting);
      QuietRoom(s, Taking);
    }
  }

  lemma QuietParked<T(!new)>(s: State<T>)
    requires MutexInv(s) && OwnerInv(s) && Quiet(s)
    ensures s.mutex == None && forall t :: t in s.threads ==> s.At(t, Parked)
  {
    if s.mutex.Some? {
      var o := s.mutex.value;
      assert !CanMove(s, Run(o));
      assert s.At(o, Notify);
      var w :| w in s.threads && s.threads[w].Is(Other(s.threads[o].op.Kind()), Parked);
      assert CanMove(s, Wake(o, w));
    }
    forall t | t in s.threads ensures s.At(t, Parked) {
      assert !CanMove(s, Run(t));
    }
  }

  lemma QuietRoom<T>(s: State<T>, k: Kind)
    requires FifoInv(s) && WakeInv(s, k) && s.mutex == None && forall t :: t in s.threads ==> s.At(t, Parked)
    ensures s.Waiting(k) ==> s.Room(k) == 0
  {
    SumPositive(s.threads, WokenWeight(k));
  }

  /** How far a thread is from the end of its call; a thread before its notification also carries
      the steps of the thread it may wake. */
  function Distance<T>(): Thread<T> -> nat {
    (th: Thread<T>) => match th.stage
      case Lock => 27 case Assign => 26 case Test => 25 case Update => 24 case Notify => 23
      case Release => 2 case Unlock => 1
      case Unassign => 22 case Block => 21 case Parked => 20 case Woken => 27 case Reassign => 26
  }

  ghost function StepsLeft<T>(s: State<T>): nat { Sum(s.threads, Distance()) }

  lemma StepsDecrease<T>(s: State<T>, a: Action<T>)
    requires CanMove(s, a)
    ensures StepsLeft(Do(s, a)) < StepsLeft(s)
  {
    hide Sum;
    var f := Distance<T>();
    var m := s.threads;
    var t := a.t;
    if a.Wake? {
      var w := a.woken;
      var m1 := m[w := m[w].(stage := Woken)];
      SumSet(m, f, w, m1[w]);
      SumSet(m1, f, t, m1[t].(stage := Release));
    } else if m[t].stage.Unlock? {
      SumWithout(m, f, t);
    } else {
      SumSet(m, f, t, Do(s, a).threads[t]);
    }
  }

  /** Once no further call begins and no thread wakes up by itself, every run ends within a number of steps
      that is known beforehand. */
  lemma {:induction false} RunsEnd<T>(s: State<T>, acts: seq<Action<T>>)
    requires IsRun(s, acts) && forall a :: a in acts ==> a.Run? || a.Wake?
    ensures |acts| <= StepsLeft(s)
    decreases |acts|
  {
    hide StepsLeft, Enabled;
    if acts != [] {
      StepsDecrease(s, acts[0]);
      RunsEnd(Do(s, acts[0]), acts[1..]);
    }
  }
}
