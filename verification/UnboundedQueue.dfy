/** BlockingQueue and CThreadSafeQueue: producers and consumers that share an unbounded queue,
    one mutex and one condition
    variable. The first notifies while it owns the mutex, the second after it has unlocked it (late).
    The steps of holder_ are those of BoundedQueue and are not repeated here. */
module UnboundedQueue {
  import opened Basics
  import opened Threads

  datatype Op<T> = Put(x: T) | Take | Drain

  datatype Stage = Lock | Test | Block | Parked | Woken | Update | Notify | Unlock

  /** A call under way, and the elements it has got from the queue. */
  datatype Thread<T> = Thread(op: Op<T>, stage: Stage, got: seq<T>) {
    /** The thread owns the mutex. */
    predicate Owns(late: bool) {
      stage.Test? || stage.Block? || stage.Update? || stage.Unlock? || (stage.Notify? && !late)
    }
  }

  datatype State<T> = State(
    late: bool, queue: seq<T>, mutex: Option<Tid>, threads: map<Tid, Thread<T>>, puts: seq<T>, taken: seq<T>)
  {
    predicate At(t: Tid, st: Stage) { t in threads && threads[t].stage == st }

    ghost predicate Waiting() { exists t :: At(t, Parked) }

    function Move(t: Tid, st: Stage): State<T>
      requires t in threads
    {
      this.(threads := threads[t := threads[t].(stage := st)])
    }

    function Hand(t: Tid, st: Stage, xs: seq<T>): State<T>
      requires t in threads
    {
      this.(threads := threads[t := threads[t].(stage := st, got := xs)])
    }

    function Leave(t: Tid): State<T> { this.(threads := threads - {t}) }
  }

  ghost predicate Init<T>(s: State<T>) {
    s.queue == [] && s.mutex == None && s.threads == map[] && s.puts == [] && s.taken == []
  }

  datatype Action<T> = Enter(t: Tid, op: Op<T>) | Run(t: Tid) | Wake(t: Tid, woken: Tid) | Spurious(t: Tid)

  /** When a step can be made. That a take finds an element to take holds no thread up:
      by FirstInFirstOut it always does. */
  ghost predicate Enabled<T>(s: State<T>, a: Action<T>) {
    match a
    case Enter(t, _) => t !in s.threads
    case Run(t) =>
      && t in s.threads && !s.At(t, Parked)
      && (s.At(t, Lock) || s.At(t, Woken) ==> s.mutex == None)
      && (s.At(t, Update) && s.threads[t].op.Take? ==> s.queue != [])
      && (s.At(t, Notify) ==> !s.Waiting())
    case Wake(t, w) => s.At(t, Notify) && s.At(w, Parked)
    case Spurious(t) => s.At(t, Parked)
  }

  /** A notifier goes on: it still has to unlock the mutex, or it is done. */
  function Notified<T>(s: State<T>, t: Tid): State<T>
    requires t in s.threads
  {
    if s.late then s.Leave(t) else s.Move(t, Unlock)
  }

  ghost function Do<T>(s: State<T>, a: Action<T>): State<T>
    requires Enabled(s, a)
  {
    match a
    case Enter(t, op) => s.(threads := s.threads[t := Thread(op, Lock, [])])
    case Wake(t, w) => Notified(s.Move(w, Woken), t)
    case Spurious(t) => s.Move(t, Woken)
    case Run(t) =>
      var op := s.threads[t].op;
      match s.threads[t].stage
      case Lock => s.Move(t, if op.Take? then Test else Update).(mutex := Some(t))
      case Test => s.Move(t, if s.queue == [] then Block else Update)
      case Block => s.Move(t, Parked).(mutex := None)
      case Parked => s
      case Woken => s.Move(t, Test).(mutex := Some(t))
      case Update => (
        match op
        case Put(x) => s.Move(t, if s.late then Unlock else Notify).(queue := s.queue + [x], puts := s.puts + [x])
        case Take => s.Hand(t, Unlock, [s.queue[0]]).(queue := s.queue[1..], taken := s.taken + [s.queue[0]])
        case Drain => s.Hand(t, Unlock, s.queue).(queue := [], taken := s.taken + s.queue))
      case Notify => Notified(s, t)
      case Unlock => (if op.Put? && s.late then s.Move(t, Notify) else s.Leave(t)).(mutex := None)
  }

  // ---------- the invariant

  ghost predicate MutexInv<T>(s: State<T>) {
    && (s.mutex.Some? ==> s.mutex.value in s.threads)
    && (forall t :: t in s.threads ==> (s.threads[t].Owns(s.late) <==> s.mutex == Some(t)))
  }

  /** Only consumers wait, only producers notify, and what the owner of the mutex has found out about the
      queue still holds. */
  ghost predicate StageInv<T>(s: State<T>) {
    forall t :: t in s.threads ==>
      var th := s.threads[t];
      && (th.stage.Test? || th.stage.Block? || th.stage.Parked? || th.stage.Woken? ==> th.op.Take?)
      && (th.stage.Notify? ==> th.op.Put?)
      && (th.stage.Block? ==> s.queue == [])
      && (th.stage.Update? && th.op.Take? ==> s.queue != [])
  }

  /** Consumers on the way to test or to take, and producers that have yet to notify. */
  function ComingWeight<T>(late: bool): Thread<T> -> nat {
    (th: Thread<T>) =>
      if th.stage.Woken? || th.stage.Test? || (th.stage.Update? && th.op.Take?)
         || th.stage.Notify? || (th.stage.Unlock? && th.op.Put? && late) then 1 else 0
  }

  function WokenWeight<T>(): Thread<T> -> nat { (th: Thread<T>) => if th.stage.Woken? then 1 else 0 }

  /** Woken consumers, and producers that have unlocked the mutex and not yet notified. */
  function WokenOrOwedWeight<T>(): Thread<T> -> nat {
    (th: Thread<T>) => if th.stage.Woken? || th.stage.Notify? then 1 else 0
  }

  ghost function Coming<T>(s: State<T>): nat { Sum(s.threads, ComingWeight(s.late)) }

  ghost predicate WakeInv<T>(s: State<T>) { s.Waiting() ==> |s.queue| <= Coming(s) }

  ghost predicate Inv<T>(s: State<T>) { MutexInv(s) && StageInv(s) && s.puts == s.taken + s.queue && WakeInv(s) }

  lemma StepMutex<T>(s: State<T>, a: Action<T>)
    requires MutexInv(s) && StageInv(s) && Enabled(s, a)
    ensures MutexInv(Do(s, a))
  {
    match a
    case Run(t) => RunMutex(s, t);
    case _ =>
  }

  lemma RunMutex<T>(s: State<T>, t: Tid)
    requires MutexInv(s) && StageInv(s) && Enabled(s, Run(t))
    ensures MutexInv(Do(s, Run(t)))
  {
  }

  lemma StepStage<T>(s: State<T>, a: Action<T>)
    requires MutexInv(s) && StageInv(s) && Enabled(s, a)
    ensures StageInv(Do(s, a))
  {
    hide Sum;
    match a
    case Run(t) => RunStage(s, t);
    case _ =>
  }

  lemma RunStage<T>(s: State<T>, t: Tid)
    requires MutexInv(s) && StageInv(s) && Enabled(s, Run(t))
    ensures StageInv(Do(s, Run(t)))
  {
    if s.At(t, Update) { UpdateStage(s, t); }
  }

  /** The owner of the mutex is the only thread that has found out anything. */
  lemma UpdateStage<T>(s: State<T>, t: Tid)
    requires MutexInv(s) && StageInv(s) && Enabled(s, Run(t)) && s.At(t, Update)
    ensures StageInv(Do(s, Run(t)))
  {
    var s2 := Do(s, Run(t));
    forall u | u in s2.threads && u != t
      ensures !s.At(u, Block) && !s.At(u, Update) && s2.threads[u] == s.threads[u] {
    }
  }

  lemma StepFifo<T>(s: State<T>, a: Action<T>)
    requires s.puts == s.taken + s.queue && Enabled(s, a)
    ensures Do(s, a).puts == Do(s, a).taken + Do(s, a).queue
  {
    if a.Run? && s.At(a.t, Update) {
      match s.threads[a.t].op
      case Put(x) => assert s.taken + (s.queue + [x]) == s.taken + s.queue + [x];
      case Take => assert s.taken + [s.queue[0]] + s.queue[1..] == s.taken + s.queue;
      case Drain => assert s.taken + s.queue + [] == s.taken + s.queue;
    }
  }

  /** While a consumer waits, the queue grows by no more than the number of threads that are coming for it. */
  lemma ComingAfter<T>(s: State<T>, a: Action<T>)
    requires StageInv(s) && Enabled(s, a) && s.Waiting()
    ensures |Do(s, a).queue| == 0 || |Do(s, a).queue| - Coming(Do(s, a)) <= |s.queue| - Coming(s)
  {
    hide Sum;
    var f := ComingWeight<T>(s.late);
    var m := s.threads;
    var t := a.t;
    match a
    case Enter(_, op) => SumSet(m, f, t, Thread(op, Lock, []));
    case Spurious(_) => SumSet(m, f, t, m[t].(stage := Woken));
    case Wake(_, w) =>
      var m1 := m[w := m[w].(stage := Woken)];
      SumSet(m, f, w, m1[w]);
      SumSet(m1, f, t, m1[t].(stage := Unlock));
    case Run(_) =>
      var s2 := Do(s, a);
      if t in s2.threads { SumSet(m, f, t, s2.threads[t]); } else { SumWithout(m, f, t); }
  }

  lemma StepInv<T>(s: State<T>, a: Action<T>)
    requires Inv(s) && Enabled(s, a)
    ensures Inv(Do(s, a))
  {
    hide Coming, MutexInv, StageInv, Do, Enabled, State.Waiting;
    StepMutex(s, a);
    StepStage(s, a);
    StepFifo(s, a);
    if s.Waiting() {
      ComingAfter(s, a);
    } else if Do(s, a).Waiting() {
      FirstParked(s, a);
    }
  }

  /** The first consumer that waits has found the queue empty. */
  lemma FirstParked<T>(s: State<T>, a: Action<T>)
    requires StageInv(s) && Enabled(s, a) && !s.Waiting() && Do(s, a).Waiting()
    ensures Do(s, a).queue == []
  {
    var w :| Do(s, a).At(w, Parked);
    assert !s.At(w, Parked);
    assert a == Run(w) && s.At(w, Block);
  }

  // ---------- runs

  ghost predicate IsRun<T>(s: State<T>, acts: seq<Action<T>>)
    decreases |acts|
  {
    acts != [] ==> Enabled(s, acts[0]) && IsRun(Do(s, acts[0]), acts[1..])
  }

  ghost function After<T>(s: State<T>, acts: seq<Action<T>>): State<T>
    requires IsRun(s, acts)
    decreases |acts|
  {
    if acts == [] then s else After(Do(s, acts[0]), acts[1..])
  }

  lemma {:induction false} RunInv<T>(s: State<T>, acts: seq<Action<T>>)
    requires Inv(s) && IsRun(s, acts)
    ensures Inv(After(s, acts)) && After(s, acts).late == s.late
    decreases |acts|
  {
    hide Inv;
    if acts != [] {
      StepInv(s, acts[0]);
      SameOrder(s, acts[0]);
      RunInv(Do(s, acts[0]), acts[1..]);
    }
  }

  lemma SameOrder<T>(s: State<T>, a: Action<T>)
    requires Enabled(s, a)
    ensures Do(s, a).late == s.late
  {
  }

  lemma InitInv<T>(s: State<T>)
    requires Init(s)
    ensures Inv(s)
  {
  }

  /** No lost wakeup: at every point of every run, while a consumer waits, the queue holds at most one element for every
      consumer on the way to take one and every producer that has yet to notify. When the mutex is free, those are
      the woken consumers and, if producers notify after unlocking, the producers whose notification is to come. */
  lemma NoLostWakeup<T>(init: State<T>, acts: seq<Action<T>>)
    requires Init(init) && IsRun(init, acts)
    ensures var s := After(init, acts); s.Waiting() ==>
      && |s.queue| <= Sum(s.threads, ComingWeight(init.late))
      && (s.mutex == None ==> |s.queue| <= Sum(s.threads, WokenOrOwedWeight()))
      && (s.mutex == None && !init.late ==> |s.queue| <= Sum(s.threads, WokenWeight()))
  {
    hide IsRun, After, Sum;
    InitInv(init);
    RunInv(init, acts);
    var s := After(init, acts);
    if s.mutex == None {
      SumAtMost(s.threads, ComingWeight(s.late), WokenOrOwedWeight());
      if !init.late { SumAtMost(s.threads, ComingWeight(s.late), WokenWeight()); }
    }
  }

  /** At every point of every run the elements put so far are those taken or drained so far followed by the content
      of the queue, and the assertion behind the wait loop holds. */
  lemma FirstInFirstOut<T>(init: State<T>, acts: seq<Action<T>>)
    requires Init(init) && IsRun(init, acts)
    ensures var s := After(init, acts);
      && s.puts == s.taken + s.queue
      && forall t :: s.At(t, Update) && s.threads[t].op.Take? ==> s.queue != []
  {
    hide IsRun, After, WakeInv;
    InitInv(init);
    RunInv(init, acts);
  }

  // ---------- what the calls do, one after the other

  /** A call takes effect in its Update step; this is the call with the elements it got. */
  datatype Event<T> = Event(op: Op<T>, got: seq<T>)

  ghost function Happened<T>(s: State<T>, a: Action<T>): seq<Event<T>>
    requires Enabled(s, a)
  {
    if a.Run? && s.At(a.t, Update) then [Event(s.threads[a.t].op, Do(s, a).threads[a.t].got)] else []
  }

  ghost function History<T>(s: State<T>, acts: seq<Action<T>>): seq<Event<T>>
    requires IsRun(s, acts)
    decreases |acts|
  {
    if acts == [] then [] else Happened(s, acts[0]) + History(Do(s, acts[0]), acts[1..])
  }

  /** What a plain queue allows: a put gets nothing, a take gets exactly the front element, and a drain gets all of
      them. */
  ghost predicate Plain<T>(q: seq<T>, e: Event<T>) {
    match e.op
    case Put(x) => e.got == []
    case Take => q != [] && e.got == [q[0]]
    case Drain => e.got == q
  }

  function PlainNext<T>(q: seq<T>, e: Event<T>): seq<T> {
    match e.op
    case Put(x) => q + [x]
    case Take => if q == [] then [] else q[1..]
    case Drain => []
  }

  ghost predicate PlainRun<T>(q: seq<T>, es: seq<Event<T>>)
    decreases |es|
  {
    es != [] ==> Plain(q, es[0]) && PlainRun(PlainNext(q, es[0]), es[1..])
  }

  function PlainAfter<T>(q: seq<T>, es: seq<Event<T>>): seq<T>
    decreases |es|
  {
    if es == [] then q else PlainAfter(PlainNext(q, es[0]), es[1..])
  }

  /** The arguments of the put calls. */
  function PutsOf<T>(es: seq<Event<T>>): seq<T> {
    if es == [] then [] else (if es[0].op.Put? then [es[0].op.x] else []) + PutsOf(es[1..])
  }

  function GotsOf<T>(es: seq<Event<T>>): seq<T> {
    if es == [] then [] else es[0].got + GotsOf(es[1..])
  }

  /** Before its Update step a call has got nothing, and a put never gets anything. */
  ghost predicate GotInv<T>(s: State<T>) {
    forall t :: t in s.threads && (s.threads[t].op.Put? || Early(s.threads[t].stage)) ==> s.threads[t].got == []
  }

  predicate Early(st: Stage) { !st.Notify? && !st.Unlock? }

  lemma StepGot<T>(s: State<T>, a: Action<T>)
    requires GotInv(s) && Enabled(s, a)
    ensures GotInv(Do(s, a))
  {
  }

  /** What a call got stays as it is until the call returns, whatever other threads do, and it does not return before
      it has taken effect. */
  lemma GotStays<T>(s: State<T>, a: Action<T>, t: Tid)
    requires Enabled(s, a) && t in s.threads && !(a == Run(t) && s.At(t, Update))
    ensures var after := Do(s, a).threads;
            if t in after then after[t].got == s.threads[t].got && after[t].op == s.threads[t].op
            else s.At(t, Unlock) || s.At(t, Notify)
  {
  }

  /** One step as a step of a plain queue. */
  lemma StepPlain<T>(s: State<T>, a: Action<T>)
    requires GotInv(s) && Enabled(s, a)
    ensures var es := Happened(s, a);
      && PlainRun(s.queue, es) && Do(s, a).queue == PlainAfter(s.queue, es)
      && Do(s, a).puts == s.puts + PutsOf(es) && Do(s, a).taken == s.taken + GotsOf(es)
  {
    var es := Happened(s, a);
    if a.Run? && s.At(a.t, Update) {
      assert es[1..] == [];
      assert PutsOf(es) == (if es[0].op.Put? then [es[0].op.x] else []) + [];
      assert GotsOf(es) == es[0].got + [];
    }
  }

  lemma PlainAppend<T>(q: seq<T>, es: seq<Event<T>>, fs: seq<Event<T>>)
    requires |es| <= 1
    ensures PlainRun(q, es + fs) <==> PlainRun(q, es) && PlainRun(PlainAfter(q, es), fs)
    ensures PlainAfter(q, es + fs) == PlainAfter(PlainAfter(q, es), fs)
    ensures PutsOf(es + fs) == PutsOf(es) + PutsOf(fs) && GotsOf(es + fs) == GotsOf(es) + GotsOf(fs)
  {
    hide PlainRun, PlainAfter, PutsOf, GotsOf;
    NoEvents(q);
    if es == [] {
      assert es + fs == fs && [] + PutsOf(fs) == PutsOf(fs) && [] + GotsOf(fs) == GotsOf(fs);
    } else {
      assert es == [es[0]] && [es[0]] + [] == [es[0]];
      OneEvent(q, es[0], []);
      OneEvent(q, es[0], fs);
      NoEvents(PlainNext(q, es[0]));
    }
  }

  lemma {:induction false} OneEvent<T>(q: seq<T>, e: Event<T>, fs: seq<Event<T>>)
    ensures PlainRun(q, [e] + fs) <==> Plain(q, e) && PlainRun(PlainNext(q, e), fs)
    ensures PlainAfter(q, [e] + fs) == PlainAfter(PlainNext(q, e), fs)
    ensures PutsOf([e] + fs) == (if e.op.Put? then [e.op.x] else []) + PutsOf(fs)
    ensures GotsOf([e] + fs) == e.got + GotsOf(fs)
  {
    hide Plain, PlainNext;
    assert ([e] + fs)[1..] == fs;
  }

  /** Over every run the calls, in the order in which they take effect, are calls of a plain queue: they get what that
      one gives, the queue holds what that one holds, and the elements put are the arguments of the put calls. */
  lemma {:induction false} AsPlainQueue<T>(s: State<T>, acts: seq<Action<T>>)
    requires GotInv(s) && IsRun(s, acts)
    ensures var es := History(s, acts);
      && PlainRun(s.queue, es) && After(s, acts).queue == PlainAfter(s.queue, es)
      && After(s, acts).puts == s.puts + PutsOf(es) && After(s, acts).taken == s.taken + GotsOf(es)
    decreases |acts|
  {
    hide Enabled, Do, GotInv, Happened, PlainRun, PlainAfter, PutsOf, GotsOf;
    if acts == [] {
      NoEvents(s.queue);
    } else {
      var a := acts[0];
      StepGot(s, a);
      StepPlain(s, a);
      AsPlainQueue(Do(s, a), acts[1..]);
      AtMostOne(s, a);
      PlainAppend(s.queue, Happened(s, a), History(Do(s, a), acts[1..]));
    }
  }

  lemma AtMostOne<T>(s: State<T>, a: Action<T>)
    requires Enabled(s, a)
    ensures |Happened(s, a)| <= 1
  {
    hide Do;
  }

  lemma NoEvents<T>(q: seq<T>)
    ensures PlainRun(q, []) && PlainAfter(q, []) == q && PutsOf<T>([]) == [] && GotsOf<T>([]) == []
  {
  }

  lemma InitGot<T>(s: State<T>)
    requires Init(s)
    ensures GotInv(s)
  {
  }

  /** From a new queue: what the calls put and got over a whole run, whatever the threads and their steps, is what they
      would put and get if each took effect at once, in the order of their Update steps. */
  lemma Linearizable<T>(init: State<T>, acts: seq<Action<T>>)
    requires Init(init) && IsRun(init, acts)
    ensures var s, es := After(init, acts), History(init, acts);
      && PlainRun([], es) && s.queue == PlainAfter([], es) && s.puts == PutsOf(es) && s.taken == GotsOf(es)
  {
    hide IsRun, After, History, PlainRun, PlainAfter, PutsOf, GotsOf;
    InitGot(init);
    AsPlainQueue(init, acts);
    var es := History(init, acts);
    assert [] + PutsOf(es) == PutsOf(es) && [] + GotsOf(es) == GotsOf(es);
  }

  // ---------- progress

  ghost predicate CanMove<T>(s: State<T>, a: Action<T>) { (a.Run? || a.Wake?) && Enabled(s, a) }

  ghost predicate Quiet<T(!new)>(s: State<T>) { forall a: Action<T> :: !CanMove(s, a) }

  /** No element is stranded: nothing moves only when every call under way is a consumer that waits,
      and then the queue is empty. */
  lemma NoDeadlock<T(!new)>(init: State<T>, acts: seq<Action<T>>)
    requires Init(init) && IsRun(init, acts)
    ensures var s := After(init, acts);
      && (Quiet(s) <==> forall t :: t in s.threads ==> s.At(t, Parked))
      && (Quiet(s) && s.threads != map[] ==> s.queue == [])
  {
    hide IsRun, After;
    InitInv(init);
    RunInv(init, acts);
    var s := After(init, acts);
    if Quiet(s) {
      QuietParked(s);
      SumPositive(s.threads, ComingWeight(s.late));
      if s.threads != map[] {
        var t :| t in s.threads;
        assert s.At(t, Parked);
      }
    }
  }

  lemma OwnerMoves<T>(s: State<T>)
    requires MutexInv(s) && StageInv(s) && s.mutex.Some? && !s.At(s.mutex.value, Notify)
    ensures CanMove(s, Run(s.mutex.value))
  {
  }

  lemma QuietParked<T(!new)>(s: State<T>)
    requires MutexInv(s) && StageInv(s) && Quiet(s)
    ensures forall t :: t in s.threads ==> s.At(t, Parked)
  {
    forall t | s.At(t, Notify) ensures false {
      assert !CanMove(s, Run(t));
      var w :| s.At(w, Parked);
      assert CanMove(s, Wake(t, w));
    }
    if s.mutex.Some? { OwnerMoves(s); }
    forall t | t in s.threads ensures s.At(t, Parked) {
      assert !CanMove(s, Run(t));
    }
  }

  /** How far a thread is from the end of its call, with the steps of the thread it may wake. */
  function Distance<T>(late: bool): Thread<T> -> nat {
    (th: Thread<T>) => match th.stage
      case Lock => 24 case Woken => 24 case Test => 23 case Update => 22 case Block => 21 case Parked => 20
      case Notify => 6
      case Unlock => if th.op.Put? && late then 7 else 1
  }

  ghost function StepsLeft<T>(s: State<T>): nat { Sum(s.threads, Distance(s.late)) }

  lemma StepsDecrease<T>(s: State<T>, a: Action<T>)
    requires CanMove(s, a)
    ensures StepsLeft(Do(s, a)) < StepsLeft(s)
  {
    hide Sum;
    var f := Distance<T>(s.late);
    var m := s.threads;
    var t := a.t;
    if a.Wake? {
      var w := a.woken;
      var m1 := m[w := m[w].(stage := Woken)];
      SumSet(m, f, w, m1[w]);
      SumSet(m1, f, t, m1[t].(stage := Unlock));
    } else if t in Do(s, a).threads {
      SumSet(m, f, t, Do(s, a).threads[t]);
    } else {
      SumWithout(m, f, t);
    }
  }

  /** Once no further call begins and no thread wakes up by itself, every run ends within a number of steps
      that is known beforehand. */
  lemma {:induction false} RunsEnd<T>(s: State<T>, acts: seq<Action<T>>)
    requires IsRun(s, acts) && forall a :: a in acts ==> a.Run? || a.Wake?
    ensures |acts| <= StepsLeft(s)
    decreases |acts|
  {
    hide StepsLeft, Enabled;
    if acts != [] {
      StepsDecrease(s, acts[0]);
      RunsEnd(Do(s, acts[0]), acts[1..]);
    }
  }
}
