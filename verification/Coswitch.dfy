/** Co-expression switches as a hand-off between threads, under every interleaving. */
module Coswitch {
  import opened Base

  /** Where a thread is. */
  datatype Place =
    | Outside                                 // running user code
    | Calling(target: nat, created: bool)     // entered coswitch; `created` says whether the target was started before
    | Starting(target: nat, created: bool)    // its own context is loaded
    | Marking(target: nat)                    // has created the target's thread
    | Posting(target: nat)                    // about to post the target's semaphore
    | Waiting                                 // has posted; at or in sem_wait on its own semaphore
    | Checking                                // past sem_wait; about to test `alive`
    | Trampoline                              // a new thread at its first sem_wait
    | Exited

  datatype Context = Context(sema: nat, alive: bool)

  /** Threads and contexts are named by their co-expression. */
  datatype State = State(inited: bool, threads: map<nat, Place>, contexts: map<nat, Context>)

  /** One atomic action of thread t. */
  datatype Action =
    | Call(t: nat, target: nat, created: bool)
    | Load(t: nat)
    | Start(t: nat)
    | Mark(t: nat)
    | Post(t: nat)
    | Wait(t: nat)
    | Check(t: nat)

  function Initial(main: nat): State {
    State(false, map[main := Outside], map[])
  }

  /** What a caller of coswitch promises: a target that is new, or has been started, or is itself. */
  predicate GoodCall(s: State, t: nat, target: nat, created: bool) {
    if created then target in s.contexts || target == t else target !in s.threads
  }

  predicate Enabled(s: State, a: Action) {
    a.t in s.threads &&
    var p := s.threads[a.t];
    match a
    case Call(t, target, created) => p == Outside && GoodCall(s, t, target, created)
    case Load(t) => p.Calling?
    case Start(t) => p.Starting?
    case Mark(t) => p.Marking?
    case Post(t) => p.Posting?
    case Wait(t) => (p.Waiting? || p.Trampoline?) && t in s.contexts && s.contexts[t].sema > 0
    case Check(t) => p.Checking?
  }

  /** The effect of an action. */
  function Next(s: State, a: Action): State
    requires Enabled(s, a)
  {
    var p := s.threads[a.t];
    match a
    case Call(t, target, created) =>
      s.(threads := s.threads[t := Calling(target, created)])
    case Load(t) =>
      var r := s.(threads := s.threads[t := Starting(p.target, p.created)]);
      if s.inited then r else r.(inited := true, contexts := s.contexts[t := Context(0, true)])
    case Start(t) =>
      if p.created then s.(threads := s.threads[t := Posting(p.target)])
      else
        s.(threads := s.threads[p.target := Trampoline][t := Marking(p.target)],
           contexts := s.contexts[p.target := Context(0, false)])
    case Mark(t) =>
      s.(threads := s.threads[t := Posting(p.target)],
         contexts := if p.target in s.contexts
                     then s.contexts[p.target := s.contexts[p.target].(alive := true)] else s.contexts)
    case Post(t) =>
      s.(threads := s.threads[t := Waiting],
         contexts := if p.target in s.contexts
                     then s.contexts[p.target := s.contexts[p.target].(sema := s.contexts[p.target].sema + 1)]
                     else s.contexts)
    case Wait(t) =>
      s.(threads := s.threads[t := if p.Trampoline? then Outside else Checking],
         contexts := s.contexts[t := s.contexts[t].(sema := s.contexts[t].sema - 1)])
    case Check(t) =>
      s.(threads := s.threads[t := if t in s.contexts && s.contexts[t].alive then Outside else Exited])
  }

  /** The thread has the token: it runs user code or is in coswitch outside its wait. */
  predicate Holds(p: Place) {
    !p.Waiting? && !p.Trampoline? && !p.Exited?
  }

  ghost function Holders(s: State): set<nat> {
    set t | t in s.threads && Holds(s.threads[t])
  }

  /** The sum of all semaphore counts. */
  ghost function Posts(c: map<nat, Context>): nat
    decreases |c|
  {
    if c == map[] then 0
    else
      var k := PickKey(c.Keys);
      c[k].sema + Posts(c - {k})
  }

  lemma {:induction false} PostsTake(c: map<nat, Context>, k: nat)
    requires k in c
    ensures Posts(c) == c[k].sema + Posts(c - {k})
    decreases |c|
  {
    var p := PickKey(c.Keys);
    if p != k {
      PostsTake(c - {p}, k);
      PostsTake(c - {k}, p);
      assert c - {p} - {k} == c - {k} - {p};
    }
  }

  lemma PostsUpdate(c: map<nat, Context>, k: nat, x: Context)
    ensures Posts(c[k := x]) == x.sema + (if k in c then Posts(c) - c[k].sema else Posts(c))
  {
    PostsTake(c[k := x], k);
    assert c[k := x] - {k} == c - {k};
    if k in c {
      PostsTake(c, k);
    } else {
      assert c - {k} == c;
    }
  }

  /** Threads that hold the token, plus tokens in semaphores. */
  ghost function Tokens(s: State): nat {
    |Holders(s)| + Posts(s.contexts)
  }

  /** What a thread at place p relies on. */
  ghost predicate Fitting(s: State, t: nat, p: Place) {
    match p
    case Outside => true
    case Calling(x, created) => GoodCall(s, t, x, created)
    case Starting(x, created) => s.inited && if created then x in s.contexts else x !in s.threads
    case Marking(x) => x in s.contexts && x in s.threads && s.threads[x] == Trampoline
    case Posting(x) => s.inited && x in s.contexts
    case Waiting => s.inited
    case Checking => s.inited
    case Trampoline => s.inited
    case Exited => false
  }

  /** Contexts belong to threads; a context is not alive only while its creator has yet to say so. */
  ghost predicate Shape(s: State) {
    && s.contexts.Keys == (if s.inited then s.threads.Keys else {})
    && (forall t | t in s.threads :: Fitting(s, t, s.threads[t]))
    && (forall x | x in s.contexts :: s.contexts[x].alive || exists t :: t in s.threads && s.threads[t] == Marking(x))
  }

  /** There is one token, in a thread or in a semaphore. */
  ghost predicate Inv(s: State) {
    Shape(s) && Tokens(s) == 1
  }

  lemma HolderIs(s: State, t: nat)
    requires Tokens(s) == 1 && t in s.threads && Holds(s.threads[t])
    ensures Holders(s) == {t} && Posts(s.contexts) == 0
    ensures forall u :: u in s.threads && Holds(s.threads[u]) ==> u == t
  {
    assert t in Holders(s);
    assert Holders(s) == {t} + (Holders(s) - {t});
    forall u | u in s.threads && Holds(s.threads[u])
      ensures u == t
    {
      assert u in Holders(s);
    }
  }

  lemma PostIs(s: State, t: nat)
    requires Tokens(s) == 1 && t in s.contexts && s.contexts[t].sema > 0
    ensures Holders(s) == {} && s.contexts[t].sema == 1 && Posts(s.contexts) == 1
    ensures forall u :: u in s.threads ==> !Holds(s.threads[u])
  {
    PostsTake(s.contexts, t);
    forall u | u in s.threads
      ensures !Holds(s.threads[u])
    {
      assert u !in Holders(s);
    }
  }

  lemma InitialInv(main: nat)
    ensures Inv(Initial(main))
  {
    assert Holders(Initial(main)) == {main};
  }

  lemma HoldersAfter(r: State, t: nat)
    requires t in r.threads && forall u :: u in r.threads && u != t ==> !Holds(r.threads[u])
    ensures Holders(r) == if Holds(r.threads[t]) then {t} else {}
  {
  }

  lemma PostsAfter(s: State, a: Action)
    requires Shape(s) && Enabled(s, a)
    ensures Posts(Next(s, a).contexts) == Posts(s.contexts) + (if a.Post? then 1 else if a.Wait? then -1 else 0)
  {
    hide Posts;
    var p, r := s.threads[a.t], Next(s, a);
    assert Fitting(s, a.t, p);
    match a
    case Load(t) => PostsUpdate(s.contexts, t, Context(0, true));
    case Start(t) =>
      if !p.created {
        PostsUpdate(s.contexts, p.target, Context(0, false));
      }
    case Mark(t) => PostsUpdate(s.contexts, p.target, r.contexts[p.target]);
    case Post(t) => PostsUpdate(s.contexts, p.target, r.contexts[p.target]);
    case Wait(t) => PostsUpdate(s.contexts, t, r.contexts[t]);
    case _ =>
  }

  lemma StillAlive(s: State, t: nat)
    requires Inv(s) && t in s.threads && s.threads[t].Checking?
    ensures t in s.contexts && s.contexts[t].alive
  {
    HolderIs(s, t);
    assert Fitting(s, t, s.threads[t]);
  }

  /** Only the thread that acts can hold the token before or after, unless it has just given it away. */
  lemma StepHolders(s: State, a: Action)
    requires Inv(s) && Enabled(s, a)
    ensures Holders(Next(s, a)) == if a.Post? then {} else {a.t}
    ensures Posts(s.contexts) == if a.Wait? then 1 else 0
  {
    if a.Wait? {
      PostIs(s, a.t);
    } else {
      HolderIs(s, a.t);
    }
    if a.Check? {
      StillAlive(s, a.t);
    }
    hide Posts, Tokens;
    assert Fitting(s, a.t, s.threads[a.t]);
    hide Fitting;
    HoldersAfter(Next(s, a), a.t);
  }

  lemma StepTokens(s: State, a: Action)
    requires Inv(s) && Enabled(s, a)
    ensures Tokens(Next(s, a)) == 1
  {
    hide Posts, Holders, Fitting;
    StepHolders(s, a);
    PostsAfter(s, a);
  }

  lemma StepAlive(s: State, a: Action, x: nat)
    requires Shape(s) && Enabled(s, a) && x in Next(s, a).contexts
    requires forall u | u in s.threads && u != a.t :: !Holds(s.threads[u])
    ensures var r := Next(s, a); r.contexts[x].alive || exists t :: t in r.threads && r.threads[t] == Marking(x)
  {
    hide Fitting;
    var r := Next(s, a);
    if a.Start? && !s.threads[a.t].created && x == s.threads[a.t].target {
      assert r.threads[a.t] == Marking(x);
    }
  }

  lemma OwnFitting(s: State, a: Action)
    requires Inv(s) && Enabled(s, a)
    ensures a.t in Next(s, a).threads && Fitting(Next(s, a), a.t, Next(s, a).threads[a.t])
  {
    assert Fitting(s, a.t, s.threads[a.t]);
    if a.Check? {
      StillAlive(s, a.t);
    }
    hide Inv, Next;
    ActorFits(s, a);
  }

  lemma ActorFits(s: State, a: Action)
    requires Enabled(s, a) && Fitting(s, a.t, s.threads[a.t])
    requires s.contexts.Keys == (if s.inited then s.threads.Keys else {})
    requires a.Check? ==> a.t in s.contexts && s.contexts[a.t].alive
    ensures a.t in Next(s, a).threads && Fitting(Next(s, a), a.t, Next(s, a).threads[a.t])
  {
  }

  /** Every other thread waits while one acts. */
  lemma OthersWait(s: State, a: Action)
    requires Inv(s) && Enabled(s, a)
    ensures forall u | u in s.threads && u != a.t :: !Holds(s.threads[u])
  {
    if a.Wait? {
      PostIs(s, a.t);
    } else {
      HolderIs(s, a.t);
    }
  }

  lemma OtherFitting(s: State, a: Action, u: nat)
    requires Shape(s) && Enabled(s, a) && u in Next(s, a).threads && u != a.t
    requires u in s.threads ==> !Holds(s.threads[u])
    ensures Fitting(Next(s, a), u, Next(s, a).threads[u])
  {
    assert Fitting(s, a.t, s.threads[a.t]);
    if u in s.threads {
      assert Fitting(s, u, s.threads[u]);
    }
  }

  lemma StepShape(s: State, a: Action)
    requires Inv(s) && Enabled(s, a)
    ensures Shape(Next(s, a))
  {
    hide Posts, Tokens;
    var r := Next(s, a);
    StepKeys(s, a);
    OwnFitting(s, a);
    OthersWait(s, a);
    forall u | u in r.threads && u != a.t
      ensures Fitting(r, u, r.threads[u])
    {
      OtherFitting(s, a, u);
    }
    hide Fitting;
    forall x | x in r.contexts
      ensures r.contexts[x].alive || exists t :: t in r.threads && r.threads[t] == Marking(x)
    {
      StepAlive(s, a, x);
    }
    hide Next, Enabled;
  }

  lemma StepKeys(s: State, a: Action)
    requires Inv(s) && Enabled(s, a)
    ensures var r := Next(s, a); r.contexts.Keys == (if r.inited then r.threads.Keys else {})
  {
    var p, r := s.threads[a.t], Next(s, a);
    assert Fitting(s, a.t, p);
    if a.Load? && !s.inited {
      HolderIs(s, a.t);
      forall u | u in s.threads
        ensures u == a.t
      {
        assert Fitting(s, u, s.threads[u]);
      }
      assert r.threads.Keys == {a.t};
    }
  }

  // ----- whole runs

  ghost predicate Run(states: seq<State>, actions: seq<Action>) {
    |states| == |actions| + 1
    && forall i | 0 <= i < |actions| :: Enabled(states[i], actions[i]) && states[i + 1] == Next(states[i], actions[i])
  }

  /** The invariant holds throughout every interleaving. */
  lemma {:induction false} Always(states: seq<State>, actions: seq<Action>, main: nat, i: nat)
    requires Run(states, actions) && states[0] == Initial(main) && i < |states|
    ensures Inv(states[i])
  {
    if i == 0 {
      InitialInv(main);
    } else {
      Always(states, actions, main, i - 1);
      StepTokens(states[i - 1], actions[i - 1]);
      StepShape(states[i - 1], actions[i - 1]);
    }
  }

  /** No two co-expressions ever run user code at once. */
  lemma OneRuns(s: State, t: nat, u: nat)
    requires Inv(s) && t in s.threads && u in s.threads
    requires s.threads[t].Outside? && s.threads[u].Outside?
    ensures t == u
  {
    HolderIs(s, t);
  }

  lemma {:induction false} PostsFind(c: map<nat, Context>) returns (k: nat)
    requires Posts(c) > 0
    ensures k in c && c[k].sema > 0
    decreases |c|
  {
    k := PickKey(c.Keys);
    if c[k].sema == 0 {
      k := PostsFind(c - {k});
    }
  }

  /** No wake-up is lost: either user code runs, or some thread can take its next step in coswitch. */
  lemma CanStep(s: State) returns (t: nat)
    requires Inv(s)
    ensures t in s.threads
    ensures s.threads[t].Outside? || exists a: Action :: a.t == t && !a.Call? && Enabled(s, a)
  {
    if Holders(s) != {} {
      t := PickKey(Holders(s));
      assert t in s.threads && Holds(s.threads[t]);
      assert Fitting(s, t, s.threads[t]);
      match s.threads[t]
      case Outside =>
      case Calling(_, _) => assert Enabled(s, Load(t));
      case Starting(_, _) => assert Enabled(s, Start(t));
      case Marking(_) => assert Enabled(s, Mark(t));
      case Posting(_) => assert Enabled(s, Post(t));
      case Checking => assert Enabled(s, Check(t));
    } else {
      t := PostsFind(s.contexts);
      PostIs(s, t);
      assert Fitting(s, t, s.threads[t]);
      assert Enabled(s, Wait(t));
    }
  }

  /** No thread that was let through its wait finds itself unwanted. */
  lemma NobodyExits(s: State, t: nat)
    requires Inv(s) && Enabled(s, Check(t))
    ensures Next(s, Check(t)).threads[t] == Outside
  {
    StillAlive(s, t);
  }

  // ----- refinement: one switch of a sequential machine

  /** The co-expression that is running or about to run. */
  ghost function Current(s: State): nat
    requires Inv(s)
  {
    if Holders(s) != {} then PickKey(Holders(s))
    else
      assert Posts(s.contexts) > 0;
      PickPosted(s.contexts)
  }

  ghost function PickPosted(c: map<nat, Context>): (k: nat)
    requires Posts(c) > 0
    ensures k in c && c[k].sema > 0
    decreases |c|
  {
    var p := PickKey(c.Keys);
    if c[p].sema > 0 then p else PickPosted(c - {p})
  }

  lemma CurrentPosted(s: State, k: nat)
    requires Inv(s) && k in s.contexts && s.contexts[k].sema > 0
    ensures Current(s) == k
  {
    PostIs(s, k);
    var p := PickPosted(s.contexts);
    if p != k {
      PostsTake(s.contexts, k);
      PostsTake(s.contexts - {k}, p);
    }
  }

  /** Control passes from the caller to the co-expression it named, at the post and at no other action. */
  lemma HandOff(s: State, a: Action)
    requires Inv(s) && Enabled(s, a)
    ensures Inv(Next(s, a)) && Current(s) == a.t
    ensures Current(Next(s, a)) == if a.Post? then s.threads[a.t].target else a.t
  {
    hide Posts;
    StepTokens(s, a);
    StepShape(s, a);
    StepHolders(s, a);
    if a.Wait? {
      CurrentPosted(s, a.t);
    } else {
      HolderIs(s, a.t);
    }
    if a.Post? {
      PostedTo(s, a);
      hide Next;
      CurrentPosted(Next(s, a), s.threads[a.t].target);
    }
  }

  lemma PostedTo(s: State, a: Action)
    requires Shape(s) && Enabled(s, a) && a.Post?
    ensures var k := s.threads[a.t].target; k in Next(s, a).contexts && Next(s, a).contexts[k].sema > 0
  {
    assert Fitting(s, a.t, s.threads[a.t]);
  }

  // ----- how long a switch takes

  /** The number of actions until user code runs, for a thread in control at place p. */
  function Left(p: Place): (n: nat)
    ensures n <= 6
  {
    match p
    case Outside => 0
    case Calling(_, _) => 6
    case Starting(_, _) => 5
    case Marking(_) => 4
    case Posting(_) => 3
    case Waiting => 2
    case Checking => 1
    case Trampoline => 1
    case Exited => 0
  }

  ghost function Remaining(s: State): (n: nat)
    requires Inv(s)
    ensures n <= 6
  {
    if Current(s) in s.threads then Left(s.threads[Current(s)]) else 0
  }

  /** The one in control has a thread, which runs user code exactly if no action is left. */
  lemma InControl(s: State)
    requires Inv(s)
    ensures Current(s) in s.threads && (Remaining(s) == 0 <==> s.threads[Current(s)].Outside?)
  {
    var k := Current(s);
    if Holders(s) != {} {
      assert k in Holders(s);
    }
    assert Fitting(s, k, s.threads[k]);
  }

  /** Where an action leads the one in control, or the one that it puts in control. */
  lemma StepLeft(s: State, a: Action)
    requires Inv(s) && Enabled(s, a) && !a.Call?
    ensures var k := if a.Post? then s.threads[a.t].target else a.t;
            k in Next(s, a).threads && Left(Next(s, a).threads[k]) < Left(s.threads[a.t])
  {
    if a.Check? {
      StillAlive(s, a.t);
    }
    OthersWait(s, a);
    assert Fitting(s, a.t, s.threads[a.t]);
    hide Inv, Next, Left;
    if a.Post? {
      TargetLeft(s, a);
    } else {
      OwnLeft(s, a);
    }
  }

  lemma OwnLeft(s: State, a: Action)
    requires Enabled(s, a) && !a.Call? && !a.Post? && (a.Check? ==> a.t in s.contexts && s.contexts[a.t].alive)
    ensures a.t in Next(s, a).threads && Left(Next(s, a).threads[a.t]) < Left(s.threads[a.t])
  {
  }

  lemma TargetLeft(s: State, a: Action)
    requires Enabled(s, a) && a.Post? && Fitting(s, a.t, s.threads[a.t]) && s.contexts.Keys <= s.threads.Keys
    requires forall u | u in s.threads && u != a.t :: !Holds(s.threads[u])
    ensures var k := s.threads[a.t].target;
            k in Next(s, a).threads && Left(Next(s, a).threads[k]) < Left(s.threads[a.t])
  {
  }

  /** Every action in coswitch brings user code nearer. */
  lemma StepNearer(s: State, a: Action)
    requires Inv(s) && Enabled(s, a) && !a.Call?
    ensures Inv(Next(s, a)) && Remaining(Next(s, a)) < Remaining(s)
  {
    hide Next, Current, Inv, Left;
    HandOff(s, a);
    StepLeft(s, a);
  }

  /** In any interleaving, at most six actions pass in coswitch before user code runs again or the next call is made. */
  lemma {:induction false} SoonRuns(states: seq<State>, actions: seq<Action>, main: nat, i: nat, j: nat)
    requires Run(states, actions) && states[0] == Initial(main) && i <= j <= |actions|
    requires forall k :: i <= k < j ==> !actions[k].Call?
    ensures Inv(states[i]) && Inv(states[j])
    ensures j - i + Remaining(states[j]) <= Remaining(states[i]) <= 6
    decreases j - i
  {
    hide Next, Enabled, Inv, Remaining;
    Always(states, actions, main, i);
    if i < j {
      SoonRuns(states, actions, main, i + 1, j);
      StepNearer(states[i], actions[i]);
    }
  }

  // ----- every switch leads to the target of its call

  /** In the middle of a switch whose target has yet to get control. */
  predicate Busy(p: Place) {
    p.Calling? || p.Starting? || p.Marking? || p.Posting?
  }

  /** The thread that made the call is on its way to the target; a new target gets a thread that waits. */
  ghost predicate Answering(s: State, call: Action) {
    && call.Call? && call.t in s.threads
    && match s.threads[call.t]
       case Calling(x, created) => x == call.target && created == call.created
       case Starting(x, created) => x == call.target && created == call.created
       case Marking(x) => x == call.target && !call.created
       case Posting(x) => x == call.target && (!call.created ==> x in s.threads && s.threads[x].Trampoline?)
       case _ => false
  }

  /** Nothing but the steps of the switch can happen until the target is posted. */
  lemma StepAnswering(s: State, call: Action, a: Action)
    requires Inv(s) && Answering(s, call) && Enabled(s, a)
    ensures a.t == call.t && !a.Call?
    ensures !a.Post? ==> Answering(Next(s, a), call)
  {
    HolderIs(s, call.t);
    if a.Wait? {
      PostIs(s, a.t);
    }
    assert Fitting(s, call.t, s.threads[call.t]);
  }

  /** A thread becomes busy by its own call, and stays so by its own steps. */
  lemma BusyBefore(s: State, a: Action, t: nat)
    requires Inv(s) && Enabled(s, a) && t in Next(s, a).threads && Busy(Next(s, a).threads[t])
    ensures a.t == t
    ensures !a.Call? ==> !a.Post? && t in s.threads && Busy(s.threads[t])
    ensures a.Call? ==> Answering(Next(s, a), a)
  {
    OthersWait(s, a);
    assert Fitting(s, a.t, s.threads[a.t]);
  }

  /** The call that a busy thread is answering; no other call has been made since. */
  lemma {:induction false} LastCall(states: seq<State>, actions: seq<Action>, main: nat, i: nat, t: nat)
    returns (j: nat)
    requires Run(states, actions) && states[0] == Initial(main) && i < |states|
    requires t in states[i].threads && Busy(states[i].threads[t])
    ensures j < i && actions[j].Call? && actions[j].t == t && Answering(states[i], actions[j])
    ensures forall k :: j < k < i ==> !actions[k].Call?
    decreases i
  {
    assert i > 0;
    RunStep(states, actions, i - 1);
    hide Run, Inv, Next, Enabled, Answering, Busy;
    Always(states, actions, main, i - 1);
    BusyBefore(states[i - 1], actions[i - 1], t);
    if actions[i - 1].Call? {
      j := i - 1;
    } else {
      j := LastCall(states, actions, main, i - 1, t);
      StepAnswering(states[i - 1], actions[j], actions[i - 1]);
    }
  }

  /**
   * At every post, control passes to the target of the last call, which the same thread made.
   * A target that was said to be new was unknown when it was called, and has a thread now.
   */
  lemma PostAnswers(states: seq<State>, actions: seq<Action>, main: nat, i: nat) returns (j: nat)
    requires Run(states, actions) && states[0] == Initial(main) && i < |actions| && actions[i].Post?
    ensures j < i && actions[j].Call? && actions[j].t == actions[i].t
    ensures forall k :: j < k < i ==> !actions[k].Call?
    ensures Inv(states[i + 1]) && Current(states[i + 1]) == actions[j].target
    ensures !actions[j].created ==>
              var x := actions[j].target;
              x !in states[j].threads && x in states[i + 1].threads && states[i + 1].threads[x].Trampoline?
    ensures actions[j].created ==> actions[j].target in states[j].contexts || actions[j].target == actions[j].t
  {
    hide Inv, Current, Run;
    RunStep(states, actions, i);
    Always(states, actions, main, i);
    j := LastCall(states, actions, main, i, actions[i].t);
    RunStep(states, actions, j);
    HandOff(states[i], actions[i]);
    OthersWait(states[i], actions[i]);
  }

  lemma RunStep(states: seq<State>, actions: seq<Action>, i: nat)
    requires Run(states, actions) && i < |actions|
    ensures i + 1 < |states| && Enabled(states[i], actions[i]) && states[i + 1] == Next(states[i], actions[i])
  {
  }

  /** The targets of the calls, in order. */
  function Targets(actions: seq<Action>): seq<nat> {
    if actions == [] then []
    else
      var a := actions[|actions| - 1];
      Targets(actions[..|actions| - 1]) + (if a.Call? then [a.target] else [])
  }

  /** How many calls have been answered by a post. */
  function Answered(actions: seq<Action>): nat {
    if actions == [] then 0
    else Answered(actions[..|actions| - 1]) + (if actions[|actions| - 1].Post? then 1 else 0)
  }

  /** Control is with the k-th of w; the one after it, if there is one, is the target of the switch under way. */
  ghost predicate Follows(s: State, w: seq<nat>, k: nat) {
    && Inv(s) && k < |w| && Current(s) == w[k] && w[k] in s.threads
    && var p := s.threads[w[k]];
       if Busy(p) then |w| == k + 2 && p.target == w[k + 1] else |w| == k + 1
  }

  lemma StepFollows(s: State, a: Action, w: seq<nat>, k: nat)
    requires Follows(s, w, k) && Enabled(s, a)
    ensures Follows(Next(s, a), if a.Call? then w + [a.target] else w, if a.Post? then k + 1 else k)
  {
    hide Inv, Current, Next, Fitting, Busy;
    HandOff(s, a);
    OthersWait(s, a);
    ActorFitting(s, a);
    if a.Post? {
      PostedPlace(s, a);
    } else {
      OwnPlace(s, a);
    }
  }

  lemma ActorFitting(s: State, a: Action)
    requires Inv(s) && Enabled(s, a)
    ensures Fitting(s, a.t, s.threads[a.t]) && s.contexts.Keys <= s.threads.Keys
  {
  }

  lemma OwnPlace(s: State, a: Action)
    requires Enabled(s, a) && !a.Post?
    ensures a.t in Next(s, a).threads
    ensures var p, q := s.threads[a.t], Next(s, a).threads[a.t];
            && (Busy(q) <==> a.Call? || Busy(p))
            && (Busy(q) ==> q.target == if a.Call? then a.target else p.target)
            && (a.Call? ==> !Busy(p))
  {
  }

  lemma PostedPlace(s: State, a: Action)
    requires Enabled(s, a) && a.Post? && Fitting(s, a.t, s.threads[a.t]) && s.contexts.Keys <= s.threads.Keys
    requires forall u | u in s.threads && u != a.t :: !Holds(s.threads[u])
    ensures Busy(s.threads[a.t])
    ensures var x := s.threads[a.t].target; x in Next(s, a).threads && !Busy(Next(s, a).threads[x])
  {
  }

  lemma InitialCurrent(main: nat)
    ensures Inv(Initial(main)) && Current(Initial(main)) == main
  {
    InitialInv(main);
    HolderIs(Initial(main), main);
  }

  /**
   * Whatever the interleaving, the calls are answered one after the other, in order: with k posts so far,
   * the target of the k-th call is in control, and at most one call is not answered yet.
   */
  lemma {:induction false} RunIsSequential(states: seq<State>, actions: seq<Action>, main: nat)
    requires Run(states, actions) && states[0] == Initial(main)
    ensures Follows(states[|actions|], [main] + Targets(actions), Answered(actions))
    decreases |actions|
  {
    hide Next, Follows;
    if actions == [] {
      InitialFollows(main);
      assert [main] + Targets([]) == [main];
    } else {
      var n := |actions| - 1;
      RunIsSequential(states[..n + 1], actions[..n], main);
      StepFollows(states[n], actions[n], [main] + Targets(actions[..n]), Answered(actions[..n]));
      OneMoreTarget(main, actions);
    }
  }

  lemma OneMoreTarget(main: nat, actions: seq<Action>)
    requires actions != []
    ensures var w, a := [main] + Targets(actions[..|actions| - 1]), actions[|actions| - 1];
            [main] + Targets(actions) == if a.Call? then w + [a.target] else w
  {
    var front, a := Targets(actions[..|actions| - 1]), actions[|actions| - 1];
    assert Targets(actions) == front + (if a.Call? then [a.target] else []);
    hide Targets;
    assert a.Call? ==> [main] + (front + [a.target]) == [main] + front + [a.target];
    assert !a.Call? ==> front + [] == front;
  }

  lemma InitialFollows(main: nat)
    ensures Follows(Initial(main), [main], 0)
  {
    InitialCurrent(main);
  }
}
