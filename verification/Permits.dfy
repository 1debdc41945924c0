/**
 The two semaphore middlewares, all clones of one service sharing their permits, under any
 interleaving of calls, permit hand-outs, completions, timeouts and dropped futures.
 */
module Permits {
  import opened Wrappers
  import opened Framing

  type Id = nat

  datatype Middleware = ConcurrencyLimit | LoadShedding(enabled: bool)

  /** A call's future: waiting for a permit, running the inner call, or gone with its reply, if it gave one. */
  datatype Phase = Waiting | Running(permit: bool) | Gone(reply: Option<Result<(), Code>>)

  /** A call is made, a permit is handed to a waiter, an inner call completes, a deadline passes, a future is dropped. */
  datatype Action = Call(id: Id) | Acquire(id: Id) | Complete(id: Id) | Expire(id: Id) | Drop(id: Id)

  datatype System = System(free: nat, calls: map<Id, Phase>)

  function Capacity(maxConcurrent: nat): nat {
    if maxConcurrent < 1 then 1 else maxConcurrent
  }

  function Start(maxConcurrent: nat): System {
    System(Capacity(maxConcurrent), map[])
  }

  /** The future goes, and its permit with it. */
  function Leave(s: System, id: Id, reply: Option<Result<(), Code>>): System {
    if id !in s.calls || s.calls[id].Gone? then s
    else System(if s.calls[id] == Running(true) then s.free + 1 else s.free, s.calls[id := Gone(reply)])
  }

  function Next(m: Middleware, s: System, a: Action): System {
    match a
    case Call(id) =>
      if id in s.calls then s
      else (match m
        case ConcurrencyLimit => s.(calls := s.calls[id := Waiting])
        case LoadShedding(enabled) =>
          if !enabled then s.(calls := s.calls[id := Running(false)])
          else if s.free > 0 then System(s.free - 1, s.calls[id := Running(true)])
          else s.(calls := s.calls[id := Gone(Some(Err(Unavailable)))]))
    case Acquire(id) =>
      if id in s.calls && s.calls[id].Waiting? && s.free > 0
      then System(s.free - 1, s.calls[id := Running(true)]) else s
    case Complete(id) =>
      if id in s.calls && s.calls[id].Running? then Leave(s, id, Some(Ok(()))) else s
    case Expire(id) => Leave(s, id, Some(Err(DeadlineExceeded)))
    case Drop(id) => Leave(s, id, None)
  }

  /** The shared state of all clones. */
  class PermitService {
    const middleware: Middleware
    var free: nat
    var calls: map<Id, Phase>

    ghost function View(): System
      reads this
    {
      System(free, calls)
    }

    constructor (middleware: Middleware, maxConcurrent: nat)
      ensures this.middleware == middleware && View() == Start(maxConcurrent)
    {
      this.middleware, free, calls := middleware, Capacity(maxConcurrent), map[];
    }

    method Release(id: Id, reply: Option<Result<(), Code>>)
      modifies this
      ensures View() == Leave(old(View()), id, reply)
    {
      if id in calls && !calls[id].Gone? {
        if calls[id] == Running(true) {
          free := free + 1;
        }
        calls := calls[id := Gone(reply)];
      }
    }

    method TakePermit(id: Id) returns (ok: bool)
      modifies this
      ensures ok == (old(free) > 0)
      ensures View() == if ok then System(old(free) - 1, old(calls)[id := Running(true)]) else old(View())
    {
      ok := free > 0;
      if ok {
        free := free - 1;
        calls := calls[id := Running(true)];
      }
    }

    method Step(a: Action)
      modifies this
      ensures View() == Next(middleware, old(View()), a)
    {
      match a {
        case Call(id) =>
          if id !in calls {
            match middleware {
              case ConcurrencyLimit =>
                calls := calls[id := Waiting];
              case LoadShedding(enabled) =>
                if !enabled {
                  calls := calls[id := Running(false)];
                } else {
                  var ok := TakePermit(id);
                  if !ok {
                    calls := calls[id := Gone(Some(Err(Unavailable)))];
                  }
                }
            }
          }
        case Acquire(id) =>
          if id in calls && calls[id].Waiting? {
            var ok := TakePermit(id);
          }
        case Complete(id) =>
          if id in calls && calls[id].Running? {
            Release(id, Some(Ok(())));
          }
        case Expire(id) =>
          Release(id, Some(Err(DeadlineExceeded)));
        case Drop(id) =>
          Release(id, None);
      }
    }
  }

  // ----- Conservation -----

  function Run(m: Middleware, s: System, actions: seq<Action>): System
    decreases actions
  {
    if actions == [] then s else Run(m, Next(m, s, actions[0]), actions[1..])
  }

  function Holders(s: System): set<Id> {
    set id | id in s.calls && s.calls[id] == Running(true)
  }

  ghost predicate Conserved(s: System, capacity: nat) {
    s.free + |Holders(s)| == capacity
  }

  lemma HoldersAfter(s: System, free: nat, id: Id, phase: Phase)
    ensures Holders(System(free, s.calls[id := phase]))
         == if phase == Running(true) then Holders(s) + {id} else Holders(s) - {id}
  {
  }

  lemma LeaveConserves(s: System, id: Id, reply: Option<Result<(), Code>>, capacity: nat)
    requires Conserved(s, capacity)
    ensures Conserved(Leave(s, id, reply), capacity)
    ensures Holders(Leave(s, id, reply)) == Holders(s) - {id}
  {
    if id in s.calls && !s.calls[id].Gone? {
      HoldersAfter(s, Leave(s, id, reply).free, id, Gone(reply));
    }
  }

  lemma TakeConserves(s: System, id: Id, capacity: nat)
    requires Conserved(s, capacity) && s.free > 0 && id !in Holders(s)
    ensures Conserved(System(s.free - 1, s.calls[id := Running(true)]), capacity)
  {
    HoldersAfter(s, s.free - 1, id, Running(true));
  }

  lemma RecordConserves(s: System, id: Id, phase: Phase, capacity: nat)
    requires Conserved(s, capacity) && id !in s.calls && phase != Running(true)
    ensures Conserved(s.(calls := s.calls[id := phase]), capacity)
  {
    HoldersAfter(s, s.free, id, phase);
    assert Holders(s) - {id} == Holders(s);
  }

  lemma StepConserves(m: Middleware, s: System, a: Action, capacity: nat)
    requires Conserved(s, capacity)
    ensures Conserved(Next(m, s, a), capacity)
  {
    var s' := Next(m, s, a);
    if s' != s {
      match a
      case Call(id) =>
        if s'.calls[id] == Running(true) {
          TakeConserves(s, id, capacity);
        } else {
          RecordConserves(s, id, s'.calls[id], capacity);
        }
      case Acquire(id) => TakeConserves(s, id, capacity);
      case Complete(id) => LeaveConserves(s, id, Some(Ok(())), capacity);
      case Expire(id) => LeaveConserves(s, id, Some(Err(DeadlineExceeded)), capacity);
      case Drop(id) => LeaveConserves(s, id, None, capacity);
    }
  }

  lemma {:induction false} RunConserves(m: Middleware, s: System, actions: seq<Action>, capacity: nat)
    requires Conserved(s, capacity)
    ensures Conserved(Run(m, s, actions), capacity)
    decreases actions
  {
    if actions != [] {
      StepConserves(m, s, actions[0], capacity);
      RunConserves(m, Next(m, s, actions[0]), actions[1..], capacity);
    }
  }

  /** Free and held permits always add up to the capacity, so running calls never exceed it. */
  lemma PermitsConserved(m: Middleware, maxConcurrent: nat, actions: seq<Action>)
    ensures var s := Run(m, Start(maxConcurrent), actions);
      s.free + |Holders(s)| == if maxConcurrent == 0 then 1 else maxConcurrent
  {
    assert Holders(Start(maxConcurrent)) == {};
    RunConserves(m, Start(maxConcurrent), actions, Capacity(maxConcurrent));
  }

  /** Only a disabled shedder runs an inner call without a permit. */
  ghost predicate PermitsUsed(m: Middleware, s: System) {
    m != LoadShedding(false) ==> forall id :: id in s.calls ==> s.calls[id] != Running(false)
  }

  lemma {:induction false} RunUsesPermits(m: Middleware, s: System, actions: seq<Action>)
    requires PermitsUsed(m, s)
    ensures PermitsUsed(m, Run(m, s, actions))
    decreases actions
  {
    if actions != [] {
      RunUsesPermits(m, Next(m, s, actions[0]), actions[1..]);
    }
  }

  function InFlight(s: System): set<Id> {
    set id | id in s.calls && s.calls[id].Running?
  }

  /** Inner calls running at once never exceed the capacity, unless shedding is switched off. */
  lemma NeverOverCapacity(m: Middleware, maxConcurrent: nat, actions: seq<Action>)
    requires m != LoadShedding(false)
    ensures |InFlight(Run(m, Start(maxConcurrent), actions))| <= Capacity(maxConcurrent)
  {
    PermitsConserved(m, maxConcurrent, actions);
    RunUsesPermits(m, Start(maxConcurrent), actions);
    var s := Run(m, Start(maxConcurrent), actions);
    assert InFlight(s) == Holders(s);
  }

  /** An enabled shedder rejects a new call exactly when the capacity is in flight at that moment. */
  lemma ShedsExactlyWhenFull(maxConcurrent: nat, actions: seq<Action>, id: Id)
    requires id !in Run(LoadShedding(true), Start(maxConcurrent), actions).calls
    ensures var s := Run(LoadShedding(true), Start(maxConcurrent), actions);
      var s' := Next(LoadShedding(true), s, Call(id));
      && (s'.calls[id] == Gone(Some(Err(Unavailable))) <==> |InFlight(s)| == Capacity(maxConcurrent))
      && (s'.calls[id] == Running(true) <==> |InFlight(s)| < Capacity(maxConcurrent))
  {
    var m := LoadShedding(true);
    PermitsConserved(m, maxConcurrent, actions);
    RunUsesPermits(m, Start(maxConcurrent), actions);
    var s := Run(m, Start(maxConcurrent), actions);
    assert InFlight(s) == Holders(s);
  }

  /** A waiting call gets its permit exactly when fewer than the capacity run, and is never rejected. */
  lemma WaiterProceedsUnlessFull(maxConcurrent: nat, actions: seq<Action>, id: Id)
    requires var s := Run(ConcurrencyLimit, Start(maxConcurrent), actions); id in s.calls && s.calls[id].Waiting?
    ensures var s := Run(ConcurrencyLimit, Start(maxConcurrent), actions);
      var s' := Next(ConcurrencyLimit, s, Acquire(id));
      s'.calls[id] == if |Holders(s)| < Capacity(maxConcurrent) then Running(true) else Waiting
  {
    PermitsConserved(ConcurrencyLimit, maxConcurrent, actions);
  }

  /** Once every future has completed, timed out or been dropped, every permit is back. */
  lemma NoPermitLeaks(m: Middleware, maxConcurrent: nat, actions: seq<Action>)
    requires var s := Run(m, Start(maxConcurrent), actions); forall id :: id in s.calls ==> s.calls[id].Gone?
    ensures Run(m, Start(maxConcurrent), actions).free == Capacity(maxConcurrent)
  {
    PermitsConserved(m, maxConcurrent, actions);
    assert Holders(Run(m, Start(maxConcurrent), actions)) == {};
  }

  /** A call that is gone stays gone: its permit is returned once, and its reply never changes. */
  lemma {:induction false} GoneIsFinal(m: Middleware, s: System, actions: seq<Action>, id: Id)
    requires id in s.calls && s.calls[id].Gone?
    ensures var s' := Run(m, s, actions); id in s'.calls && s'.calls[id] == s.calls[id]
    decreases actions
  {
    if actions != [] {
      GoneIsFinal(m, Next(m, s, actions[0]), actions[1..], id);
    }
  }

  /** What a reply says happened did happen, and there is no other reply. */
  ghost predicate Explained(m: Middleware, actions: seq<Action>, id: Id, reply: Option<Result<(), Code>>) {
    || (reply == None && Drop(id) in actions)
    || (reply == Some(Ok(())) && Complete(id) in actions)
    || (reply == Some(Err(DeadlineExceeded)) && Expire(id) in actions)
    || (reply == Some(Err(Unavailable)) && m == LoadShedding(true) && Call(id) in actions)
  }

  lemma {:induction false} RunExplains(m: Middleware, s: System, actions: seq<Action>, id: Id)
    requires id in s.calls ==> !s.calls[id].Gone?
    ensures var s' := Run(m, s, actions);
      id in s'.calls && s'.calls[id].Gone? ==> Explained(m, actions, id, s'.calls[id].reply)
    decreases actions
  {
    if actions != [] {
      var next := Next(m, s, actions[0]);
      assert actions[0] in actions;
      if id in next.calls && next.calls[id].Gone? {
        GoneIsFinal(m, next, actions[1..], id);
      } else {
        RunExplains(m, next, actions[1..], id);
      }
    }
  }

  /**
   Every reply over every run: unavailable only from an enabled shedder, deadline_exceeded only from a
   deadline that passed, the inner call's own only from its completion, and none only from a drop.
   */
  lemma RepliesExplained(m: Middleware, maxConcurrent: nat, actions: seq<Action>, id: Id)
    requires var s := Run(m, Start(maxConcurrent), actions); id in s.calls && s.calls[id].Gone?
    ensures Explained(m, actions, id, Run(m, Start(maxConcurrent), actions).calls[id].reply)
  {
    RunExplains(m, Start(maxConcurrent), actions, id);
  }

  // ----- Progress -----

  /** Everything but the one call, and but for its permit the free count, is as it was. */
  predicate Only(s: System, s': System, id: Id, phase: Phase, permits: int) {
    s'.calls == s.calls[id := phase] && s'.free == s.free + permits
  }

  function Held(s: System, id: Id): nat {
    if id in s.calls && s.calls[id] == Running(true) then 1 else 0
  }

  predicate Live(s: System, id: Id) {
    id in s.calls && !s.calls[id].Gone?
  }

  /**
   In every state a call is answered as its middleware should, a running call completes with the inner reply,
   and any live call can time out or be dropped; each gives back exactly the permit it held, and nothing
   else moves.
   */
  lemma EveryActionActs(m: Middleware, s: System, id: Id)
    ensures id !in s.calls ==>
      && (m == ConcurrencyLimit ==> Only(s, Next(m, s, Call(id)), id, Waiting, 0))
      && (m == LoadShedding(false) ==> Only(s, Next(m, s, Call(id)), id, Running(false), 0))
      && (m == LoadShedding(true) && s.free > 0 ==> Only(s, Next(m, s, Call(id)), id, Running(true), -1))
      && (m == LoadShedding(true) && s.free == 0 ==> Only(s, Next(m, s, Call(id)), id, Gone(Some(Err(Unavailable))), 0))
    ensures id in s.calls && s.calls[id].Waiting? && s.free > 0 ==>
      Only(s, Next(m, s, Acquire(id)), id, Running(true), -1)
    ensures id in s.calls && s.calls[id].Running? ==>
      Only(s, Next(m, s, Complete(id)), id, Gone(Some(Ok(()))), Held(s, id))
    ensures Live(s, id) ==>
      && Only(s, Next(m, s, Expire(id)), id, Gone(Some(Err(DeadlineExceeded))), Held(s, id))
      && Only(s, Next(m, s, Drop(id)), id, Gone(None), Held(s, id))
  {
  }

  /** And an action that has no call to act on does nothing. */
  lemma NothingElseActs(m: Middleware, s: System, id: Id)
    ensures id in s.calls ==> Next(m, s, Call(id)) == s
    ensures !(id in s.calls && s.calls[id].Waiting?) || s.free == 0 ==> Next(m, s, Acquire(id)) == s
    ensures !(id in s.calls && s.calls[id].Running?) ==> Next(m, s, Complete(id)) == s
    ensures !Live(s, id) ==> Next(m, s, Expire(id)) == s && Next(m, s, Drop(id)) == s
  {
  }

  lemma {:induction false} RunAppend(m: Middleware, s: System, a: seq<Action>, b: seq<Action>)
    ensures Run(m, s, a + b) == Run(m, Run(m, s, a), b)
    decreases a
  {
    if a == [] {
      assert a + b == b;
    } else {
      assert (a + b)[1..] == a[1..] + b;
      RunAppend(m, Next(m, s, a[0]), a[1..], b);
    }
  }

  /**
   Completing a running call, in every reachable state, lowers the number in flight by one and raises the
   free permits by what it held.
   */
  lemma CompletionFrees(m: Middleware, maxConcurrent: nat, actions: seq<Action>, id: Id)
    requires var s := Run(m, Start(maxConcurrent), actions); id in s.calls && s.calls[id].Running?
    ensures var s := Run(m, Start(maxConcurrent), actions);
      var s' := Run(m, Start(maxConcurrent), actions + [Complete(id)]);
      && |InFlight(s')| == |InFlight(s)| - 1
      && s'.free == s.free + Held(s, id)
      && id in s'.calls && s'.calls[id] == Gone(Some(Ok(())))
  {
    RunAppend(m, Start(maxConcurrent), actions, [Complete(id)]);
    var s := Run(m, Start(maxConcurrent), actions);
    assert InFlight(Next(m, s, Complete(id))) == InFlight(s) - {id};
  }

  predicate Leaving(actions: seq<Action>) {
    forall i :: 0 <= i < |actions| ==> actions[i].Expire? || actions[i].Drop?
  }

  ghost predicate AllLeave(s: System, actions: seq<Action>) {
    forall id :: Live(s, id) ==> Drop(id) in actions || Expire(id) in actions
  }

  lemma {:induction false} LeavingEmpties(m: Middleware, s: System, leaving: seq<Action>, id: Id)
    requires Leaving(leaving) && AllLeave(s, leaving)
    ensures !Live(Run(m, s, leaving), id)
    decreases leaving
  {
    if leaving != [] {
      var next := Next(m, s, leaving[0]);
      forall i | 0 <= i < |leaving[1..]| ensures leaving[1..][i].Expire? || leaving[1..][i].Drop? {
        assert leaving[1..][i] == leaving[i + 1];
      }
      forall id' | Live(next, id') ensures Drop(id') in leaving[1..] || Expire(id') in leaving[1..] {
        assert Live(s, id') && leaving[0].id != id';
      }
      LeavingEmpties(m, next, leaving[1..], id);
    }
  }

  /**
   From every reachable state, dropping or timing out every live call, in any order, leaves none live and
   every permit free.
   */
  lemma EveryPermitComesBack(m: Middleware, maxConcurrent: nat, actions: seq<Action>, leaving: seq<Action>)
    requires Leaving(leaving) && AllLeave(Run(m, Start(maxConcurrent), actions), leaving)
    ensures var s := Run(m, Start(maxConcurrent), actions + leaving);
      && (forall id :: id in s.calls ==> s.calls[id].Gone?)
      && s.free == if maxConcurrent == 0 then 1 else maxConcurrent
  {
    RunAppend(m, Start(maxConcurrent), actions, leaving);
    var s := Run(m, Start(maxConcurrent), actions + leaving);
    forall id | id in s.calls ensures s.calls[id].Gone? {
      LeavingEmpties(m, Run(m, Start(maxConcurrent), actions), leaving, id);
    }
    NoPermitLeaks(m, maxConcurrent, actions + leaving);
    PermitsConserved(m, maxConcurrent, actions + leaving);
    assert Holders(s) == {};
  }
}
