/**
  The coordinator as a transition system. Threads that drive transactions (the scheduler, or
  callers of the public functions) and the timeout thread interleave at the borders of the
  critical sections.
 */
module TwoPhaseRuns {
  import opened TxnQueue
  import opened TwoPhase

  /** Where a driving thread stands; `auto` tells the scheduler from a direct call. */
  datatype Pc =
    | Idle
    | Got(t: Id)
    | AtPrepare(t: Id, auto: bool)
    | AtCollect(t: Id, auto: bool)
    | AtPromote(t: Id)
    | AtRequeue(t: Id)
    | AtCommit(t: Id, auto: bool)
    | AtAbort(t: Id)

  /** Transactions are numbered in the order they begin; `starting` are begun but not queued yet. */
  datatype System = System(txns: seq<Txn>, starting: set<Id>, queue: seq<Item>, clock: nat, capacity: nat, pcs: seq<Pc>)

  datatype Label =
    | Begin(n: nat, priority: int, engine: bool)
    | Submit(t: Id)
    | Dequeue(d: nat)
    | Expire(d: nat)
    | Dispatch(d: nat)
    | Call(d: nat, pc: Pc)
    | Prepare(d: nat, ok: seq<bool>)
    | Collect(d: nat, yes: seq<bool>)
    | Promote(d: nat)
    | Requeue(d: nat)
    | Commit(d: nat, ok: seq<bool>)
    | Abort(d: nat)
    | Timeout(t: Id)

  ghost function Init(drivers: nat, capacity: nat): System {
    System([], {}, [], 0, capacity, seq(drivers, _ => Idle))
  }

  /** A full queue drops the newcomer. */
  ghost function Queued(s: System, t: Id): System
    requires t < |s.txns|
  {
    if |s.queue| >= s.capacity then s
    else s.(queue := Arrive(s.queue, Item(t, s.txns[t].priority, s.clock)), clock := s.clock + 1)
  }

  /** The thread of a label stands at a step of an existing transaction. */
  ghost predicate Stands(s: System, d: nat) {
    d < |s.pcs| && s.pcs[d] != Idle && s.pcs[d].t < |s.txns|
  }

  ghost predicate Can(s: System, l: Label) {
    match l
    case Begin(n, _, _) => n > 0
    case Submit(t) => t in s.starting && t < |s.txns|
    case Dequeue(d) => d < |s.pcs| && s.pcs[d] == Idle && s.queue != []
    case Expire(d) => Stands(s, d) && s.pcs[d].Got?
    case Dispatch(d) => Stands(s, d) && s.pcs[d].Got?
    case Call(d, pc) =>
      && d < |s.pcs| && s.pcs[d] == Idle
      && exists t: Id :: t < |s.txns| && (pc == AtPrepare(t, false) || pc == AtCommit(t, false) || pc == AtAbort(t))
    case Prepare(d, ok) => Stands(s, d) && s.pcs[d].AtPrepare? && |ok| == |s.txns[s.pcs[d].t].parts|
    case Collect(d, yes) => Stands(s, d) && s.pcs[d].AtCollect? && |yes| == |s.txns[s.pcs[d].t].parts|
    case Promote(d) => Stands(s, d) && s.pcs[d].AtPromote?
    case Requeue(d) => Stands(s, d) && s.pcs[d].AtRequeue?
    case Commit(d, ok) => Stands(s, d) && s.pcs[d].AtCommit? && |ok| == |s.txns[s.pcs[d].t].parts|
    case Abort(d) => Stands(s, d) && s.pcs[d].AtAbort?
    case Timeout(t) => t < |s.txns|
  }

  /** Replaces one transaction and moves the thread that worked on it. */
  ghost function Moved(s: System, d: nat, t: Id, x: Txn, pc: Pc): System
    requires d < |s.pcs| && t < |s.txns|
  {
    s.(txns := s.txns[t := x], pcs := s.pcs[d := pc])
  }

  /** Where the scheduler goes with a transaction it has taken from the queue. */
  ghost function Next(x: Txn, t: Id): Pc {
    match x.status
    case Preparing => AtPrepare(t, true)
    case Committing => AtCommit(t, true)
    case _ => Idle
  }

  ghost function Do(s: System, l: Label): System
    requires Can(s, l)
  {
    match l
    case Begin(n, priority, engine) =>
      s.(txns := s.txns + [Begun(n, priority, engine)], starting := s.starting + {|s.txns|})
    case Submit(t) => Queued(s.(starting := s.starting - {t}), t)
    case Dequeue(d) => s.(queue := s.queue[1..], pcs := s.pcs[d := Got(s.queue[0].txn)])
    case Expire(d) => s.(pcs := s.pcs[d := AtAbort(s.pcs[d].t)])
    case Dispatch(d) => s.(pcs := s.pcs[d := Next(s.txns[s.pcs[d].t], s.pcs[d].t)])
    case Call(d, pc) => s.(pcs := s.pcs[d := pc])
    case Prepare(d, ok) =>
      var t, auto := s.pcs[d].t, s.pcs[d].auto;
      var x := s.txns[t];
      if x.status != Preparing then Moved(s, d, t, x, if auto then AtAbort(t) else Idle)
      else Moved(s, d, t, SentOut(x, ok), AtCollect(t, auto))
    case Collect(d, yes) =>
      var t, auto := s.pcs[d].t, s.pcs[d].auto;
      var x := Collected(s.txns[t], yes);
      Moved(s, d, t, x, if !auto then Idle else if x.status == Prepared then AtPromote(t) else AtAbort(t))
    case Promote(d) => var t := s.pcs[d].t; Moved(s, d, t, Promoted(s.txns[t]), AtRequeue(t))
    case Requeue(d) => var t := s.pcs[d].t; Queued(s.(pcs := s.pcs[d := Idle]), t)
    case Commit(d, ok) =>
      var t, auto := s.pcs[d].t, s.pcs[d].auto;
      var x, y := s.txns[t], CommitDone(s.txns[t], ok);
      Moved(s, d, t, y, if auto && !(CanCommit(x) && y.status == Committed) then AtAbort(t) else Idle)
    case Abort(d) => var t := s.pcs[d].t; Moved(s, d, t, AbortDone(s.txns[t]), Idle)
    case Timeout(t) =>
      var s' := s.(txns := s.txns[t := Flagged(s.txns[t])]);
      if s.txns[t].status != Committed && s.txns[t].status != Aborted then Queued(s', t) else s'
  }

  ghost predicate Runs(s: System, ls: seq<Label>)
    decreases |ls|, 0
  {
    ls == [] || (Runs(s, ls[..|ls| - 1]) && Can(After(s, ls[..|ls| - 1]), ls[|ls| - 1]))
  }

  ghost function After(s: System, ls: seq<Label>): System
    requires Runs(s, ls)
    decreases |ls|, 1
  {
    if ls == [] then s else Do(After(s, ls[..|ls| - 1]), ls[|ls| - 1])
  }

  // ----- what is promised

  ghost predicate NoCommitIn(log: seq<Event>) {
    forall j :: 0 <= j < |log| ==> !log[j].SentCommit?
  }

  ghost predicate NoAbortIn(log: seq<Event>) {
    forall j :: 0 <= j < |log| ==> !log[j].SentAbort?
  }

  ghost predicate SaidYes(log: seq<Event>, i: nat) {
    Voted(i, true) in log
  }

  ghost predicate AllSaidYes(log: seq<Event>, n: nat) {
    forall i :: 0 <= i < n ==> SaidYes(log, i)
  }

  /** Every commit message comes after a yes from each of the `n` participants. */
  ghost predicate CommitsFollowVotes(log: seq<Event>, n: nat) {
    forall j :: 0 <= j < |log| && log[j].SentCommit? ==> AllSaidYes(log[..j], n)
  }

  /** Nobody hears both decisions, nobody hears commit too early, and the local transaction agrees. */
  ghost predicate TxnSafe(x: Txn) {
    && (NoCommitIn(x.log) || NoAbortIn(x.log))
    && CommitsFollowVotes(x.log, |x.parts|)
    && (x.local != NoLocal ==>
      (x.local == LocalCommitted <==> x.status == Committed) && (x.local == RolledBack <==> x.status == Aborted))
  }

  ghost predicate Safe(s: System) {
    forall t :: 0 <= t < |s.txns| ==> TxnSafe(s.txns[t])
  }

  // ----- the invariant of a single driver

  ghost predicate Undecided(x: Txn) {
    NoCommitIn(x.log) && NoAbortIn(x.log) && (x.local == NoLocal || x.local == Active)
  }

  ghost predicate Untouched(x: Txn) {
    Undecided(x) && x.prepared == 0 && forall i :: 0 <= i < |x.parts| ==> x.parts[i] == Preparing
  }

  ghost predicate Asked(x: Txn) {
    Undecided(x) && x.prepared == 0 && forall i :: 0 <= i < |x.parts| ==>
      x.parts[i] == Preparing || x.parts[i] == Aborted
  }

  ghost predicate Ready(x: Txn) {
    Undecided(x) && AllSaidYes(x.log, |x.parts|) && forall i :: 0 <= i < |x.parts| ==> x.parts[i] == Prepared
  }

  /** `pc` is where the only driver stands. */
  ghost predicate TxnInv(x: Txn, t: Id, pc: Pc) {
    && |x.parts| > 0
    && (match x.status
        case Preparing => if pc.AtCollect? && pc.t == t then Asked(x) else Untouched(x)
        case Prepared => Ready(x)
        case Committing => Ready(x)
        case Aborting => Undecided(x)
        case Committed => NoAbortIn(x.log) && CommitsFollowVotes(x.log, |x.parts|)
          && (x.local == NoLocal || x.local == LocalCommitted)
        case Aborted => NoCommitIn(x.log) && (x.local == NoLocal || x.local == RolledBack))
    && (pc.AtCollect? && pc.t == t ==> Asked(x) && (x.status == Preparing || x.status == Aborting))
    && (pc.AtPromote? && pc.t == t ==> Ready(x) && (x.status == Prepared || x.status == Aborting))
  }

  ghost function PcOf(s: System): Pc {
    if |s.pcs| == 0 then Idle else s.pcs[0]
  }

  ghost predicate Inv(s: System) {
    && |s.pcs| <= 1
    && (forall x :: x in s.queue ==> x.txn < |s.txns|)
    && (PcOf(s) != Idle ==> PcOf(s).t < |s.txns|)
    && forall t {:trigger TxnInv(s.txns[t], t, PcOf(s))} :: 0 <= t < |s.txns| ==> TxnInv(s.txns[t], t, PcOf(s))
  }

  lemma InvIsSafe(x: Txn, t: Id, pc: Pc)
    requires TxnInv(x, t, pc)
    ensures TxnSafe(x)
  {}

  // ----- the critical sections keep the invariant

  lemma {:induction false} PreparesKeep(x: Txn, ok: seq<bool>, i: nat)
    requires Untouched(x) && i <= |x.parts| == |ok|
    ensures var y := Prepares(x, ok, i); Asked(y) && y.status == x.status && y.local == x.local
    decreases i
  {
    if i > 0 { PreparesKeep(x, ok, i - 1); }
  }

  /** The counter equals the number of participants seen exactly if all of them said yes. */
  lemma {:induction false} VotesKeep(x: Txn, yes: seq<bool>, i: nat)
    requires Asked(x) && i <= |x.parts| == |yes|
    ensures var y := Votes(x, yes, i);
      && Undecided(y) && 0 <= y.prepared <= i && y.local == x.local && y.status == x.status
      && (forall j :: i <= j < |y.parts| ==> y.parts[j] == x.parts[j])
      && (y.prepared == i ==> AllSaidYes(y.log, i) && forall j :: 0 <= j < i ==> y.parts[j] == Prepared)
    decreases i
  {
    if i > 0 {
      VotesKeep(x, yes, i - 1);
      var z, y := Votes(x, yes, i - 1), Votes(x, yes, i);
      assert forall e :: e in z.log ==> e in y.log;
      if y.prepared == i {
        assert y.log[|y.log| - 1] == Voted(i - 1, true);
        forall j | 0 <= j < i ensures SaidYes(y.log, j) {
          assert j < i - 1 ==> SaidYes(z.log, j);
        }
      }
    }
  }

  lemma {:induction false} CommitsKeep(x: Txn, ok: seq<bool>, i: nat)
    requires NoAbortIn(x.log) && CommitsFollowVotes(x.log, |x.parts|) && AllSaidYes(x.log, |x.parts|)
    requires i <= |x.parts| == |ok|
    ensures var y := Commits(x, ok, i);
      NoAbortIn(y.log) && CommitsFollowVotes(y.log, |y.parts|) && AllSaidYes(y.log, |y.parts|) && y.local == x.local
    decreases i
  {
    if i > 0 {
      CommitsKeep(x, ok, i - 1);
      var z, y := Commits(x, ok, i - 1), Commits(x, ok, i);
      assert y.log[..|z.log|] == z.log;
      forall j | 0 <= j < |y.log| && y.log[j].SentCommit? ensures AllSaidYes(y.log[..j], |y.parts|) {
        assert j < |z.log| ==> y.log[..j] == z.log[..j];
        assert j == |z.log| ==> y.log[..j] == z.log;
      }
      forall k | 0 <= k < |y.parts| ensures SaidYes(y.log, k) {
        assert SaidYes(z.log, k);
      }
    }
  }

  lemma {:induction false} AbortsKeep(x: Txn, i: nat)
    requires NoCommitIn(x.log) && i <= |x.parts|
    ensures NoCommitIn(Aborts(x, i).log) && Aborts(x, i).local == x.local
    decreases i
  {
    if i > 0 { AbortsKeep(x, i - 1); }
  }

  /** A step of the driver at transaction `t` keeps the invariant of that transaction. */
  lemma PrepareKeeps(x: Txn, t: Id, auto: bool, ok: seq<bool>)
    requires TxnInv(x, t, AtPrepare(t, auto)) && |ok| == |x.parts| && x.status == Preparing
    ensures TxnInv(SentOut(x, ok), t, AtCollect(t, auto))
  {
    PreparesKeep(x, ok, |x.parts|);
  }

  lemma CollectKeeps(x: Txn, t: Id, auto: bool, yes: seq<bool>)
    requires TxnInv(x, t, AtCollect(t, auto)) && |yes| == |x.parts|
    ensures var y := Collected(x, yes);
      && TxnInv(y, t, Idle) && TxnInv(y, t, AtAbort(t))
      && (y.status == Prepared ==> TxnInv(y, t, AtPromote(t)))
  {
    VotesKeep(x, yes, |x.parts|);
  }

  lemma CommitKeeps(x: Txn, t: Id, auto: bool, ok: seq<bool>)
    requires TxnInv(x, t, AtCommit(t, auto)) && |ok| == |x.parts|
    ensures var y := CommitDone(x, ok); TxnInv(y, t, Idle) && TxnInv(y, t, AtAbort(t))
    ensures x.status == Committed || x.status == Aborted ==> CommitDone(x, ok) == x
  {
    if CanCommit(x) {
      var c := x.(local := if x.local == Active then LocalCommitted else NoLocal);
      CommitsKeep(c, ok, |x.parts|);
    }
  }

  lemma AbortKeeps(x: Txn, t: Id)
    requires TxnInv(x, t, AtAbort(t))
    ensures TxnInv(AbortDone(x), t, Idle)
    ensures x.status == Committed || x.status == Aborted ==> AbortDone(x).status == x.status
  {
    if x.status != Committed {
      AbortsKeep(x.(local := if x.local == Active then RolledBack else x.local), |x.parts|);
    }
  }

  // ----- every step keeps the invariant

  ghost predicate Final(x: Txn) {
    x.status == Committed || x.status == Aborted
  }

  /** The label is about transaction `t`, whose driver, if the step moves it, goes on to the new `pc`. */
  lemma TxnStep(s: System, l: Label, t: Id)
    requires Inv(s) && Can(s, l) && t < |s.txns|
    ensures var s' := Do(s, l);
      && t < |s'.txns| && TxnInv(s'.txns[t], t, PcOf(s'))
      && (Final(s.txns[t]) ==> s'.txns[t].status == s.txns[t].status)
  {
    hide Untouched, Asked, Ready, Undecided, CommitsFollowVotes, NoCommitIn, NoAbortIn, Votes, Commits, Aborts;
    hide Prepares;
    var x, pc := s.txns[t], PcOf(s);
    assert TxnInv(x, t, pc);
    match l
    case Prepare(d, ok) =>
      if pc.t == t && x.status == Preparing { PrepareKeeps(x, t, pc.auto, ok); }
    case Collect(d, yes) =>
      if pc.t == t { CollectKeeps(x, t, pc.auto, yes); }
    case Commit(d, ok) =>
      if pc.t == t { CommitKeeps(x, t, pc.auto, ok); }
    case Abort(d) =>
      if pc.t == t { AbortKeeps(x, t); }
    case Promote(d) => StatusChanges(x, Committing);
    case Timeout(u) => StatusChanges(x, Aborting);
    case _ =>
  }

  lemma StatusChanges(x: Txn, status: Status)
    ensures Untouched(x) || Asked(x) || Ready(x) ==> Undecided(x)
    ensures Undecided(x) ==> Undecided(x.(status := status))
    ensures Asked(x) ==> Asked(x.(status := status))
    ensures Ready(x) ==> Ready(x.(status := status))
  {}

  lemma BegunOk(n: nat, priority: int, engine: bool, t: Id, pc: Pc)
    requires n > 0 && (pc == Idle || pc.t != t)
    ensures TxnInv(Begun(n, priority, engine), t, pc)
  {}

  lemma {:induction false} ArriveMembers(q: seq<Item>, x: Item)
    ensures forall y :: y in Arrive(q, x) ==> y in q || y == x
    decreases |q|
  {
    if q != [] && x.priority <= q[0].priority {
      ArriveMembers(q[1..], x);
    }
  }

  lemma StepKeepsInv(s: System, l: Label)
    requires Inv(s) && Can(s, l)
    ensures Inv(Do(s, l)) && |Do(s, l).pcs| == |s.pcs| && |Do(s, l).txns| >= |s.txns|
  {
    hide TxnInv, Votes, Commits, Aborts, Prepares, Arrive;
    var s' := Do(s, l);
    QueueStays(s, l);
    forall t | 0 <= t < |s'.txns| ensures TxnInv(s'.txns[t], t, PcOf(s')) {
      if t < |s.txns| {
        TxnStep(s, l, t);
      } else {
        BegunOk(l.n, l.priority, l.engine, t, PcOf(s));
      }
    }
  }

  lemma QueueStays(s: System, l: Label)
    requires Inv(s) && Can(s, l)
    ensures forall x :: x in Do(s, l).queue ==> x.txn < |Do(s, l).txns|
  {
    hide TxnInv, Votes, Commits, Aborts, Prepares, Arrive;
    forall x: Item ensures forall y :: y in Arrive(s.queue, x) ==> y in s.queue || y == x {
      ArriveMembers(s.queue, x);
    }
  }

  // ----- theorems

  lemma {:induction false} RunKeepsInv(drivers: nat, capacity: nat, ls: seq<Label>)
    requires drivers <= 1 && Runs(Init(drivers, capacity), ls)
    ensures Inv(After(Init(drivers, capacity), ls))
    decreases |ls|
  {
    hide Do, Can, TxnInv;
    if ls != [] {
      RunKeepsInv(drivers, capacity, ls[..|ls| - 1]);
      StepKeepsInv(After(Init(drivers, capacity), ls[..|ls| - 1]), ls[|ls| - 1]);
    }
  }

  /** With one driving thread, every interleaving with the timeout thread is safe. */
  lemma OneDriverIsSafe(drivers: nat, capacity: nat, ls: seq<Label>)
    requires drivers <= 1 && Runs(Init(drivers, capacity), ls)
    ensures Safe(After(Init(drivers, capacity), ls))
  {
    hide Do, Can, TxnInv;
    RunKeepsInv(drivers, capacity, ls);
    var s := After(Init(drivers, capacity), ls);
    forall t | 0 <= t < |s.txns| ensures TxnSafe(s.txns[t]) {
      assert TxnInv(s.txns[t], t, PcOf(s));
      InvIsSafe(s.txns[t], t, PcOf(s));
    }
  }

  /** A committed or aborted transaction keeps its status however the run goes on. */
  lemma {:induction false} DecisionsAreFinal(drivers: nat, capacity: nat, ls: seq<Label>, more: seq<Label>, t: Id)
    requires drivers <= 1 && Runs(Init(drivers, capacity), ls + more) && Runs(Init(drivers, capacity), ls)
    requires t < |After(Init(drivers, capacity), ls).txns| && Final(After(Init(drivers, capacity), ls).txns[t])
    ensures var s, s' := After(Init(drivers, capacity), ls), After(Init(drivers, capacity), ls + more);
      t < |s'.txns| && s'.txns[t].status == s.txns[t].status
    decreases |more|
  {
    hide Do, Can, TxnInv;
    if more == [] {
      assert ls + more == ls;
    } else {
      var init, before := Init(drivers, capacity), more[..|more| - 1];
      assert (ls + more)[..|ls + more| - 1] == ls + before;
      DecisionsAreFinal(drivers, capacity, ls, before, t);
      RunKeepsInv(drivers, capacity, ls + before);
      TxnStep(After(init, ls + before), more[|more| - 1], t);
    }
  }

  // ----- what a timeout brings about

  /**
    A timeout flags exactly the undecided transaction it concerns, and puts it into the queue again, in the
    order of priorities, unless the queue is full.
   */
  lemma TimeoutFlags(s: System, t: Id)
    requires t < |s.txns| && Ordered(s.queue) && Stamped(s.queue, s.clock)
    ensures Can(s, Timeout(t))
    ensures var s', x := Do(s, Timeout(t)), s.txns[t];
      && s'.pcs == s.pcs && s'.starting == s.starting && |s'.txns| == |s.txns|
      && (forall u: Id :: u < |s.txns| && u != t ==> s'.txns[u] == s.txns[u])
      && (if x.status == Committed || x.status == Aborted then s' == s
          else
            && s'.txns[t] == x.(status := Aborting) && Ordered(s'.queue)
            && (if |s.queue| >= s.capacity then s'.queue == s.queue
                else Waiting(s'.queue) == Waiting(s.queue) + {Item(t, x.priority, s.clock)}))
  {
    hide Ordered, Stamped, Arrive;
    ArriveKeepsOrder(s.queue, Item(t, s.txns[t].priority, s.clock));
  }

  /** A transaction that the scheduler finds expired is aborted at all participants, unless it is committed. */
  lemma ExpiredIsAborted(s: System, d: nat)
    requires Stands(s, d) && s.pcs[d].Got?
    ensures Can(s, Expire(d)) && Can(Do(s, Expire(d)), Abort(d))
    ensures var s', t := Do(Do(s, Expire(d)), Abort(d)), s.pcs[d].t;
      && s'.pcs == s.pcs[d := Idle] && s'.queue == s.queue && |s'.txns| == |s.txns|
      && (forall u: Id :: u < |s.txns| && u != t ==> s'.txns[u] == s.txns[u])
      && (if s.txns[t].status == Committed then s'.txns[t] == s.txns[t]
          else
            && s'.txns[t].status == Aborted && |s'.txns[t].parts| == |s.txns[t].parts|
            && forall j :: 0 <= j < |s.txns[t].parts| ==> s'.txns[t].parts[j] == Aborted)
  {
    hide AbortDone, Adds;
    AbortReachesAll(s.txns[s.pcs[d].t]);
    assert s.pcs[d := AtAbort(s.pcs[d].t)][d := Idle] == s.pcs[d := Idle];
  }

  // ----- one driver carries a transaction through

  /** One transaction, and thread 0 at `a`. */
  ghost function Solo(drivers: nat, capacity: nat, x: Txn, queue: seq<Item>, clock: nat, a: Pc): System
    requires drivers >= 1
  {
    System([x], {}, queue, clock, capacity, seq(drivers, _ => Idle)[0 := a])
  }

  ghost predicate Solos(
    drivers: nat, capacity: nat, ls: seq<Label>, x: Txn, queue: seq<Item>, clock: nat, a: Pc)
  {
    && drivers >= 1 && Runs(Init(drivers, capacity), ls)
    && After(Init(drivers, capacity), ls) == Solo(drivers, capacity, x, queue, clock, a)
  }

  lemma SoloMoves(drivers: nat, capacity: nat, x: Txn, queue: seq<Item>, clock: nat, a: Pc, y: Txn, c: Pc)
    requires drivers >= 1
    ensures var s := Solo(drivers, capacity, x, queue, clock, a);
      && |s.pcs| == drivers && s.pcs[0] == a
      && Moved(s, 0, 0, y, c) == Solo(drivers, capacity, y, queue, clock, c)
      && s.(pcs := s.pcs[0 := c]) == Solo(drivers, capacity, x, queue, clock, c)
  {
    var s := Solo(drivers, capacity, x, queue, clock, a);
    assert [x][0 := y] == [y];
    assert s.pcs[0 := c] == seq(drivers, _ => Idle)[0 := c];
  }

  /** A run goes on with a step of thread 0. */
  lemma SoloGoesOn(
    drivers: nat, capacity: nat, ls: seq<Label>, l: Label, x: Txn, queue: seq<Item>, clock: nat, a: Pc, y: Txn, c: Pc)
    returns (more: seq<Label>)
    requires Solos(drivers, capacity, ls, x, queue, clock, a) && Can(Solo(drivers, capacity, x, queue, clock, a), l)
    requires Do(Solo(drivers, capacity, x, queue, clock, a), l) ==
      Moved(Solo(drivers, capacity, x, queue, clock, a), 0, 0, y, c)
    ensures Solos(drivers, capacity, more, y, queue, clock, c)
  {
    hide Do, Can, Solo, Moved;
    Extend(Init(drivers, capacity), ls, l);
    SoloMoves(drivers, capacity, x, queue, clock, a, y, c);
    more := ls + [l];
  }

  lemma SoloTakes(drivers: nat, capacity: nat, ls: seq<Label>, x: Txn, clock: nat, stamp: nat)
    returns (more: seq<Label>)
    requires Solos(drivers, capacity, ls, x, [Item(0, 5, stamp)], clock, Idle)
    ensures Solos(drivers, capacity, more, x, [], clock, Got(0))
  {
    hide Runs, After;
    Extend(Init(drivers, capacity), ls, Dequeue(0));
    more := ls + [Dequeue(0)];
    assert seq(drivers, _ => Idle)[0 := Idle][0 := Got(0)] == seq(drivers, _ => Idle)[0 := Got(0)];
    assert [Item(0, 5, stamp)][1..] == [];
  }

  lemma SoloOpens(drivers: nat, capacity: nat, n: nat) returns (ls: seq<Label>)
    requires drivers >= 1 && capacity > 0 && n > 0
    ensures Solos(drivers, capacity, ls, Begun(n, 5, true), [], 1, AtPrepare(0, true))
  {
    var s, x, pcs := Init(drivers, capacity), Begun(n, 5, true), seq(drivers, _ => Idle);
    Extend(s, [], Begin(n, 5, true));
    ls := [] + [Begin(n, 5, true)];
    assert After(s, ls) == System([x], {0}, [], 0, capacity, pcs);
    SubmitStep(drivers, capacity, x, pcs);
    Extend(s, ls, Submit(0));
    ls := ls + [Submit(0)];
    assert pcs[0 := Idle] == pcs;
    assert Solos(drivers, capacity, ls, x, [Item(0, 5, 0)], 1, Idle);
    hide Runs, After, Begun;
    ls := SoloTakes(drivers, capacity, ls, x, 1, 0);
    SoloMoves(drivers, capacity, x, [], 1, Got(0), x, AtPrepare(0, true));
    Opened(n);
    ls := SoloGoesOn(drivers, capacity, ls, Dispatch(0), x, [], 1, Got(0), x, AtPrepare(0, true));
  }

  lemma Opened(n: nat)
    ensures var x := Begun(n, 5, true);
      && x.status == Preparing && |x.parts| == n && x.prepared == 0
      && x.local == Active && x.log == [] && x.priority == 5
      && forall j :: 0 <= j < n ==> x.parts[j] == Preparing
  {}

  /** The scheduler sends the prepares, all of which arrive, and collects the votes. */
  lemma SoloVotes(drivers: nat, capacity: nat, n: nat, yes: seq<bool>) returns (ls: seq<Label>, x: Txn)
    requires drivers >= 1 && capacity > 0 && n > 0 && |yes| == n
    ensures |x.parts| == n && x.local == Active && x.priority == 5
    ensures forall j :: 0 <= j < n ==> x.parts[j] == if yes[j] then Prepared else Aborted
    ensures x.status == if (forall j :: 0 <= j < n ==> yes[j]) then Prepared else Aborting
    ensures Solos(drivers, capacity, ls, x, [], 1, if x.status == Prepared then AtPromote(0) else AtAbort(0))
  {
    hide Runs, After, SentOut, Collected, Begun, Adds;
    ls := SoloOpens(drivers, capacity, n);
    Opened(n);
    x := Begun(n, 5, true);
    var ok := seq(n, _ => true);
    PrepareReachesAll(x, ok);
    var y := SentOut(x, ok);
    SoloMoves(drivers, capacity, x, [], 1, AtPrepare(0, true), x, Idle);
    ls := SoloGoesOn(drivers, capacity, ls, Prepare(0, ok), x, [], 1, AtPrepare(0, true), y, AtCollect(0, true));
    VotesAreCounted(y, yes);
    var z := Collected(y, yes);
    var ps := set j: nat | j < n && y.parts[j] == Preparing && yes[j];
    YesSayers(n, yes, ps);
    SoloMoves(drivers, capacity, y, [], 1, AtCollect(0, true), y, Idle);
    ls := SoloGoesOn(drivers, capacity, ls, Collect(0, yes), y, [], 1, AtCollect(0, true), z,
      if z.status == Prepared then AtPromote(0) else AtAbort(0));
    x := z;
  }

  lemma {:induction false} YesSayers(n: nat, yes: seq<bool>, ps: set<nat>)
    requires |yes| == n && forall j: nat :: j in ps <==> j < n && yes[j]
    ensures |ps| == n <==> forall j :: 0 <= j < n ==> yes[j]
    ensures |ps| <= n
  {
    if n > 0 {
      var ps' := set j: nat | j < n - 1 && yes[j];
      YesSayers(n - 1, yes[..n - 1], ps');
      assert ps == if yes[n - 1] then ps' + {n - 1} else ps';
    }
  }

  /**
    Whatever the number of participants: if all of them vote yes, the scheduler alone commits all of them,
    and otherwise it aborts all of them, with one ABORT to each that had voted yes.
   */
  lemma OneDriverDecides(drivers: nat, capacity: nat, n: nat, yes: seq<bool>) returns (ls: seq<Label>, x: Txn)
    requires drivers >= 1 && capacity > 0 && n > 0 && |yes| == n
    ensures Runs(Init(drivers, capacity), ls) && After(Init(drivers, capacity), ls).txns == [x] && |x.parts| == n
    ensures (forall j :: 0 <= j < n ==> yes[j]) ==>
      x.status == Committed && x.local == LocalCommitted && forall j :: 0 <= j < n ==> x.parts[j] == Committed
    ensures !(forall j :: 0 <= j < n ==> yes[j]) ==>
      && x.status == Aborted && x.local == RolledBack
      && forall j :: 0 <= j < n ==> x.parts[j] == Aborted && (yes[j] ==> SentAbort(j) in x.log)
  {
    ls, x := SoloVotes(drivers, capacity, n, yes);
    if forall j :: 0 <= j < n ==> yes[j] {
      ls, x := SoloCommits(drivers, capacity, ls, x);
    } else {
      ls, x := SoloAborts(drivers, capacity, ls, x);
    }
  }

  lemma SoloCommits(drivers: nat, capacity: nat, ls: seq<Label>, x: Txn) returns (more: seq<Label>, y: Txn)
    requires Solos(drivers, capacity, ls, x, [], 1, AtPromote(0)) && x.status == Prepared && x.local == Active
    requires capacity > 0 && x.priority == 5 && forall j :: 0 <= j < |x.parts| ==> x.parts[j] == Prepared
    ensures Runs(Init(drivers, capacity), more) && After(Init(drivers, capacity), more).txns == [y]
    ensures |y.parts| == |x.parts| && y.status == Committed && y.local == LocalCommitted
    ensures forall j :: 0 <= j < |x.parts| ==> y.parts[j] == Committed
  {
    hide Runs, After, CommitDone, Adds;
    var p := x.(status := Committing);
    SoloMoves(drivers, capacity, x, [], 1, AtPromote(0), p, AtRequeue(0));
    more := SoloGoesOn(drivers, capacity, ls, Promote(0), x, [], 1, AtPromote(0), p, AtRequeue(0));
    RequeueStep(drivers, capacity, p);
    Extend(Init(drivers, capacity), more, Requeue(0));
    more := more + [Requeue(0)];
    more := SoloTakes(drivers, capacity, more, p, 2, 1);
    SoloMoves(drivers, capacity, p, [], 2, Got(0), p, AtCommit(0, true));
    more := SoloGoesOn(drivers, capacity, more, Dispatch(0), p, [], 2, Got(0), p, AtCommit(0, true));
    var ok := seq(|x.parts|, _ => true);
    CommitReachesPrepared(p, ok);
    y := CommitDone(p, ok);
    SoloMoves(drivers, capacity, p, [], 2, AtCommit(0, true), y, Idle);
    more := SoloGoesOn(drivers, capacity, more, Commit(0, ok), p, [], 2, AtCommit(0, true), y, Idle);
  }

  lemma RequeueStep(drivers: nat, capacity: nat, x: Txn)
    requires drivers >= 1 && capacity > 0 && x.priority == 5
    ensures var s := Solo(drivers, capacity, x, [], 1, AtRequeue(0));
      Can(s, Requeue(0)) && Do(s, Requeue(0)) == Solo(drivers, capacity, x, [Item(0, 5, 1)], 2, Idle)
  {
    SoloMoves(drivers, capacity, x, [], 1, AtRequeue(0), x, Idle);
    assert Arrive([], Item(0, 5, 1)) == [Item(0, 5, 1)] + [];
  }

  lemma SoloAborts(drivers: nat, capacity: nat, ls: seq<Label>, x: Txn) returns (more: seq<Label>, y: Txn)
    requires Solos(drivers, capacity, ls, x, [], 1, AtAbort(0)) && x.status == Aborting && x.local == Active
    ensures Runs(Init(drivers, capacity), more) && After(Init(drivers, capacity), more).txns == [y]
    ensures |y.parts| == |x.parts| && y.status == Aborted && y.local == RolledBack
    ensures forall j :: 0 <= j < |x.parts| ==>
      y.parts[j] == Aborted && (x.parts[j] == Prepared ==> SentAbort(j) in y.log)
  {
    hide Runs, After, AbortDone, Adds;
    AbortReachesAll(x);
    y := AbortDone(x);
    SoloMoves(drivers, capacity, x, [], 1, AtAbort(0), y, Idle);
    more := SoloGoesOn(drivers, capacity, ls, Abort(0), x, [], 1, AtAbort(0), y, Idle);
    forall j: nat | j < |x.parts| && x.parts[j] == Prepared ensures SentAbort(j) in y.log {
      AddsHas(x.log, y.log, set i: nat | i < |x.parts| && x.parts[i] != TwoPhase.Aborted :: SentAbort(i), SentAbort(j));
    }
  }

  lemma AddsHas(before: seq<Event>, after: seq<Event>, es: set<Event>, e: Event)
    requires Adds(before, after, es) && e in es
    ensures e in after
  {
    assert e in multiset(es);
    assert e in after[|before|..];
  }

  // ----- two drivers

  lemma Extend(s: System, ls: seq<Label>, l: Label)
    requires Runs(s, ls) && Can(After(s, ls), l)
    ensures Runs(s, ls + [l]) && After(s, ls + [l]) == Do(After(s, ls), l)
  {
    assert (ls + [l])[..|ls + [l]| - 1] == ls;
  }

  /** One transaction, past the queue; threads 0 and 1 stand at `a` and `b`. */
  ghost function Duel(drivers: nat, capacity: nat, x: Txn, a: Pc, b: Pc): System
    requires drivers >= 2
  {
    System([x], {}, [], 1, capacity, seq(drivers, _ => Idle)[0 := a][1 := b])
  }

  ghost function Lone(status: Status, part: Status, prepared: int, committed: int, local: Local, log: seq<Event>): Txn {
    Txn(status, [part], prepared, committed, local, log, 5)
  }

  lemma DuelMoves(drivers: nat, capacity: nat, x: Txn, a: Pc, b: Pc, y: Txn, c: Pc)
    requires drivers >= 2
    ensures var s := Duel(drivers, capacity, x, a, b);
      && |s.pcs| == drivers && s.pcs[0] == a && s.pcs[1] == b
      && Moved(s, 0, 0, y, c) == Duel(drivers, capacity, y, c, b)
        && s.(pcs := s.pcs[0 := c]) == Duel(drivers, capacity, x, c, b)
      && Moved(s, 1, 0, y, c) == Duel(drivers, capacity, y, a, c)
        && s.(pcs := s.pcs[1 := c]) == Duel(drivers, capacity, x, a, c)
  {
    var s := Duel(drivers, capacity, x, a, b);
    assert [x][0 := y] == [y];
    assert s.pcs[0 := c] == seq(drivers, _ => Idle)[0 := c][1 := b];
    assert s.pcs[1 := c] == seq(drivers, _ => Idle)[0 := a][1 := c];
  }

  /** A run that ends in a duel goes on with a step of thread `d`. */
  lemma DuelGoesOn(drivers: nat, capacity: nat, ls: seq<Label>, l: Label, d: nat, x: Txn, a: Pc, b: Pc, y: Txn, c: Pc)
    returns (more: seq<Label>)
    requires drivers >= 2 && d <= 1 && Runs(Init(drivers, capacity), ls)
    requires After(Init(drivers, capacity), ls) == Duel(drivers, capacity, x, a, b)
    requires Can(Duel(drivers, capacity, x, a, b), l)
    requires Do(Duel(drivers, capacity, x, a, b), l) == Moved(Duel(drivers, capacity, x, a, b), d, 0, y, c)
    ensures Runs(Init(drivers, capacity), more) && more == ls + [l]
    ensures After(Init(drivers, capacity), more) == if d == 0 then Duel(drivers, capacity, y, c, b)
      else Duel(drivers, capacity, y, a, c)
  {
    hide Do, Can, Duel, Moved;
    Extend(Init(drivers, capacity), ls, l);
    DuelMoves(drivers, capacity, x, a, b, y, c);
    more := ls + [l];
  }

  ghost function PcAt(a: Pc, b: Pc, d: nat): Pc {
    if d == 0 then a else b
  }

  ghost predicate Duels(drivers: nat, capacity: nat, ls: seq<Label>, x: Txn, a: Pc, b: Pc) {
    drivers >= 2 && Runs(Init(drivers, capacity), ls)
      && After(Init(drivers, capacity), ls) == Duel(drivers, capacity, x, a, b)
  }

  lemma CallStep(drivers: nat, capacity: nat, ls: seq<Label>, x: Txn, a: Pc, pc: Pc) returns (more: seq<Label>)
    requires Duels(drivers, capacity, ls, x, a, Idle)
    requires pc == AtPrepare(0, false) || pc == AtCommit(0, false) || pc == AtAbort(0)
    ensures Duels(drivers, capacity, more, x, a, pc)
  {
    hide Runs, After;
    DuelMoves(drivers, capacity, x, a, Idle, x, pc);
    more := DuelGoesOn(drivers, capacity, ls, Call(1, pc), 1, x, a, Idle, x, pc);
  }

  lemma PrepareStep(drivers: nat, capacity: nat, ls: seq<Label>, d: nat, x: Txn, a: Pc, b: Pc, auto: bool)
    returns (more: seq<Label>)
    requires d <= 1 && Duels(drivers, capacity, ls, x, a, b) && PcAt(a, b, d) == AtPrepare(0, auto) && |x.parts| == 1
    requires x.status == Preparing
    ensures var c := AtCollect(0, auto);
      Duels(drivers, capacity, more, PrepareOne(x, 0, true), if d == 0 then c else a, if d == 0 then b else c)
  {
    hide Runs, After, PrepareOne;
    assert Prepares(x, [true], 1) == PrepareOne(Prepares(x, [true], 0), 0, true);
    DuelMoves(drivers, capacity, x, a, b, x, Idle);
    more := DuelGoesOn(drivers, capacity, ls, Prepare(d, [true]), d, x, a, b, PrepareOne(x, 0, true),
      AtCollect(0, auto));
  }

  lemma CollectStep(drivers: nat, capacity: nat, ls: seq<Label>, d: nat, x: Txn, a: Pc, b: Pc, auto: bool)
    returns (more: seq<Label>)
    requires d <= 1 && Duels(drivers, capacity, ls, x, a, b) && PcAt(a, b, d) == AtCollect(0, auto) && |x.parts| == 1
    requires VoteOne(x, 0, true).prepared == 1
    ensures more == ls + [Collect(d, [true])]
    ensures var c := if auto then AtPromote(0) else Idle;
      var pcs := if d == 0 then (c, b) else (a, c);
      Duels(drivers, capacity, more, VoteOne(x, 0, true).(status := Prepared), pcs.0, pcs.1)
  {
    hide Runs, After, VoteOne;
    assert Votes(x, [true], 1) == VoteOne(Votes(x, [true], 0), 0, true);
    DuelMoves(drivers, capacity, x, a, b, x, Idle);
    more := DuelGoesOn(drivers, capacity, ls, Collect(d, [true]), d, x, a, b, VoteOne(x, 0, true).(status := Prepared),
      if auto then AtPromote(0) else Idle);
  }

  lemma CommitStep(drivers: nat, capacity: nat, ls: seq<Label>, x: Txn, a: Pc) returns (more: seq<Label>)
    requires Duels(drivers, capacity, ls, x, a, AtCommit(0, false)) && |x.parts| == 1 && CanCommit(x)
    requires x.local == Active
    ensures Duels(drivers, capacity, more, CommitOne(x.(local := LocalCommitted), 0, true).(status := Committed), a,
      Idle)
  {
    hide Runs, After, CommitOne;
    var c := x.(local := LocalCommitted);
    assert Commits(c, [true], 1) == CommitOne(Commits(c, [true], 0), 0, true);
    DuelMoves(drivers, capacity, x, a, AtCommit(0, false), x, Idle);
    more := DuelGoesOn(drivers, capacity, ls, Commit(1, [true]), 1, x, a, AtCommit(0, false),
      CommitOne(c, 0, true).(status := Committed), Idle);
  }

  lemma AbortStep(drivers: nat, capacity: nat, ls: seq<Label>, x: Txn, a: Pc) returns (more: seq<Label>)
    requires Duels(drivers, capacity, ls, x, a, AtAbort(0)) && |x.parts| == 1 && x.status != Committed
    requires x.local != Active
    ensures Duels(drivers, capacity, more, AbortOne(x, 0).(status := Aborted), a, Idle)
  {
    hide Runs, After, AbortOne;
    assert Aborts(x, 1) == AbortOne(Aborts(x, 0), 0);
    DuelMoves(drivers, capacity, x, a, AtAbort(0), x, Idle);
    more := DuelGoesOn(drivers, capacity, ls, Abort(1), 1, x, a, AtAbort(0), AbortOne(x, 0).(status := Aborted), Idle);
  }

  lemma SubmitStep(drivers: nat, capacity: nat, x: Txn, pcs: seq<Pc>)
    requires capacity > 0 && x.priority == 5
    ensures var s := System([x], {0}, [], 0, capacity, pcs);
      Can(s, Submit(0)) && Do(s, Submit(0)) == System([x], {}, [Item(0, 5, 0)], 1, capacity, pcs)
  {
    assert Arrive([], Item(0, 5, 0)) == [Item(0, 5, 0)] + [];
    assert {0} - {0} == {};
  }

  /** The scheduler takes the only transaction from the queue. */
  lemma DuelOpens(drivers: nat, capacity: nat) returns (ls: seq<Label>)
    requires drivers >= 2 && capacity > 0
    ensures Duels(drivers, capacity, ls, Lone(Preparing, Preparing, 0, 0, Active, []), AtPrepare(0, true), Idle)
  {
    var s, x, pcs := Init(drivers, capacity), Lone(Preparing, Preparing, 0, 0, Active, []), seq(drivers, _ => Idle);
    assert Begun(1, 5, true).parts == [Preparing];
    Extend(s, [], Begin(1, 5, true));
    ls := [] + [Begin(1, 5, true)];
    assert After(s, ls) == System([x], {0}, [], 0, capacity, pcs);
    SubmitStep(drivers, capacity, x, pcs);
    Extend(s, ls, Submit(0));
    ls := ls + [Submit(0)];
    ls := TakeStep(drivers, capacity, ls, x, pcs);
    DuelMoves(drivers, capacity, x, Got(0), Idle, x, AtPrepare(0, true));
    ls := DuelGoesOn(drivers, capacity, ls, Dispatch(0), 0, x, Got(0), Idle, x, AtPrepare(0, true));
  }

  lemma TakeStep(drivers: nat, capacity: nat, ls: seq<Label>, x: Txn, pcs: seq<Pc>) returns (more: seq<Label>)
    requires drivers >= 2 && pcs == seq(drivers, _ => Idle) && Runs(Init(drivers, capacity), ls)
    requires After(Init(drivers, capacity), ls) == System([x], {}, [Item(0, 5, 0)], 1, capacity, pcs)
    ensures Duels(drivers, capacity, more, x, Got(0), Idle)
  {
    hide Runs, After;
    Extend(Init(drivers, capacity), ls, Dequeue(0));
    more := ls + [Dequeue(0)];
    assert pcs[0 := Got(0)] == pcs[0 := Got(0)][1 := Idle];
    assert [Item(0, 5, 0)][1..] == [];
  }

  /** While the scheduler waits for votes, a caller of the public functions prepares and commits. */
  lemma DuelCommits(drivers: nat, capacity: nat) returns (ls: seq<Label>)
    requires drivers >= 2 && capacity > 0
    ensures Duels(drivers, capacity, ls,
      Lone(Committed, Committed, 1, 1, LocalCommitted,
        [SentPrepare(0, true), SentPrepare(0, true), Voted(0, true), SentCommit(0, true)]),
      AtCollect(0, true), Idle)
  {
    hide Duels;
    ls := DuelOpens(drivers, capacity);
    var x := Lone(Preparing, Preparing, 0, 0, Active, []);
    ls := PrepareStep(drivers, capacity, ls, 0, x, AtPrepare(0, true), Idle, true);
    x := PrepareOne(x, 0, true);
    ls := CallStep(drivers, capacity, ls, x, AtCollect(0, true), AtPrepare(0, false));
    ls := PrepareStep(drivers, capacity, ls, 1, x, AtCollect(0, true), AtPrepare(0, false), false);
    x := PrepareOne(x, 0, true);
    ls := CollectStep(drivers, capacity, ls, 1, x, AtCollect(0, true), AtCollect(0, false), false);
    x := VoteOne(x, 0, true).(status := Prepared);
    ls := CallStep(drivers, capacity, ls, x, AtCollect(0, true), AtCommit(0, false));
    ls := CommitStep(drivers, capacity, ls, x, AtCollect(0, true));
    assert CommitOne(x.(local := LocalCommitted), 0, true).(status := Committed)
        == Lone(Committed, Committed, 1, 1, LocalCommitted,
          [SentPrepare(0, true), SentPrepare(0, true), Voted(0, true), SentCommit(0, true)]);
  }

  /** The scheduler overwrites the committed status, and the transaction is aborted after all. */
  lemma DuelAborts(drivers: nat, capacity: nat) returns (ls: seq<Label>, x: Txn)
    requires drivers >= 2 && capacity > 0
    ensures Runs(Init(drivers, capacity), ls) && After(Init(drivers, capacity), ls).txns == [x]
    ensures |x.log| == 5 && x.log[3] == SentCommit(0, true) && x.log[4] == SentAbort(0)
  {
    hide Runs, After;
    ls := DuelCommits(drivers, capacity);
    x := Lone(Committed, Committed, 1, 1, LocalCommitted,
      [SentPrepare(0, true), SentPrepare(0, true), Voted(0, true), SentCommit(0, true)]);
    ls := CollectStep(drivers, capacity, ls, 0, x, AtCollect(0, true), Idle, true);
    x := VoteOne(x, 0, true).(status := Prepared);
    ls := CallStep(drivers, capacity, ls, x, AtPromote(0), AtAbort(0));
    ls := AbortStep(drivers, capacity, ls, x, AtPromote(0));
    x := AbortOne(x, 0).(status := Aborted);
  }

  /** Between two states, decided transactions keep their status. */
  ghost predicate StaysFinal(s: System, s': System) {
    forall t: Id :: t < |s.txns| && Final(s.txns[t]) ==> t < |s'.txns| && s'.txns[t].status == s.txns[t].status
  }

  /** In every run, decided transactions keep their status however the run goes on. */
  ghost predicate AlwaysFinal(drivers: nat, capacity: nat) {
    forall ls, more :: Runs(Init(drivers, capacity), ls) && Runs(Init(drivers, capacity), ls + more) ==>
      StaysFinal(After(Init(drivers, capacity), ls), After(Init(drivers, capacity), ls + more))
  }

  /** The scheduler's vote collection overwrites the COMMITTED of the other thread. */
  lemma DuelRevokes(drivers: nat, capacity: nat)
    requires drivers >= 2 && capacity > 0
    ensures !AlwaysFinal(drivers, capacity)
  {
    hide Runs, After;
    var ls := DuelCommits(drivers, capacity);
    var x := Lone(Committed, Committed, 1, 1, LocalCommitted,
      [SentPrepare(0, true), SentPrepare(0, true), Voted(0, true), SentCommit(0, true)]);
    var more := CollectStep(drivers, capacity, ls, 0, x, AtCollect(0, true), Idle, true);
    var s, s' := After(Init(drivers, capacity), ls), After(Init(drivers, capacity), more);
    assert s.txns[0] == x && Final(x) && s'.txns[0].status == Prepared;
    assert !StaysFinal(s, s');
  }

  /** The coordinator is safe, and its decisions are final, exactly as long as a single thread drives. */
  lemma SafeExactlyWithOneDriver(drivers: nat, capacity: nat)
    requires capacity > 0
    ensures (forall ls :: Runs(Init(drivers, capacity), ls) ==> Safe(After(Init(drivers, capacity), ls))) <==>
      drivers <= 1
    ensures AlwaysFinal(drivers, capacity) <==> drivers <= 1
  {
    if drivers <= 1 {
      forall ls | Runs(Init(drivers, capacity), ls) ensures Safe(After(Init(drivers, capacity), ls)) {
        OneDriverIsSafe(drivers, capacity, ls);
      }
      forall ls, more | Runs(Init(drivers, capacity), ls) && Runs(Init(drivers, capacity), ls + more)
        ensures StaysFinal(After(Init(drivers, capacity), ls), After(Init(drivers, capacity), ls + more))
      {
        var s := After(Init(drivers, capacity), ls);
        forall t: Id | t < |s.txns| && Final(s.txns[t])
          ensures var s' := After(Init(drivers, capacity), ls + more);
            t < |s'.txns| && s'.txns[t].status == s.txns[t].status
        {
          DecisionsAreFinal(drivers, capacity, ls, more, t);
        }
      }
    } else {
      DuelRevokes(drivers, capacity);
      var ls, x := DuelAborts(drivers, capacity);
      assert After(Init(drivers, capacity), ls).txns[0] == x;
      assert !NoCommitIn(x.log) && !NoAbortIn(x.log);
      assert !TxnSafe(x);
    }
  }
}
