/**
  One distributed transaction: its status, its participants, and the critical sections of
  prepare, commit, abort and the timeout check. Votes and the fate of sent messages are inputs.
 */
module TwoPhase {

  datatype Status = Preparing | Prepared | Committing | Committed | Aborting | Aborted

  /** The local transaction, if there is an engine for it. */
  datatype Local = NoLocal | Active | LocalCommitted | RolledBack

  /** What happened, with the participant's place in the list. */
  datatype Event =
    | SentPrepare(to: nat, ok: bool)
    | Voted(who: nat, yes: bool)
    | SentCommit(to: nat, ok: bool)
    | SentAbort(to: nat)

  datatype Txn = Txn(status: Status, parts: seq<Status>, prepared: int, committed: int, local: Local, log: seq<Event>,
    priority: int)

  const SUCCESS := 0
  const PREPARE_FAILED := -3
  const COMMIT_FAILED := -4
  const INVALID_STATE := -6

  // ----- one participant at a time

  ghost function PrepareOne(t: Txn, i: nat, ok: bool): Txn
    requires i < |t.parts|
  {
    t.(parts := if ok then t.parts else t.parts[i := Aborted], log := t.log + [SentPrepare(i, ok)])
  }

  ghost function VoteOne(t: Txn, i: nat, yes: bool): Txn
    requires i < |t.parts|
  {
    if t.parts[i] != Preparing then t
    else
      t.(parts := t.parts[i := if yes then Prepared else Aborted],
         prepared := if yes then t.prepared + 1 else t.prepared,
         log := t.log + [Voted(i, yes)])
  }

  ghost function CommitOne(t: Txn, i: nat, ok: bool): Txn
    requires i < |t.parts|
  {
    if t.parts[i] != Prepared then t
    else
      t.(parts := if ok then t.parts[i := Committed] else t.parts,
         committed := if ok then t.committed + 1 else t.committed,
         log := t.log + [SentCommit(i, ok)])
  }

  ghost function AbortOne(t: Txn, i: nat): Txn
    requires i < |t.parts|
  {
    if t.parts[i] == Aborted then t else t.(parts := t.parts[i := Aborted], log := t.log + [SentAbort(i)])
  }

  // ----- the participants in turn, up to `i`

  ghost function Prepares(t: Txn, ok: seq<bool>, i: nat): (r: Txn)
    requires i <= |t.parts| == |ok|
    ensures |r.parts| == |t.parts|
  {
    if i == 0 then t else PrepareOne(Prepares(t, ok, i - 1), i - 1, ok[i - 1])
  }

  ghost function Votes(t: Txn, yes: seq<bool>, i: nat): (r: Txn)
    requires i <= |t.parts| == |yes|
    ensures |r.parts| == |t.parts|
  {
    if i == 0 then t else VoteOne(Votes(t, yes, i - 1), i - 1, yes[i - 1])
  }

  ghost function Commits(t: Txn, ok: seq<bool>, i: nat): (r: Txn)
    requires i <= |t.parts| == |ok|
    ensures |r.parts| == |t.parts|
  {
    if i == 0 then t else CommitOne(Commits(t, ok, i - 1), i - 1, ok[i - 1])
  }

  ghost function Aborts(t: Txn, i: nat): (r: Txn)
    requires i <= |t.parts|
    ensures |r.parts| == |t.parts|
  {
    if i == 0 then t else AbortOne(Aborts(t, i - 1), i - 1)
  }

  // ----- the critical sections

  ghost function Begun(n: nat, priority: int, engine: bool): Txn {
    Txn(Preparing, seq(n, _ => Preparing), 0, 0, if engine then Active else NoLocal, [], priority)
  }

  /** Prepare messages go out, unless the transaction is no longer preparing. */
  ghost function SentOut(t: Txn, ok: seq<bool>): Txn
    requires |ok| == |t.parts|
  {
    if t.status != Preparing then t else Prepares(t, ok, |t.parts|)
  }

  /** The votes are counted; the status is overwritten whatever it has become meanwhile. */
  ghost function Collected(t: Txn, yes: seq<bool>): Txn
    requires |yes| == |t.parts|
  {
    var v := Votes(t, yes, |t.parts|);
    v.(status := if v.prepared == |t.parts| then Prepared else Aborting)
  }

  ghost function Promoted(t: Txn): Txn {
    t.(status := Committing)
  }

  ghost predicate CanCommit(t: Txn) {
    t.status == Committing || t.status == Prepared
  }

  ghost function CommitDone(t: Txn, ok: seq<bool>): Txn
    requires |ok| == |t.parts|
  {
    if !CanCommit(t) then t
    else if t.local != NoLocal && t.local != Active then t.(status := Aborting)
    else
      var c := t.(local := if t.local == Active then LocalCommitted else NoLocal);
      Commits(c, ok, |t.parts|).(status := Committed)
  }

  ghost function AbortDone(t: Txn): Txn {
    if t.status == Committed then t
    else
      var c := t.(local := if t.local == Active then RolledBack else t.local);
      Aborts(c, |t.parts|).(status := Aborted)
  }

  ghost function Flagged(t: Txn): Txn {
    if t.status == Committed || t.status == Aborted then t else t.(status := Aborting)
  }

  // ----- what the critical sections amount to, participant by participant

  /** The messages of `after` are those of `before` and then exactly the events of `es`, each once. */
  ghost predicate Adds(before: seq<Event>, after: seq<Event>, es: set<Event>) {
    before <= after && multiset(after[|before|..]) == multiset(es)
  }

  lemma AddsNothing(log: seq<Event>)
    ensures Adds(log, log, {})
  {
    assert log[|log|..] == [];
  }

  lemma AddsOne(before: seq<Event>, after: seq<Event>, es: set<Event>, e: Event, es': set<Event>)
    requires Adds(before, after, es) && e !in es && es' == es + {e}
    ensures Adds(before, after + [e], es')
  {
    assert (after + [e])[|before|..] == after[|before|..] + [e];
  }

  lemma {:induction false} PreparesAre(t: Txn, ok: seq<bool>, i: nat)
    requires i <= |t.parts| == |ok|
    ensures var r := Prepares(t, ok, i);
      && r == t.(parts := r.parts, log := r.log)
      && (forall j :: 0 <= j < |t.parts| ==> r.parts[j] == if j < i && !ok[j] then Aborted else t.parts[j])
      && Adds(t.log, r.log, set j: nat | j < i :: SentPrepare(j, ok[j]))
  {
    hide Adds;
    var now := set j: nat | j < i :: SentPrepare(j, ok[j]);
    if i == 0 {
      AddsNothing(t.log);
      assert now == {};
    } else {
      PreparesAre(t, ok, i - 1);
      var was := set j: nat | j < i - 1 :: SentPrepare(j, ok[j]);
      AddsOne(t.log, Prepares(t, ok, i - 1).log, was, SentPrepare(i - 1, ok[i - 1]), now);
    }
  }

  lemma {:induction false} VotesAre(t: Txn, yes: seq<bool>, i: nat)
    requires i <= |t.parts| == |yes|
    ensures var r := Votes(t, yes, i);
      && r == t.(parts := r.parts, log := r.log, prepared := r.prepared)
      && (forall j :: 0 <= j < |t.parts| ==>
            r.parts[j] == if j >= i || t.parts[j] != Preparing then t.parts[j]
              else if yes[j] then Prepared else Aborted)
      && Adds(t.log, r.log, set j: nat | j < i && t.parts[j] == Preparing :: Voted(j, yes[j]))
  {
    hide Adds;
    var now := set j: nat | j < i && t.parts[j] == Preparing :: Voted(j, yes[j]);
    if i == 0 {
      AddsNothing(t.log);
      assert now == {};
    } else {
      VotesAre(t, yes, i - 1);
      var r := Votes(t, yes, i - 1);
      var was := set j: nat | j < i - 1 && t.parts[j] == Preparing :: Voted(j, yes[j]);
      if t.parts[i - 1] == Preparing {
        AddsOne(t.log, r.log, was, Voted(i - 1, yes[i - 1]), now);
      } else {
        assert now == was;
      }
    }
  }

  lemma {:induction false} VotesCount(t: Txn, yes: seq<bool>, i: nat)
    requires i <= |t.parts| == |yes|
    ensures Votes(t, yes, i).prepared == t.prepared + |set j: nat | j < i && t.parts[j] == Preparing && yes[j]|
  {
    hide Adds;
    var now := set j: nat | j < i && t.parts[j] == Preparing && yes[j];
    if i == 0 {
      assert now == {};
    } else {
      VotesAre(t, yes, i - 1);
      VotesCount(t, yes, i - 1);
      var was := set j: nat | j < i - 1 && t.parts[j] == Preparing && yes[j];
      assert now == if t.parts[i - 1] == Preparing && yes[i - 1] then was + {i - 1} else was;
    }
  }

  lemma {:induction false} CommitsAre(t: Txn, ok: seq<bool>, i: nat)
    requires i <= |t.parts| == |ok|
    ensures var r := Commits(t, ok, i);
      && r == t.(parts := r.parts, log := r.log, committed := r.committed)
      && (forall j :: 0 <= j < |t.parts| ==>
            r.parts[j] == if j < i && t.parts[j] == Prepared && ok[j] then Committed else t.parts[j])
      && Adds(t.log, r.log, set j: nat | j < i && t.parts[j] == Prepared :: SentCommit(j, ok[j]))
  {
    hide Adds;
    var now := set j: nat | j < i && t.parts[j] == Prepared :: SentCommit(j, ok[j]);
    if i == 0 {
      AddsNothing(t.log);
      assert now == {};
    } else {
      CommitsAre(t, ok, i - 1);
      var r := Commits(t, ok, i - 1);
      var was := set j: nat | j < i - 1 && t.parts[j] == Prepared :: SentCommit(j, ok[j]);
      if t.parts[i - 1] == Prepared {
        AddsOne(t.log, r.log, was, SentCommit(i - 1, ok[i - 1]), now);
      } else {
        assert now == was;
      }
    }
  }

  lemma {:induction false} CommitsCount(t: Txn, ok: seq<bool>, i: nat)
    requires i <= |t.parts| == |ok|
    ensures Commits(t, ok, i).committed == t.committed + |set j: nat | j < i && t.parts[j] == Prepared && ok[j]|
  {
    hide Adds;
    var now := set j: nat | j < i && t.parts[j] == Prepared && ok[j];
    if i == 0 {
      assert now == {};
    } else {
      CommitsAre(t, ok, i - 1);
      CommitsCount(t, ok, i - 1);
      var was := set j: nat | j < i - 1 && t.parts[j] == Prepared && ok[j];
      assert now == if t.parts[i - 1] == Prepared && ok[i - 1] then was + {i - 1} else was;
    }
  }

  lemma {:induction false} AbortsAre(t: Txn, i: nat)
    requires i <= |t.parts|
    ensures var r := Aborts(t, i);
      && r == t.(parts := r.parts, log := r.log)
      && (forall j :: 0 <= j < |t.parts| ==> r.parts[j] == if j < i then Aborted else t.parts[j])
      && Adds(t.log, r.log, set j: nat | j < i && t.parts[j] != Aborted :: SentAbort(j))
  {
    hide Adds;
    var now := set j: nat | j < i && t.parts[j] != Aborted :: SentAbort(j);
    if i == 0 {
      AddsNothing(t.log);
      assert now == {};
    } else {
      AbortsAre(t, i - 1);
      var r := Aborts(t, i - 1);
      var was := set j: nat | j < i - 1 && t.parts[j] != Aborted :: SentAbort(j);
      if t.parts[i - 1] != Aborted {
        AddsOne(t.log, r.log, was, SentAbort(i - 1), now);
      } else {
        assert now == was;
      }
    }
  }

  /** A prepare that is not refused is sent to every participant; a failed send aborts exactly its participant. */
  lemma PrepareReachesAll(t: Txn, ok: seq<bool>)
    requires |ok| == |t.parts|
    ensures t.status != Preparing ==> SentOut(t, ok) == t
    ensures t.status == Preparing ==>
      var r := SentOut(t, ok);
      && r == t.(parts := r.parts, log := r.log) && |r.parts| == |t.parts|
      && (forall j :: 0 <= j < |t.parts| ==> r.parts[j] == if ok[j] then t.parts[j] else Aborted)
      && Adds(t.log, r.log, set j: nat | j < |t.parts| :: SentPrepare(j, ok[j]))
  {
    hide Adds;
    PreparesAre(t, ok, |t.parts|);
  }

  /** Every preparing participant votes once; the transaction is prepared exactly if the counter reaches all. */
  lemma VotesAreCounted(t: Txn, yes: seq<bool>)
    requires |yes| == |t.parts|
    ensures var r := Collected(t, yes);
      && r == t.(status := r.status, parts := r.parts, log := r.log, prepared := r.prepared) && |r.parts| == |t.parts|
      && (forall j :: 0 <= j < |t.parts| ==>
            r.parts[j] == if t.parts[j] != Preparing then t.parts[j] else if yes[j] then Prepared else Aborted)
      && r.prepared == t.prepared + |set j: nat | j < |t.parts| && t.parts[j] == Preparing && yes[j]|
      && r.status == (if r.prepared == |t.parts| then Prepared else Aborting)
      && Adds(t.log, r.log, set j: nat | j < |t.parts| && t.parts[j] == Preparing :: Voted(j, yes[j]))
  {
    hide Adds;
    VotesAre(t, yes, |t.parts|);
    VotesCount(t, yes, |t.parts|);
  }

  /**
    A commit that is neither refused nor stopped by the local transaction sends exactly one COMMIT to each
    prepared participant, which is committed exactly if the send succeeds; the others see nothing.
   */
  lemma CommitReachesPrepared(t: Txn, ok: seq<bool>)
    requires |ok| == |t.parts|
    ensures t.status != Committing && t.status != Prepared ==> CommitDone(t, ok) == t
    ensures (t.status == Committing || t.status == Prepared) && (t.local == LocalCommitted || t.local == RolledBack) ==>
      CommitDone(t, ok) == t.(status := Aborting)
    ensures (t.status == Committing || t.status == Prepared) && (t.local == NoLocal || t.local == Active) ==>
      var r := CommitDone(t, ok);
      && r.status == Committed && r.local == (if t.local == Active then LocalCommitted else NoLocal)
      && r.prepared == t.prepared && r.priority == t.priority && |r.parts| == |t.parts|
      && (forall j :: 0 <= j < |t.parts| ==>
            r.parts[j] == if t.parts[j] == Prepared && ok[j] then Committed else t.parts[j])
      && r.committed == t.committed + |set j: nat | j < |t.parts| && t.parts[j] == Prepared && ok[j]|
      && Adds(t.log, r.log, set j: nat | j < |t.parts| && t.parts[j] == Prepared :: SentCommit(j, ok[j]))
  {
    hide Adds;
    if t.local == NoLocal || t.local == Active {
      var c := t.(local := if t.local == Active then LocalCommitted else NoLocal);
      CommitsAre(c, ok, |t.parts|);
      CommitsCount(c, ok, |t.parts|);
    }
  }

  /**
    An abort that is not refused leaves every participant aborted, after exactly one ABORT to each that was
    not, and rolls an active local transaction back.
   */
  lemma AbortReachesAll(t: Txn)
    ensures t.status == Committed ==> AbortDone(t) == t
    ensures t.status != Committed ==>
      var r := AbortDone(t);
      && r.status == Aborted && r.local == (if t.local == Active then RolledBack else t.local)
      && r.prepared == t.prepared && r.committed == t.committed && r.priority == t.priority
      && |r.parts| == |t.parts| && (forall j :: 0 <= j < |t.parts| ==> r.parts[j] == Aborted)
      && Adds(t.log, r.log, set j: nat | j < |t.parts| && t.parts[j] != Aborted :: SentAbort(j))
  {
    hide Adds;
    AbortsAre(t.(local := if t.local == Active then RolledBack else t.local), |t.parts|);
  }

  // ----- the transaction object

  class DistTxn {
    var status: Status
    const parts: array<Status>
    var prepared: int
    var committed: int
    var local: Local
    var log: seq<Event>
    const priority: int

    ghost function View(): Txn
      reads this, parts
    {
      Txn(status, parts[..], prepared, committed, local, log, priority)
    }

    constructor (n: nat, priority: int, engine: bool)
      ensures View() == Begun(n, priority, engine) && fresh(parts)
      ensures status == Preparing && parts.Length == n && (forall j :: 0 <= j < n ==> parts[j] == Preparing)
      ensures prepared == 0 == committed && log == [] && local == if engine then Active else NoLocal
    {
      parts := new Status[n](_ => Preparing);
      status, prepared, committed, log := Preparing, 0, 0, [];
      local := if engine then Active else NoLocal;
      this.priority := priority;
    }

    /** The first half of `dist_txn_prepare`. */
    method SendPrepares(ok: seq<bool>) returns (r: int)
      requires |ok| == parts.Length
      modifies this, parts
      ensures View() == SentOut(old(View()), ok)
      ensures r == if old(status) != Preparing then -6 else 0
      ensures old(status) == Preparing ==>
        && (forall j :: 0 <= j < parts.Length ==> parts[j] == if ok[j] then old(parts[j]) else Aborted)
        && Adds(old(log), log, set j: nat | j < parts.Length :: SentPrepare(j, ok[j]))
    {
      hide Adds;
      PrepareReachesAll(View(), ok);
      if status != Preparing {
        return INVALID_STATE;
      }
      ghost var t := View();
      for i := 0 to parts.Length
        invariant View() == Prepares(t, ok, i)
      {
        if !ok[i] {
          parts[i] := Aborted;
        }
        log := log + [SentPrepare(i, ok[i])];
      }
      return SUCCESS;
    }

    /** The second half of `dist_txn_prepare`, after the lock has been released and taken again. */
    method CollectVotes(yes: seq<bool>) returns (r: int)
      requires |yes| == parts.Length
      modifies this, parts
      ensures View() == Collected(old(View()), yes)
      ensures r == if status == Prepared then 0 else -3
      ensures forall j :: 0 <= j < parts.Length ==>
        parts[j] == if old(parts[j]) != Preparing then old(parts[j]) else if yes[j] then Prepared else Aborted
      ensures status == if prepared == parts.Length then Prepared else Aborting
      ensures Adds(old(log), log, set j: nat | j < parts.Length && old(parts[..])[j] == Preparing :: Voted(j, yes[j]))
    {
      hide Adds;
      VotesAreCounted(View(), yes);
      ghost var t := View();
      for i := 0 to parts.Length
        invariant View() == Votes(t, yes, i)
      {
        if parts[i] == Preparing {
          if yes[i] {
            parts[i] := Prepared;
            prepared := prepared + 1;
          } else {
            parts[i] := Aborted;
          }
          log := log + [Voted(i, yes[i])];
        }
      }
      if prepared == parts.Length {
        status := Prepared;
        return SUCCESS;
      }
      status := Aborting;
      return PREPARE_FAILED;
    }

    /** `dist_txn_commit`; the local transaction commits only while it is active. */
    method Commit(ok: seq<bool>) returns (r: int)
      requires |ok| == parts.Length
      modifies this, parts
      ensures View() == CommitDone(old(View()), ok)
      ensures r ==
        if old(status) != Committing && old(status) != Prepared then -6 else if status == Committed then 0 else -4
      ensures r == 0 ==>
        && (forall j :: 0 <= j < parts.Length ==>
              parts[j] == if old(parts[j]) == Prepared && ok[j] then Committed else old(parts[j]))
        && Adds(old(log), log,
             set j: nat | j < parts.Length && old(parts[..])[j] == Prepared :: SentCommit(j, ok[j]))
      ensures r != 0 ==> parts[..] == old(parts[..]) && log == old(log)
    {
      hide Adds;
      CommitReachesPrepared(View(), ok);
      if status != Committing && status != Prepared {
        return INVALID_STATE;
      }
      if local != NoLocal {
        if local != Active {
          status := Aborting;
          return COMMIT_FAILED;
        }
        local := LocalCommitted;
      }
      ghost var t := View();
      for i := 0 to parts.Length
        invariant View() == Commits(t, ok, i)
      {
        if parts[i] == Prepared {
          log := log + [SentCommit(i, ok[i])];
          if ok[i] {
            parts[i] := Committed;
            committed := committed + 1;
          }
        }
      }
      status := Committed;
      return SUCCESS;
    }

    /** `dist_txn_abort`; a committed transaction is left alone. */
    method Abort() returns (r: int)
      modifies this, parts
      ensures View() == AbortDone(old(View()))
      ensures r == if old(status) == Committed then -6 else 0
      ensures r == 0 ==>
        && status == Aborted && (forall j :: 0 <= j < parts.Length ==> parts[j] == Aborted)
        && Adds(old(log), log, set j: nat | j < parts.Length && old(parts[..])[j] != Aborted :: SentAbort(j))
    {
      hide Adds;
      AbortReachesAll(View());
      if status == Committed {
        return INVALID_STATE;
      }
      if local == Active {
        local := RolledBack;
      }
      ghost var t := View();
      for i := 0 to parts.Length
        invariant View() == Aborts(t, i)
      {
        if parts[i] != Aborted {
          log := log + [SentAbort(i)];
          parts[i] := Aborted;
        }
      }
      status := Aborted;
      return SUCCESS;
    }

    /** The body of the loop of `dist_txn_check_timeouts` at an expired transaction. */
    method Flag() returns (flagged: bool)
      modifies this`status
      ensures View() == Flagged(old(View()))
      ensures status == if flagged then Aborting else old(status)
      ensures flagged == (old(status) != Committed && old(status) != Aborted)
    {
      flagged := status != Committed && status != Aborted;
      if flagged {
        status := Aborting;
      }
    }
  }
}
