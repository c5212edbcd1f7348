/** Terms and votes of one node of a cluster, and the elections that many such nodes hold. */
module Election {
  import opened Bytes
  import opened Sets
  import opened Words

  datatype Role = Follower | Candidate | Leader

  /** What one node knows of the election; terms are 64-bit. */
  datatype NodeState = NodeState(term: nat, role: Role, leader: int)

  const MAX_TERM: nat := WORD64 - 1

  // ----- the rules

  ghost predicate CanStand(s: NodeState) {
    s.role == Follower
  }

  /** The next term, which wraps around. */
  ghost function Stood(s: NodeState): NodeState {
    s.(term := if s.term == MAX_TERM then 0 else s.term + 1, role := Candidate)
  }

  ghost predicate Grants(s: NodeState, known: bool, term: nat) {
    term > s.term && known
  }

  ghost function Asked(s: NodeState, term: nat): NodeState {
    if term > s.term then s.(term := term, role := Follower) else s
  }

  ghost function Enthroned(s: NodeState, self: int): NodeState {
    if s.role == Candidate then s.(role := Leader, leader := self) else s
  }

  /** `from` is the sender's place in the node table, or negative. */
  ghost function Heard(s: NodeState, from: int, term: nat): NodeState {
    if term < s.term then s else NodeState(term, Follower, if from >= 0 then from else s.leader)
  }

  /** The place of an id in the node table. */
  ghost function PlaceOf(ids: seq<Bytes>, id: Bytes): (i: int)
    ensures -1 <= i < |ids| && (i >= 0 <==> id in ids) && (i >= 0 ==> ids[i] == id)
    ensures forall j :: 0 <= j < |ids| && j < i ==> ids[j] != id
  {
    if ids == [] then -1
    else if ids[0] == id then 0
    else
      var i := PlaceOf(ids[1..], id);
      assert id in ids <==> id in ids[1..];
      assert i >= 0 ==> ids[i + 1] == id;
      assert forall j :: 0 < j < |ids| ==> ids[j] == ids[1..][j - 1];
      if i < 0 then -1 else i + 1
  }

  // ----- one node

  class Cluster {
    const ids: seq<Bytes>
    const self: nat
    var term: nat
    var role: Role
    var leader: int

    ghost function View(): NodeState
      reads this
    {
      NodeState(term, role, leader)
    }

    ghost predicate Valid()
      reads this
    {
      self < |ids| && term <= MAX_TERM
    }

    constructor (ids: seq<Bytes>, self: nat)
      requires self < |ids|
      ensures Valid() && this.ids == ids && this.self == self && View() == NodeState(0, Follower, -1)
      ensures term == 0 && role == Follower && leader == -1
    {
      this.ids, this.self := ids, self;
      term, role, leader := 0, Follower, -1;
    }

    /** The scan of the node table. */
    method Find(id: Bytes) returns (i: int)
      ensures i == PlaceOf(ids, id)
    {
      i := 0;
      while i < |ids|
        invariant 0 <= i <= |ids| && forall j :: 0 <= j < i ==> ids[j] != id
      {
        if ids[i] == id {
          return;
        }
        i := i + 1;
      }
      return -1;
    }

    /** `cluster_start_election`: only a node alone in its cluster wins by its own vote. */
    method StartElection() returns (r: int)
      requires Valid()
      modifies this
      ensures Valid()
      ensures r == if old(CanStand(View())) then 0 else -1
      ensures View() ==
        if !old(CanStand(View())) then old(View())
        else if |ids| == 1 then Enthroned(Stood(old(View())), self)
        else Stood(old(View()))
      ensures old(role) != Follower ==> r == -1 && term == old(term) && role == old(role) && leader == old(leader)
      ensures old(role) == Follower ==>
        && r == 0 && term == (if old(term) == 0xFFFF_FFFF_FFFF_FFFF then 0 else old(term) + 1)
        && role == (if |ids| == 1 then Leader else Candidate) && leader == (if |ids| == 1 then self else old(leader))
    {
      if role != Follower {
        return -1;
      }
      term := if term == MAX_TERM then 0 else term + 1;
      role := Candidate;
      var votes, needed := 1, |ids| / 2 + 1;
      if votes >= needed {
        r := BecomeLeader();
        return;
      }
      return 0;
    }

    /** `cluster_vote_for_candidate`. */
    method VoteFor(candidate: Bytes, asked: nat) returns (r: int)
      requires Valid() && asked <= MAX_TERM
      modifies this
      ensures Valid() && View() == Asked(old(View()), asked)
      ensures r == if old(Grants(View(), candidate in ids, asked)) then 0 else -1
      ensures r == 0 <==> asked > old(term) && candidate in ids
      ensures asked > old(term) ==> term == asked && role == Follower && leader == old(leader)
      ensures asked <= old(term) ==> term == old(term) && role == old(role) && leader == old(leader)
    {
      if asked < term {
        return -1;
      }
      if asked > term {
        term := asked;
        if role != Follower {
          role := Follower;
        }
        var i := Find(candidate);
        if i >= 0 {
          return 0;
        }
      }
      return -1;
    }

    /** `cluster_become_leader`, with the heartbeat it sends. */
    method BecomeLeader() returns (r: int)
      requires Valid()
      modifies this
      ensures Valid() && View() == Enthroned(old(View()), self)
      ensures r == if old(role) == Candidate then 0 else -1
      ensures term == old(term)
      ensures old(role) == Candidate ==> role == Leader && leader == self
      ensures old(role) != Candidate ==> role == old(role) && leader == old(leader)
    {
      if role != Candidate {
        return -1;
      }
      role, leader := Leader, self;
      return 0;
    }

    /** `cluster_process_heartbeat`. */
    method ProcessHeartbeat(from: Bytes, heard: nat) returns (r: int)
      requires Valid() && heard <= MAX_TERM
      modifies this
      ensures Valid() && View() == Heard(old(View()), PlaceOf(ids, from), heard)
      ensures r == if heard < old(term) || from !in ids then -1 else 0
      ensures heard < old(term) ==> term == old(term) && role == old(role) && leader == old(leader)
      ensures heard >= old(term) ==> term == heard && role == Follower
      ensures heard >= old(term) && from in ids ==>
        0 <= leader < |ids| && ids[leader] == from && forall j :: 0 <= j < leader ==> ids[j] != from
      ensures heard >= old(term) && from !in ids ==> leader == old(leader)
    {
      if heard < term {
        return -1;
      }
      if heard > term {
        term := heard;
      }
      if role != Follower {
        role := Follower;
      }
      var i := Find(from);
      if i < 0 {
        return -1;
      }
      leader := i;
      return 0;
    }
  }

  // ----- many nodes

  /** A vote that `voter` gave to `candidate` in `term`. */
  datatype Vote = Vote(voter: nat, term: nat, candidate: Bytes)

  /** All nodes with the votes given and the leaderships taken so far. */
  datatype System = System(ids: seq<Bytes>, nodes: seq<NodeState>, votes: set<Vote>, reigns: set<(nat, nat)>)

  /**
    Messages may carry any term and any name, may be lost, repeated and late. Standing and taking the
    leadership are two steps, also for a node alone in its cluster: the lock is free between them.
   */
  datatype Step =
    | Stand(n: nat)
    | Ask(n: nat, candidate: Bytes, term: nat)
    | Rise(n: nat)
    | Hear(n: nat, from: Bytes, term: nat)

  ghost predicate Possible(s: System, st: Step) {
    && st.n < |s.nodes| && st.n < |s.ids|
    && (st.Ask? ==> st.term <= MAX_TERM) && (st.Hear? ==> st.term <= MAX_TERM)
  }

  ghost function Reigned(s: System, n: nat, before: NodeState): set<(nat, nat)>
  {
    if before.role == Candidate then s.reigns + {(n, before.term)} else s.reigns
  }

  ghost function Do(s: System, st: Step): System
    requires Possible(s, st)
  {
    var x := s.nodes[st.n];
    match st
    case Stand(n) =>
      if !CanStand(x) then s
      else
        var y := Stood(x);
        s.(nodes := s.nodes[n := y], votes := s.votes + {Vote(n, y.term, s.ids[n])})
    case Ask(n, candidate, term) =>
      s.(nodes := s.nodes[n := Asked(x, term)],
         votes := if Grants(x, candidate in s.ids, term) then s.votes + {Vote(n, term, candidate)} else s.votes)
    case Rise(n) => s.(nodes := s.nodes[n := Enthroned(x, n)], reigns := Reigned(s, n, x))
    case Hear(n, from, term) => s.(nodes := s.nodes[n := Heard(x, PlaceOf(s.ids, from), term)])
  }

  ghost predicate Distinct(ids: seq<Bytes>) {
    forall i, j :: 0 <= i < j < |ids| ==> ids[i] != ids[j]
  }

  ghost function Init(ids: seq<Bytes>): System {
    System(ids, seq(|ids|, _ => NodeState(0, Follower, -1)), {}, {})
  }

  ghost predicate Runs(s: System, sts: seq<Step>)
    decreases |sts|, 0
  {
    sts == [] || (Runs(s, sts[..|sts| - 1]) && Possible(After(s, sts[..|sts| - 1]), sts[|sts| - 1]))
  }

  ghost function After(s: System, sts: seq<Step>): System
    requires Runs(s, sts)
    decreases |sts|, 1
  {
    if sts == [] then s else Do(After(s, sts[..|sts| - 1]), sts[|sts| - 1])
  }

  /** The step does not start an election at the greatest term. */
  ghost predicate NoWrap(s: System, st: Step)
    requires Possible(s, st)
  {
    st.Stand? && CanStand(s.nodes[st.n]) ==> s.nodes[st.n].term < MAX_TERM
  }

  ghost predicate NeverWraps(s: System, sts: seq<Step>)
    requires Runs(s, sts)
    decreases |sts|
  {
    sts == [] || (NeverWraps(s, sts[..|sts| - 1]) && NoWrap(After(s, sts[..|sts| - 1]), sts[|sts| - 1]))
  }

  // ----- at most one vote per term

  /** Votes are for terms the voter has reached. */
  ghost predicate VotesReached(s: System) {
    forall v :: v in s.votes ==> v.voter < |s.nodes| && v.term <= s.nodes[v.voter].term && v.candidate in s.ids
  }

  ghost predicate VotesUnique(s: System) {
    forall v, w :: v in s.votes && w in s.votes && v.voter == w.voter && v.term == w.term ==> v == w
  }

  /** Whoever stands or leads has its own vote. */
  ghost predicate SelfVotes(s: System)
    requires |s.nodes| == |s.ids|
  {
    forall n :: 0 <= n < |s.nodes| && s.nodes[n].role != Follower ==> Vote(n, s.nodes[n].term, s.ids[n]) in s.votes
  }

  ghost predicate Inv(s: System) {
    |s.nodes| == |s.ids| && VotesReached(s) && VotesUnique(s) && SelfVotes(s)
  }

  lemma StepReached(s: System, st: Step)
    requires |s.nodes| == |s.ids| && VotesReached(s) && Possible(s, st) && NoWrap(s, st)
    ensures VotesReached(Do(s, st)) && Do(s, st).ids == s.ids && s.votes <= Do(s, st).votes
    ensures |Do(s, st).nodes| == |s.nodes|
    ensures forall n :: 0 <= n < |s.nodes| ==> s.nodes[n].term <= Do(s, st).nodes[n].term
  {}

  lemma StepUnique(s: System, st: Step)
    requires VotesReached(s) && VotesUnique(s) && Possible(s, st) && NoWrap(s, st)
    ensures VotesUnique(Do(s, st))
  {}

  lemma StepSelf(s: System, st: Step)
    requires |s.nodes| == |s.ids| && SelfVotes(s) && Possible(s, st) && NoWrap(s, st)
    ensures |Do(s, st).nodes| == |Do(s, st).ids| && SelfVotes(Do(s, st))
  {}

  /** A step that does not wrap lets no term fall and keeps votes unique. */
  lemma StepKeepsInv(s: System, st: Step)
    requires Inv(s) && Possible(s, st) && NoWrap(s, st)
    ensures Inv(Do(s, st)) && Do(s, st).ids == s.ids && s.votes <= Do(s, st).votes
    ensures forall n :: 0 <= n < |s.nodes| ==> s.nodes[n].term <= Do(s, st).nodes[n].term
  {
    hide VotesReached, VotesUnique, SelfVotes, Do;
    StepReached(s, st);
    StepUnique(s, st);
    StepSelf(s, st);
  }

  /** A node's term falls in a step exactly if it starts an election at the greatest term. */
  lemma TermFallsIffWraps(s: System, st: Step)
    requires Possible(s, st) && forall n :: 0 <= n < |s.nodes| ==> s.nodes[n].term <= MAX_TERM
    ensures (forall n :: 0 <= n < |s.nodes| ==> s.nodes[n].term <= Do(s, st).nodes[n].term) <==> NoWrap(s, st)
  {
    var s' := Do(s, st);
    assert s'.nodes[st.n].term >= s.nodes[st.n].term <==> NoWrap(s, st);
  }

  lemma {:induction false} RunKeepsInv(ids: seq<Bytes>, sts: seq<Step>)
    requires Runs(Init(ids), sts) && NeverWraps(Init(ids), sts)
    ensures Inv(After(Init(ids), sts)) && After(Init(ids), sts).ids == ids
    decreases |sts|
  {
    hide Do, Inv, NoWrap;
    if sts != [] {
      RunKeepsInv(ids, sts[..|sts| - 1]);
      StepKeepsInv(After(Init(ids), sts[..|sts| - 1]), sts[|sts| - 1]);
    } else {
      InitInv(ids);
    }
  }

  lemma InitInv(ids: seq<Bytes>)
    ensures Inv(Init(ids))
  {}

  // ----- election safety

  ghost function Voters(s: System, term: nat, candidate: Bytes): set<nat> {
    set v | v in s.votes && v.term == term && v.candidate == candidate :: v.voter
  }

  ghost predicate Wins(s: System, term: nat, candidate: Bytes) {
    |Voters(s, term, candidate)| >= |s.ids| / 2 + 1
  }

  ghost function Block(from: nat, k: nat): set<nat> {
    if k == 0 then {} else Block(from, k - 1) + {from + k - 1}
  }

  lemma {:induction false} BlockCounts(from: nat, k: nat)
    ensures |Block(from, k)| == k && forall i: nat :: i in Block(from, k) <==> from <= i < from + k
    decreases k
  {
    if k > 0 { BlockCounts(from, k - 1); }
  }

  lemma ApartSizes(a: set<nat>, b: set<nat>, n: nat)
    requires forall i :: i in a || i in b ==> i < n
    ensures a * b == {} ==> |a| + |b| <= n
  {
    BlockCounts(0, n);
    SubsetSize(a + b, Block(0, n));
    assert |a + b| == |a| + |b| - |a * b|;
  }

  /** In one term only one candidate can gather a majority. */
  lemma ElectionSafety(ids: seq<Bytes>, sts: seq<Step>, term: nat, a: Bytes, b: Bytes)
    requires Runs(Init(ids), sts) && NeverWraps(Init(ids), sts)
    requires Wins(After(Init(ids), sts), term, a) && Wins(After(Init(ids), sts), term, b)
    ensures a == b
  {
    RunKeepsInv(ids, sts);
    var s := After(Init(ids), sts);
    var va, vb := Voters(s, term, a), Voters(s, term, b);
    assert a != b ==> va * vb == {};
    ApartSizes(va, vb, |ids|);
  }

  /** No two candidates win a term. */
  ghost predicate Safe(s: System) {
    forall term: nat, a, b :: Wins(s, term, a) && Wins(s, term, b) ==> a == b
  }

  /** Leadership is taken only by a candidate with at least `q` votes in its term. */
  ghost predicate Backed(s: System, st: Step, q: nat)
    requires Possible(s, st)
  {
    st.Rise? && s.nodes[st.n].role == Candidate ==> |Voters(s, s.nodes[st.n].term, s.ids[st.n])| >= q
  }

  ghost predicate AlwaysBacked(s: System, sts: seq<Step>, q: nat)
    requires Runs(s, sts)
    decreases |sts|
  {
    sts == [] || (AlwaysBacked(s, sts[..|sts| - 1], q) && Backed(After(s, sts[..|sts| - 1]), sts[|sts| - 1], q))
  }

  ghost predicate ReignsBacked(s: System, q: nat) {
    forall r :: r in s.reigns ==> r.0 < |s.ids| && |Voters(s, r.1, s.ids[r.0])| >= q
  }

  lemma MoreVotes(s: System, s': System, term: nat, candidate: Bytes)
    requires s.votes <= s'.votes
    ensures |Voters(s, term, candidate)| <= |Voters(s', term, candidate)|
  {
    SubsetSize(Voters(s, term, candidate), Voters(s', term, candidate));
  }

  lemma StepKeepsReigns(s: System, st: Step, q: nat)
    requires Inv(s) && ReignsBacked(s, q) && Possible(s, st) && NoWrap(s, st) && Backed(s, st, q) && q <= |s.ids|
    ensures ReignsBacked(Do(s, st), q)
  {
    hide Voters;
    var s' := Do(s, st);
    StepKeepsInv(s, st);
    forall r | r in s'.reigns ensures r.0 < |s'.ids| && |Voters(s', r.1, s'.ids[r.0])| >= q {
      MoreVotes(s, s', r.1, s.ids[r.0]);
    }
  }

  lemma {:induction false} RunKeepsReigns(ids: seq<Bytes>, sts: seq<Step>, q: nat)
    requires Runs(Init(ids), sts) && NeverWraps(Init(ids), sts) && AlwaysBacked(Init(ids), sts, q) && q <= |ids|
    ensures ReignsBacked(After(Init(ids), sts), q)
    decreases |sts|
  {
    hide Do, Inv, NoWrap, Backed, Voters;
    if sts != [] {
      RunKeepsInv(ids, sts[..|sts| - 1]);
      RunKeepsReigns(ids, sts[..|sts| - 1], q);
      StepKeepsReigns(After(Init(ids), sts[..|sts| - 1]), sts[|sts| - 1], q);
    }
  }

  /** A term has at most one leader, as long as candidates call for leadership only with a majority of votes. */
  lemma OneLeaderPerTerm(ids: seq<Bytes>, sts: seq<Step>, q: nat, term: nat, n: nat, m: nat)
    requires Distinct(ids) && Runs(Init(ids), sts) && NeverWraps(Init(ids), sts) && AlwaysBacked(Init(ids), sts, q)
    requires q <= |ids| < 2 * q
    requires (n, term) in After(Init(ids), sts).reigns && (m, term) in After(Init(ids), sts).reigns
    ensures n == m
  {
    RunKeepsInv(ids, sts);
    RunKeepsReigns(ids, sts, q);
    var s := After(Init(ids), sts);
    var vn, vm := Voters(s, term, ids[n]), Voters(s, term, ids[m]);
    assert (n, term).0 < |s.ids| && |vn| >= q && (m, term).0 < |s.ids| && |vm| >= q;
    assert ids[n] != ids[m] ==> vn * vm == {};
    ApartSizes(vn, vm, |ids|);
  }

  // ----- where the conditions are needed

  lemma Extend(s: System, sts: seq<Step>, st: Step)
    requires Runs(s, sts) && Possible(After(s, sts), st)
    ensures Runs(s, sts + [st]) && After(s, sts + [st]) == Do(After(s, sts), st)
  {
    assert (sts + [st])[..|sts + [st]| - 1] == sts;
  }

  /** The step starts an election only below term `limit`. */
  ghost predicate Under(s: System, st: Step, limit: nat)
    requires Possible(s, st)
  {
    st.Stand? && CanStand(s.nodes[st.n]) ==> s.nodes[st.n].term < limit
  }

  ghost predicate AllUnder(s: System, sts: seq<Step>, limit: nat)
    requires Runs(s, sts)
    decreases |sts|
  {
    sts == [] || (AllUnder(s, sts[..|sts| - 1], limit) && Under(After(s, sts[..|sts| - 1]), sts[|sts| - 1], limit))
  }

  lemma {:induction false} LowNeverWraps(s: System, sts: seq<Step>, limit: nat)
    requires Runs(s, sts) && AllUnder(s, sts, limit) && limit <= MAX_TERM
    ensures NeverWraps(s, sts)
    decreases |sts|
  {
    if sts != [] { LowNeverWraps(s, sts[..|sts| - 1], limit); }
  }

  lemma ExtendUnder(s: System, sts: seq<Step>, st: Step, limit: nat)
    requires Runs(s, sts) && Possible(After(s, sts), st) && AllUnder(s, sts, limit) && Under(After(s, sts), st, limit)
    ensures Runs(s, sts + [st]) && After(s, sts + [st]) == Do(After(s, sts), st) && AllUnder(s, sts + [st], limit)
  {
    assert (sts + [st])[..|sts + [st]| - 1] == sts;
  }

  /** Node `n` votes for `a`, is driven to the greatest term, wraps, and votes for `b` in the same term. */
  lemma VotesTwice(s0: System, sts: seq<Step>, n: nat, a: Bytes, b: Bytes, limit: nat) returns (more: seq<Step>)
    requires Runs(s0, sts) && n < |After(s0, sts).nodes| == |After(s0, sts).ids|
    requires After(s0, sts).nodes[n] == NodeState(0, Follower, -1)
    requires a in After(s0, sts).ids && b in After(s0, sts).ids && limit > MAX_TERM && AllUnder(s0, sts, limit)
    ensures Runs(s0, more) && AllUnder(s0, more, limit)
    ensures var s, s' := After(s0, sts), After(s0, more);
      && s'.ids == s.ids && |s'.nodes| == |s.nodes|
      && (forall i :: 0 <= i < |s.nodes| && i != n ==> s'.nodes[i] == s.nodes[i])
      && s.votes <= s'.votes && Vote(n, 1, a) in s'.votes && Vote(n, 1, b) in s'.votes
  {
    hide Runs, After, AllUnder;
    more := sts;
    ExtendUnder(s0, more, Ask(n, a, 1), limit);
    more := more + [Ask(n, a, 1)];
    ExtendUnder(s0, more, Ask(n, a, MAX_TERM), limit);
    more := more + [Ask(n, a, MAX_TERM)];
    ExtendUnder(s0, more, Stand(n), limit);
    more := more + [Stand(n)];
    ExtendUnder(s0, more, Ask(n, b, 1), limit);
    more := more + [Ask(n, b, 1)];
  }

  /** The first `k` nodes have voted for `a` and for `b` in term 1; the others have not begun. */
  ghost predicate VotedTwice(s: System, ids: seq<Bytes>, k: nat, a: Bytes, b: Bytes) {
    && s.ids == ids && |s.nodes| == |ids| && (forall i :: k <= i < |ids| ==> s.nodes[i] == NodeState(0, Follower, -1))
    && forall i: nat :: i < k ==> Vote(i, 1, a) in s.votes && Vote(i, 1, b) in s.votes
  }

  lemma OneVotesTwice(ids: seq<Bytes>, sts: seq<Step>, k: nat, a: Bytes, b: Bytes, limit: nat) returns (more: seq<Step>)
    requires a in ids && b in ids && k < |ids| && limit > MAX_TERM
    requires Runs(Init(ids), sts) && AllUnder(Init(ids), sts, limit) && VotedTwice(After(Init(ids), sts), ids, k, a, b)
    ensures Runs(Init(ids), more) && AllUnder(Init(ids), more, limit)
    ensures VotedTwice(After(Init(ids), more), ids, k + 1, a, b)
  {
    hide Runs, After, AllUnder, Init;
    more := VotesTwice(Init(ids), sts, k, a, b, limit);
  }

  lemma {:induction false} AllVoteTwice(ids: seq<Bytes>, k: nat, a: Bytes, b: Bytes, limit: nat)
    returns (sts: seq<Step>)
    requires a in ids && b in ids && |ids| > 1 && k <= |ids| && limit > MAX_TERM
    ensures Runs(Init(ids), sts) && AllUnder(Init(ids), sts, limit)
    ensures VotedTwice(After(Init(ids), sts), ids, k, a, b)
    decreases k
  {
    if k == 0 {
      sts := [];
    } else {
      hide Runs, After, AllUnder, Init, VotedTwice;
      sts := AllVoteTwice(ids, k - 1, a, b, limit);
      sts := OneVotesTwice(ids, sts, k - 1, a, b, limit);
    }
  }

  /** Once an election may start at the greatest term, any two members can both win term 1. */
  lemma WrappingBreaksSafety(ids: seq<Bytes>, a: Bytes, b: Bytes, limit: nat) returns (sts: seq<Step>)
    requires a in ids && b in ids && a != b && limit > MAX_TERM
    ensures Runs(Init(ids), sts) && AllUnder(Init(ids), sts, limit)
    ensures Wins(After(Init(ids), sts), 1, a) && Wins(After(Init(ids), sts), 1, b)
  {
    var n := |ids|;
    assert n > 1;
    sts := AllVoteTwice(ids, n, a, b, limit);
    var s := After(Init(ids), sts);
    BlockCounts(0, n);
    forall c | c == a || c == b ensures Wins(s, 1, c) {
      forall i | i in Block(0, n) ensures i in Voters(s, 1, c) {
        assert Vote(i, 1, c) in s.votes;
      }
      VotersFinite(s, n, c);
    }
  }

  /** Every run whose elections all start below `limit` lets at most one candidate win a term. */
  ghost predicate SafeUnder(ids: seq<Bytes>, limit: nat) {
    forall sts :: Runs(Init(ids), sts) && AllUnder(Init(ids), sts, limit) ==> Safe(After(Init(ids), sts))
  }

  /** Election safety holds of a cluster exactly as long as no election starts at the greatest term. */
  lemma SafeExactlyWithoutWrap(ids: seq<Bytes>, limit: nat)
    requires Distinct(ids) && |ids| >= 2
    ensures SafeUnder(ids, limit) <==> limit <= MAX_TERM
  {
    hide Wins, After, Runs, AllUnder, NeverWraps;
    if limit <= MAX_TERM {
      forall sts | Runs(Init(ids), sts) && AllUnder(Init(ids), sts, limit) ensures Safe(After(Init(ids), sts)) {
        LowNeverWraps(Init(ids), sts, limit);
        var s := After(Init(ids), sts);
        forall term: nat, a, b | Wins(s, term, a) && Wins(s, term, b) ensures a == b {
          ElectionSafety(ids, sts, term, a, b);
        }
      }
    } else {
      var sts := WrappingBreaksSafety(ids, ids[0], ids[1], limit);
      assert !Safe(After(Init(ids), sts));
    }
  }

  lemma VotersFinite(s: System, n: nat, c: Bytes)
    requires Block(0, n) <= Voters(s, 1, c) && n == |s.ids| > 0
    ensures Wins(s, 1, c)
  {
    BlockCounts(0, n);
    SubsetSize(Block(0, n), Voters(s, 1, c));
  }

  // ----- how many votes a leader needs

  ghost predicate Good(s: System, sts: seq<Step>, q: nat) {
    Runs(s, sts) && NeverWraps(s, sts) && AlwaysBacked(s, sts, q)
  }

  ghost predicate OneLeader(s: System) {
    forall r, w :: r in s.reigns && w in s.reigns && r.1 == w.1 ==> r == w
  }

  /** Every run in which leadership takes `q` votes, and no term wraps, has one leader per term. */
  ghost predicate OneLeaderWith(ids: seq<Bytes>, q: nat) {
    forall sts :: Good(Init(ids), sts, q) ==> OneLeader(After(Init(ids), sts))
  }

  lemma ExtendGood(s: System, sts: seq<Step>, st: Step, q: nat)
    requires Good(s, sts, q) && Possible(After(s, sts), st) && NoWrap(After(s, sts), st) && Backed(After(s, sts), st, q)
    ensures Good(s, sts + [st], q) && After(s, sts + [st]) == Do(After(s, sts), st)
  {
    assert (sts + [st])[..|sts + [st]| - 1] == sts;
  }

  ghost predicate Unborn(s: System, n: nat) {
    n < |s.nodes| && s.nodes[n] == NodeState(0, Follower, -1)
  }

  /** Node `from` stands in term 1, and the `k - 1` nodes after it vote for it; the others see nothing. */
  ghost predicate Rallied(s: System, s': System, from: nat, k: nat) {
    && s'.ids == s.ids && |s'.nodes| == |s.nodes| == |s.ids| && from < |s.ids| && 0 < k
    && s'.nodes[from] == NodeState(1, Candidate, -1)
    && (forall i :: 0 <= i < |s.nodes| && !(from <= i < from + k) ==> s'.nodes[i] == s.nodes[i])
    && s.votes <= s'.votes && s'.reigns == s.reigns
    && forall i: nat :: from <= i < from + k ==> Vote(i, 1, s.ids[from]) in s'.votes
  }

  lemma {:induction false} Rally(s0: System, sts: seq<Step>, from: nat, k: nat, q: nat) returns (more: seq<Step>)
    requires Good(s0, sts, q) && 0 < k && from + k <= |After(s0, sts).nodes| == |After(s0, sts).ids|
    requires forall i: nat :: from <= i < from + k ==> Unborn(After(s0, sts), i)
    ensures Good(s0, more, q) && Rallied(After(s0, sts), After(s0, more), from, k)
    decreases k
  {
    hide Runs, After, NeverWraps, AlwaysBacked, Good, Voters;
    GoodRuns(s0, sts, q);
    if k == 1 {
      assert Unborn(After(s0, sts), from);
      ExtendGood(s0, sts, Stand(from), q);
      more := sts + [Stand(from)];
    } else {
      more := Rally(s0, sts, from, k - 1, q);
      GoodRuns(s0, more, q);
      var last := Ask(from + k - 1, After(s0, sts).ids[from], 1);
      assert Unborn(After(s0, sts), from + k - 1);
      ExtendGood(s0, more, last, q);
      more := more + [last];
    }
  }

  lemma GoodRuns(s: System, sts: seq<Step>, q: nat)
    requires Good(s, sts, q)
    ensures Runs(s, sts)
  {}

  lemma RalliedVotes(s: System, s': System, from: nat, k: nat)
    requires Rallied(s, s', from, k)
    ensures |Voters(s', 1, s.ids[from])| >= k
  {
    BlockCounts(from, k);
    forall i | i in Block(from, k) ensures i in Voters(s', 1, s.ids[from]) {
      assert Vote(i, 1, s.ids[from]) in s'.votes;
    }
    SubsetSize(Block(from, k), Voters(s', 1, s.ids[from]));
  }

  /** A candidate of term 1 with `q` votes takes the leadership. */
  lemma TakesOver(s0: System, sts: seq<Step>, n: nat, q: nat)
    requires Good(s0, sts, q) && n < |After(s0, sts).nodes| == |After(s0, sts).ids|
    requires After(s0, sts).nodes[n] == NodeState(1, Candidate, -1)
    requires |Voters(After(s0, sts), 1, After(s0, sts).ids[n])| >= q
    ensures Good(s0, sts + [Rise(n)], q)
    ensures var s, s' := After(s0, sts), After(s0, sts + [Rise(n)]);
      s'.ids == s.ids && s'.nodes == s.nodes[n := NodeState(1, Leader, n)] && s'.votes == s.votes
        && s'.reigns == s.reigns + {(n, 1)}
  {
    hide Runs, After, NeverWraps, AlwaysBacked, Good, Voters;
    GoodRuns(s0, sts, q);
    ExtendGood(s0, sts, Rise(n), q);
  }

  /** Two blocks of `q` voters that do not overlap make two leaders of term 1. */
  lemma TwoBlocks(ids: seq<Bytes>, q: nat) returns (sts: seq<Step>)
    requires 1 <= q && 2 * q <= |ids|
    ensures Good(Init(ids), sts, q) && (0, 1) in After(Init(ids), sts).reigns && (q, 1) in After(Init(ids), sts).reigns
  {
    var s0 := Init(ids);
    assert Good(s0, [], q) && After(s0, []) == s0;
    hide Runs, After, NeverWraps, AlwaysBacked, Good, Voters;
    var one := Rally(s0, [], 0, q, q);
    GoodRuns(s0, one, q);
    var s1 := After(s0, one);
    var two := Rally(s0, one, q, q, q);
    GoodRuns(s0, two, q);
    var s2 := After(s0, two);
    RalliedVotes(s0, s1, 0, q);
    MoreVotes(s1, s2, 1, ids[0]);
    RalliedVotes(s1, s2, q, q);
    TakesOver(s0, two, 0, q);
    sts := two + [Rise(0)];
    GoodRuns(s0, sts, q);
    MoreVotes(s2, After(s0, sts), 1, ids[q]);
    TakesOver(s0, sts, q, q);
    sts := sts + [Rise(q)];
  }

  /** Leadership is unique in every run exactly if it takes more than half of the votes. */
  lemma OneLeaderExactlyWithMajority(ids: seq<Bytes>, q: nat)
    requires Distinct(ids) && 1 <= q <= |ids|
    ensures OneLeaderWith(ids, q) <==> 2 * q > |ids|
  {
    hide Runs, After, NeverWraps, AlwaysBacked, Voters;
    if 2 * q > |ids| {
      forall sts | Good(Init(ids), sts, q) ensures OneLeader(After(Init(ids), sts)) {
        var s := After(Init(ids), sts);
        forall r, w | r in s.reigns && w in s.reigns && r.1 == w.1 ensures r == w {
          OneLeaderPerTerm(ids, sts, q, r.1, r.0, w.0);
        }
      }
    } else {
      var sts := TwoBlocks(ids, q);
      assert (0, 1) != (q, 1) && !OneLeader(After(Init(ids), sts));
    }
  }

  /** `cluster_become_leader` alone does not count votes: two candidates of one term can both take it. */
  lemma UnelectedLeaders(ids: seq<Bytes>) returns (sts: seq<Step>)
    requires |ids| > 1
    ensures Runs(Init(ids), sts) && (0, 1) in After(Init(ids), sts).reigns && (1, 1) in After(Init(ids), sts).reigns
  {
    hide Runs, After, Do;
    var s := Init(ids);
    EmptyRun(s);
    StandsUp(s, 0);
    Extend(s, [], Stand(0));
    sts := [] + [Stand(0)];
    StandsUp(After(s, sts), 1);
    Extend(s, sts, Stand(1));
    sts := sts + [Stand(1)];
    Rises(After(s, sts), 0);
    Extend(s, sts, Rise(0));
    sts := sts + [Rise(0)];
    Rises(After(s, sts), 1);
    Extend(s, sts, Rise(1));
    sts := sts + [Rise(1)];
  }

  /** A follower in term 0 becomes a candidate in term 1. */
  lemma StandsUp(s: System, n: nat)
    requires n < |s.nodes| == |s.ids| && s.nodes[n] == NodeState(0, Follower, -1)
    ensures Possible(s, Stand(n))
    ensures Do(s, Stand(n)).nodes == s.nodes[n := NodeState(1, Candidate, -1)] && Do(s, Stand(n)).ids == s.ids
  {}

  lemma Rises(s: System, n: nat)
    requires n < |s.nodes| == |s.ids| && s.nodes[n] == NodeState(1, Candidate, -1)
    ensures Possible(s, Rise(n))
    ensures Do(s, Rise(n)).nodes == s.nodes[n := NodeState(1, Leader, n)] && Do(s, Rise(n)).ids == s.ids
    ensures Do(s, Rise(n)).reigns == s.reigns + {(n, 1)}
  {}

  lemma EmptyRun(s: System)
    ensures Runs(s, []) && After(s, []) == s
  {}
}
