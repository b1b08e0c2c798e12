/** Who is a member, and what every member has signed, over whole runs. */
module Membership {
  import opened Bytes
  import opened Sorting
  import opened Entries
  import opened States
  import opened Runs

  ghost predicate Joins(e: Entry, id: Text) {
    !e.op.Remove? && id in Ids(Listed(e))
  }

  ghost predicate Leaves(e: Entry, id: Text) {
    e.op.Remove? && id in Ids(Listed(e))
  }

  /** The index of the entry by which id joined last, or -1. */
  ghost function LastJoin(log: seq<Entry>, id: Text): (r: int)
    ensures -1 <= r < |log|
    ensures r >= 0 ==> Joins(log[r], id)
    ensures forall i :: 0 <= i < |log| && r < i ==> !Joins(log[i], id)
  {
    if log == [] then -1
    else if Joins(log[|log| - 1], id) then |log| - 1
    else
      var init := log[..|log| - 1];
      assert forall i :: 0 <= i < |init| ==> init[i] == log[i];
      LastJoin(init, id)
  }

  /** What one accepted entry does to one node id. */
  lemma Transition(p: Primitives, st: St, e: Entry, id: Text)
    requires Accepts(p, st, e)
    ensures Joins(e, id) <==> id !in st.members && id in NextMembers(st, e)
    ensures Leaves(e, id) <==> id in st.members && id !in NextMembers(st, e)
    ensures !Joins(e, id) && !Leaves(e, id) && id in st.members ==>
              id in NextMembers(st, e) && NextMembers(st, e)[id] == st.members[id]
    ensures Joins(e, id) ==> NextMembers(st, e)[id] in Listed(e)
  {
    hide Accepts, Payload, HasPayload, Hash, Named;
    AcceptedFacts(p, st, e);
  }

  // ---- unanimity ----

  /** m's subject has been in force since entry j, and every entry since carries an approval by m
      that verifies under m's key. */
  ghost predicate SignedSince(p: Primitives, log: seq<Entry>, m: Subject, j: nat) {
    && (forall i :: j <= i < |log| ==> Verified(p, m.identityPubkey, log[i], m.nodeId))
    && (forall i :: j <= i < |log| ==> !Leaves(log[i], m.nodeId))
    && (forall i :: j < i <= |log| ==>
          m.nodeId in StateAt(p, log, i).members && StateAt(p, log, i).members[m.nodeId] == m)
  }

  /** A member that stays through an entry has signed it under its current key. */
  lemma StayersSigned(p: Primitives, st: St, e: Entry, id: Text)
    requires Accepts(p, st, e)
    requires st.nextSeq == 0 ==> st.members == map[]
    requires id in NextMembers(st, e)
    ensures Signed(p, NextMembers(st, e), e, id)
  {
    hide Accepts, Payload, HasPayload, Hash, Named, ValidSig;
    AcceptedFacts(p, st, e);
    AcceptedSignatures(p, st, e);
    assert id in e.approvals;
    assert Signed(p, Candidates(st, e), e, id);
  }

  /** Whole-run unanimity: a current member joined by some entry, listed there with exactly its
      current subject; from that entry to the end of the log it was never removed, its subject
      never changed, and every entry carries its signature, valid under its current key. */
  lemma {:induction false} Unanimity(p: Primitives, log: seq<Entry>, id: Text)
    requires Accepted(p, log) && |log| < TWO64
    requires id in Final(p, log).members
    ensures var j := LastJoin(log, id);
            && 0 <= j
            && Final(p, log).members[id].nodeId == id
            && Final(p, log).members[id] in Listed(log[j])
            && SignedSince(p, log, Final(p, log).members[id], j)
  {
    hide Accepts, NextMembers, Signed, Verified, Joins, Leaves, WellFormed;
    if log != [] {
      var init, e := log[..|log| - 1], log[|log| - 1];
      LastEntry(p, log);
      EmptyAtZero(p, init);
      WellFormedMembers(p, log);
      var st := Final(p, init);
      var m := Final(p, log).members[id];
      Transition(p, st, e, id);
      StayersSigned(p, st, e, id);
      SignedIsVerified(p, Final(p, log).members, e, id);
      if !Joins(e, id) {
        Unanimity(p, init, id);
        ExtendSignedSince(p, log, m, LastJoin(init, id));
      }
    }
  }

  lemma ExtendSignedSince(p: Primitives, log: seq<Entry>, m: Subject, j: nat)
    requires log != [] && SignedSince(p, log[..|log| - 1], m, j)
    requires var e := log[|log| - 1];
             Verified(p, m.identityPubkey, e, m.nodeId) && !Leaves(e, m.nodeId)
    requires m.nodeId in Final(p, log).members && Final(p, log).members[m.nodeId] == m
    ensures SignedSince(p, log, m, j)
  {
    hide Verified, Leaves, StateAt;
    var init := log[..|log| - 1];
    forall i | j <= i < |log|
      ensures Verified(p, m.identityPubkey, log[i], m.nodeId) && !Leaves(log[i], m.nodeId)
    {
      if i < |init| {
        assert init[i] == log[i];
      }
    }
    forall i | j < i <= |log|
      ensures m.nodeId in StateAt(p, log, i).members && StateAt(p, log, i).members[m.nodeId] == m
    {
      if i <= |init| {
        StateAtPrefix(p, log, |init|, i);
      }
    }
  }

  // ---- conservation ----

  ghost function JoinCount(log: seq<Entry>): nat {
    if log == [] then 0
    else
      var e := log[|log| - 1];
      JoinCount(log[..|log| - 1]) + (if e.op.Remove? then 0 else |Listed(e)|)
  }

  ghost function RemoveCount(log: seq<Entry>): nat {
    if log == [] then 0
    else RemoveCount(log[..|log| - 1]) + (if log[|log| - 1].op.Remove? then 1 else 0)
  }

  lemma IdsSnoc(subs: seq<Subject>)
    requires subs != []
    ensures Ids(subs) == Ids(subs[..|subs| - 1]) + {subs[|subs| - 1].nodeId}
  {
    assert subs == subs[..|subs| - 1] + [subs[|subs| - 1]];
  }

  lemma {:induction false} IdsCount(subs: seq<Subject>)
    requires DistinctKeys(NodeIdOf, subs)
    ensures |Ids(subs)| == |subs|
  {
    hide Named;
    if subs == [] {
      assert Ids(subs) == {};
    } else {
      hide Ids;
      IdsCount(subs[..|subs| - 1]);
      FreshName(subs, |subs| - 1);
      IdsSnoc(subs);
    }
  }

  lemma ListedDistinct(e: Entry)
    requires e.op.Genesis? ==> DistinctKeys(NodeIdOf, e.subjects)
    ensures DistinctKeys(NodeIdOf, Listed(e))
  {
  }

  lemma MembersAfterOne(p: Primitives, st: St, e: Entry)
    requires Accepts(p, st, e)
    ensures |NextMembers(st, e)| ==
            if e.op.Remove? then |st.members| - 1 else |st.members| + |Listed(e)|
  {
    hide *;
    AcceptedFacts(p, st, e);
    ListedDistinct(e);
    IdsCount(Listed(e));
    MembersCount(st, e);
  }

  lemma MembersCount(st: St, e: Entry)
    requires e.op.Remove? ==> e.subject.Some? && Listed(e) == [e.subject.value]
    requires if e.op.Remove? then Ids(Listed(e)) <= st.members.Keys
             else Ids(Listed(e)) !! st.members.Keys
    ensures |NextMembers(st, e)| ==
            if e.op.Remove? then |st.members| - |Ids(Listed(e))| else |st.members| + |Ids(Listed(e))|
  {
    hide Named, Ids, Listed;
    var before, ids := st.members.Keys, Ids(Listed(e));
    if e.op.Remove? {
      assert NextMembers(st, e).Keys == before - ids;
      Cardinality(before - ids, ids);
      assert before - ids + ids == before;
    } else {
      assert NextMembers(st, e).Keys == before + ids;
      Cardinality(before, ids);
    }
  }

  /** Member count = subjects of genesis and ADD entries, minus REMOVE entries. */
  lemma {:induction false} MemberCount(p: Primitives, log: seq<Entry>)
    requires Accepted(p, log)
    ensures |Final(p, log).members| == JoinCount(log) - RemoveCount(log)
  {
    hide Accepts, NextMembers;
    if log == [] {
      EmptyFinal(p);
    } else {
      LastEntry(p, log);
      MemberCount(p, log[..|log| - 1]);
      MembersAfterOne(p, Final(p, log[..|log| - 1]), log[|log| - 1]);
    }
  }

  /** The joins (true) and leaves (false) of one node id, in log order. */
  ghost function Moves(log: seq<Entry>, id: Text): seq<bool> {
    if log == [] then []
    else
      var e := log[|log| - 1];
      Moves(log[..|log| - 1], id) +
      (if Joins(e, id) then [true] else if Leaves(e, id) then [false] else [])
  }

  ghost function Count(moves: seq<bool>, b: bool): nat {
    if moves == [] then 0
    else Count(moves[..|moves| - 1], b) + (if moves[|moves| - 1] == b then 1 else 0)
  }

  /** Starts with a join, and no two neighbours are alike. */
  ghost predicate Alternate(moves: seq<bool>) {
    && (moves != [] ==> moves[0])
    && forall i :: 0 <= i < |moves| - 1 ==> moves[i + 1] != moves[i]
  }

  ghost predicate EndsInside(moves: seq<bool>) {
    moves != [] && moves[|moves| - 1]
  }

  lemma {:induction false} AlternateCounts(moves: seq<bool>)
    requires Alternate(moves)
    ensures Count(moves, true) == Count(moves, false) + if EndsInside(moves) then 1 else 0
  {
    if moves != [] {
      AlternateCounts(moves[..|moves| - 1]);
    }
  }

  lemma AlternateSnoc(moves: seq<bool>, b: bool)
    requires Alternate(moves) && b == !EndsInside(moves)
    ensures Alternate(moves + [b])
  {
  }

  lemma {:induction false} MovesAlternate(p: Primitives, log: seq<Entry>, id: Text)
    requires Accepted(p, log)
    ensures Alternate(Moves(log, id))
    ensures id in Final(p, log).members <==> EndsInside(Moves(log, id))
  {
    hide Accepts, NextMembers, Joins, Leaves, Alternate, StateAt;
    if log == [] {
      EmptyFinal(p);
      assert Alternate([]) by { NoMoves(); }
    } else {
      var init, e := log[..|log| - 1], log[|log| - 1];
      LastEntry(p, log);
      MovesAlternate(p, init, id);
      Transition(p, Final(p, init), e, id);
      assert Final(p, log).members == NextMembers(Final(p, init), e);
      if Joins(e, id) || Leaves(e, id) {
        AlternateSnoc(Moves(init, id), Joins(e, id));
      } else {
        assert Moves(init, id) + [] == Moves(init, id);
      }
    }
  }

  lemma NoMoves()
    ensures Alternate([])
  {
  }

  /** Joins and leaves of a node strictly alternate, starting with a join, and it is a member
      exactly when it has joined once more than it has left; otherwise it has left as often as it
      has joined. */
  lemma JoinsAndLeaves(p: Primitives, log: seq<Entry>, id: Text)
    requires Accepted(p, log)
    ensures Alternate(Moves(log, id))
    ensures var joins, leaves := Count(Moves(log, id), true), Count(Moves(log, id), false);
            if id in Final(p, log).members then joins == leaves + 1 else joins == leaves
  {
    MovesAlternate(p, log, id);
    AlternateCounts(Moves(log, id));
  }
}
