/** The member diff of a sync cycle (internal/syncer/syncer.go). */
module Syncer {
  import opened Bytes
  import opened Sorting
  import opened Entries
  import opened States
  import opened Runs
  import opened Stores
  import Membership
  import Forks

  /** The member ids of a state that may be missing. */
  function MemberSet(st: State?): set<Text>
    reads st
  {
    if st == null then {} else st.members.Keys
  }

  method KeySet(st: State?) returns (r: map<Text, bool>)
    ensures r.Keys == MemberSet(st) && forall id :: id in r ==> r[id]
  {
    r := map[];
    if st != null {
      var todo := st.members.Keys;
      while todo != {}
        invariant todo <= st.members.Keys
        invariant r.Keys == st.members.Keys - todo && forall id :: id in r ==> r[id]
      {
        var id :| id in todo;
        todo := todo - {id};
        r := r[id := true];
      }
    }
  }

  /** The keys of a that are not in b, sorted. */
  method Only(a: map<Text, bool>, b: map<Text, bool>) returns (ids: seq<Text>)
    ensures ids == Ascending(a.Keys - b.Keys)
  {
    ids := [];
    var todo := a.Keys;
    while todo != {}
      invariant todo <= a.Keys
      invariant forall x :: x in ids <==> x in a.Keys - b.Keys - todo
      invariant DistinctKeys(Self, ids)
    {
      var id :| id in todo;
      todo := todo - {id};
      if id !in b {
        DistinctSnoc(ids, id);
        ids := ids + [id];
      }
    }
    ids := SortStrings(ids, a.Keys - b.Keys);
  }

  method DiffMembers(before: State?, after: State?) returns (added: seq<Text>, removed: seq<Text>)
    ensures added == Ascending(MemberSet(after) - MemberSet(before))
    ensures removed == Ascending(MemberSet(before) - MemberSet(after))
  {
    var bm := KeySet(before);
    var am := KeySet(after);
    added := Only(am, bm);
    removed := Only(bm, am);
  }

  /** The ledger part of one sync cycle: replay the old log whatever its condition, pull, verify
      the new log, then diff. `headMoved` is whether the pull changed the commit. */
  method Run(store: Store, pulled: seq<Entry>, headMoved: bool, skipVerify: bool)
    returns (ok: bool, updated: bool, added: seq<Text>, removed: seq<Text>)
    requires !headMoved ==> pulled == store.log
    modifies store`log
    ensures store.log == pulled && updated == headMoved
    ensures ok <==> !headMoved || skipVerify || Accepted(store.p, pulled)
    ensures var before, after := Replayed(store.p, old(store.log)).members.Keys,
                                 Replayed(store.p, pulled).members.Keys;
            if ok then added == Ascending(after - before) && removed == Ascending(before - after)
            else added == [] && removed == []
  {
    hide Accepted, Replayed;
    ok, updated, added, removed := true, false, [], [];
    var oldState, _ := store.Replay();
    store.log := pulled;
    if !headMoved {
      assert oldState.members.Keys - oldState.members.Keys == {};
      return;
    }
    updated := true;
    if !skipVerify {
      var _, verified := store.Replay();
      if !verified {
        ok := false;
        return;
      }
    }
    var newState, _ := store.Replay();
    added, removed := DiffMembers(oldState, newState);
  }

  // ---- what the diff means ----

  /** The lists are strictly sorted and disjoint, and rebuild the new member set from the old. */
  lemma DiffRebuilds(before: set<Text>, after: set<Text>)
    ensures var added, removed := Ascending(after - before), Ascending(before - after);
            && StrictlySorted(Self, added) && StrictlySorted(Self, removed)
            && (forall x :: !(x in added && x in removed))
            && (forall x :: x in after <==> (x in before && x !in removed) || x in added)
  {
  }

  /** The node ids that an entry adds or removes. */
  function Moved(before: set<Text>, after: set<Text>): set<Text> {
    (before - after) + (after - before)
  }

  lemma OneMove(p: Primitives, log: seq<Entry>, i: nat)
    requires Accepted(p, log) && 0 < i < |log| < TWO64
    ensures |Moved(StateAt(p, log, i).members.Keys, StateAt(p, log, i + 1).members.Keys)| <= 1
  {
    hide Accepted, Accepts, NextMembers, StateAt, Moved;
    EntryAt(p, log, i);
    SeqIsIndex(p, log, i);
    var st, e := StateAt(p, log, i), log[i];
    AcceptedFacts(p, st, e);
    OneListed(p, st, e);
  }

  lemma OneListed(p: Primitives, st: St, e: Entry)
    requires Accepts(p, st, e) && e.subject.Some? && Listed(e) == [e.subject.value]
    ensures |Moved(st.members.Keys, NextMembers(st, e).Keys)| <= 1
  {
    hide Accepts, NextMembers, Ids, Listed;
    var target := e.subject.value.nodeId;
    NamedOne(st.members, e.subject.value);
    var moved := Moved(st.members.Keys, NextMembers(st, e).Keys);
    forall id | id in moved ensures id == target {
      Membership.Transition(p, st, e, id);
    }
    Subset(moved, {target});
  }

  lemma MovedTriangle(a: set<Text>, b: set<Text>, c: set<Text>)
    ensures |Moved(a, c)| <= |Moved(a, b)| + |Moved(b, c)|
  {
    Subset(Moved(a, c), Moved(a, b) + Moved(b, c));
    Union(Moved(a, b), Moved(b, c));
  }

  lemma {:induction false} MovesBetween(p: Primitives, log: seq<Entry>, i: nat, j: nat)
    requires Accepted(p, log) && 0 < i <= j <= |log| < TWO64
    ensures |Moved(StateAt(p, log, i).members.Keys, StateAt(p, log, j).members.Keys)| <= j - i
    decreases j
  {
    hide Accepted, StateAt, Moved;
    if i == j {
      NothingMoved(StateAt(p, log, i).members.Keys);
    } else {
      MovesBetween(p, log, i, j - 1);
      OneMove(p, log, j - 1);
      MovedTriangle(StateAt(p, log, i).members.Keys, StateAt(p, log, j - 1).members.Keys,
                    StateAt(p, log, j).members.Keys);
    }
  }

  lemma NothingMoved(a: set<Text>)
    ensures |Moved(a, a)| == 0
  {
    assert Moved(a, a) == {};
  }

  /** When the pulled log extends a non-empty accepted log and is itself accepted, the diff names no
      more nodes than there are new entries. */
  lemma DiffBounded(p: Primitives, log: seq<Entry>, n: nat)
    requires Accepted(p, log) && 0 < n <= |log| < TWO64
    ensures var before, after := Replayed(p, log[..n]).members.Keys, Replayed(p, log).members.Keys;
            |Ascending(after - before)| + |Ascending(before - after)| <= |log| - n
  {
    hide Accepted, StateAt, Replayed;
    PrefixAccepted(p, log, n);
    ReplayedCases(p, log);
    ReplayedCases(p, log[..n]);
    StateAtPrefix(p, log, n, n);
    FinalIsStateAt(p, log);
    MovesBetween(p, log, n, |log|);
    var before, after := Replayed(p, log[..n]).members.Keys, Replayed(p, log).members.Keys;
    DiffIsMoved(before, after);
  }

  // ---- what a verified pull may do ----

  /** A verified pull need not extend the old log (Witnesses.VerifiedFork). It does, up to a
      collision, exactly when replaying its first |log| entries leads to the old tip. */
  lemma ExtendsExactly(p: Primitives, log: seq<Entry>, pulled: seq<Entry>)
    requires Accepted(p, log) && Accepted(p, pulled)
    requires 0 < |log| <= |pulled| < TWO64
    requires Forks.AllSized(p, log) && Forks.AllSized(p, pulled)
    ensures var prefix := pulled[..|log|];
            && (Forks.SameHistory(p, log, prefix) ==> Final(p, prefix).prevHash == Final(p, log).prevHash)
            && (Final(p, prefix).prevHash == Final(p, log).prevHash ==>
                  Forks.SameHistory(p, log, prefix) || Forks.CollisionIn(p, log, prefix))
  {
    hide Accepted, Final, Forks.SameHistory, Forks.CollisionIn;
    var prefix := pulled[..|log|];
    PrefixAccepted(p, pulled, |log|);
    if Forks.SameHistory(p, log, prefix) {
      Forks.HistoryDeterminesState(p, log, prefix);
    } else if Final(p, prefix).prevHash == Final(p, log).prevHash {
      Forks.TipDeterminesHistory(p, log, prefix);
    }
  }

  lemma ExtensionMoves(p: Primitives, short: seq<Entry>, long: seq<Entry>)
    requires Accepted(p, short) && Accepted(p, long)
    requires 0 < |short| <= |long| < TWO64
    requires Forks.AllSized(p, short) && Forks.AllSized(p, long)
    requires Forks.SameHistory(p, short, long[..|short|])
    ensures |Moved(Final(p, short).members.Keys, Final(p, long).members.Keys)| <= |long| - |short|
  {
    hide Accepted, StateAt, Moved, Forks.SameHistory, Forks.View, EntrySized;
    var n := |short|;
    PrefixAccepted(p, long, n);
    Forks.HistoryDeterminesState(p, short, long[..n]);
    Forks.SameViewSameKeys(p, Final(p, short).members, Final(p, long[..n]).members);
    StateAtPrefix(p, long, n, n);
    FinalIsStateAt(p, long);
    MovesBetween(p, long, n, |long|);
  }

  /** One honest member at each difference makes a verified pull safe: with the same first entry,
      and at each index where both logs differ someone who would have to sign both entries but has
      not, one log extends the other, and the diff names at most as many nodes as there are entries
      between them. */
  lemma HonestSync(p: Primitives, log: seq<Entry>, pulled: seq<Entry>)
    requires Accepted(p, log) && Accepted(p, pulled)
    requires 0 < |log| < TWO64 && 0 < |pulled| < TWO64
    requires Forks.AllSized(p, log) && Forks.AllSized(p, pulled)
    requires Payload(p, log[0]) == Payload(p, pulled[0])
    requires forall k :: 0 < k < |log| && k < |pulled| && Payload(p, log[k]) != Payload(p, pulled[k]) ==>
               Forks.OneHonest(p, log, pulled, k)
    ensures var n := if |log| <= |pulled| then |log| else |pulled|;
            Forks.SameHistory(p, log[..n], pulled[..n])
    ensures var before, after := Replayed(p, log).members.Keys, Replayed(p, pulled).members.Keys;
            |Ascending(after - before)| + |Ascending(before - after)| <=
            if |log| <= |pulled| then |pulled| - |log| else |log| - |pulled|
  {
    hide Accepted, Final, Replayed, Payload, Moved, Forks.OneHonest, EntrySized, Ascending;
    var n := if |log| <= |pulled| then |log| else |pulled|;
    Forks.NoDoubleSigningNoFork(p, log, pulled, n);
    assert log[..|log|] == log && pulled[..|pulled|] == pulled;
    if |log| <= |pulled| {
      ExtensionMoves(p, log, pulled);
    } else {
      ExtensionMoves(p, pulled, log);
    }
    ReplayedCases(p, log);
    ReplayedCases(p, pulled);
    DiffIsMoved(Final(p, log).members.Keys, Final(p, pulled).members.Keys);
  }

  lemma DiffIsMoved(before: set<Text>, after: set<Text>)
    ensures |Ascending(after - before)| + |Ascending(before - after)| == |Moved(before, after)|
    ensures |Moved(before, after)| == |Moved(after, before)|
  {
    Cardinality(before - after, after - before);
    assert Moved(before, after) == Moved(after, before);
  }
}
