/** Replaying a log, and what every accepted log has in common. */
module Runs {
  import opened Bytes
  import opened Sorting
  import opened Entries
  import opened States

  /** The state after applying every entry to the empty state, if all are accepted. */
  ghost function Replay(p: Primitives, log: seq<Entry>): Option<St> {
    if log == [] then Some(Init())
    else
      match Replay(p, log[..|log| - 1])
      case None => None
      case Some(st) => Step(p, st, log[|log| - 1])
  }

  ghost predicate Accepted(p: Primitives, log: seq<Entry>) {
    Replay(p, log).Some?
  }

  /** The state before entry i. */
  ghost function StateAt(p: Primitives, log: seq<Entry>, i: nat): St
    requires i <= |log|
  {
    match Replay(p, log[..i])
    case Some(st) => st
    case None => Init()
  }

  ghost function Final(p: Primitives, log: seq<Entry>): St {
    StateAt(p, log, |log|)
  }

  // ---- unfolding a run ----

  lemma ReplayAppend(p: Primitives, log: seq<Entry>, e: Entry)
    ensures Accepted(p, log + [e]) <==> Accepted(p, log) && Accepts(p, Final(p, log), e)
    ensures Accepted(p, log + [e]) ==> Final(p, log + [e]) == Next(p, Final(p, log), e)
    ensures Accepted(p, log) ==> Replay(p, log) == Some(Final(p, log))
  {
    hide Accepts;
    assert (log + [e])[..|log|] == log;
    assert log[..|log|] == log && (log + [e])[..|log + [e]|] == log + [e];
  }

  lemma {:induction false} PrefixAccepted(p: Primitives, log: seq<Entry>, i: nat)
    requires Accepted(p, log) && i <= |log|
    ensures Accepted(p, log[..i])
    ensures Replay(p, log[..i]) == Some(StateAt(p, log, i))
  {
    hide Step;
    if i == |log| {
      assert log[..i] == log;
    } else {
      var init := log[..|log| - 1];
      PrefixAccepted(p, init, i);
      assert init[..i] == log[..i];
    }
  }

  /** Entry i was accepted in the state before it and led to the state after it. */
  lemma EntryAt(p: Primitives, log: seq<Entry>, i: nat)
    requires Accepted(p, log) && i < |log|
    ensures Accepts(p, StateAt(p, log, i), log[i])
    ensures StateAt(p, log, i + 1) == Next(p, StateAt(p, log, i), log[i])
  {
    hide Accepts;
    PrefixAccepted(p, log, i + 1);
    PrefixAccepted(p, log, i);
    assert log[..i + 1][..i] == log[..i];
  }

  /** A run ends with the last entry applied to the final state of the rest. */
  lemma LastEntry(p: Primitives, log: seq<Entry>)
    requires Accepted(p, log) && log != []
    ensures Accepted(p, log[..|log| - 1])
    ensures Accepts(p, Final(p, log[..|log| - 1]), log[|log| - 1])
    ensures Final(p, log) == Next(p, Final(p, log[..|log| - 1]), log[|log| - 1])
  {
    hide Accepts;
    var init := log[..|log| - 1];
    EntryAt(p, log, |log| - 1);
    PrefixAccepted(p, log, |log| - 1);
    assert init[..|init|] == init;
  }

  lemma EmptyFinal(p: Primitives)
    ensures Replay(p, []) == Some(Init()) && Final(p, []) == Init()
  {
    var log: seq<Entry> := [];
    assert log[..0] == [];
  }

  lemma EmptyStateAt(p: Primitives, log: seq<Entry>)
    ensures Accepted(p, log[..0]) && StateAt(p, log, 0) == Init()
  {
    assert log[..0] == [];
  }

  lemma StateAtPrefix(p: Primitives, log: seq<Entry>, n: nat, i: nat)
    requires i <= n <= |log|
    ensures StateAt(p, log[..n], i) == StateAt(p, log, i)
    ensures Final(p, log[..n]) == StateAt(p, log, n)
  {
    assert log[..n][..i] == log[..i];
    assert log[..n][..n] == log[..n];
  }

  // ---- facts of one accepted entry ----

  lemma AcceptedFacts(p: Primitives, st: St, e: Entry)
    requires Accepts(p, st, e)
    ensures e.seqNo == st.nextSeq && HexDecode(e.prevHash) == Some(st.prevHash)
    ensures Payload(p, e).Some? && Hash(p, e).Some? && HasPayload(p, e)
    ensures e.op.Genesis? ==> st.nextSeq == 0 && DistinctKeys(NodeIdOf, e.subjects)
    ensures !e.op.Genesis? ==> e.subject.Some? && Listed(e) == [e.subject.value]
    ensures if e.op.Remove? then Ids(Listed(e)) <= st.members.Keys
            else Ids(Listed(e)) !! st.members.Keys
  {
  }

  lemma AcceptedKeys(p: Primitives, st: St, e: Entry)
    requires Accepts(p, st, e)
    ensures HasKeys(p, st.members)
    ensures forall id :: id in st.members ==> Key32(p, st.members[id].identityPubkey).Some?
  {
  }

  lemma AcceptedSignatures(p: Primitives, st: St, e: Entry)
    requires Accepts(p, st, e)
    ensures Required(st, e).Some?
    ensures forall id :: id in Required(st, e).value ==> id in e.approvals
    ensures forall id :: id in e.approvals ==> Signed(p, Candidates(st, e), e, id)
    ensures !e.op.Genesis? ==> Required(st, e).value == NextMembers(st, e).Keys
    ensures e.op.Genesis? ==> Required(st, e).value == Ids(e.subjects)
  {
    hide Payload, HasPayload, Hash, HasKeys;
    if !e.op.Genesis? {
      AcceptedFacts(p, st, e);
      assert Ids(Listed(e)) == {e.subject.value.nodeId};
    }
  }

  // ---- members are well formed ----

  ghost predicate GoodMembers(p: Primitives, m: map<Text, Subject>) {
    forall id :: id in m ==> m[id].nodeId == id && WellFormed(p, m[id])
  }

  lemma NextGoodMembers(p: Primitives, st: St, e: Entry)
    requires Accepts(p, st, e) && GoodMembers(p, st.members)
    ensures GoodMembers(p, NextMembers(st, e))
  {
    hide Accepts, WellFormed, Payload, Hash, Named;
    AcceptedFacts(p, st, e);
    var m := NextMembers(st, e);
    forall id | id in m ensures m[id].nodeId == id && WellFormed(p, m[id]) {
      if !e.op.Remove? && id in Named(Listed(e)) {
        assert m[id] == Named(Listed(e))[id];
      } else {
        assert m[id] == st.members[id];
      }
    }
  }

  /** In every reachable state each key of the member map is its subject's non-empty node id, both
      keys decode to 32 bytes and the overlay parses. So no member ever makes pubkeysForVerify
      fail. */
  lemma {:induction false} WellFormedMembers(p: Primitives, log: seq<Entry>)
    requires Accepted(p, log)
    ensures GoodMembers(p, Final(p, log).members)
    ensures HasKeys(p, Final(p, log).members)
  {
    hide Accepts, NextMembers;
    if log == [] {
      EmptyFinal(p);
    } else {
      LastEntry(p, log);
      WellFormedMembers(p, log[..|log| - 1]);
      NextGoodMembers(p, Final(p, log[..|log| - 1]), log[|log| - 1]);
    }
  }

  lemma NextMod(n: nat)
    ensures (n % TWO64 + 1) % TWO64 == (n + 1) % TWO64
  {
  }

  lemma {:induction false} SeqIsLength(p: Primitives, log: seq<Entry>)
    requires Accepted(p, log)
    ensures Final(p, log).nextSeq == |log| % TWO64
  {
    hide Accepts, NextMembers, Final, Hash;
    if log == [] {
      EmptyFinal(p);
    } else {
      LastEntry(p, log);
      SeqIsLength(p, log[..|log| - 1]);
      NextMod(|log| - 1);
    }
  }

  /** While the log is shorter than 2^64 entries, sequence number zero means the empty state. */
  lemma EmptyAtZero(p: Primitives, log: seq<Entry>)
    requires Accepted(p, log) && |log| < TWO64
    ensures Final(p, log).nextSeq == |log|
    ensures Final(p, log).nextSeq == 0 ==> log == [] && Final(p, log) == Init()
  {
    hide Step;
    SeqIsLength(p, log);
    if log == [] {
      EmptyFinal(p);
    }
  }

  /** Entry i carries sequence number i, and only entry 0 can be a GENESIS. */
  lemma SeqIsIndex(p: Primitives, log: seq<Entry>, i: nat)
    requires Accepted(p, log) && i < |log| && i < TWO64
    ensures log[i].seqNo == i
    ensures log[i].op.Genesis? ==> i == 0
  {
    hide Accepts;
    EntryAt(p, log, i);
    PrefixAccepted(p, log, i);
    StateAtPrefix(p, log, i, i);
    EmptyAtZero(p, log[..i]);
    AcceptedFacts(p, StateAt(p, log, i), log[i]);
  }

  // ---- the chain ----

  /** The hash chain in plain digests: each entry names the SHA-256 digest of the payload before it,
      the first one 32 zero bytes, and the tip of a log is the digest of its last payload. */
  lemma ChainOfDigests(p: Primitives, log: seq<Entry>, i: nat)
    requires Accepted(p, log) && i < |log|
    ensures Payload(p, log[i]).Some?
    ensures StateAt(p, log, i + 1).prevHash == p.sha256(Payload(p, log[i]).value)
    ensures i + 1 == |log| ==> Final(p, log).prevHash == p.sha256(Payload(p, log[i]).value)
    ensures i == 0 ==> HexDecode(log[0].prevHash) == Some(seq(32, _ => 0))
    ensures i > 0 ==> Payload(p, log[i - 1]).Some?
                      && HexDecode(log[i].prevHash) == Some(p.sha256(Payload(p, log[i - 1]).value))
  {
    hide Accepts, NextMembers, Payload, Accepted, StateAt, HexDecode;
    EntryAt(p, log, i);
    AcceptedFacts(p, StateAt(p, log, i), log[i]);
    if i == 0 {
      EmptyStateAt(p, log);
      ZeroBytes(32);
    } else {
      EntryAt(p, log, i - 1);
      AcceptedFacts(p, StateAt(p, log, i - 1), log[i - 1]);
    }
  }

  lemma {:induction false} ZeroBytes(k: nat)
    ensures BigEndian(0, k) == seq(k, _ => 0)
  {
    if k > 0 {
      ZeroBytes(k - 1);
    }
  }

  // ---- all or nothing ----

  /** Rejecting an entry leaves the state unchanged, with one exception (shown to be real by
      Witnesses.PartialGenesisExists): a GENESIS that passes all checks, clashes with a member, and
      does not clash at its first subject. */
  lemma RejectedUnchanged(p: Primitives, st: St, e: Entry)
    requires !Accepts(p, st, e)
    ensures Rejected(p, st, e) == st <==>
            !(ChecksPass(p, st, e) && e.op.Genesis? && e.subjects[0].nodeId !in st.members)
  {
    hide Payload, HasPayload, Hash, HasKeys, Approved;
    if ChecksPass(p, st, e) && e.op.Genesis? {
      assert e.subjects != [] by { ChecksShape(p, st, e); }
      var n := InsertedBeforeClash(st.members, e.subjects);
      if n > 0 {
        assert e.subjects[0] in e.subjects[..n];
        assert e.subjects[0].nodeId in Named(e.subjects[..n]).Keys;
      } else {
        NamedNone(st.members, e.subjects);
      }
    }
  }

  /** In every reachable state the exception cannot occur: an error changes nothing. */
  lemma AllOrNothing(p: Primitives, log: seq<Entry>, e: Entry)
    requires Accepted(p, log) && |log| < TWO64
    requires !Accepts(p, Final(p, log), e)
    ensures Rejected(p, Final(p, log), e) == Final(p, log)
  {
    hide Payload, HasPayload, Hash, HasKeys, Approved;
    EmptyAtZero(p, log);
  }

  // ---- acceptance ----

  /** On an accepted entry the keys that count for members are the members' own: the key an ADD or
      GENESIS brings never stands in for a current member's. */
  lemma NoKeyOverride(p: Primitives, st: St, e: Entry, id: Text)
    requires Accepts(p, st, e) && id in st.members
    ensures id in Candidates(st, e) && Candidates(st, e)[id] == st.members[id]
    ensures id in e.approvals ==> Signed(p, st.members, e, id)
  {
    hide Accepts, Hash;
    AcceptedFacts(p, st, e);
    AcceptedSignatures(p, st, e);
  }

  /** Who signed an accepted entry: exactly the members after it for GENESIS and ADD; for REMOVE
      at least the members after it and at most the members before it, so the target's own valid
      signature is allowed but not needed. Every approval present verifies. */
  lemma ExactSigners(p: Primitives, log: seq<Entry>, e: Entry)
    requires Accepted(p, log) && |log| < TWO64
    requires Accepts(p, Final(p, log), e)
    ensures var before, after := Final(p, log).members, NextMembers(Final(p, log), e);
            if e.op.Remove? then
              && after.Keys <= e.approvals.Keys <= before.Keys
              && forall id :: id in e.approvals ==> Verified(p, before[id].identityPubkey, e, id)
            else
              && e.approvals.Keys == after.Keys
              && forall id :: id in e.approvals ==> Verified(p, after[id].identityPubkey, e, id)
  {
    hide Accepts, Hash, Signed, Verified, Payload, WellFormed;
    var st := Final(p, log);
    EmptyAtZero(p, log);
    AcceptedFacts(p, st, e);
    AcceptedSignatures(p, st, e);
    SignedAreCandidates(p, Candidates(st, e), e);
    WellFormedMembers(p, log);
    NextGoodMembers(p, st, e);
    var m := if e.op.Remove? then st.members else NextMembers(st, e);
    assert m == Candidates(st, e);
    forall id | id in e.approvals ensures Verified(p, m[id].identityPubkey, e, id) {
      GoodKey(p, m, id);
      SignedIsVerified(p, m, e, id);
    }
  }

  lemma GoodKey(p: Primitives, m: map<Text, Subject>, id: Text)
    requires GoodMembers(p, m) && id in m
    ensures Key32(p, m[id].identityPubkey).Some?
  {
  }

  lemma SignedAreCandidates(p: Primitives, m: map<Text, Subject>, e: Entry)
    requires forall id :: id in e.approvals ==> Signed(p, m, e, id)
    ensures e.approvals.Keys <= m.Keys
  {
    hide Hash;
    forall id | id in e.approvals ensures id in m {
      assert Signed(p, m, e, id);
    }
  }

  /** The target of an accepted REMOVE may add its own signature: the entry stays accepted exactly
      when that signature is valid. */
  lemma TargetMaySign(p: Primitives, st: St, e: Entry, target: Text, sig: Text)
    requires Accepts(p, st, e) && e.op.Remove? && target in Ids(Listed(e))
    ensures target in st.members
    ensures var f := e.(approvals := e.approvals[target := sig]);
            Accepts(p, st, f) <==> Verified(p, st.members[target].identityPubkey, f, target)
  {
    hide Payload, HasPayload, HasKeys, ValidSig, Hash;
    AcceptedFacts(p, st, e);
    var f := e.(approvals := e.approvals[target := sig]);
    UnsignedFields(p, e, f);
    SameHashBoth(p, e, f);
    assert Required(st, f) == Required(st, e) && Candidates(st, f) == Candidates(st, e) == st.members;
    forall id | id in e.approvals && id != target
      ensures Signed(p, st.members, e, id) && Signed(p, st.members, f, id)
    {
      assert Signed(p, Candidates(st, e), e, id);
    }
    assert target in f.approvals;
    AcceptedKeys(p, st, e);
    SignedIsVerified(p, st.members, f, target);
  }

  lemma SameHashBoth(p: Primitives, e: Entry, f: Entry)
    requires Payload(p, e) == Payload(p, f)
    ensures Hash(p, e) == Hash(p, f)
  {
    hide Payload;
  }

  // ---- genesis ----

  /** The order in which a genesis lists its subjects is immaterial: same payload and hash, same
      decision, same resulting state. A genesis with a repeated node id is always rejected. */
  lemma GenesisOrderIndependent(p: Primitives, st: St, e: Entry, f: Entry)
    requires e.op.Genesis? && f == e.(subjects := f.subjects)
    requires multiset(e.subjects) == multiset(f.subjects)
    requires DistinctKeys(NodeIdOf, e.subjects)
    ensures Payload(p, e) == Payload(p, f)
    ensures Accepts(p, st, e) <==> Accepts(p, st, f)
    ensures Accepts(p, st, e) ==> Next(p, st, e) == Next(p, st, f)
  {
    hide *;
    GenesisOrder(p, e, f);
    DistinctKeysPermuted(NodeIdOf, e.subjects, f.subjects);
    NamedPermuted(e.subjects, f.subjects);
    SameSubjects(p, st, e, f);
  }

  lemma SameSubjects(p: Primitives, st: St, e: Entry, f: Entry)
    requires e.op.Genesis? && f == e.(subjects := f.subjects)
    requires DistinctKeys(NodeIdOf, e.subjects) && DistinctKeys(NodeIdOf, f.subjects)
    requires Payload(p, e) == Payload(p, f) && Named(e.subjects) == Named(f.subjects)
    ensures Accepts(p, st, e) <==> Accepts(p, st, f)
    ensures Accepts(p, st, e) ==> Next(p, st, e) == Next(p, st, f)
  {
    hide Payload, HasKeys, Approved, Named, DistinctKeys, Signed;
    assert Ids(e.subjects) == Named(e.subjects).Keys == Ids(f.subjects);
    assert Listed(e) == e.subjects && Listed(f) == f.subjects;
    ApprovedAlike(p, st, e, f, Ids(e.subjects));
  }

  lemma ApprovedAlike(p: Primitives, st: St, e: Entry, f: Entry, req: set<Text>)
    requires Candidates(st, e) == Candidates(st, f) && e.approvals == f.approvals
    requires Hash(p, e) == Hash(p, f)
    ensures Approved(p, st, e, req) <==> Approved(p, st, f, req)
  {
    hide Hash, Candidates;
    assert forall id :: Signed(p, Candidates(st, e), e, id) <==> Signed(p, Candidates(st, f), f, id);
  }

  lemma DuplicateGenesisRejected(p: Primitives, st: St, e: Entry)
    requires e.op.Genesis? && !DistinctKeys(NodeIdOf, e.subjects)
    ensures !Accepts(p, st, e) && Rejected(p, st, e) == st
  {
    hide Payload, HasPayload, Hash, HasKeys, Approved;
  }

  lemma NamedAt(subs: seq<Subject>, s: Subject)
    requires DistinctKeys(NodeIdOf, subs) && s in subs
    ensures s.nodeId in Named(subs) && Named(subs)[s.nodeId] == s
  {
    hide Named;
    assert s.nodeId in Ids(subs);
    var t := Named(subs)[s.nodeId];
    var i :| 0 <= i < |subs| && subs[i] == s;
    var j :| 0 <= j < |subs| && subs[j] == t;
    assert i == j;
  }

  lemma NamedPermuted(a: seq<Subject>, b: seq<Subject>)
    requires DistinctKeys(NodeIdOf, a) && DistinctKeys(NodeIdOf, b)
    requires forall s :: s in a <==> s in b
    ensures Named(a) == Named(b)
  {
    hide Named, DistinctKeys;
    forall id | id in Named(a) ensures id in Named(b) && Named(b)[id] == Named(a)[id] {
      NamedAt(b, Named(a)[id]);
    }
    forall id | id in Named(b) ensures id in Named(a) {
      NamedAt(a, Named(b)[id]);
    }
  }

  // ---- stale proposals ----

  /** Once a log has an entry at seq k, no entry with seq <= k is accepted in it or in any
      extension of it. */
  lemma StaleStaysDead(p: Primitives, log: seq<Entry>, more: seq<Entry>, e: Entry)
    requires Accepted(p, log + more) && |log + more| < TWO64
    requires e.seqNo < |log|
    ensures !Accepts(p, Final(p, log + more), e)
    ensures Rejected(p, Final(p, log + more), e) == Final(p, log + more)
  {
    hide Payload, HasPayload, Hash, HasKeys, Approved;
    EmptyAtZero(p, log + more);
  }
}
