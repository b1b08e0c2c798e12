/** What Apply accepts and what it leaves behind, said a second time without the specification
    functions of module States: in terms of an entry's own fields, the library primitives and the
    canonical payload. The two definitions are proved equal for every state and every entry. */
module Acceptance {
  import opened Bytes
  import opened Sorting
  import opened Entries
  import opened States
  import opened Runs

  /** A key text that base64 decodes to 32 bytes. */
  predicate KeyDecodes(p: Primitives, keyText: Text) {
    p.b64Decode(keyText).Some? && |p.b64Decode(keyText).value| == 32
  }

  /** Member id's own approval of e, verified under its key. */
  ghost predicate MemberSigned(p: Primitives, st: St, e: Entry, id: Text)
    requires id in st.members
  {
    Verified(p, st.members[id].identityPubkey, e, id)
  }

  ghost predicate AcceptableGenesis(p: Primitives, st: St, e: Entry) {
    && st.nextSeq == 0
    && (forall i, j :: 0 <= i < j < |e.subjects| ==> e.subjects[i].nodeId != e.subjects[j].nodeId)
    && (forall s :: s in e.subjects ==> s.nodeId !in st.members && Verified(p, s.identityPubkey, e, s.nodeId))
    && forall id :: id in e.approvals ==>
         if id in st.members then MemberSigned(p, st, e, id) else exists s :: s in e.subjects && s.nodeId == id
  }

  ghost predicate AcceptableAdd(p: Primitives, st: St, e: Entry, s: Subject) {
    && s.nodeId !in st.members
    && e.approvals.Keys == st.members.Keys + {s.nodeId}
    && Verified(p, s.identityPubkey, e, s.nodeId)
    && forall id :: id in st.members ==> MemberSigned(p, st, e, id)
  }

  ghost predicate AcceptableRemove(p: Primitives, st: St, e: Entry, target: Text) {
    && target in st.members
    && st.members.Keys - {target} <= e.approvals.Keys <= st.members.Keys
    && forall id :: id in e.approvals && id in st.members ==> MemberSigned(p, st, e, id)
  }

  /** The entry continues the log; everybody who is a member after it has signed it, and nobody
      else, except that the target of a REMOVE may sign too. */
  ghost predicate Acceptable(p: Primitives, st: St, e: Entry) {
    && e.seqNo == st.nextSeq && HexDecode(e.prevHash) == Some(st.prevHash)
    && Payload(p, e).Some?
    && (forall id :: id in st.members ==> KeyDecodes(p, st.members[id].identityPubkey))
    && match e.op
       case Genesis => AcceptableGenesis(p, st, e)
       case Add => e.subject.Some? && AcceptableAdd(p, st, e, e.subject.value)
       case Remove => e.subject.Some? && AcceptableRemove(p, st, e, e.subject.value.nodeId)
       case Unknown(_) => false
  }

  lemma KeyMeans(p: Primitives, t: Text)
    ensures Key32(p, t).Some? <==> KeyDecodes(p, t)
  {
  }

  lemma KeysMean(p: Primitives, m: map<Text, Subject>)
    ensures HasKeys(p, m) <==> forall id :: id in m ==> KeyDecodes(p, m[id].identityPubkey)
  {
    hide Key32, KeyDecodes;
    forall t ensures Key32(p, t).Some? <==> KeyDecodes(p, t) {
      KeyMeans(p, t);
    }
  }

  lemma CandidatesHaveKeys(p: Primitives, st: St, e: Entry)
    requires Payload(p, e).Some? && HasKeys(p, st.members)
    ensures HasKeys(p, Candidates(st, e))
  {
    hide Candidates, HexDecode, Key32;
    forall id | id in Candidates(st, e) ensures Key32(p, Candidates(st, e)[id].identityPubkey).Some? {
      CandidateSubject(st, e, id);
    }
  }

  lemma ApprovedMeans(p: Primitives, st: St, e: Entry, req: set<Text>)
    requires HasKeys(p, Candidates(st, e))
    ensures Approved(p, st, e, req) <==>
            && req <= e.approvals.Keys <= Candidates(st, e).Keys
            && forall id :: id in e.approvals && id in Candidates(st, e) ==>
                 Verified(p, Candidates(st, e)[id].identityPubkey, e, id)
  {
    hide Signed, Verified, Candidates;
    var m := Candidates(st, e);
    forall id ensures Signed(p, m, e, id) ==> id in m {
      NotCandidate(p, m, e, id);
    }
    forall id | id in m ensures Signed(p, m, e, id) <==> Verified(p, m[id].identityPubkey, e, id) {
      SignedIsVerified(p, m, e, id);
    }
  }

  lemma NotCandidate(p: Primitives, m: map<Text, Subject>, e: Entry, id: Text)
    ensures Signed(p, m, e, id) ==> id in m && id in e.approvals
  {
    hide Hash, ValidSig;
  }

  lemma AddMeans(p: Primitives, st: St, e: Entry, s: Subject)
    requires e.op.Add? && e.subject == Some(s) && Payload(p, e).Some? && HasKeys(p, st.members)
    ensures AcceptableAdd(p, st, e, s) <==>
            NoClash(st, e) && Approved(p, st, e, st.members.Keys + {s.nodeId})
  {
    hide Verified, Payload, HasKeys, Approved, Named;
    CandidatesHaveKeys(p, st, e);
    ApprovedMeans(p, st, e, st.members.Keys + {s.nodeId});
    NamedOne(st.members, s);
    assert Listed(e) == [s];
    assert Candidates(st, e) == st.members[s.nodeId := s];
    var m := st.members[s.nodeId := s];
    assert m.Keys == st.members.Keys + {s.nodeId};
    if s.nodeId !in st.members {
      assert forall id :: id in st.members ==> m[id] == st.members[id];
      if AcceptableAdd(p, st, e, s) {
        forall id | id in e.approvals ensures Verified(p, m[id].identityPubkey, e, id) {
          assert id in st.members ==> MemberSigned(p, st, e, id);
        }
      }
    }
  }

  lemma RemoveMeans(p: Primitives, st: St, e: Entry, target: Text)
    requires e.op.Remove? && HasKeys(p, st.members) && target in st.members
    ensures AcceptableRemove(p, st, e, target) <==> Approved(p, st, e, st.members.Keys - {target})
  {
    hide Verified, HasKeys, Approved;
    assert Candidates(st, e) == st.members;
    ApprovedMeans(p, st, e, st.members.Keys - {target});
  }

  lemma GenesisMeans(p: Primitives, st: St, e: Entry)
    requires e.op.Genesis? && st.nextSeq == 0 && Payload(p, e).Some? && HasKeys(p, st.members)
    requires DistinctKeys(NodeIdOf, e.subjects)
    ensures AcceptableGenesis(p, st, e) <==> NoClash(st, e) && Approved(p, st, e, Ids(e.subjects))
  {
    hide Verified, Payload, HasKeys, Approved, Named, DistinctKeys;
    var m, subs := Candidates(st, e), e.subjects;
    CandidatesHaveKeys(p, st, e);
    ApprovedMeans(p, st, e, Ids(subs));
    assert Listed(e) == subs && m == st.members + Named(subs);
    forall s | s in subs ensures s.nodeId in m && m[s.nodeId] == s && s.nodeId in Ids(subs) {
      NamedAt(subs, s);
    }
    forall id | id in m && id !in Ids(subs) ensures id in st.members && m[id] == st.members[id] {
    }
    assert AcceptableGenesis(p, st, e) ==> Ids(subs) !! st.members.Keys;
    DistinctIds(subs);
    if AcceptableGenesis(p, st, e) {
      forall s | s in subs ensures s.nodeId in e.approvals {
        VerifiedApproval(p, s.identityPubkey, e, s.nodeId);
      }
      forall id | id in e.approvals ensures id in m && Verified(p, m[id].identityPubkey, e, id) {
        if id in st.members {
          assert MemberSigned(p, st, e, id);
        } else {
          var s :| s in subs && s.nodeId == id;
        }
      }
    }
    if NoClash(st, e) && Approved(p, st, e, Ids(subs)) {
      forall id | id in e.approvals
        ensures if id in st.members then MemberSigned(p, st, e, id) else exists s :: s in subs && s.nodeId == id
      {
        if id !in st.members {
          assert id in Ids(subs);
        } else {
          assert id !in Ids(subs);
        }
      }
      forall s | s in subs ensures s.nodeId !in st.members && Verified(p, s.identityPubkey, e, s.nodeId) {
        assert s.nodeId in Ids(subs) && s.nodeId in e.approvals && m[s.nodeId] == s;
      }
    }
  }

  lemma VerifiedApproval(p: Primitives, keyText: Text, e: Entry, id: Text)
    ensures Verified(p, keyText, e, id) ==> id in e.approvals
  {
  }

  lemma DistinctIds(subs: seq<Subject>)
    ensures DistinctKeys(NodeIdOf, subs) <==>
            forall i, j :: 0 <= i < j < |subs| ==> subs[i].nodeId != subs[j].nodeId
  {
    if forall i, j :: 0 <= i < j < |subs| ==> subs[i].nodeId != subs[j].nodeId {
      assert forall i, j :: 0 <= i < j < |subs| ==> NodeIdOf(subs[i]) != NodeIdOf(subs[j]);
    }
    if DistinctKeys(NodeIdOf, subs) {
      forall i, j | 0 <= i < j < |subs| ensures subs[i].nodeId != subs[j].nodeId {
        assert NodeIdOf(subs[i]) != NodeIdOf(subs[j]);
      }
    }
  }

  /** Apply accepts exactly the acceptable entries, in every state. */
  lemma AcceptsExactly(p: Primitives, st: St, e: Entry)
    ensures Accepts(p, st, e) <==> Acceptable(p, st, e)
  {
    hide Payload, HasKeys, KeyDecodes, Approved, AcceptableAdd, AcceptableRemove, AcceptableGenesis, DistinctKeys, Ids,
         HexDecode, Listed;
    KeysMean(p, st.members);
    if Payload(p, e).Some? && HasKeys(p, st.members) {
      match e.op
      case Genesis =>
        DistinctIds(e.subjects);
        GenesisNeeds(p, st, e);
        if st.nextSeq == 0 && DistinctKeys(NodeIdOf, e.subjects) { GenesisMeans(p, st, e); }
      case Add =>
        if e.subject.Some? { AddMeans(p, st, e, e.subject.value); }
      case Remove =>
        if e.subject.Some? {
          RemoveNeeds(p, st, e, e.subject.value.nodeId);
          if e.subject.value.nodeId in st.members { RemoveMeans(p, st, e, e.subject.value.nodeId); }
        }
      case Unknown(_) =>
    }
  }

  lemma GenesisNeeds(p: Primitives, st: St, e: Entry)
    ensures AcceptableGenesis(p, st, e) ==> st.nextSeq == 0 && DistinctKeys(NodeIdOf, e.subjects)
  {
    hide DistinctKeys, Verified;
    DistinctIds(e.subjects);
  }

  lemma RemoveNeeds(p: Primitives, st: St, e: Entry, target: Text)
    ensures AcceptableRemove(p, st, e, target) ==> target in st.members
  {
  }

  /** The state after an accepted entry: GENESIS and ADD bring in their subjects as listed, REMOVE
      takes out its target, nothing else changes; the sequence number grows by one, and the tip is
      the digest of the payload. */
  lemma AppliedState(p: Primitives, st: St, e: Entry)
    requires Accepts(p, st, e)
    ensures Payload(p, e).Some?
    ensures var st' := Next(p, st, e);
            && st'.nextSeq == (if st.nextSeq == 0xFFFF_FFFF_FFFF_FFFF then 0 else st.nextSeq + 1)
            && st'.prevHash == p.sha256(Payload(p, e).value)
            && (e.op.Add? ==> e.subject.Some? && st'.members == st.members[e.subject.value.nodeId := e.subject.value])
            && (e.op.Remove? ==> e.subject.Some? && st'.members == st.members - {e.subject.value.nodeId})
            && (e.op.Genesis? ==>
                  && (forall s :: s in e.subjects ==> s.nodeId in st'.members && st'.members[s.nodeId] == s)
                  && (forall id :: id in st.members ==> id in st'.members && st'.members[id] == st.members[id])
                  && (forall id :: id in st'.members && id !in st.members ==>
                        exists s :: s in e.subjects && s.nodeId == id))
  {
    hide Accepts, Payload, Named, DistinctKeys;
    AcceptedFacts(p, st, e);
    if e.op.Genesis? {
      assert Listed(e) == e.subjects;
      forall s | s in e.subjects ensures s.nodeId in Named(e.subjects) && Named(e.subjects)[s.nodeId] == s {
        NamedAt(e.subjects, s);
      }
    } else {
      NamedOne(st.members, e.subject.value);
    }
  }

  /** In every reachable state each member stands under its own non-empty node id, both its keys
      decode to 32 bytes, and its overlay parses. */
  lemma ReachableMember(p: Primitives, log: seq<Entry>, id: Text)
    requires Accepted(p, log) && id in Final(p, log).members
    ensures var s := Final(p, log).members[id];
            && s.nodeId == id && |id| > 0
            && KeyDecodes(p, s.identityPubkey) && KeyDecodes(p, s.wgPubkey)
            && p.prefixHost(s.overlayIp).Some?
  {
    hide Accepted, Final;
    WellFormedMembers(p, log);
  }
}
