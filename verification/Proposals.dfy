/** What the propose commands build and when they refuse, in terms of the subject's fields and the
    members; and what their overlay test achieves. */
module Proposals {
  import opened Bytes
  import opened Entries
  import opened States
  import opened Runs
  import opened Commands
  import opened Acceptance
  import Layout

  /** Two key fields that decode to 32 bytes, and an overlay that parses. */
  ghost predicate FieldsParse(p: Primitives, s: Subject) {
    KeyDecodes(p, s.identityPubkey) && KeyDecodes(p, s.wgPubkey) && p.prefixHost(s.overlayIp).Some?
  }

  /** The entry extends st, is about exactly these subjects, and nobody has signed it yet. */
  ghost predicate Extends(st: St, e: Entry) {
    e.seqNo == st.nextSeq && HexDecode(e.prevHash) == Some(st.prevHash) && e.approvals == map[]
  }

  lemma HashNeedsPayload(p: Primitives, e: Entry)
    ensures Hash(p, e).Some? <==> Payload(p, e).Some?
  {
    hide Payload;
  }

  /** propose-add and propose-self-add save exactly a subject with no empty required field, whose
      node id is new, whose overlay text no member has, and whose fields parse; the entry is an ADD
      of that very subject on top of the ledger. */
  lemma ProposedAddWhen(p: Primitives, st: St, s: Subject)
    ensures ProposedAdd(p, st, s).Some? <==>
            && |s.nodeId| > 0 && |s.identityPubkey| > 0 && |s.wgPubkey| > 0 && |s.overlayIp| > 0
            && s.nodeId !in st.members
            && (forall id :: id in st.members ==> st.members[id].overlayIp != s.overlayIp)
            && FieldsParse(p, s)
    ensures ProposedAdd(p, st, s).Some? ==>
              var e := ProposedAdd(p, st, s).value;
              Extends(st, e) && e.op.Add? && e.subject == Some(s) && e.subjects == []
  {
    hide HexDecode, HexEncode, Payload, Hash;
    HexRoundTrip(st.prevHash);
    HashNeedsPayload(p, AddEntry(st, s));
    Layout.PayloadExists(p, AddEntry(st, s));
  }

  /** The genesis command saves exactly a non-empty list of subjects whose fields parse, on an empty
      ledger; distinct ids and distinct overlays are not asked for. */
  lemma ProposedGenesisWhen(p: Primitives, st: St, subs: seq<Subject>)
    ensures ProposedGenesis(p, st, subs).Some? <==>
            st.nextSeq == 0 && |subs| > 0 && forall s :: s in subs ==> |s.nodeId| > 0 && FieldsParse(p, s)
    ensures ProposedGenesis(p, st, subs).Some? ==>
              var e := ProposedGenesis(p, st, subs).value;
              && e.seqNo == 0 && HexDecode(e.prevHash) == Some(seq(32, _ => 0)) && e.approvals == map[]
              && e.op.Genesis? && e.subject == None && e.subjects == subs
  {
    hide HexDecode, Payload, Hash, ZeroHash;
    ZeroHashDecodes();
    ZeroBytes(32);
    HashNeedsPayload(p, GenesisEntry(subs));
    Layout.PayloadExists(p, GenesisEntry(subs));
  }

  /** propose-remove saves exactly for a member, a REMOVE of that member's subject. */
  lemma ProposedRemoveWhen(st: St, id: Text)
    ensures ProposedRemove(st, id).Some? <==> id in st.members
    ensures ProposedRemove(st, id).Some? ==>
              var e := ProposedRemove(st, id).value;
              Extends(st, e) && e.op.Remove? && e.subject == Some(st.members[id]) && e.subjects == []
  {
    HexRoundTrip(st.prevHash);
  }

  // ---- overlay texts ----

  /** No two members have the same overlay text. */
  ghost predicate DistinctTexts(m: map<Text, Subject>) {
    forall a, b :: a in m && b in m && m[a].overlayIp == m[b].overlayIp ==> a == b
  }

  /** An accepted ADD keeps overlay texts distinct exactly when no member has its overlay text. */
  lemma AddKeepsTexts(p: Primitives, st: St, e: Entry)
    requires Accepts(p, st, e) && e.op.Add? && DistinctTexts(st.members)
    ensures e.subject.Some?
    ensures DistinctTexts(NextMembers(st, e)) <==>
            forall id :: id in st.members ==> st.members[id].overlayIp != e.subject.value.overlayIp
  {
    hide Accepts, NextMembers;
    AcceptedFacts(p, st, e);
    AppliedState(p, st, e);
    NextIs(p, st, e);
    NewId(st, e);
    var s, next := e.subject.value, NextMembers(st, e);
    assert next == st.members[s.nodeId := s];
    if DistinctTexts(next) {
      forall id | id in st.members ensures st.members[id].overlayIp != s.overlayIp {
        assert next[id] == st.members[id] && next[s.nodeId] == s;
      }
    }
  }

  lemma NextIs(p: Primitives, st: St, e: Entry)
    requires Payload(p, e).Some?
    ensures Next(p, st, e).members == NextMembers(st, e)
  {
  }

  lemma NewId(st: St, e: Entry)
    requires e.op.Add? && e.subject.Some? && Ids(Listed(e)) !! st.members.Keys
    ensures e.subject.value.nodeId !in st.members
  {
    assert e.subject.value in Listed(e);
  }

  lemma OtherEntriesKeepTexts(p: Primitives, st: St, e: Entry)
    requires Accepts(p, st, e) && !e.op.Add? && DistinctTexts(st.members) && (e.op.Genesis? ==> st.members == map[])
    requires forall i, j :: 0 <= i < j < |e.subjects| ==> e.subjects[i].overlayIp != e.subjects[j].overlayIp
    ensures DistinctTexts(NextMembers(st, e))
  {
    hide Accepts, NextMembers, DistinctTexts, Next;
    AcceptedFacts(p, st, e);
    AppliedState(p, st, e);
    NextIs(p, st, e);
    if e.op.Genesis? {
      FoundersHaveDistinctTexts(e.subjects, NextMembers(st, e));
    } else {
      FewerTexts(st.members, NextMembers(st, e), e.subject.value.nodeId);
    }
  }

  lemma FewerTexts(m: map<Text, Subject>, next: map<Text, Subject>, id: Text)
    requires DistinctTexts(m) && next == m - {id}
    ensures DistinctTexts(next)
  {
  }

  lemma FoundersHaveDistinctTexts(subs: seq<Subject>, m: map<Text, Subject>)
    requires forall i, j :: 0 <= i < j < |subs| ==> subs[i].overlayIp != subs[j].overlayIp
    requires forall s :: s in subs ==> s.nodeId in m && m[s.nodeId] == s
    requires forall id :: id in m ==> exists s :: s in subs && s.nodeId == id
    ensures DistinctTexts(m)
  {
    forall a, b | a in m && b in m && m[a].overlayIp == m[b].overlayIp ensures a == b {
      var s :| s in subs && s.nodeId == a;
      var t :| t in subs && t.nodeId == b;
      var i :| 0 <= i < |subs| && subs[i] == s;
      var j :| 0 <= j < |subs| && subs[j] == t;
    }
  }

  /** What the overlay test of propose-add is for: in a ledger whose ADDs were all built by the propose
      commands on the state they were then applied to, and whose genesis lists distinct overlay texts,
      no two members ever have the same overlay text. */
  lemma {:induction false} ProposedLedgerHasDistinctTexts(p: Primitives, log: seq<Entry>, n: nat)
    requires Accepted(p, log) && |log| < TWO64 && n <= |log|
    requires forall i :: 0 <= i < |log| && log[i].op.Add? ==>
               log[i].subject.Some? && ProposedAdd(p, StateAt(p, log, i), log[i].subject.value).Some?
    requires forall k, i, j :: 0 <= k < |log| && 0 <= i < j < |log[k].subjects| ==>
               log[k].subjects[i].overlayIp != log[k].subjects[j].overlayIp
    ensures DistinctTexts(StateAt(p, log, n).members)
  {
    hide Accepts, NextMembers, StateAt, Accepted, ProposedAdd, DistinctTexts;
    if n == 0 {
      EmptyStateAt(p, log);
      NoTexts();
    } else {
      var k := n - 1;
      var st, e := StateAt(p, log, k), log[k];
      ProposedLedgerHasDistinctTexts(p, log, k);
      EntryAt(p, log, k);
      SeqIsIndex(p, log, k);
      EmptyStateAt(p, log);
      if e.op.Add? {
        ProposedAddWhen(p, st, e.subject.value);
        AddKeepsTexts(p, st, e);
      } else {
        OtherEntriesKeepTexts(p, st, e);
      }
    }
  }

  lemma NoTexts()
    ensures DistinctTexts(map[])
  {
  }
}
