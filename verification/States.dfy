/** The replicated membership state and the N-of-N rule (internal/ledger/state.go). */
module States {
  import opened Bytes
  import opened Sorting
  import opened Entries

  /** The value of a State object. */
  datatype St = St(members: map<Text, Subject>, nextSeq: uint64, prevHash: Bytes32)

  function Init(): St { St(map[], 0, Zero32()) }

  // ---- specification ----

  function Ids(subs: seq<Subject>): set<Text> {
    set s | s in subs :: s.nodeId
  }

  /** Subjects by node id; a later one replaces an earlier one. */
  function Named(subs: seq<Subject>): (m: map<Text, Subject>)
    ensures m.Keys == Ids(subs)
    ensures forall id :: id in m ==> m[id] in subs && m[id].nodeId == id
  {
    if subs == [] then map[]
    else
      var init, last := subs[..|subs| - 1], subs[|subs| - 1];
      assert subs == init + [last];
      Named(init)[last.nodeId := last]
  }

  /** The node ids that must sign, where the entry is in order. */
  ghost function Required(st: St, e: Entry): Option<set<Text>> {
    match e.op
    case Genesis =>
      if st.nextSeq == 0 && DistinctKeys(NodeIdOf, e.subjects) then Some(Ids(e.subjects)) else None
    case Add =>
      if e.subject.Some? then Some(st.members.Keys + {e.subject.value.nodeId}) else None
    case Remove =>
      if e.subject.Some? && e.subject.value.nodeId in st.members
      then Some(st.members.Keys - {e.subject.value.nodeId}) else None
    case Unknown(_) => None
  }

  ghost function Missing(st: St, e: Entry): Option<seq<Text>> {
    match Required(st, e)
    case None => None
    case Some(req) => Some(Ascending(req - e.approvals.Keys))
  }

  /** Whose signature counts, and under which subject's key: the members, and for GENESIS and ADD
      the entry's own subjects, which take precedence. */
  function Candidates(st: St, e: Entry): map<Text, Subject> {
    if e.op.Remove? then st.members else st.members + Named(Listed(e))
  }

  function KeysOf(p: Primitives, m: map<Text, Subject>): map<Text, Bytes32> {
    map id | id in m :: KeyBytes(p, m[id].identityPubkey)
  }

  ghost predicate HasKeys(p: Primitives, m: map<Text, Subject>) {
    forall id :: id in m ==> Key32(p, m[id].identityPubkey).Some?
  }

  predicate ValidSig(p: Primitives, key: Bytes32, msg: Bytes, sigText: Text) {
    var sig := p.b64Decode(sigText);
    sig.Some? && |sig.value| == 64 && p.edVerify(key, msg, sig.value)
  }

  /** id's approval of e is present and verifies under its key in m. */
  ghost predicate Signed(p: Primitives, m: map<Text, Subject>, e: Entry, id: Text) {
    && id in e.approvals && id in m && Hash(p, e).Some?
    && ValidSig(p, KeyBytes(p, m[id].identityPubkey), Hash(p, e).value, e.approvals[id])
  }

  /** What a signature means: e carries an approval by id that is base64 of 64 bytes, and Ed25519
      accepts them for the SHA-256 digest of e's payload under the 32 bytes that keyText encodes. */
  ghost predicate Verified(p: Primitives, keyText: Text, e: Entry, id: Text) {
    && id in e.approvals && Payload(p, e).Some?
    && match (p.b64Decode(keyText), p.b64Decode(e.approvals[id]))
       case (Some(key), Some(sig)) =>
         |key| == 32 && |sig| == 64 && p.edVerify(key, p.sha256(Payload(p, e).value), sig)
       case _ => false
  }

  /** Every required approver has signed, and every approval present is a candidate's and verifies. */
  ghost predicate Approved(p: Primitives, st: St, e: Entry, req: set<Text>) {
    && (forall id :: id in req ==> id in e.approvals)
    && (forall id :: id in e.approvals ==> Signed(p, Candidates(st, e), e, id))
  }

  /** All checks that precede the update. */
  ghost predicate ChecksPass(p: Primitives, st: St, e: Entry) {
    && e.seqNo == st.nextSeq
    && HexDecode(e.prevHash) == Some(st.prevHash)
    && Payload(p, e).Some?
    && Required(st, e).Some?
    && HasKeys(p, st.members)
    && Approved(p, st, e, Required(st, e).value)
  }

  predicate NoClash(st: St, e: Entry) {
    e.op.Remove? || Ids(Listed(e)) !! st.members.Keys
  }

  /** Exactly the entries Apply accepts. */
  ghost predicate Accepts(p: Primitives, st: St, e: Entry) {
    ChecksPass(p, st, e) && NoClash(st, e)
  }

  function NextMembers(st: St, e: Entry): map<Text, Subject> {
    if e.op.Remove? then st.members - Ids(Listed(e)) else st.members + Named(Listed(e))
  }

  ghost function Next(p: Primitives, st: St, e: Entry): St
    requires Payload(p, e).Some?
  {
    St(NextMembers(st, e), (st.nextSeq + 1) % TWO64, Hash(p, e).value)
  }

  /** How many genesis subjects are inserted before one that is already a member. */
  function InsertedBeforeClash(members: map<Text, Subject>, subs: seq<Subject>): (n: nat)
    ensures n <= |subs|
  {
    if subs == [] || subs[0].nodeId in members then 0
    else 1 + InsertedBeforeClash(members, subs[1..])
  }

  /** The state a rejected entry leaves behind: the old one, except that a GENESIS that clashes
      with a member has inserted the subjects before the clash. */
  ghost function Rejected(p: Primitives, st: St, e: Entry): St {
    if ChecksPass(p, st, e) && e.op.Genesis? then
      var n := InsertedBeforeClash(st.members, e.subjects);
      st.(members := st.members + Named(e.subjects[..n]))
    else st
  }

  ghost function Step(p: Primitives, st: St, e: Entry): Option<St> {
    if Accepts(p, st, e) then Some(Next(p, st, e)) else None
  }

  // ---- the code ----

  method DecodeEdPub(p: Primitives, b64: Text) returns (r: Option<Bytes32>)
    ensures r == Key32(p, b64)
  {
    var b := p.b64Decode(b64);
    if b.None? { return None; }
    if |b.value| != 32 { return None; }
    return Some(b.value);
  }

  method VerifySig(p: Primitives, key: Bytes32, msg: Bytes, sigText: Text) returns (ok: bool)
    ensures ok == ValidSig(p, key, msg, sigText)
  {
    var sig := p.b64Decode(sigText);
    if sig.None? { return false; }
    if |sig.value| != 64 { return false; }
    return p.edVerify(key, msg, sig.value);
  }

  /** The loops range over Go maps, whose iteration order is arbitrary: each picks any element
      that is left. */
  class State {
    const p: Primitives
    var members: map<Text, Subject>
    var nextSeq: uint64
    var prevHash: Bytes32

    ghost function Value(): St
      reads this
    {
      St(members, nextSeq, prevHash)
    }

    constructor (p: Primitives)
      ensures Value() == Init() && this.p == p
    {
      this.p := p;
      members, nextSeq, prevHash := map[], 0, Zero32();
    }

    method MemberIDs() returns (ids: seq<Text>)
      ensures ids == Ascending(members.Keys)
    {
      ids := [];
      var todo := members.Keys;
      while todo != {}
        invariant todo <= members.Keys
        invariant forall x :: x in ids <==> x in members.Keys - todo
        invariant DistinctKeys(Self, ids)
      {
        var id :| id in todo;
        todo := todo - {id};
        DistinctSnoc(ids, id);
        ids := ids + [id];
      }
      ids := SortStrings(ids, members.Keys);
    }

    method MemberByOverlayIP(ip: Text) returns (r: Text)
      ensures (r in members && members[r].overlayIp == ip)
           || (r == [] && forall id :: id in members ==> members[id].overlayIp != ip)
    {
      var todo := members.Keys;
      while todo != {}
        invariant todo <= members.Keys
        invariant forall id :: id in members && id !in todo ==> members[id].overlayIp != ip
      {
        var id :| id in todo;
        todo := todo - {id};
        if members[id].overlayIp == ip { return id; }
      }
      return [];
    }

    method RequiredApprovers(e: Entry) returns (r: Option<set<Text>>)
      ensures r == Required(Value(), e)
    {
      match e.op
      case Genesis =>
        if nextSeq != 0 { return None; }
        var req: set<Text> := {};
        for i := 0 to |e.subjects|
          invariant req == Ids(e.subjects[..i])
          invariant DistinctKeys(NodeIdOf, e.subjects[..i])
        {
          var id := e.subjects[i].nodeId;
          assert e.subjects[..i + 1] == e.subjects[..i] + [e.subjects[i]];
          if id in req {
            var s :| s in e.subjects[..i] && s.nodeId == id;
            var j :| 0 <= j < i && e.subjects[j] == s;
            assert NodeIdOf(e.subjects[j]) == NodeIdOf(e.subjects[i]);
            return None;
          }
          forall j | 0 <= j < i ensures NodeIdOf(e.subjects[j]) != id {
            assert e.subjects[j] in e.subjects[..i];
          }
          req := req + {id};
        }
        assert e.subjects[..|e.subjects|] == e.subjects;
        return Some(req);
      case Add =>
        if e.subject.None? { return None; }
        var req: set<Text> := {};
        var todo := members.Keys;
        while todo != {}
          invariant todo <= members.Keys
          invariant req == members.Keys - todo
        {
          var id :| id in todo;
          todo := todo - {id};
          req := req + {id};
        }
        assert req == members.Keys;
        return Some(req + {e.subject.value.nodeId});
      case Remove =>
        if e.subject.None? { return None; }
        var target := e.subject.value.nodeId;
        if target !in members { return None; }
        var req: set<Text> := {};
        var todo := members.Keys;
        while todo != {}
          invariant todo <= members.Keys
          invariant req == members.Keys - todo - {target}
        {
          var id :| id in todo;
          todo := todo - {id};
          if id != target {
            req := req + {id};
          }
        }
        assert req == members.Keys - {target};
        return Some(req);
      case Unknown(_) =>
        return None;
    }

    method MissingApprovers(e: Entry) returns (r: Option<seq<Text>>)
      ensures r == Missing(Value(), e)
    {
      var req := RequiredApprovers(e);
      if req.None? { return None; }
      var miss: seq<Text> := [];
      var todo := req.value;
      while todo != {}
        invariant todo <= req.value
        invariant forall x :: x in miss <==> x in req.value - e.approvals.Keys - todo
        invariant DistinctKeys(Self, miss)
      {
        var id :| id in todo;
        todo := todo - {id};
        if id !in e.approvals {
          DistinctSnoc(miss, id);
          miss := miss + [id];
        }
      }
      miss := SortStrings(miss, req.value - e.approvals.Keys);
      return Some(miss);
    }

    method MemberKeys() returns (r: Option<map<Text, Bytes32>>)
      ensures r == if HasKeys(p, members) then Some(KeysOf(p, members)) else None
    {
      var pks: map<Text, Bytes32> := map[];
      var todo := members.Keys;
      while todo != {}
        invariant todo <= members.Keys
        invariant pks.Keys == members.Keys - todo
        invariant forall id :: id in pks ==> Key32(p, members[id].identityPubkey) == Some(pks[id])
      {
        var id :| id in todo;
        todo := todo - {id};
        var pk := DecodeEdPub(p, members[id].identityPubkey);
        if pk.None? { return None; }
        pks := pks[id := pk.value];
      }
      assert pks == KeysOf(p, members);
      return Some(pks);
    }

    /** The GENESIS case of pubkeysForVerify. */
    method GenesisKeys(start: map<Text, Bytes32>, subs: seq<Subject>) returns (r: Option<map<Text, Bytes32>>)
      requires start == KeysOf(p, members)
      ensures r == if forall s :: s in subs ==> Key32(p, s.identityPubkey).Some?
                   then Some(KeysOf(p, members + Named(subs))) else None
    {
      hide KeysOf, Named, Key32;
      var pks := start;
      NamedNone(members, subs);
      for i := 0 to |subs|
        invariant forall j :: 0 <= j < i ==> Key32(p, subs[j].identityPubkey).Some?
        invariant pks == KeysOf(p, members + Named(subs[..i]))
      {
        var pk := DecodeEdPub(p, subs[i].identityPubkey);
        if pk.None? { return None; }
        NamedSnoc(members, subs, i);
        KeysOfUpdate(p, members + Named(subs[..i]), subs[i]);
        pks := pks[subs[i].nodeId := pk.value];
      }
      assert subs[..|subs|] == subs;
      return Some(pks);
    }

    /** Apply calls this only once the entry has a hash, so an ADD has its subject. */
    method PubkeysForVerify(e: Entry) returns (r: Option<map<Text, Bytes32>>)
      requires e.op.Add? ==> e.subject.Some?
      ensures r == if HasKeys(p, members)
                      && (e.op.Genesis? || e.op.Add? ==>
                            forall s :: s in Listed(e) ==> Key32(p, s.identityPubkey).Some?)
                   then Some(KeysOf(p, if e.op.Genesis? || e.op.Add?
                                       then members + Named(Listed(e)) else members))
                   else None
    {
      hide KeysOf, Named, Key32;
      var start := MemberKeys();
      if start.None? { return None; }
      var pks := start.value;
      match e.op
      case Genesis =>
        r := GenesisKeys(pks, e.subjects);
      case Add =>
        var s := e.subject.value;
        var pk := DecodeEdPub(p, s.identityPubkey);
        if pk.None? {
          assert s in Listed(e);
          return None;
        }
        NamedOne(members, s);
        KeysOfUpdate(p, members, s);
        return Some(pks[s.nodeId := pk.value]);
      case Remove =>
        return Some(pks);
      case Unknown(_) =>
        return Some(pks);
    }

    /** The two verification loops of Apply: every required approval, then every extra one. */
    method CheckApprovals(e: Entry, h: Bytes32, req: set<Text>, pks: map<Text, Bytes32>)
      returns (ok: bool)
      requires Hash(p, e) == Some(h) && pks == KeysOf(p, Candidates(Value(), e))
      requires req <= pks.Keys
      ensures ok <==> Approved(p, Value(), e, req)
    {
      hide Hash;
      ghost var cand := Candidates(Value(), e);
      var todo := req;
      while todo != {}
        invariant todo <= req
        invariant forall id :: id in req && id !in todo ==> Signed(p, cand, e, id)
      {
        var id :| id in todo;
        todo := todo - {id};
        if id !in e.approvals { return false; }
        var valid := VerifySig(p, pks[id], h, e.approvals[id]);
        if !valid {
          assert !Signed(p, cand, e, id);
          return false;
        }
      }
      todo := e.approvals.Keys;
      while todo != {}
        invariant todo <= e.approvals.Keys
        invariant forall id :: id in e.approvals && id !in todo ==> Signed(p, cand, e, id)
      {
        var id :| id in todo;
        todo := todo - {id};
        if id in req { continue; }
        if id !in pks {
          assert !Signed(p, cand, e, id);
          return false;
        }
        var valid := VerifySig(p, pks[id], h, e.approvals[id]);
        if !valid {
          assert !Signed(p, cand, e, id);
          return false;
        }
      }
      return true;
    }

    /** The genesis insert loop of Apply, which returns midway at a node id already present. */
    method InsertSubjects(subs: seq<Subject>) returns (ok: bool)
      requires DistinctKeys(NodeIdOf, subs)
      modifies this`members
      ensures ok == (Ids(subs) !! old(members).Keys)
      ensures members == old(members) + Named(if ok then subs else subs[..InsertedBeforeClash(old(members), subs)])
    {
      hide Named;
      ghost var m := members;
      NamedNone(m, subs);
      for i := 0 to |subs|
        invariant members == m + Named(subs[..i])
        invariant i <= InsertedBeforeClash(m, subs)
        invariant forall j :: 0 <= j < i ==> subs[j].nodeId !in m
      {
        var s := subs[i];
        FreshName(subs, i);
        if s.nodeId in members {
          ClashAt(m, subs, i);
          return false;
        }
        NoClashAt(m, subs, i);
        NamedSnoc(m, subs, i);
        members := members[s.nodeId := s];
      }
      assert subs[..|subs|] == subs;
      return true;
    }

    /** The switch of Apply that updates the member map. */
    method UpdateMembers(e: Entry) returns (ok: bool)
      requires Shape(e) && (e.op.Genesis? ==> DistinctKeys(NodeIdOf, e.subjects))
      modifies this`members
      ensures ok == NoClash(old(Value()), e)
      ensures ok ==> members == NextMembers(old(Value()), e)
      ensures !ok ==> members == if e.op.Genesis?
                                 then old(members) + Named(e.subjects[..InsertedBeforeClash(old(members), e.subjects)])
                                 else old(members)
    {
      hide Named;
      match e.op
      case Genesis =>
        ok := InsertSubjects(e.subjects);
      case Add =>
        var s := e.subject.value;
        NamedOne(members, s);
        if s.nodeId in members { return false; }
        members := members[s.nodeId := s];
        return true;
      case Remove =>
        NamedOne(members, e.subject.value);
        members := members - {e.subject.value.nodeId};
        return true;
    }

    /** The checks of Apply that precede the update. */
    method Validate(e: Entry) returns (h: Option<Bytes32>)
      ensures h.Some? <==> ChecksPass(p, Value(), e)
      ensures h.Some? ==> h == Hash(p, e)
    {
      if e.seqNo != nextSeq { return None; }
      var prev := HexDecode(e.prevHash);
      if prev.None? { return None; }
      if prev.value != prevHash { return None; }
      h := ComputeHash(p, e);
      if h.None? { return; }
      var req := RequiredApprovers(e);
      if req.None? { return None; }
      var pks := PubkeysForVerify(e);
      if pks.None? {
        assert !HasKeys(p, members);
        return None;
      }
      RequiredAreCandidates(Value(), e);
      var approved := CheckApprovals(e, h.value, req.value, pks.value);
      if !approved { return None; }
    }

    /** Validates and applies an entry. The contract holds for every order in which the maps are
        iterated: acceptance and both post-states are functions of the old state and the entry. */
    method Apply(e: Entry) returns (ok: bool)
      modifies this
      ensures ok == Accepts(p, old(Value()), e)
      ensures ok ==> Value() == Next(p, old(Value()), e)
      ensures !ok ==> Value() == Rejected(p, old(Value()), e)
    {
      hide Hash, ChecksPass, NoClash, NextMembers, Named;
      ghost var st := Value();
      var h := Validate(e);
      if h.None? { return false; }
      ChecksShape(p, st, e);
      ok := UpdateMembers(e);
      assert ok == Accepts(p, st, e);
      if !ok {
        assert Value() == Rejected(p, st, e);
        return false;
      }
      nextSeq := (nextSeq + 1) % TWO64;
      prevHash := h.value;
    }
  }

  // ---- lemmas about the specification ----

  lemma SignedIsVerified(p: Primitives, m: map<Text, Subject>, e: Entry, id: Text)
    requires id in m && Key32(p, m[id].identityPubkey).Some?
    ensures Signed(p, m, e, id) <==> Verified(p, m[id].identityPubkey, e, id)
  {
    hide Payload;
  }

  lemma CandidateSubject(st: St, e: Entry, id: Text)
    requires id in Candidates(st, e)
    ensures var s := Candidates(st, e)[id];
            || (id in st.members && s == st.members[id])
            || (!e.op.Remove? && s.nodeId == id && s in Listed(e))
  {
    hide Named, Listed;
  }

  lemma ListedField(e: Entry, s: Subject)
    requires Shape(e)
    ensures s in Listed(e) <==> s in e.subjects || e.subject == Some(s)
  {
  }

  lemma CandidateKey(p: Primitives, st: St, e: Entry, id: Text)
    requires ChecksPass(p, st, e) && id in Candidates(st, e)
    ensures Key32(p, Candidates(st, e)[id].identityPubkey).Some?
  {
    hide Candidates, Hash, HexDecode, Required, Approved, DistinctKeys;
    CandidateSubject(st, e, id);
  }

  /** Every approval of an accepted entry verifies under the key of the member it names or of the
      subject the entry brings in. */
  lemma ApprovalVerifies(p: Primitives, st: St, e: Entry, id: Text) returns (s: Subject)
    requires Accepts(p, st, e) && id in e.approvals
    ensures || (id in st.members && s == st.members[id])
            || (!e.op.Remove? && s.nodeId == id && (s in e.subjects || e.subject == Some(s)))
    ensures Verified(p, s.identityPubkey, e, id)
  {
    hide *;
    s := AcceptedApproval(p, st, e, id);
    CandidateSubject(st, e, id);
    CandidateKey(p, st, e, id);
    SignedIsVerified(p, Candidates(st, e), e, id);
    ChecksShape(p, st, e);
    ListedField(e, s);
  }

  lemma AcceptedApproval(p: Primitives, st: St, e: Entry, id: Text) returns (s: Subject)
    requires Accepts(p, st, e) && id in e.approvals
    ensures ChecksPass(p, st, e) && id in Candidates(st, e) && s == Candidates(st, e)[id]
    ensures Signed(p, Candidates(st, e), e, id)
  {
    hide Candidates, Payload, HexDecode, Required, NoClash, HasKeys;
    assert Signed(p, Candidates(st, e), e, id);
    s := Candidates(st, e)[id];
  }

  /** In the primitives alone. */
  lemma VerifiedMeans(p: Primitives, keyText: Text, e: Entry, id: Text, key: Bytes, payload: Bytes, sig: Bytes)
    requires id in e.approvals && Payload(p, e) == Some(payload)
    requires p.b64Decode(keyText) == Some(key) && p.b64Decode(e.approvals[id]) == Some(sig)
    ensures Verified(p, keyText, e, id) <==> |key| == 32 && |sig| == 64 && p.edVerify(key, p.sha256(payload), sig)
  {
    hide Payload;
  }

  lemma ChecksShape(p: Primitives, st: St, e: Entry)
    requires ChecksPass(p, st, e)
    ensures Shape(e) && Hash(p, e).Some?
    ensures e.op.Genesis? ==> DistinctKeys(NodeIdOf, e.subjects)
  {
  }

  /** The missing approvers: the required ones without an approval, each once, in ascending order. */
  lemma MissingMeans(st: St, e: Entry)
    ensures Missing(st, e).Some? <==> Required(st, e).Some?
    ensures Missing(st, e).Some? ==>
              && (forall id :: id in Missing(st, e).value <==> id in Required(st, e).value && id !in e.approvals)
              && forall i, j :: 0 <= i < j < |Missing(st, e).value| ==> Less(Missing(st, e).value[i], Missing(st, e).value[j])
  {
    hide Required, Less, Ascending;
    if Required(st, e).Some? {
      var ids := Missing(st, e).value;
      forall i, j | 0 <= i < j < |ids| ensures Less(ids[i], ids[j]) {
        assert Less(Self(ids[i]), Self(ids[j]));
      }
    }
  }

  /** Subjects are inserted up to the first one that is already a member. */
  lemma {:induction false} FirstClash(members: map<Text, Subject>, subs: seq<Subject>)
    ensures var n := InsertedBeforeClash(members, subs);
            && (forall i :: 0 <= i < n ==> subs[i].nodeId !in members)
            && (n < |subs| ==> subs[n].nodeId in members)
  {
    if subs != [] {
      FirstClash(members, subs[1..]);
      assert forall i :: 1 <= i < |subs| ==> subs[i] == subs[1..][i - 1];
    }
  }

  /** What a genesis that passes all checks but clashes leaves behind: the members, and the subjects
      before the first one that is a member already. */
  lemma PartialInsert(p: Primitives, st: St, e: Entry) returns (n: nat)
    requires ChecksPass(p, st, e) && e.op.Genesis? && !NoClash(st, e)
    ensures n < |e.subjects| && e.subjects[n].nodeId in st.members
    ensures forall i :: 0 <= i < n ==> e.subjects[i].nodeId !in st.members
    ensures var st' := Rejected(p, st, e);
            && st'.nextSeq == st.nextSeq && st'.prevHash == st.prevHash
            && (forall id :: id in st.members ==> id in st'.members && st'.members[id] == st.members[id])
            && (forall id :: id in st'.members && id !in st.members ==>
                  exists i :: 0 <= i < n && e.subjects[i].nodeId == id && e.subjects[i] == st'.members[id])
            && (forall i :: 0 <= i < n ==> e.subjects[i].nodeId in st'.members)
  {
    hide ChecksPass, Named;
    n := InsertedBeforeClash(st.members, e.subjects);
    FirstClash(st.members, e.subjects);
    var done := e.subjects[..n];
    forall i | 0 <= i < n ensures e.subjects[i].nodeId in Named(done) {
      assert done[i] in done;
    }
    forall id | id in Named(done)
      ensures id !in st.members
      ensures exists i :: 0 <= i < n && e.subjects[i].nodeId == id && e.subjects[i] == Named(done)[id]
    {
      var i :| 0 <= i < |done| && done[i] == Named(done)[id];
      assert e.subjects[i] == done[i];
    }
  }

  lemma NamedNone(m: map<Text, Subject>, subs: seq<Subject>)
    ensures m + Named(subs[..0]) == m
  {
    assert subs[..0] == [];
  }

  lemma NamedSnoc(m: map<Text, Subject>, subs: seq<Subject>, i: nat)
    requires i < |subs|
    ensures m + Named(subs[..i + 1]) == (m + Named(subs[..i]))[subs[i].nodeId := subs[i]]
  {
    assert subs[..i + 1][..i] == subs[..i];
  }

  lemma NamedOne(m: map<Text, Subject>, s: Subject)
    ensures m + Named([s]) == m[s.nodeId := s]
    ensures Ids([s]) == {s.nodeId}
  {
    NamedSnoc(m, [s], 0);
    assert [s][..0] == [] && [s][..1] == [s];
  }

  lemma KeysOfUpdate(p: Primitives, m: map<Text, Subject>, s: Subject)
    ensures KeysOf(p, m[s.nodeId := s]) == KeysOf(p, m)[s.nodeId := KeyBytes(p, s.identityPubkey)]
  {
  }

  lemma FreshName(subs: seq<Subject>, i: nat)
    requires DistinctKeys(NodeIdOf, subs) && i < |subs|
    ensures subs[i].nodeId !in Named(subs[..i]).Keys
  {
    forall j | 0 <= j < i ensures subs[j].nodeId != subs[i].nodeId {
      assert NodeIdOf(subs[j]) != NodeIdOf(subs[i]);
    }
  }

  lemma {:induction false} ClashAt(m: map<Text, Subject>, subs: seq<Subject>, i: nat)
    requires i < |subs| && subs[i].nodeId in m
    requires i <= InsertedBeforeClash(m, subs)
    ensures InsertedBeforeClash(m, subs) == i
  {
    if i > 0 {
      ClashAt(m, subs[1..], i - 1);
    }
  }

  lemma {:induction false} NoClashAt(m: map<Text, Subject>, subs: seq<Subject>, i: nat)
    requires i < |subs| && subs[i].nodeId !in m
    requires i <= InsertedBeforeClash(m, subs)
    ensures i + 1 <= InsertedBeforeClash(m, subs)
  {
    if i > 0 {
      NoClashAt(m, subs[1..], i - 1);
    }
  }

  /** Every required approver has a verification key: the lookup in the verification loop of
      Apply never misses. */
  lemma RequiredAreCandidates(st: St, e: Entry)
    requires Required(st, e).Some? && Shape(e)
    ensures Required(st, e).value <= Candidates(st, e).Keys
  {
    if e.op.Add? {
      assert e.subject.value in Listed(e);
    }
  }
}
