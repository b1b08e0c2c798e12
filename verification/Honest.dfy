/** Completeness: what honest users propose and sign with the commands is accepted. */
module Honest {
  import opened Bytes
  import opened Sorting
  import opened Entries
  import opened States
  import opened Runs
  import opened Pendings
  import opened Stores
  import opened Protocol
  import opened Commands
  import Forks

  /** The laws of the primitives for one key pair: its signatures are 64 bytes, verify under `key`,
      and survive base64 (sections 5.1.6 and 5.1.7 of RFC 8032, section 4 of RFC 4648). */
  ghost predicate HonestKey(p: Primitives, id: Identity, key: Bytes32) {
    && CompleteIdentity(id)
    && p.b64Decode(id.privateKey).Some? && |p.b64Decode(id.privateKey).value| == 32
    && forall msg: Bytes :: var sig := p.edSign(p.b64Decode(id.privateKey).value, msg);
         && |sig| == 64 && p.edVerify(key, msg, sig)
         && p.b64Encode(sig) != [] && p.b64Decode(p.b64Encode(sig)) == Some(sig)
  }

  /** id may sign e, and holds the private key of the public key that e will be checked with. */
  ghost predicate HonestSigner(p: Primitives, st: St, e: Entry, id: Identity) {
    && id.nodeId in Candidates(st, e)
    && HonestKey(p, id, KeyBytes(p, Candidates(st, e)[id.nodeId].identityPubkey))
  }

  function SignerIds(signers: seq<Identity>): set<Text> {
    set id | id in signers :: id.nodeId
  }

  /** `sign` by one identity after the other. */
  ghost function SignAll(p: Primitives, dir: PendingDir, signers: seq<Identity>): Option<PendingDir> {
    if signers == [] then Some(dir)
    else
      match SignAll(p, dir, signers[..|signers| - 1])
      case None => None
      case Some(signed) => SignedDir(p, signed, signers[|signers| - 1])
  }

  /** An entry that one of the propose commands builds in state st. */
  ghost predicate Proposed(p: Primitives, st: St, e: Entry) {
    || (e.op.Genesis? && ProposedGenesis(p, st, e.subjects) == Some(e))
    || (e.op.Add? && e.subject.Some? && ProposedAdd(p, st, e.subject.value) == Some(e))
    || (e.op.Remove? && e.subject.Some? && ProposedRemove(st, e.subject.value.nodeId) == Some(e))
  }

  /** Everything acceptance asks of an entry except its approvals. */
  ghost predicate Ready(p: Primitives, st: St, e: Entry) {
    && e.seqNo == st.nextSeq
    && HexDecode(e.prevHash) == Some(st.prevHash)
    && Payload(p, e).Some?
    && HasKeys(p, st.members)
    && NoClash(st, e)
    && (Required(st, e).Some? <==> (e.op.Genesis? ==> DistinctKeys(NodeIdOf, e.subjects)))
  }

  lemma HashedPayload(p: Primitives, e: Entry)
    ensures Hash(p, e).Some? <==> Payload(p, e).Some?
  {
  }

  lemma GenesisReady(p: Primitives, st: St, e: Entry)
    requires e.op.Genesis? && ProposedGenesis(p, st, e.subjects) == Some(e)
    requires st == Init()
    ensures Ready(p, st, e) && Hash(p, e).Some? && e.approvals == map[]
  {
    hide Hash, Payload, DistinctKeys, HexDecode, ZeroHash, Zero32;
    ZeroHashDecodes();
    HashedPayload(p, e);
  }

  lemma AddReady(p: Primitives, st: St, e: Entry)
    requires e.op.Add? && e.subject.Some? && ProposedAdd(p, st, e.subject.value) == Some(e)
    requires HasKeys(p, st.members)
    ensures Ready(p, st, e) && Hash(p, e).Some? && e.approvals == map[]
  {
    hide Hash, Payload, HasKeys, HexDecode, FreeOverlay;
    HexRoundTrip(st.prevHash);
    HashedPayload(p, e);
  }

  lemma RemoveReady(p: Primitives, st: St, e: Entry)
    requires e.op.Remove? && e.subject.Some? && ProposedRemove(st, e.subject.value.nodeId) == Some(e)
    requires HasKeys(p, st.members) && GoodMembers(p, st.members)
    ensures Ready(p, st, e) && Hash(p, e).Some? && e.approvals == map[]
  {
    hide Hash, Payload, HasKeys, HexDecode, GoodMembers;
    HexRoundTrip(st.prevHash);
    RemoveHashes(p, st, e.subject.value.nodeId);
    HashedPayload(p, e);
  }

  /** A proposal fits the state it was built in: sequence number, chain, and no clash. */
  lemma ProposedReady(p: Primitives, log: seq<Entry>, e: Entry)
    requires Accepted(p, log) && |log| < TWO64
    requires Proposed(p, Final(p, log), e)
    ensures Ready(p, Final(p, log), e) && Hash(p, e).Some? && e.approvals == map[]
  {
    hide Hash, Accepted, Final, GoodMembers, HasKeys, ProposedAdd, ProposedRemove, Ready;
    var st := Final(p, log);
    WellFormedMembers(p, log);
    EmptyAtZero(p, log);
    match e.op
    case Genesis => GenesisReady(p, st, e);
    case Add => AddReady(p, st, e);
    case Remove => RemoveReady(p, st, e);
  }

  lemma ReadyAccepts(p: Primitives, st: St, e: Entry, approvals: map<Text, Text>)
    requires Ready(p, st, e)
    ensures var f := e.(approvals := approvals);
            Accepts(p, st, f) <==>
            Required(st, e).Some? && Approved(p, st, f, Required(st, e).value)
  {
    hide Hash, Payload, Approved, HasKeys, Required;
    SameHash(p, e, approvals);
    RequiredUnsigned(st, e, approvals);
  }

  // ---- directories of a proposal ----

  /** The directory holds proposal e and loads with exactly these approvals. */
  ghost predicate Holds(p: Primitives, e: Entry, dir: PendingDir, got: map<Text, Text>) {
    dir.entry == e && Tidy(dir.sigs) && Loaded(p, dir) == Some(e.(approvals := got))
  }

  /** Among these approvals of e, id's verifies. */
  ghost predicate Valid(p: Primitives, st: St, e: Entry, got: map<Text, Text>, id: Text) {
    Signed(p, Candidates(st, e), e.(approvals := got), id)
  }

  ghost predicate AllValid(p: Primitives, st: St, e: Entry, got: map<Text, Text>) {
    forall id :: id in got ==> Valid(p, st, e, got, id)
  }

  /** A new directory, as the propose commands leave it. */
  lemma NewDirectory(p: Primitives, st: St, e: Entry)
    requires Hash(p, e).Some? && e.approvals == map[]
    ensures Holds(p, e, PendingDir(e, map[]), map[]) && AllValid(p, st, e, map[])
  {
    hide Hash;
    var dir := PendingDir(e, map[]);
    assert Ascending(JsonNames(dir.sigs)) == [];
  }

  lemma SameApproval(p: Primitives, st: St, e: Entry, a: map<Text, Text>, b: map<Text, Text>, id: Text)
    requires id in a && id in b && a[id] == b[id]
    ensures Valid(p, st, e, a, id) <==> Valid(p, st, e, b, id)
  {
    hide Hash, Candidates, ValidSig;
    SameHash(p, e, a);
    SameHash(p, e, b);
  }

  // ---- signing ----

  lemma OneMore(p: Primitives, st: St, e: Entry, dir: PendingDir, got: map<Text, Text>, id: Identity)
    returns (s: SigFile)
    requires Hash(p, e).Some? && Holds(p, e, dir, got)
    requires HonestSigner(p, st, e, id)
    ensures s.nodeId == id.nodeId
    ensures SignedDir(p, dir, id) == Saved(dir, s) && Saved(dir, s).Some?
    ensures Holds(p, e, Saved(dir, s).value, got[s.nodeId := s.signature])
    ensures Valid(p, st, e, got[s.nodeId := s.signature], id.nodeId)
  {
    hide Hash, Candidates, Loadable, FileName, Collected, Listing;
    SameHash(p, e, got);
    LoadedSome(p, dir);
    var h := Hash(p, e).value;
    var seed := p.b64Decode(id.privateKey).value;
    var sig := p.edSign(seed, h);
    s := SigFile(id.nodeId, HexEncode(h), p.b64Encode(sig));
    assert SigOf(p, id, e.(approvals := got)) == Some(s);
    SavedApprovals(p, dir, s);
    SameHash(p, e, got[s.nodeId := s.signature]);
  }

  /** Signing by honest signers in any order always succeeds, whatever has been collected before:
      the signers' approvals become valid ones and the others stay. */
  lemma {:induction false} SignAllHonest(p: Primitives, st: St, e: Entry, dir: PendingDir, got: map<Text, Text>,
                                         signers: seq<Identity>)
    returns (approvals: map<Text, Text>)
    requires Hash(p, e).Some? && Holds(p, e, dir, got)
    requires forall id :: id in signers ==> HonestSigner(p, st, e, id)
    ensures SignAll(p, dir, signers).Some? && Holds(p, e, SignAll(p, dir, signers).value, approvals)
    ensures approvals.Keys == got.Keys + SignerIds(signers)
    ensures forall id :: id in SignerIds(signers) ==> Valid(p, st, e, approvals, id)
    ensures forall id :: id in got && id !in SignerIds(signers) ==> approvals[id] == got[id]
  {
    hide Hash, HonestSigner, SignedDir, SignerIds, Saved, Holds, Valid;
    if signers == [] {
      approvals := got;
      NoSigners();
    } else {
      var init, last := signers[..|signers| - 1], signers[|signers| - 1];
      assert signers == init + [last];
      SignerIdsSnoc(init, last);
      var before := SignAllHonest(p, st, e, dir, got, init);
      var s := OneMore(p, st, e, SignAll(p, dir, init).value, before, last);
      approvals := before[s.nodeId := s.signature];
      forall id | id in SignerIds(signers) ensures Valid(p, st, e, approvals, id) {
        if id != s.nodeId {
          SameApproval(p, st, e, before, approvals, id);
        }
      }
    }
  }

  lemma SignerIdsSnoc(signers: seq<Identity>, id: Identity)
    ensures SignerIds(signers + [id]) == SignerIds(signers) + {id.nodeId}
  {
  }

  lemma NoSigners()
    ensures SignerIds([]) == {}
  {
  }

  // ---- the whole flow ----

  /** Honest signers complete a directory that holds `got`: they and those who signed before include
      every required approver, and every approval that they do not overwrite is valid. */
  ghost predicate Completes(p: Primitives, st: St, e: Entry, got: map<Text, Text>, signers: seq<Identity>) {
    && (Required(st, e).Some? ==> Required(st, e).value <= got.Keys + SignerIds(signers))
    && forall id :: id in got && id !in SignerIds(signers) ==> Valid(p, st, e, got, id)
  }

  /** Honest flow: an entry built by a propose command in any reachable state, in a directory that
      may hold signatures already, is signed in any order by honest signers and reloaded. It is
      accepted exactly when the signers complete the directory, and then changes the members as
      proposed. The one proposal that is never accepted is a genesis that lists a node id twice,
      which `ledger genesis` does not check. */
  lemma HonestFlow(p: Primitives, log: seq<Entry>, e: Entry, dir: PendingDir, got: map<Text, Text>,
                   signers: seq<Identity>)
    requires Accepted(p, log) && |log| < TWO64
    requires Proposed(p, Final(p, log), e) && Holds(p, e, dir, got)
    requires forall id :: id in signers ==> HonestSigner(p, Final(p, log), e, id)
    ensures SignAll(p, dir, signers).Some? && Loaded(p, SignAll(p, dir, signers).value).Some?
    ensures var st, f := Final(p, log), Loaded(p, SignAll(p, dir, signers).value).value;
            && (Accepts(p, st, f) <==>
                (e.op.Genesis? ==> DistinctKeys(NodeIdOf, e.subjects)) && Completes(p, st, e, got, signers))
            && f == e.(approvals := f.approvals)
            && f.approvals.Keys == got.Keys + SignerIds(signers)
            && NextMembers(st, f) == NextMembers(st, e)
  {
    hide Hash, Payload, Proposed, HonestSigner, Accepts, Loaded, SignAll, SignerIds, Ready,
         Required, Valid, NextMembers, DistinctKeys, Tidy;
    var st := Final(p, log);
    ProposedReady(p, log, e);
    var approvals := SignAllHonest(p, st, e, dir, got, signers);
    forall id | id in got && id !in SignerIds(signers)
      ensures Valid(p, st, e, approvals, id) <==> Valid(p, st, e, got, id)
    {
      SameApproval(p, st, e, approvals, got, id);
    }
    AcceptsWhen(p, st, e, approvals);
    SameEffect(st, e, approvals);
  }

  lemma AcceptsWhen(p: Primitives, st: St, e: Entry, approvals: map<Text, Text>)
    requires Ready(p, st, e)
    ensures Accepts(p, st, e.(approvals := approvals)) <==>
            && (e.op.Genesis? ==> DistinctKeys(NodeIdOf, e.subjects))
            && (Required(st, e).Some? ==> Required(st, e).value <= approvals.Keys)
            && AllValid(p, st, e, approvals)
    ensures Required(st, e).Some? <==> (e.op.Genesis? ==> DistinctKeys(NodeIdOf, e.subjects))
  {
    hide Accepts, Required, Signed, Candidates, DistinctKeys, Payload, HasKeys, NoClash;
    ReadyAccepts(p, st, e, approvals);
    SameEffect(st, e, approvals);
  }

  lemma SameEffect(st: St, e: Entry, approvals: map<Text, Text>)
    ensures Candidates(st, e.(approvals := approvals)) == Candidates(st, e)
    ensures NextMembers(st, e.(approvals := approvals)) == NextMembers(st, e)
  {
  }

  /** The same on the disk: after the signers have signed, commit appends the proposal exactly under
      these conditions, and the members change as proposed. */
  lemma HonestCommit(p: Primitives, d: Disk, e: Entry, name: Text, got: map<Text, Text>, signers: seq<Identity>)
    requires Accepted(p, d.log) && |d.log| < TWO64 && Proposed(p, Final(p, d.log), e)
    requires name in d.pending && Holds(p, e, d.pending[name], got)
    requires forall id :: id in signers ==> HonestSigner(p, Final(p, d.log), e, id)
    ensures var dir := SignAll(p, d.pending[name], signers);
            && dir.Some?
            && var d' := d.(pending := d.pending[name := dir.value]);
               && (Committable(p, d', name).Some? <==>
                   && (e.op.Genesis? ==> DistinctKeys(NodeIdOf, e.subjects))
                   && Completes(p, Final(p, d.log), e, got, signers))
               && (Committable(p, d', name).Some? ==>
                   Final(p, Committed(p, d', name, false).log).members == NextMembers(Final(p, d.log), e))
  {
    hide Hash, HonestSigner, Accepts, Loaded, SignAll, SignerIds, Final, NextMembers, Accepted, DistinctKeys,
         Proposed, Holds, Completes;
    HonestFlow(p, d.log, e, d.pending[name], got, signers);
    var dir := SignAll(p, d.pending[name], signers).value;
    ReplayAppend(p, d.log, Loaded(p, dir).value);
  }

  // ---- approving ----

  /** `approve` by one identity after the other. */
  ghost function ApproveAll(p: Primitives, d: Disk, name: Text, signers: seq<Identity>): Disk {
    if signers == [] then d
    else AfterApprove(p, ApproveAll(p, d, name, signers[..|signers| - 1]), name, signers[|signers| - 1], false)
  }

  /** id may run approve on e, and is honest. */
  ghost predicate HonestApprover(p: Primitives, st: St, e: Entry, id: Identity) {
    && Required(st, e).Some? && id.nodeId in Required(st, e).value
    && HonestSigner(p, st, e, id)
  }

  /** The sign step of approve: it leaves an approval that is there alone, valid or not. */
  lemma SignOnce(p: Primitives, d: Disk, e: Entry, name: Text, got: map<Text, Text>, id: Identity)
    returns (dir: PendingDir, approvals: map<Text, Text>)
    requires Accepted(p, d.log) && name in d.pending
    requires Hash(p, e).Some? && Holds(p, e, d.pending[name], got)
    requires HonestApprover(p, Final(p, d.log), e, id)
    ensures Approvable(p, d, name, id)
    ensures AfterSigning(p, d, name, id) == Some(d.(pending := d.pending[name := dir]))
    ensures Holds(p, e, dir, approvals) && approvals.Keys == got.Keys + {id.nodeId}
    ensures AllValid(p, Final(p, d.log), e, approvals) <==> AllValid(p, Final(p, d.log), e, got)
  {
    hide Hash, Loaded, Tidy, Required, Accepted, Final, Saved, SignedDir, Valid, HonestKey, Candidates;
    var st := Final(p, d.log);
    RequiredUnsigned(st, e, got);
    SignerHasKeys(p, st, e, id);
    dir, approvals := d.pending[name], got;
    if id.nodeId in got {
      assert d.pending == d.pending[name := dir];
    } else {
      var s := OneMore(p, st, e, dir, got, id);
      dir, approvals := Saved(dir, s).value, got[s.nodeId := s.signature];
      forall x | x in got ensures Valid(p, st, e, approvals, x) <==> Valid(p, st, e, got, x) {
        SameApproval(p, st, e, approvals, got, x);
      }
    }
  }

  lemma SignerHasKeys(p: Primitives, st: St, e: Entry, id: Identity)
    requires HonestSigner(p, st, e, id)
    ensures CompleteIdentity(id)
  {
  }

  lemma FullySignedWhen(p: Primitives, d: Disk, e: Entry, name: Text, approvals: map<Text, Text>)
    requires name in d.pending && Holds(p, e, d.pending[name], approvals)
    requires Required(Final(p, d.log), e).Some?
    ensures FullySigned(p, d, name) <==> Required(Final(p, d.log), e).value <= approvals.Keys
  {
    hide Loaded, Required, Final, Ascending, Tidy;
    var st := Final(p, d.log);
    RequiredUnsigned(st, e, approvals);
    var req := Required(st, e).value;
    var rest := req - approvals.Keys;
    assert |Ascending(rest)| == |rest|;
    if rest == {} {
      assert forall id :: id in req ==> id !in rest;
    }
  }

  /** What one honest approve does to a directory: collect, and commit when nothing is missing and
      everything collected is valid. */
  lemma ApproveOnce(p: Primitives, d: Disk, e: Entry, name: Text, got: map<Text, Text>, id: Identity)
    returns (dir: PendingDir, approvals: map<Text, Text>)
    requires Accepted(p, d.log) && name in d.pending
    requires Ready(p, Final(p, d.log), e) && Hash(p, e).Some? && Holds(p, e, d.pending[name], got)
    requires HonestApprover(p, Final(p, d.log), e, id)
    ensures Holds(p, e, dir, approvals) && approvals.Keys == got.Keys + {id.nodeId}
    ensures AllValid(p, Final(p, d.log), e, approvals) <==> AllValid(p, Final(p, d.log), e, got)
    ensures AfterApprove(p, d, name, id, false) ==
            if Required(Final(p, d.log), e).value <= approvals.Keys && AllValid(p, Final(p, d.log), e, got)
            then Disk(d.log + [e.(approvals := approvals)], d.pending - {name})
            else d.(pending := d.pending[name := dir])
    ensures AllValid(p, Final(p, d.log), e, got) && Required(Final(p, d.log), e).value <= approvals.Keys ==>
              Accepts(p, Final(p, d.log), e.(approvals := approvals))
  {
    hide Hash, Tidy, Required, Accepted, Final, Accepts, AllValid, Ready, Approvable, AfterSigning, FullySigned, Loaded,
         HonestSigner, DistinctKeys;
    dir, approvals := SignOnce(p, d, e, name, got, id);
    var signed := d.(pending := d.pending[name := dir]);
    FullySignedWhen(p, signed, e, name, approvals);
    AcceptsWhen(p, Final(p, d.log), e, approvals);
    assert signed.pending - {name} == d.pending - {name};
  }

  /** The approvers, together with those who signed before, lack a required one; or some approval
      collected before is not valid. */
  ghost predicate Blocked(p: Primitives, st: St, e: Entry, got: map<Text, Text>, signers: seq<Identity>)
    requires Required(st, e).Some?
  {
    signers == [] || !(Required(st, e).value <= got.Keys + SignerIds(signers)) || !AllValid(p, st, e, got)
  }

  lemma {:induction false} ApproveCollects(p: Primitives, d: Disk, e: Entry, name: Text, got: map<Text, Text>,
                                           signers: seq<Identity>)
    returns (dir: PendingDir, approvals: map<Text, Text>)
    requires Accepted(p, d.log) && name in d.pending
    requires Ready(p, Final(p, d.log), e) && Hash(p, e).Some? && Holds(p, e, d.pending[name], got)
    requires forall id :: id in signers ==> HonestApprover(p, Final(p, d.log), e, id)
    requires Required(Final(p, d.log), e).Some? && Blocked(p, Final(p, d.log), e, got, signers)
    ensures ApproveAll(p, d, name, signers) == d.(pending := d.pending[name := dir])
    ensures Holds(p, e, dir, approvals) && approvals.Keys == got.Keys + SignerIds(signers)
    ensures AllValid(p, Final(p, d.log), e, approvals) <==> AllValid(p, Final(p, d.log), e, got)
  {
    hide Hash, HonestApprover, Required, Accepted, Final, SignerIds, Holds, AllValid, Ready, AfterApprove, Accepts;
    if signers == [] {
      dir, approvals := d.pending[name], got;
      NoSigners();
      assert d.pending == d.pending[name := dir];
    } else {
      var init, last := signers[..|signers| - 1], signers[|signers| - 1];
      assert signers == init + [last];
      SignerIdsSnoc(init, last);
      var before, collected := ApproveCollects(p, d, e, name, got, init);
      var d' := d.(pending := d.pending[name := before]);
      dir, approvals := ApproveOnce(p, d', e, name, collected, last);
      assert d'.(pending := d'.pending[name := dir]) == d.(pending := d.pending[name := dir]);
    }
  }

  /** Honest flow of approve: an entry built by a propose command in any reachable state, in a
      directory that may hold approvals already. Required approvers, all honest, run approve in any
      order, repeats included, until with `last` every required approval is there. Before that the
      log stays as it is. The approve by `last` commits the entry, removes the directory and changes
      the members as proposed if and only if every approval that was there at the start is valid;
      otherwise the log stays. */
  lemma HonestApprove(p: Primitives, d: Disk, e: Entry, name: Text, got: map<Text, Text>,
                      signers: seq<Identity>, last: Identity)
    requires Accepted(p, d.log) && |d.log| < TWO64 && Proposed(p, Final(p, d.log), e)
    requires name in d.pending && Holds(p, e, d.pending[name], got)
    requires forall id :: id in signers + [last] ==> HonestApprover(p, Final(p, d.log), e, id)
    requires Required(Final(p, d.log), e).Some?
    requires Required(Final(p, d.log), e).value <= got.Keys + SignerIds(signers + [last])
    requires signers == [] || !(Required(Final(p, d.log), e).value <= got.Keys + SignerIds(signers))
    ensures forall i :: 0 <= i <= |signers| ==> ApproveAll(p, d, name, signers[..i]).log == d.log
    ensures var end := ApproveAll(p, d, name, signers + [last]);
            if AllValid(p, Final(p, d.log), e, got) then
              && end.pending == d.pending - {name}
              && |end.log| == |d.log| + 1 && end.log[..|d.log|] == d.log
              && Accepted(p, end.log)
              && Final(p, end.log).members == NextMembers(Final(p, d.log), e)
            else end.log == d.log
  {
    hide Hash, HonestApprover, Required, Accepted, Final, SignerIds, Holds, AllValid, Ready, AfterApprove, Accepts,
         ApproveAll, Proposed, NextMembers;
    var st := Final(p, d.log);
    ProposedReady(p, d.log, e);
    forall i | 0 <= i <= |signers| ensures ApproveAll(p, d, name, signers[..i]).log == d.log {
      SomeSigners(signers, i);
      assert forall id :: id in signers[..i] ==> id in signers + [last];
      var _, _ := ApproveCollects(p, d, e, name, got, signers[..i]);
    }
    assert forall id :: id in signers ==> id in signers + [last];
    var before, collected := ApproveCollects(p, d, e, name, got, signers);
    var d' := d.(pending := d.pending[name := before]);
    ApproveSnoc(p, d, name, signers, last);
    SignerIdsSnoc(signers, last);
    assert last in signers + [last];
    var dir, approvals := ApproveOnce(p, d', e, name, collected, last);
    assert d'.pending - {name} == d.pending - {name};
    ReplayAppend(p, d.log, e.(approvals := approvals));
    SameEffect(st, e, approvals);
    if AllValid(p, st, e, got) {
      NextHasMembers(p, st, e.(approvals := approvals));
    }
  }

  lemma NextHasMembers(p: Primitives, st: St, f: Entry)
    requires Accepts(p, st, f)
    ensures Payload(p, f).Some? && Next(p, st, f).members == NextMembers(st, f)
  {
    AcceptedFacts(p, st, f);
  }

  lemma ApproveSnoc(p: Primitives, d: Disk, name: Text, signers: seq<Identity>, last: Identity)
    ensures ApproveAll(p, d, name, signers + [last]) == AfterApprove(p, ApproveAll(p, d, name, signers), name, last, false)
  {
    hide AfterApprove;
    assert (signers + [last])[..|signers|] == signers;
  }

  lemma SomeSigners(signers: seq<Identity>, i: nat)
    requires i <= |signers|
    ensures SignerIds(signers[..i]) <= SignerIds(signers)
  {
  }

  /** approve never looks at an approval that is there already: while one of them is not valid, no
      list of honest approvers gets the entry committed. */
  lemma BadApprovalBlocks(p: Primitives, d: Disk, e: Entry, name: Text, got: map<Text, Text>,
                          bad: Text, signers: seq<Identity>)
    requires Accepted(p, d.log) && |d.log| < TWO64 && Proposed(p, Final(p, d.log), e)
    requires name in d.pending && Holds(p, e, d.pending[name], got)
    requires bad in got && !Valid(p, Final(p, d.log), e, got, bad)
    requires forall id :: id in signers ==> HonestApprover(p, Final(p, d.log), e, id)
    ensures ApproveAll(p, d, name, signers).log == d.log
  {
    hide Hash, HonestApprover, Required, Accepted, Final, Holds, Ready, ApproveAll, Proposed, Valid, SignerIds;
    ProposedReady(p, d.log, e);
    if signers == [] {
      NobodyApproves(p, d, name);
    } else {
      ApproverNeeded(p, Final(p, d.log), e, signers[0]);
      var _, _ := ApproveCollects(p, d, e, name, got, signers);
    }
  }

  lemma NobodyApproves(p: Primitives, d: Disk, name: Text)
    ensures ApproveAll(p, d, name, []) == d
  {
  }

  lemma ApproverNeeded(p: Primitives, st: St, e: Entry, id: Identity)
    requires HonestApprover(p, st, e, id)
    ensures Required(st, e).Some?
  {
  }

  /** The default way to join: propose-self-add stores the joiner's own signature in a new directory,
      and then only the present members run approve, in any order. The approve of the last of them
      makes the joiner a member. */
  lemma SelfAddThenApprove(p: Primitives, d: Disk, joiner: Identity, s: Subject, name: Text,
                           signers: seq<Identity>, last: Identity)
    requires Accepted(p, d.log) && |d.log| < TWO64
    requires s.nodeId == joiner.nodeId && s.identityPubkey == joiner.publicKey
    requires HonestKey(p, joiner, KeyBytes(p, joiner.publicKey))
    requires ProposedAdd(p, Final(p, d.log), s).Some?
    requires PendingName(p, AddEntry(Final(p, d.log), s)) == Some(name) && name !in d.pending
    requires forall id :: id in signers + [last] ==>
               id.nodeId in Final(p, d.log).members
               && HonestKey(p, id, KeyBytes(p, Final(p, d.log).members[id.nodeId].identityPubkey))
    requires Final(p, d.log).members.Keys == SignerIds(signers + [last])
    requires last.nodeId !in SignerIds(signers)
    ensures var e := AddEntry(Final(p, d.log), s);
            var proposed := WithProposal(d.pending, name, e);
            var dir := SignedDir(p, proposed[name], joiner);
            && dir.Some?
            && var start := d.(pending := proposed[name := dir.value]);
               var end := ApproveAll(p, start, name, signers + [last]);
               && (forall i :: 0 <= i <= |signers| ==> ApproveAll(p, start, name, signers[..i]).log == d.log)
               && end.pending == d.pending
               && |end.log| == |d.log| + 1 && end.log[..|d.log|] == d.log
               && Accepted(p, end.log)
               && Final(p, end.log).members == Final(p, d.log).members[s.nodeId := s]
  {
    hide Hash, Accepted, Final, SignerIds, ApproveAll, Proposed, Ready, Holds, SignedDir, PendingName, Required,
         AllValid, Valid, HonestKey, Candidates, ProposedAdd, NextMembers, Saved;
    var st := Final(p, d.log);
    var e := AddEntry(st, s);
    AddProposed(p, st, s);
    ProposedReady(p, d.log, e);
    JoinSets(st, e, s);
    NewDirectory(p, st, e);
    var bare := PendingDir(e, map[]);
    assert WithProposal(d.pending, name, e)[name] == bare;
    var file := OneMore(p, st, e, bare, map[], joiner);
    var dir := Saved(bare, file).value;
    var start := d.(pending := WithProposal(d.pending, name, e)[name := dir]);
    var got := map[joiner.nodeId := file.signature];
    assert got == map[][joiner.nodeId := file.signature];
    OnlyValid(p, st, e, got, joiner.nodeId);
    SignerIdsSnoc(signers, last);
    assert start.pending[name] == dir && start.pending - {name} == d.pending;
    assert last.nodeId in st.members;
    HonestApprove(p, start, e, name, got, signers, last);
  }

  lemma OnlyValid(p: Primitives, st: St, e: Entry, got: map<Text, Text>, id: Text)
    requires got.Keys == {id} && Valid(p, st, e, got, id)
    ensures AllValid(p, st, e, got)
  {
    hide Valid;
  }

  lemma AddProposed(p: Primitives, st: St, s: Subject)
    requires ProposedAdd(p, st, s).Some?
    ensures Proposed(p, st, AddEntry(st, s)) && s.nodeId !in st.members
  {
    hide Hash, FreeOverlay;
  }

  lemma JoinSets(st: St, e: Entry, s: Subject)
    requires e.op.Add? && e.subject == Some(s) && s.nodeId !in st.members
    ensures Required(st, e) == Some(st.members.Keys + {s.nodeId})
    ensures Candidates(st, e) == NextMembers(st, e) == st.members[s.nodeId := s]
  {
    hide Named;
    NamedOne(st.members, s);
    assert Listed(e) == [s];
  }

  /** The removal of the only member needs nobody's signature: commit accepts it at once, unless an
      approval is there that is not valid, and approve refuses everybody. */
  lemma SoleRemoval(p: Primitives, d: Disk, e: Entry, name: Text, got: map<Text, Text>, id: Identity, only: Text)
    requires Accepted(p, d.log) && |d.log| < TWO64
    requires Final(p, d.log).members.Keys == {only} && ProposedRemove(Final(p, d.log), only) == Some(e)
    requires name in d.pending && Holds(p, e, d.pending[name], got)
    ensures !Approvable(p, d, name, id)
    ensures Committable(p, d, name).Some? <==> AllValid(p, Final(p, d.log), e, got)
    ensures Committable(p, d, name).Some? ==> Final(p, Committed(p, d, name, false).log).members == map[]
  {
    hide Hash, Loaded, Accepted, Final, Ready, Accepts, GoodMembers, HasKeys, Candidates, AllValid, Tidy, DistinctKeys,
         Payload;
    var st := Final(p, d.log);
    WellFormedMembers(p, d.log);
    OwnId(p, st.members, only);
    RemoveReady(p, st, e);
    RequiredUnsigned(st, e, got);
    assert Required(st, e) == Some({}) by {
      assert st.members.Keys - {only} == {};
    }
    AcceptsWhen(p, st, e, got);
    ReplayAppend(p, d.log, e.(approvals := got));
    SameEffect(st, e, got);
    assert Ids(Listed(e)) == {only};
    assert NextMembers(st, e) == map[];
  }

  lemma OwnId(p: Primitives, m: map<Text, Subject>, id: Text)
    requires GoodMembers(p, m) && id in m
    ensures m[id].nodeId == id
  {
  }

  // ---- accountability is tight ----

  /** Two proposals for one accepted log with different payloads, each in a new directory and signed
      by exactly its required approvers, are both accepted: members who sign both entries can fork
      the ledger, and those who have signed both are then exactly those Forks.ForkAccountability
      names. */
  lemma TightFork(p: Primitives, log: seq<Entry>, e: Entry, f: Entry, signers: seq<Identity>, signers': seq<Identity>)
    returns (a: Entry, b: Entry)
    requires Accepted(p, log) && |log| < TWO64
    requires Proposed(p, Final(p, log), e) && Proposed(p, Final(p, log), f)
    requires Payload(p, e) != Payload(p, f)
    requires forall id :: id in signers ==> HonestSigner(p, Final(p, log), e, id)
    requires forall id :: id in signers' ==> HonestSigner(p, Final(p, log), f, id)
    requires Required(Final(p, log), e) == Some(SignerIds(signers))
    requires Required(Final(p, log), f) == Some(SignerIds(signers'))
    ensures Accepted(p, log + [a]) && Accepted(p, log + [b])
    ensures a == e.(approvals := a.approvals) && b == f.(approvals := b.approvals)
    ensures Payload(p, a) != Payload(p, b)
    ensures Forks.SignedBoth(p, Final(p, log).members, a, b) == Forks.Liable(Final(p, log), a, b)
  {
    hide Hash, Payload, Proposed, HonestSigner, Accepts, SignerIds, Required, Accepted, Final, NextMembers,
         Forks.SignedBoth, Forks.Liable;
    a := SignedByRequired(p, log, e, signers);
    b := SignedByRequired(p, log, f, signers');
    SameHash(p, e, a.approvals);
    SameHash(p, f, b.approvals);
    EmptyAtZero(p, log);
    ExactlyLiable(p, Final(p, log), a, b);
  }

  lemma SignedByRequired(p: Primitives, log: seq<Entry>, e: Entry, signers: seq<Identity>) returns (a: Entry)
    requires Accepted(p, log) && |log| < TWO64
    requires Proposed(p, Final(p, log), e)
    requires forall id :: id in signers ==> HonestSigner(p, Final(p, log), e, id)
    requires Required(Final(p, log), e) == Some(SignerIds(signers))
    ensures Accepts(p, Final(p, log), a) && Accepted(p, log + [a])
    ensures a == e.(approvals := a.approvals)
    ensures Required(Final(p, log), a) == Some(a.approvals.Keys)
  {
    hide Hash, Payload, Proposed, HonestSigner, Accepts, Loaded, SignAll, SignerIds, Required, Accepted, Final,
         NextMembers, DistinctKeys, Holds, Ready;
    var st := Final(p, log);
    ProposedReady(p, log, e);
    NewDirectory(p, st, e);
    AcceptsWhen(p, st, e, map[]);
    HonestFlow(p, log, e, PendingDir(e, map[]), map[], signers);
    a := Loaded(p, SignAll(p, PendingDir(e, map[]), signers).value).value;
    assert a.approvals.Keys == SignerIds(signers);
    RequiredUnsigned(st, e, a.approvals);
    ReplayAppend(p, log, a);
  }

  lemma ExactlyLiable(p: Primitives, st: St, a: Entry, b: Entry)
    requires Accepts(p, st, a) && Accepts(p, st, b)
    requires st.nextSeq == 0 ==> st.members == map[]
    requires Required(st, a) == Some(a.approvals.Keys) && Required(st, b) == Some(b.approvals.Keys)
    ensures Forks.SignedBoth(p, st.members, a, b) == Forks.Liable(st, a, b)
  {
    hide Accepts, Required, Payload, Forks.Targets;
    Forks.ManySignBoth(p, st, st, a, b);
    forall id | id in Forks.SignedBoth(p, st.members, a, b) ensures id in Forks.Liable(st, a, b) {
      NoTargetSigned(p, st, a, id);
      NoTargetSigned(p, st, b, id);
    }
  }

  lemma NoTargetSigned(p: Primitives, st: St, a: Entry, id: Text)
    requires Accepts(p, st, a) && Required(st, a) == Some(a.approvals.Keys) && id in a.approvals
    ensures id !in Forks.Targets(a)
  {
    hide Accepts, Payload, HasPayload, Hash, ValidSig;
    AcceptedFacts(p, st, a);
  }

  // ---- detached signatures ----

  lemma SignedFrom(p: Primitives, dir: PendingDir, signed: PendingDir, id: Identity, s: SigFile)
    requires Loaded(p, dir).Some? && SigOf(p, id, Loaded(p, dir).value) == Some(s)
    requires Tidy(signed.sigs) && Loaded(p, signed).Some? && signed.entry == dir.entry
    ensures HashMatches(p, dir.entry, s)
    ensures SignedDir(p, signed, id) == Saved(signed, s)
    ensures Complete(s) ==> Tidy(Saved(signed, s).value.sigs) && Loaded(p, Saved(signed, s).value).Some?
  {
    hide Hash, Loadable, Collected, Listing, FileName, Complete;
    LoadedHash(p, dir);
    LoadedHash(p, signed);
    LoadedSome(p, signed);
    if Complete(s) {
      SavedLoadable(p, signed, s);
      LoadedSome(p, Saved(signed, s).value);
    }
  }

  lemma {:induction false} SignAllFrom(p: Primitives, dir: PendingDir, signers: seq<Identity>, sigs: seq<SigFile>)
    requires Tidy(dir.sigs) && Loaded(p, dir).Some? && |sigs| == |signers|
    requires forall i :: 0 <= i < |sigs| ==> SigOf(p, signers[i], Loaded(p, dir).value) == Some(sigs[i])
    ensures SignAll(p, dir, signers).Some? <==> forall i :: 0 <= i < |sigs| ==> Complete(sigs[i])
    ensures SignAll(p, dir, signers).Some? ==>
              && SignAll(p, dir, signers) == Some(SaveAll(dir, sigs))
              && Tidy(SaveAll(dir, sigs).sigs) && Loaded(p, SaveAll(dir, sigs)).Some?
    ensures forall i :: 0 <= i < |sigs| ==> HashMatches(p, dir.entry, sigs[i])
  {
    hide Loaded, SigOf, Tidy, HashMatches, SignedDir, Complete, FileName;
    if signers != [] {
      var n := |signers| - 1;
      SignAllFrom(p, dir, signers[..n], sigs[..n]);
      assert forall i :: 0 <= i < n ==> sigs[..n][i] == sigs[i];
      SignedFrom(p, dir, dir, signers[n], sigs[n]);
      if SignAll(p, dir, signers[..n]).Some? {
        SignedFrom(p, dir, SaveAll(dir, sigs[..n]), signers[n], sigs[n]);
      }
    }
  }

  lemma {:induction false} AllMergeable(p: Primitives, e: Entry, files: seq<SigFile>)
    requires forall i :: 0 <= i < |files| ==> HashMatches(p, e, files[i])
    ensures MergeablePrefix(p, e, files) == |files| <==> forall i :: 0 <= i < |files| ==> Complete(files[i])
  {
    hide HashMatches, Complete;
    var n := MergeablePrefix(p, e, files);
    if n < |files| {
      MergeableAt(p, e, files, n);
    } else {
      forall i | 0 <= i < |files| ensures Complete(files[i]) {
        MergeableAt(p, e, files, i);
      }
    }
  }

  /** Signatures that `sign -out` makes from one and the same copy of a directory all merge exactly
      when signing in place succeeds for everybody, and then both lead to the same directory. */
  lemma DetachedThenMerge(p: Primitives, dir: PendingDir, signers: seq<Identity>, sigs: seq<SigFile>)
    requires Tidy(dir.sigs) && Loaded(p, dir).Some? && |sigs| == |signers|
    requires forall i :: 0 <= i < |sigs| ==> SigOf(p, signers[i], Loaded(p, dir).value) == Some(sigs[i])
    ensures MergeablePrefix(p, dir.entry, sigs) == |sigs| <==> SignAll(p, dir, signers).Some?
    ensures SignAll(p, dir, signers).Some? ==> SignAll(p, dir, signers) == Some(SaveAll(dir, sigs))
  {
    hide *;
    SignAllFrom(p, dir, signers, sigs);
    AllMergeable(p, dir.entry, sigs);
  }
}
