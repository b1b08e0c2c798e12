/** The ledger subcommands (cmd/tfnet/cmd_ledger.go, cmd/tfnet/cmd_ledger_simple.go). A command that
    dies returns failure; what it has already written stays on the disk. */
module Commands {
  import opened Bytes
  import opened Codec
  import opened Entries
  import opened States
  import opened Runs
  import opened Pendings
  import opened Stores
  import opened Protocol

  /** An identity key file, as LoadIdentity returns it. */
  datatype Identity = Identity(nodeId: Text, privateKey: Text, publicKey: Text)

  /** 64 zero digits. */
  function ZeroHash(): Text { Zeros(64) }

  lemma ZeroHashDecodes()
    ensures HexDecode(ZeroHash()) == Some(Zero32())
  {
    ZerosDecode(32);
  }

  lemma {:induction false} ZerosDecode(k: nat)
    ensures HexDecode(Zeros(2 * k)) == Some(BigEndian(0, k))
  {
    if k > 0 {
      ZerosDecode(k - 1);
      assert Zeros(2 * k) == [48] + Zeros(2 * k - 1) && Zeros(2 * k - 1) == [48] + Zeros(2 * (k - 1));
      assert Zeros(2 * k)[2..] == Zeros(2 * (k - 1));
      ZeroFront(k - 1);
    }
  }

  lemma {:induction false} ZeroFront(k: nat)
    ensures BigEndian(0, k + 1) == [0] + BigEndian(0, k)
  {
    if k > 0 {
      ZeroFront(k - 1);
    }
  }

  // ---- the entries the propose commands build ----

  function GenesisEntry(subs: seq<Subject>): Entry {
    Entry(0, ZeroHash(), Genesis, None, subs, map[])
  }

  function AddEntry(st: St, s: Subject): Entry {
    Entry(st.nextSeq, HexEncode(st.prevHash), Add, Some(s), [], map[])
  }

  function RemoveEntry(st: St, target: Subject): Entry {
    Entry(st.nextSeq, HexEncode(st.prevHash), Remove, Some(target), [], map[])
  }

  ghost function ProposedGenesis(p: Primitives, st: St, subs: seq<Subject>): Option<Entry> {
    if st.nextSeq == 0 && subs != [] && Hash(p, GenesisEntry(subs)).Some?
    then Some(GenesisEntry(subs)) else None
  }

  ghost predicate FreeOverlay(st: St, overlay: Text) {
    forall id :: id in st.members ==> st.members[id].overlayIp != overlay
  }

  ghost function ProposedAdd(p: Primitives, st: St, s: Subject): Option<Entry> {
    if s.nodeId != [] && s.identityPubkey != [] && s.wgPubkey != [] && s.overlayIp != []
       && s.nodeId !in st.members && FreeOverlay(st, s.overlayIp) && Hash(p, AddEntry(st, s)).Some?
    then Some(AddEntry(st, s)) else None
  }

  ghost function ProposedRemove(st: St, id: Text): Option<Entry> {
    if id in st.members then Some(RemoveEntry(st, st.members[id])) else None
  }

  /** What a successful proposal leaves in pending/. */
  ghost predicate Stored(p: Primitives, before: Disk, after: Disk, e: Option<Entry>, name: Option<Text>) {
    && after.log == before.log
    && match e
       case Some(e) => name == PendingName(p, e) && name.Some?
                       && after.pending == WithProposal(before.pending, name.value, e)
       case None => name == None && after == before
  }

  lemma StoredReaches(p: Primitives, before: Disk, after: Disk, e: Option<Entry>, name: Option<Text>)
    requires Stored(p, before, after, e, name)
    ensures Reaches(p, before, after)
  {
    hide Reaches, PendingName;
    ReachesSelf(p, before);
    match e
    case Some(e) =>
      ReachesEdit(p, before, before, name.value, after.pending[name.value]);
    case None =>
  }

  /** A proposal that goes through is found in the directory of its name, without approvals; one that
      does not changes nothing. */
  lemma StoredMeans(p: Primitives, before: Disk, after: Disk, e: Option<Entry>, name: Option<Text>)
    requires Stored(p, before, after, e, name)
    ensures after.log == before.log && name.Some? == e.Some?
    ensures e == None ==> after == before
    ensures e.Some? ==> name == PendingName(p, e.value) && name.value in after.pending
                        && after.pending[name.value].entry == e.value.(approvals := map[])
  {
    hide PendingName;
  }

  method ReplayOrDie(store: Store) returns (st: State, ok: bool)
    ensures fresh(st) && st.p == store.p
    ensures ok == Accepted(store.p, store.log)
    ensures ok ==> st.Value() == Final(store.p, store.log)
  {
    st, ok := store.Replay();
  }

  method ProposeGenesis(store: Store, subs: seq<Subject>) returns (name: Option<Text>)
    modifies store`pending
    ensures Stored(store.p, old(store.Value()), store.Value(),
                   if Accepted(store.p, old(store.log))
                   then ProposedGenesis(store.p, Final(store.p, old(store.log)), subs) else None, name)
    ensures Reaches(store.p, old(store.Value()), store.Value())
  {
    hide Reaches, Hash, PendingName, Accepted, Final, WithProposal;
    ghost var before := store.Value();
    ReachesSelf(store.p, before);
    var st, ok := ReplayOrDie(store);
    if !ok { return None; }
    if st.nextSeq != 0 { return None; }
    if |subs| == 0 { return None; }
    var e := GenesisEntry(subs);
    var h := ComputeHash(store.p, e);
    if h.None? { return None; }
    PendingNameSome(store.p, e);
    name := store.SavePending(e);
    StoredReaches(store.p, before, store.Value(), Some(e), name);
  }

  lemma PendingNameSome(p: Primitives, e: Entry)
    ensures PendingName(p, e).Some? <==> Hash(p, e).Some?
  {
  }

  /** The common part of propose-add and propose-self-add. */
  method ProposeAdd(store: Store, s: Subject) returns (name: Option<Text>)
    modifies store`pending
    ensures Stored(store.p, old(store.Value()), store.Value(),
                   if Accepted(store.p, old(store.log))
                   then ProposedAdd(store.p, Final(store.p, old(store.log)), s) else None, name)
    ensures Reaches(store.p, old(store.Value()), store.Value())
  {
    hide Reaches, Hash, PendingName, Accepted, Final, WithProposal;
    ghost var before := store.Value();
    ReachesSelf(store.p, before);
    if s.nodeId == [] || s.identityPubkey == [] || s.wgPubkey == [] || s.overlayIp == [] { return None; }
    var st, ok := ReplayOrDie(store);
    if !ok { return None; }
    WellFormedMembers(store.p, store.log);
    if s.nodeId in st.members { return None; }
    var existing := st.MemberByOverlayIP(s.overlayIp);
    if existing != [] { return None; }
    var hex := HexText(st.prevHash);
    var e := Entry(st.nextSeq, hex, Add, Some(s), [], map[]);
    var h := ComputeHash(store.p, e);
    if h.None? { return None; }
    PendingNameSome(store.p, e);
    name := store.SavePending(e);
    StoredReaches(store.p, before, store.Value(), Some(e), name);
  }

  /** The proposal is always saved for a current member: its hash never fails. */
  method ProposeRemove(store: Store, id: Text) returns (name: Option<Text>)
    modifies store`pending
    ensures Stored(store.p, old(store.Value()), store.Value(),
                   if Accepted(store.p, old(store.log))
                   then ProposedRemove(Final(store.p, old(store.log)), id) else None, name)
    ensures Reaches(store.p, old(store.Value()), store.Value())
  {
    hide Reaches, Hash, PendingName, Accepted, Final, WithProposal, WellFormed;
    ghost var before := store.Value();
    ReachesSelf(store.p, before);
    var st, ok := ReplayOrDie(store);
    if !ok { return None; }
    WellFormedMembers(store.p, store.log);
    if id == [] {
      NoEmptyId(store.p, st.members);
      return None;
    }
    if id !in st.members { return None; }
    var target := st.members[id];
    var hex := HexText(st.prevHash);
    var e := Entry(st.nextSeq, hex, Remove, Some(target), [], map[]);
    var h := ComputeHash(store.p, e);
    RemoveHashes(store.p, st.Value(), id);
    if h.None? { return None; }
    PendingNameSome(store.p, e);
    name := store.SavePending(e);
    StoredReaches(store.p, before, store.Value(), Some(e), name);
  }

  lemma NoEmptyId(p: Primitives, m: map<Text, Subject>)
    requires GoodMembers(p, m)
    ensures [] !in m
  {
  }

  lemma RemoveHashes(p: Primitives, st: St, id: Text)
    requires GoodMembers(p, st.members) && id in st.members
    ensures Hash(p, RemoveEntry(st, st.members[id])).Some?
  {
    HexRoundTrip(st.prevHash);
  }

  // ---- sign ----

  predicate CompleteIdentity(id: Identity) {
    id.nodeId != [] && id.privateKey != [] && id.publicKey != []
  }

  /** The detached signature an identity makes on an entry. */
  ghost function SigOf(p: Primitives, id: Identity, e: Entry): Option<SigFile> {
    match (p.b64Decode(id.privateKey), Hash(p, e))
    case (Some(seed), Some(h)) =>
      if CompleteIdentity(id) && |seed| == 32
      then Some(SigFile(id.nodeId, HexEncode(h), p.b64Encode(p.edSign(seed, h)))) else None
    case _ => None
  }

  /** A pending directory after an identity has signed it. */
  ghost function SignedDir(p: Primitives, dir: PendingDir, id: Identity): Option<PendingDir> {
    match Loaded(p, dir)
    case None => None
    case Some(e) =>
      match SigOf(p, id, e)
      case None => None
      case Some(s) => Saved(dir, s)
  }

  /** A signature is made exactly by a complete identity with a 32-byte seed on an entry that has a
      payload: it names the signer, records the digest of the payload, and signs that digest. */
  lemma SignatureMeans(p: Primitives, id: Identity, e: Entry)
    ensures SigOf(p, id, e).Some? <==>
            && |id.nodeId| > 0 && |id.privateKey| > 0 && |id.publicKey| > 0
            && p.b64Decode(id.privateKey).Some? && |p.b64Decode(id.privateKey).value| == 32
            && Payload(p, e).Some?
    ensures SigOf(p, id, e).Some? ==>
              var s, digest := SigOf(p, id, e).value, p.sha256(Payload(p, e).value);
              && s.nodeId == id.nodeId
              && s.entryHash != [] && HexDecode(s.entryHash) == Some(digest)
              && s.signature == p.b64Encode(p.edSign(p.b64Decode(id.privateKey).value, digest))
  {
    hide Payload, HexDecode, HexEncode;
    if Payload(p, e).Some? {
      HexRoundTrip(p.sha256(Payload(p, e).value));
    }
  }

  /** A signature made for one payload is refused by merge into, and makes unloadable, a directory
      whose entry has another digest. */
  lemma ForeignSignatureRefused(p: Primitives, id: Identity, e: Entry, s: SigFile, dir: PendingDir, files: seq<SigFile>)
    requires SigOf(p, id, e) == Some(s) && Payload(p, e).Some?
    requires Payload(p, dir.entry).Some? ==>
               p.sha256(Payload(p, dir.entry).value) != p.sha256(Payload(p, e).value)
    ensures files != [] && files[0] == s ==> MergeablePrefix(p, dir.entry, files) == 0
    ensures |s.signature| > 0 && Loaded(p, dir).Some? ==> Loaded(p, Saved(dir, s).value) == None
  {
    hide Payload, SigOf, HexEncode, HexDecode, Loaded, FileName;
    SignatureMeans(p, id, e);
    SavedWhen(dir, s);
    if Payload(p, dir.entry).Some? {
      HexRoundTrip(p.sha256(Payload(p, dir.entry).value));
    }
    LoadsWhen(p, dir, Payload(p, dir.entry));
    if |s.signature| > 0 {
      FileNameInjective(s.nodeId, s.nodeId);
      LoadsWhen(p, Saved(dir, s).value, Payload(p, dir.entry));
      assert FileOf(s) in Saved(dir, s).value.sigs;
    }
  }

  method MakeSignature(p: Primitives, id: Identity, e: Entry) returns (r: Option<SigFile>)
    ensures r == SigOf(p, id, e)
  {
    hide Hash;
    if id.nodeId == [] || id.privateKey == [] || id.publicKey == [] { return None; }
    var h := ComputeHash(p, e);
    if h.None? { return None; }
    var seed := p.b64Decode(id.privateKey);
    if seed.None? { return None; }
    if |seed.value| != 32 { return None; }
    var hex := HexText(h.value);
    return Some(SigFile(id.nodeId, hex, p.b64Encode(p.edSign(seed.value, h.value))));
  }

  /** Signing in place works exactly for a directory that loads and an identity that can make a
      signature; it adds the file <node id>.json and nothing else. */
  lemma SigningMeans(p: Primitives, dir: PendingDir, id: Identity, s: Option<SigFile>)
    requires s == SigOf(p, id, dir.entry)
    ensures SignedDir(p, dir, id) ==
            if Loaded(p, dir).Some? && s.Some? && |s.value.signature| > 0
            then Some(PendingDir(dir.entry, dir.sigs[id.nodeId + Ascii(".json") := s.value])) else None
  {
    hide Hash, Loaded, HexEncode;
    if Loaded(p, dir).Some? {
      LoadedHash(p, dir);
      if s.Some? {
        SavedWhen(dir, s.value);
      }
    }
  }

  /** `sign -out`: the signature is written to a file of its own and the disk stays as it is. */
  method SignDetached(store: Store, id: Identity, name: Text) returns (s: Option<SigFile>)
    ensures s == if name in store.pending && Loaded(store.p, store.pending[name]).Some?
                 then SigOf(store.p, id, Loaded(store.p, store.pending[name]).value) else None
  {
    hide Loaded, SigOf;
    if name !in store.pending { return None; }
    var e := LoadPending(store.p, store.pending[name]);
    if e.None? { return None; }
    s := MakeSignature(store.p, id, e.value);
  }

  method Sign(store: Store, id: Identity, name: Text) returns (ok: bool)
    modifies store`pending
    ensures ok == (name in old(store.pending) && SignedDir(store.p, old(store.pending)[name], id).Some?)
    ensures store.pending == if ok then old(store.pending)[name := SignedDir(store.p, old(store.pending)[name], id).value]
                             else old(store.pending)
    ensures Reaches(store.p, old(store.Value()), store.Value())
  {
    hide Reaches, Loaded, SigOf;
    ReachesSelf(store.p, store.Value());
    var s := SignDetached(store, id, name);
    if s.None? { return false; }
    ghost var before := store.Value();
    ok := store.SaveSig(name, s.value);
    if ok {
      ReachesEdit(store.p, before, before, name, store.pending[name]);
    }
  }

  /** propose-add for the joiner's own keys, with the joiner's signature added at once. An incomplete
      key file is refused first; if signing fails the proposal stays. */
  method ProposeSelfAdd(store: Store, id: Identity, wgPublicKey: Text, overlay: Text, endpoint: Text)
    returns (name: Option<Text>, signed: bool)
    modifies store`pending
    ensures var p, before := store.p, old(store.Value());
            var s := Subject(id.nodeId, id.publicKey, wgPublicKey, overlay, endpoint);
            var e := if CompleteIdentity(id) && Accepted(p, before.log)
                     then ProposedAdd(p, Final(p, before.log), s) else None;
            && name.Some? == e.Some?
            && store.log == before.log
            && (name.None? ==> !signed && store.pending == before.pending)
            && (name.Some? ==>
                  && name == PendingName(p, e.value)
                  && var proposed := WithProposal(before.pending, name.value, e.value);
                     var dir := SignedDir(p, proposed[name.value], id);
                     && signed == dir.Some?
                     && store.pending == if signed then proposed[name.value := dir.value] else proposed)
    ensures Reaches(store.p, old(store.Value()), store.Value())
  {
    hide Reaches, Hash, PendingName, Accepted, Final, ProposedAdd, SignedDir;
    ReachesSelf(store.p, store.Value());
    if id.nodeId == [] || id.privateKey == [] || id.publicKey == [] { return None, false; }
    var s := Subject(id.nodeId, id.publicKey, wgPublicKey, overlay, endpoint);
    name := ProposeAdd(store, s);
    if name.None? { return None, false; }
    ghost var before, proposed := old(store.Value()), store.Value();
    signed := Sign(store, id, name.value);
    if signed {
      ReachesEdit(store.p, before, proposed, name.value, store.pending[name.value]);
    }
  }

  // ---- merge ----

  /** How many signature files are merged before one that is incomplete or for another entry. */
  ghost function MergeablePrefix(p: Primitives, e: Entry, files: seq<SigFile>): (n: nat)
    ensures n <= |files|
  {
    if files == [] || !Complete(files[0]) || !HashMatches(p, e, files[0]) then 0
    else 1 + MergeablePrefix(p, e, files[1..])
  }

  lemma {:induction false} MergeableAt(p: Primitives, e: Entry, files: seq<SigFile>, i: nat)
    requires i < |files| && i <= MergeablePrefix(p, e, files)
    ensures i < MergeablePrefix(p, e, files) <==> Complete(files[i]) && HashMatches(p, e, files[i])
  {
    hide Complete, HashMatches;
    if i > 0 {
      MergeableAt(p, e, files[1..], i - 1);
    }
  }

  /** The files before the first unacceptable one are saved, also when the command then dies. */
  method Merge(store: Store, name: Text, files: seq<SigFile>) returns (ok: bool)
    modifies store`pending
    ensures if name in old(store.pending) && Loaded(store.p, old(store.pending)[name]).Some? then
              var dir := old(store.pending)[name];
              var n := MergeablePrefix(store.p, dir.entry, files);
              ok == (n == |files|) && store.pending == old(store.pending)[name := SaveAll(dir, files[..n])]
            else !ok && store.pending == old(store.pending)
    ensures Reaches(store.p, old(store.Value()), store.Value())
  {
    hide Reaches, Loaded, Hash, MergeablePrefix, Complete, FileOf, HexEncode, SaveAll;
    var p := store.p;
    ReachesSelf(p, store.Value());
    if name !in store.pending { return false; }
    ghost var before := store.Value();
    var dir := store.pending[name];
    var e := LoadPending(p, dir);
    if e.None? { return false; }
    LoadedHash(p, dir);
    var h := ComputeHash(p, e.value);
    var hex := HexText(h.value);
    ghost var n := MergeablePrefix(p, dir.entry, files);
    NoneMerged(dir, files);
    assert store.pending == store.pending[name := SaveAll(dir, files[..0])];
    for i := 0 to |files|
      invariant i <= n
      invariant store.pending == before.pending[name := SaveAll(dir, files[..i])]
      invariant store.log == before.log
      invariant Reaches(p, before, store.Value())
    {
      MergeableAt(p, dir.entry, files, i);
      var s := files[i];
      if s.nodeId == [] || s.signature == [] {
        assert !Complete(files[i]) by { Incomplete(s); }
        return false;
      }
      if s.entryHash != [] && s.entryHash != hex { return false; }
      ghost var d := store.Value();
      var saved := store.SaveSig(name, s);
      if !saved { return false; }
      ReachesEdit(p, before, d, name, store.pending[name]);
      MergedOne(dir, files, i, s);
    }
    assert files[..|files|] == files;
    ok := true;
  }

  lemma NoneMerged(dir: PendingDir, files: seq<SigFile>)
    ensures SaveAll(dir, files[..0]) == dir
  {
  }

  lemma MergedOne(dir: PendingDir, files: seq<SigFile>, i: nat, s: SigFile)
    requires i < |files| && files[i] == s && Complete(s)
    ensures Saved(SaveAll(dir, files[..i]), s) == Some(SaveAll(dir, files[..i + 1]))
  {
    hide Complete, FileOf;
    assert files[..i + 1][..i] == files[..i];
  }

  lemma Incomplete(s: SigFile)
    requires s.nodeId == [] || s.signature == []
    ensures !Complete(s)
  {
  }

  lemma LoadedHash(p: Primitives, dir: PendingDir)
    requires Loaded(p, dir).Some?
    ensures Hash(p, dir.entry).Some? && Hash(p, Loaded(p, dir).value) == Hash(p, dir.entry)
  {
    hide Hash;
    SameHash(p, dir.entry, Loaded(p, dir).value.approvals);
  }

  // ---- commit ----

  /** Replays, loads, applies, appends, and removes the directory unless `keep` is set. */
  method CommitPending(store: Store, name: Text, keep: bool) returns (ok: bool)
    modifies store`log, store`pending
    ensures ok == Committable(store.p, old(store.Value()), name).Some?
    ensures store.Value() == Committed(store.p, old(store.Value()), name, keep)
    ensures Reaches(store.p, old(store.Value()), store.Value())
  {
    hide Reaches, Loaded, Accepts, Accepted, Final, NextMembers;
    var p := store.p;
    ReachesSelf(p, store.Value());
    ReachesAct(p, store.Value(), store.Value(), Commit(name, keep));
    var st, replayed := ReplayOrDie(store);
    if !replayed { return false; }
    if name !in store.pending { return false; }
    var e := LoadPending(p, store.pending[name]);
    if e.None? { return false; }
    ok := st.Apply(e.value);
    if !ok { return false; }
    store.Append(e.value);
    if !keep {
      store.Remove(name);
    }
  }

  // ---- approve ----

  /** Whether id may approve the proposal in `name`. */
  ghost predicate Approvable(p: Primitives, d: Disk, name: Text, id: Identity) {
    && Accepted(p, d.log)
    && name in d.pending && Loaded(p, d.pending[name]).Some?
    && var req := Required(Final(p, d.log), Loaded(p, d.pending[name]).value);
       req.Some? && id.nodeId in req.value && CompleteIdentity(id)
  }

  /** The disk after the sign step, which is skipped where id has signed already. */
  ghost function AfterSigning(p: Primitives, d: Disk, name: Text, id: Identity): Option<Disk>
    requires Approvable(p, d, name, id)
  {
    if id.nodeId in Loaded(p, d.pending[name]).value.approvals then Some(d)
    else
      match SignedDir(p, d.pending[name], id)
      case Some(dir) => Some(d.(pending := d.pending[name := dir]))
      case None => None
  }

  ghost predicate FullySigned(p: Primitives, d: Disk, name: Text) {
    && name in d.pending && Loaded(p, d.pending[name]).Some?
    && Missing(Final(p, d.log), Loaded(p, d.pending[name]).value) == Some([])
  }

  /** The disk after approve: sign, and when that leaves no approval missing, commit. */
  ghost function AfterApprove(p: Primitives, d: Disk, name: Text, id: Identity, noFinalize: bool): Disk {
    if Approvable(p, d, name, id) && AfterSigning(p, d, name, id).Some? then
      var signed := AfterSigning(p, d, name, id).value;
      if !noFinalize && FullySigned(p, signed, name) then Committed(p, signed, name, false) else signed
    else d
  }

  /** approve fails where the identity may not approve or cannot sign, and where the commit fails;
      a signature it has made by then stays. */
  method Approve(store: Store, name: Text, id: Identity, noFinalize: bool) returns (ok: bool)
    modifies store`log, store`pending
    ensures store.Value() == AfterApprove(store.p, old(store.Value()), name, id, noFinalize)
    ensures var p, before := store.p, old(store.Value());
            ok <==> Approvable(p, before, name, id) && AfterSigning(p, before, name, id).Some?
                    && var signed := AfterSigning(p, before, name, id).value;
                       !noFinalize && FullySigned(p, signed, name) ==> Committable(p, signed, name).Some?
    ensures Reaches(store.p, old(store.Value()), store.Value())
  {
    hide Reaches, Loaded, Accepts, Accepted, Final, NextMembers, Missing, Required, SigOf;
    var p := store.p;
    ghost var before := store.Value();
    ReachesSelf(p, before);
    var st, replayed := ReplayOrDie(store);
    if !replayed { return false; }
    if name !in store.pending { return false; }
    var target := LoadPending(p, store.pending[name]);
    if target.None? { return false; }
    var req := st.RequiredApprovers(target.value);
    if req.None? { return false; }
    if id.nodeId == [] || id.privateKey == [] || id.publicKey == [] { return false; }
    if id.nodeId !in req.value { return false; }
    if id.nodeId !in target.value.approvals {
      var s := MakeSignature(p, id, target.value);
      if s.None? { return false; }
      var saved := store.SaveSig(name, s.value);
      if !saved { return false; }
      SignedStaysLoaded(p, before.pending[name], id);
      ReachesEdit(p, before, before, name, store.pending[name]);
      var reloaded := LoadPending(p, store.pending[name]);
      if reloaded.Some? {
        target := reloaded;
      }
    }
    ghost var d := store.Value();
    if noFinalize { return true; }
    var miss := st.MissingApprovers(target.value);
    if miss != Some([]) { return true; }
    ReachesAct(p, before, d, Commit(name, false));
    ok := st.Apply(target.value);
    if !ok { return false; }
    store.Append(target.value);
    store.Remove(name);
  }

  /** Reloading after signing succeeds. */
  lemma SignedStaysLoaded(p: Primitives, dir: PendingDir, id: Identity)
    requires SignedDir(p, dir, id).Some?
    ensures Loaded(p, SignedDir(p, dir, id).value).Some?
  {
    hide Hash;
    LoadedHash(p, dir);
    FileNameInjective(id.nodeId, id.nodeId);
  }

  /** approve leaves the log alone under -no-finalize, leaves every other directory alone, and changes
      nothing at all for somebody who is not required, with an incomplete key file, on a log that does not replay, or without a
      directory that loads. */
  lemma ApproveLeaves(p: Primitives, d: Disk, name: Text, id: Identity, noFinalize: bool)
    ensures noFinalize ==> AfterApprove(p, d, name, id, noFinalize).log == d.log
    ensures var after := AfterApprove(p, d, name, id, noFinalize);
            && (forall other :: other != name ==>
                  (other in after.pending <==> other in d.pending)
                  && (other in d.pending ==> after.pending[other] == d.pending[other]))
            && (!Accepted(p, d.log) || name !in d.pending || Loaded(p, d.pending[name]) == None ==> after == d)
            && (id.nodeId == [] || id.privateKey == [] || id.publicKey == [] ==> after == d)
            && (Accepted(p, d.log) && name in d.pending && Loaded(p, d.pending[name]).Some? ==>
                  var req := Required(Final(p, d.log), Loaded(p, d.pending[name]).value);
                  req == None || id.nodeId !in req.value ==> after == d)
  {
    hide Accepted, Accepts, Loaded, Final, Required, SignedDir, FullySigned, Committable;
  }
}
