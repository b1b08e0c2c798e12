/** Where the code does less than its comments promise: for each such promise one concrete input
    that breaks it. The exact condition is proved elsewhere: Runs.RejectedUnchanged,
    Stores.SameDirectory, Render.OverlayKept, Syncer.ExtendsExactly. */
module Witnesses {
  import opened Bytes
  import opened Sorting
  import opened Codec
  import opened Entries
  import opened States
  import opened Runs
  import opened Stores
  import opened Commands
  import Render

  // ---- an instance of the primitives ----

  /** A digest that keeps only the last byte. */
  function LastByte(b: Bytes): Bytes32 {
    if b == [] then Zero32() else Zero32()[31 := b[|b| - 1]]
  }

  /** Primitives that accept any key, any overlay and any 64-byte signature; the host of an overlay
      is what precedes a two-digit mask. */
  function Lax(): Primitives {
    Primitives(
      b => LastByte(b), t => Some(if t == [64] then BigEndian(0, 64) else Zero32()), b => [],
      (seed, msg) => [], (key, msg, sig) => true,
      t => Some(if |t| > 3 then t[..|t| - 3] else t), t => true)
  }

  function LaxSubject(id: uint8, overlay: Text): Subject { Subject([id], [1], [1], overlay, []) }

  lemma LaxChecks(id: uint8, overlay: Text, key: Bytes32, msg: Bytes)
    ensures WellFormed(Lax(), LaxSubject(id, overlay))
    ensures Key32(Lax(), LaxSubject(id, overlay).identityPubkey).Some?
    ensures ValidSig(Lax(), key, msg, [64])
  {
  }

  lemma LaxSigned(m: map<Text, Subject>, e: Entry, id: Text)
    requires id in e.approvals && e.approvals[id] == [64] && id in m && Payload(Lax(), e).Some?
    ensures Signed(Lax(), m, e, id)
  {
    hide Lax, Payload, ValidSig, KeyBytes;
    LaxChecks(0, [], KeyBytes(Lax(), m[id].identityPubkey), Hash(Lax(), e).value);
  }

  lemma LaxPasses(st: St, e: Entry)
    requires e.seqNo == st.nextSeq && HexDecode(e.prevHash) == Some(st.prevHash)
    requires Payload(Lax(), e).Some? && HasKeys(Lax(), st.members) && Required(st, e).Some?
    requires Required(st, e).value <= e.approvals.Keys <= Candidates(st, e).Keys
    requires forall id :: id in e.approvals ==> e.approvals[id] == [64]
    ensures ChecksPass(Lax(), st, e)
  {
    hide Lax, Payload, HasKeys, Required, Candidates, Signed, HexDecode;
    forall id | id in e.approvals ensures Signed(Lax(), Candidates(st, e), e, id) {
      LaxSigned(Candidates(st, e), e, id);
    }
  }

  lemma LaxPayload(e: Entry)
    requires Shape(e) && HexDecode(e.prevHash).Some? && |HexDecode(e.prevHash).value| == 32
    requires forall s :: s in Listed(e) ==> |s.nodeId| == 1 && s == LaxSubject(s.nodeId[0], s.overlayIp)
    ensures Payload(Lax(), e).Some?
  {
    hide Lax, WellFormed, Encode, ContentOf, HexDecode;
    forall s | s in Listed(e) ensures WellFormed(Lax(), s) {
      LaxChecks(s.nodeId[0], s.overlayIp, Zero32(), []);
    }
  }

  // ---- an error that changes the state ----

  function CrowdedState(): St { St(map[[98] := LaxSubject(98, [1])], 0, Zero32()) }

  function CrowdedGenesis(): Entry {
    Entry(0, HexEncode(Zero32()), Genesis, None, [LaxSubject(97, [1]), LaxSubject(98, [1])],
          map[[97] := [64], [98] := [64]])
  }

  lemma CrowdedIds()
    ensures Ids(CrowdedGenesis().subjects) == {[97], [98]} && Listed(CrowdedGenesis()) == CrowdedGenesis().subjects
    ensures Required(CrowdedState(), CrowdedGenesis()) == Some({[97], [98]})
    ensures Candidates(CrowdedState(), CrowdedGenesis()).Keys == {[97], [98]}
  {
    hide Named, HexEncode;
    var subs := CrowdedGenesis().subjects;
    assert LaxSubject(97, [1]) in subs && LaxSubject(98, [1]) in subs;
    assert Ids(subs) == {[97], [98]};
  }

  /** On a State value no log leads to, an error changes the state: bob is already a member at
      sequence number zero, and a genesis of alice and bob fails at bob after inserting alice. */
  lemma PartialGenesisExists() returns (p: Primitives, st: St, e: Entry)
    ensures !Accepts(p, st, e) && Rejected(p, st, e) != st
  {
    hide ChecksPass, Rejected, Lax, HexEncode, HexDecode, Zero32, Ids, Required, Candidates, Payload, Key32;
    p, st, e := Lax(), CrowdedState(), CrowdedGenesis();
    CrowdedIds();
    HexRoundTrip(Zero32());
    LaxPayload(e);
    LaxChecks(98, [1], Zero32(), []);
    LaxPasses(st, e);
    assert [98] in Ids(Listed(e)) && [98] in st.members.Keys;
    RejectedUnchanged(p, st, e);
  }

  // ---- two proposals for one directory ----

  lemma LastOfAdd(p: Primitives, e: Entry)
    requires e.op.Add? && HasPayload(p, e) && e.subject.value.overlayIp != []
    ensures var b, t := Payload(p, e).value, e.subject.value.overlayIp;
            b != [] && b[|b| - 1] == t[|t| - 1]
  {
    hide HexDecode, WellFormed;
    OneSubject(p, e);
  }

  lemma AddHash(overlay: Text)
    requires overlay != []
    ensures var s := LaxSubject(97, overlay);
            && ProposedAdd(Lax(), Init(), s) == Some(AddEntry(Init(), s))
            && Hash(Lax(), AddEntry(Init(), s)) == Some(LastByte([overlay[|overlay| - 1]]))
  {
    hide HasPayload, Encode, ContentOf, HexEncode, HexDecode, Zero32;
    var e := AddEntry(Init(), LaxSubject(97, overlay));
    HexRoundTrip(Zero32());
    LaxPayload(e);
    LastOfAdd(Lax(), e);
  }

  lemma LastBytes(x: uint8, y: uint8)
    requires x != y
    ensures LastByte([x]) != LastByte([y]) && LastByte([x])[..6] == LastByte([y])[..6]
  {
    hide Zero32;
    assert LastByte([x])[31] != LastByte([y])[31];
  }

  /** Two proposals that propose-add builds for the same empty ledger: different hashes, one
      directory. */
  lemma DifferentProposalsSameDirectory() returns (p: Primitives, s: Subject, t: Subject, e: Entry, f: Entry)
    ensures ProposedAdd(p, Init(), s) == Some(e) && ProposedAdd(p, Init(), t) == Some(f)
    ensures e.seqNo == f.seqNo && Hash(p, e).Some? && Hash(p, f).Some? && Hash(p, e) != Hash(p, f)
    ensures PendingName(p, e) == PendingName(p, f)
  {
    hide Lax, Hash, ProposedAdd, LastByte, PendingName, Zero32, HexEncode;
    var a, b := Ascii("10.0.0.1/24"), Ascii("10.0.0.1/32");
    p, s, t := Lax(), LaxSubject(97, a), LaxSubject(97, b);
    e, f := AddEntry(Init(), s), AddEntry(Init(), t);
    AddHash(a);
    AddHash(b);
    LastBytes(a[10], b[10]);
    SameDirectory(p, e, f);
  }

  // ---- a genesis that cannot be accepted ----

  /** `ledger genesis` saves a list with a repeated node id whenever its subjects are well formed. */
  lemma DuplicateGenesisProposed(p: Primitives, s: Subject)
    requires WellFormed(p, s)
    ensures ProposedGenesis(p, Init(), [s, s]) == Some(GenesisEntry([s, s]))
    ensures !DistinctKeys(NodeIdOf, [s, s])
  {
    hide WellFormed, Encode, ContentOf, HexDecode, ZeroHash, Zero32;
    ZeroHashDecodes();
    assert NodeIdOf([s, s][0]) == NodeIdOf([s, s][1]);
  }

  // ---- one founder, two successors ----

  function Alice(): Subject { LaxSubject(97, Ascii("10.0.0.1/24")) }

  function Founding(): Entry {
    Entry(0, HexEncode(Zero32()), Genesis, None, [Alice()], map[[97] := [64]])
  }

  lemma FoundingAccepted()
    ensures Accepts(Lax(), Init(), Founding())
    ensures NextMembers(Init(), Founding()) == map[[97] := Alice()]
  {
    hide Lax, Payload, HexEncode, HexDecode, Zero32, Approved, Required, Candidates;
    var e := Founding();
    HexRoundTrip(Zero32());
    LaxPayload(e);
    OneFounder();
    LaxPasses(Init(), e);
  }

  lemma OneFounder()
    ensures Required(Init(), Founding()) == Some({[97]})
    ensures Candidates(Init(), Founding()).Keys == {[97]}
    ensures NextMembers(Init(), Founding()) == map[[97] := Alice()]
  {
    NamedOne(map[], Alice());
    assert Founding().subjects == [Alice()];
  }

  ghost function Founded(): St { Final(Lax(), [Founding()]) }

  lemma FoundedLog()
    ensures Accepted(Lax(), [Founding()]) && Final(Lax(), [Founding()]) == Founded()
    ensures Founded().members == map[[97] := Alice()] && Founded().nextSeq == 1
  {
    hide Lax, Accepts, NextMembers, Accepted, Final, Payload, Hash, Founding, Alice;
    FoundingAccepted();
    EmptyFinal(Lax());
    EmptyAccepted(Lax());
    ReplayAppend(Lax(), [], Founding());
    assert [] + [Founding()] == [Founding()];
  }

  lemma EmptyAccepted(p: Primitives)
    ensures Accepted(p, [])
  {
  }

  /** An ADD to Alice's ledger, signed by everyone. */
  ghost function Joining(s: Subject): Entry {
    AddEntry(Founded(), s).(approvals := map[[97] := [64], s.nodeId := [64]])
  }

  lemma JoiningProposed(id: uint8, overlay: Text)
    requires id != 97 && overlay != [] && overlay != Alice().overlayIp
    ensures var s := LaxSubject(id, overlay);
            && ProposedAdd(Lax(), Founded(), s) == Some(AddEntry(Founded(), s))
            && Payload(Lax(), Joining(s)).Some?
  {
    hide Lax, HasPayload, Encode, ContentOf, HexEncode, HexDecode, Founded;
    var s := LaxSubject(id, overlay);
    FoundedLog();
    HexRoundTrip(Founded().prevHash);
    LaxPayload(AddEntry(Founded(), s));
    LaxPayload(Joining(s));
  }

  lemma SecondMember(st: St, e: Entry, id: Text, m: Subject, s: Subject)
    requires e.op.Add? && e.subject == Some(s) && st.members == map[id := m] && s.nodeId != id
    ensures Required(st, e) == Some({id, s.nodeId}) && Candidates(st, e).Keys == {id, s.nodeId}
    ensures NextMembers(st, e) == map[id := m, s.nodeId := s] && NoClash(st, e)
  {
    hide Named, Ids;
    NamedOne(st.members, s);
    assert Listed(e) == [s];
    assert st.members + Named([s]) == map[id := m, s.nodeId := s];
    assert st.members.Keys == {id} && st.members.Keys + {s.nodeId} == {id, s.nodeId};
    assert (st.members + Named([s])).Keys == {id, s.nodeId};
  }

  lemma JoiningAccepted(id: uint8, overlay: Text)
    requires id != 97 && overlay != [] && overlay != Alice().overlayIp
    ensures var s := LaxSubject(id, overlay);
            && ProposedAdd(Lax(), Founded(), s) == Some(AddEntry(Founded(), s))
            && Accepts(Lax(), Founded(), Joining(s)) && Payload(Lax(), Joining(s)).Some?
            && Accepted(Lax(), [Founding(), Joining(s)])
            && NextMembers(Founded(), Joining(s)) == map[[97] := Alice(), [id] := s]
  {
    hide Lax, Payload, HexEncode, HexDecode, Accepted, Final, Founded, Founding, ChecksPass, NoClash, NextMembers,
         Required, Candidates, ProposedAdd, HasKeys;
    var s := LaxSubject(id, overlay);
    var st, e := Founded(), Joining(s);
    FoundedLog();
    WellFormedMembers(Lax(), [Founding()]);
    JoiningProposed(id, overlay);
    SecondMember(st, e, [97], Alice(), s);
    HexRoundTrip(st.prevHash);
    LaxPasses(st, e);
    ReplayAppend(Lax(), [Founding()], e);
    assert [Founding()] + [e] == [Founding(), e];
  }

  /** propose-add and Apply accept a member on an overlay host that is taken, written with another
      mask; neither checks hosts. */
  lemma CollidingHostAccepted() returns (p: Primitives, log: seq<Entry>, s: Subject, approvals: map<Text, Text>)
    ensures Accepted(p, log) && Render.UniqueOverlay(p, Final(p, log).members)
    ensures ProposedAdd(p, Final(p, log), s) == Some(AddEntry(Final(p, log), s))
    ensures var e := AddEntry(Final(p, log), s).(approvals := approvals);
            Accepts(p, Final(p, log), e) && !Render.UniqueOverlay(p, NextMembers(Final(p, log), e))
  {
    hide *;
    p, log, s := Lax(), [Founding()], Bob();
    approvals := map[[97] := [64], s.nodeId := [64]];
    FoundedLog();
    BobColliding();
  }

  function Bob(): Subject { LaxSubject(98, Ascii("10.0.0.1/32")) }

  lemma BobColliding()
    ensures ProposedAdd(Lax(), Founded(), Bob()) == Some(AddEntry(Founded(), Bob()))
    ensures var e := AddEntry(Founded(), Bob()).(approvals := map[[97] := [64], Bob().nodeId := [64]]);
            Accepts(Lax(), Founded(), e) && !Render.UniqueOverlay(Lax(), NextMembers(Founded(), e))
    ensures Render.UniqueOverlay(Lax(), Founded().members)
  {
    hide Lax, Payload, Accepted, Founded, Founding, Accepts, ProposedAdd, NextMembers, AddEntry, Render.Host;
    FoundedLog();
    assert Ascii("10.0.0.1/24")[10] != Bob().overlayIp[10];
    JoiningAccepted(98, Bob().overlayIp);
    SameHost();
    Render.SharedHost(Lax(), map[[97] := Alice(), [98] := Bob()], [97], [98]);
  }

  lemma SameHost()
    ensures Render.Host(Lax(), Alice()).Some? && Render.Host(Lax(), Alice()) == Render.Host(Lax(), Bob())
  {
    assert Ascii("10.0.0.1/24")[..8] == Ascii("10.0.0.1/32")[..8];
  }

  /** Two verified ledgers with the same genesis of which neither extends the other: a sync that
      replaces one by the other succeeds. */
  lemma VerifiedFork() returns (p: Primitives, log: seq<Entry>, pulled: seq<Entry>)
    ensures Accepted(p, log) && Accepted(p, pulled) && |log| == |pulled| == 2
    ensures Payload(p, log[0]) == Payload(p, pulled[0]) && Payload(p, log[1]) != Payload(p, pulled[1])
  {
    hide Lax, Payload, Accepted, Accepts, ProposedAdd, NextMembers, Joining, Founded, Founding;
    var bobs, carols := Ascii("10.0.0.2/32"), Ascii("10.0.0.3/32");
    var bob, carol := LaxSubject(98, bobs), LaxSubject(99, carols);
    assert Ascii("10.0.0.1/24")[7] != bobs[7] && Ascii("10.0.0.1/24")[7] != carols[7];
    JoiningAccepted(98, bobs);
    JoiningAccepted(99, carols);
    p, log, pulled := Lax(), [Founding(), Joining(bob)], [Founding(), Joining(carol)];
    DifferentJoins(bob, carol);
  }

  lemma DifferentJoins(s: Subject, t: Subject)
    requires s.nodeId != t.nodeId && |s.nodeId| == |t.nodeId| == 1 && |s.overlayIp| == |t.overlayIp| == 11
    requires Payload(Lax(), Joining(s)).Some? && Payload(Lax(), Joining(t)).Some?
    ensures Payload(Lax(), Joining(s)) != Payload(Lax(), Joining(t))
  {
    hide Lax, WellFormed, HexDecode, HexEncode, Encode, CoresOf, SortBy;
    var e, f := Joining(s), Joining(t);
    SamePayloadSameContent(Lax(), e, f);
    OneSubject(Lax(), e);
    OneSubject(Lax(), f);
  }
}
