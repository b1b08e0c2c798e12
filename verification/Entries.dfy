/** Ledger entries and their hash (internal/ledger/entry.go). */
module Entries {
  import opened Bytes
  import opened Sorting
  import opened Codec

  /** The library routines the ledger calls. Nothing is assumed about them here: each theorem
      holds for every choice of these functions, and the few that need a law of a routine take
      that law as a hypothesis. */
  datatype Primitives = Primitives(
    sha256: Bytes -> Bytes32,
    b64Decode: Text -> Option<Bytes>,
    b64Encode: Bytes -> Text,
    edSign: (Bytes, Bytes) -> Bytes,
    edVerify: (Bytes32, Bytes, Bytes) -> bool,
    // netip.ParsePrefix followed by Addr().String()
    prefixHost: Text -> Option<Text>,
    // netip.ParseAddr succeeds
    isAddr: Text -> bool)

  datatype Subject = Subject(
    nodeId: Text, identityPubkey: Text, wgPubkey: Text, overlayIp: Text, endpoint: Text)

  datatype Entry = Entry(
    seqNo: uint64, prevHash: Text, op: Op, subject: Option<Subject>, subjects: seq<Subject>,
    approvals: map<Text, Text>)

  function NodeIdOf(s: Subject): Text { s.nodeId }

  /** A base64 text that decodes to 32 bytes. */
  function Key32(p: Primitives, t: Text): Option<Bytes32> {
    match p.b64Decode(t)
    case Some(b) => if |b| == 32 then Some(b) else None
    case None => None
  }

  /** The decoded key, where there is one. */
  function KeyBytes(p: Primitives, t: Text): Bytes32 {
    match Key32(p, t)
    case Some(k) => k
    case None => Zero32()
  }

  predicate WellFormed(p: Primitives, s: Subject) {
    && s.nodeId != []
    && Key32(p, s.identityPubkey).Some?
    && Key32(p, s.wgPubkey).Some?
    && p.prefixHost(s.overlayIp).Some?
  }

  function CoreOf(p: Primitives, s: Subject): Core {
    Core(s.nodeId, KeyBytes(p, s.identityPubkey), KeyBytes(p, s.wgPubkey), s.overlayIp)
  }

  function CoresOf(p: Primitives, subs: seq<Subject>): (r: seq<Core>)
    ensures |r| == |subs|
    ensures forall i :: 0 <= i < |subs| ==> r[i] == CoreOf(p, subs[i])
  {
    if subs == [] then [] else [CoreOf(p, subs[0])] + CoresOf(p, subs[1..])
  }

  /** The subjects an entry is about. */
  function Listed(e: Entry): seq<Subject> {
    if e.op.Genesis? then e.subjects
    else if e.subject.Some? then [e.subject.value]
    else []
  }

  ghost predicate Shape(e: Entry) {
    match e.op
    case Genesis => e.subject.None? && e.subjects != []
    case Add => e.subject.Some? && e.subjects == []
    case Remove => e.subject.Some? && e.subjects == []
    case Unknown(_) => false
  }

  /** The entries that have a canonical payload. */
  ghost predicate HasPayload(p: Primitives, e: Entry) {
    && HexDecode(e.prevHash).Some? && |HexDecode(e.prevHash).value| == 32
    && Shape(e)
    && forall s :: s in Listed(e) ==> WellFormed(p, s)
  }

  /** What the approvals sign: decoded prev hash and keys, subjects in node-id order, no endpoint. */
  ghost function ContentOf(p: Primitives, e: Entry): (c: Content)
    requires HasPayload(p, e)
    ensures Shaped(c)
  {
    Content(e.seqNo, HexDecode(e.prevHash).value, e.op, CoresOf(p, SortBy(NodeIdOf, Listed(e))))
  }

  ghost function Payload(p: Primitives, e: Entry): Option<Bytes> {
    if HasPayload(p, e) then Some(Encode(ContentOf(p, e))) else None
  }

  ghost function Hash(p: Primitives, e: Entry): Option<Bytes32> {
    match Payload(p, e)
    case Some(b) => Some(p.sha256(b))
    case None => None
  }

  ghost function HashHex(p: Primitives, e: Entry): Option<Text> {
    match Hash(p, e)
    case Some(h) => Some(HexEncode(h))
    case None => None
  }

  // ---- the code ----

  method WriteLenStr(buf: Bytes, s: Text) returns (r: Bytes)
    ensures r == buf + LenStr(s)
  {
    r := buf + BigEndian(|s| % TWO32, 4);
    r := r + s;
    TruncatedLength(|s|);
  }

  lemma TruncatedLength(n: nat)
    ensures BigEndian(n % TWO32, 4) == BigEndian(n, 4)
  {
    Pow256Values();
    BigEndianMultiple(n / TWO32, n % TWO32, 4);
  }

  method CanonicalSubject(p: Primitives, s: Subject) returns (r: Option<Bytes>)
    ensures r == if WellFormed(p, s) then Some(EncodeCore(CoreOf(p, s))) else None
  {
    if s.nodeId == [] { return None; }
    var idPub := p.b64Decode(s.identityPubkey);
    if idPub.None? || |idPub.value| != 32 { return None; }
    var wgPub := p.b64Decode(s.wgPubkey);
    if wgPub.None? || |wgPub.value| != 32 { return None; }
    if p.prefixHost(s.overlayIp).None? { return None; }
    var buf := WriteLenStr([], s.nodeId);
    assert buf == LenStr(s.nodeId);
    buf := buf + idPub.value;
    buf := buf + wgPub.value;
    buf := WriteLenStr(buf, s.overlayIp);
    return Some(buf);
  }

  /** The loop of canonicalPayload over the sorted genesis subjects. */
  method WriteSubjects(p: Primitives, start: Bytes, subs: seq<Subject>) returns (r: Option<Bytes>)
    ensures r == if forall s :: s in subs ==> WellFormed(p, s)
                 then Some(start + EncodeCores(CoresOf(p, subs))) else None
  {
    hide EncodeCore, WellFormed, CoreOf;
    var buf := start;
    ghost var cores := CoresOf(p, subs);
    for i := 0 to |subs|
      invariant forall j :: 0 <= j < i ==> WellFormed(p, subs[j])
      invariant buf + EncodeCores(cores[i..]) == start + EncodeCores(cores)
    {
      var cs := CanonicalSubject(p, subs[i]);
      if cs.None? { return None; }
      assert cores[i..][1..] == cores[i + 1..];
      Assoc(buf, cs.value, EncodeCores(cores[i + 1..]));
      buf := buf + cs.value;
    }
    assert cores[|subs|..] == [] && buf + [] == buf;
    return Some(buf);
  }

  method CanonicalPayload(p: Primitives, e: Entry) returns (r: Option<Bytes>)
    ensures r == Payload(p, e)
  {
    hide EncodeCore, WellFormed, CoreOf, LenStr, EncodeCores, CoresOf, SortBy;
    var buf := BigEndian(e.seqNo, 8);
    var prev := HexDecode(e.prevHash);
    if prev.None? || |prev.value| != 32 { return None; }
    buf := buf + prev.value;
    buf := WriteLenStr(buf, OpName(e.op));
    ghost var header := buf;
    match e.op
    case Genesis =>
      if e.subject.Some? || |e.subjects| == 0 { return None; }
      var subs := SortBy(NodeIdOf, e.subjects);
      TruncatedLength(|subs|);
      buf := buf + BigEndian(|subs| % TWO32, 4);
      Assoc(header, BigEndian(|subs|, 4), EncodeCores(CoresOf(p, subs)));
      r := WriteSubjects(p, buf, subs);
    case Add | Remove =>
      if e.subject.None? || |e.subjects| != 0 { return None; }
      var cs := CanonicalSubject(p, e.subject.value);
      if cs.None? {
        assert e.subject.value in Listed(e);
        return None;
      }
      OneSubject(p, e);
      return Some(buf + cs.value);
    case Unknown(_) =>
      return None;
  }

  lemma OneSubject(p: Primitives, e: Entry)
    requires !e.op.Genesis? && e.subject.Some?
    ensures CoresOf(p, SortBy(NodeIdOf, Listed(e))) == [CoreOf(p, e.subject.value)]
    ensures EncodeSubjects(e.op, [CoreOf(p, e.subject.value)]) == EncodeCore(CoreOf(p, e.subject.value))
  {
    var s := e.subject.value;
    assert SortBy(NodeIdOf, [s]) == Insert(NodeIdOf, s, []);
    assert EncodeCores([CoreOf(p, s)]) == EncodeCore(CoreOf(p, s)) + EncodeCores([]);
  }

  method ComputeHash(p: Primitives, e: Entry) returns (r: Option<Bytes32>)
    ensures r == Hash(p, e)
  {
    var payload := CanonicalPayload(p, e);
    if payload.None? { return None; }
    return Some(p.sha256(payload.value));
  }

  /** The loop of hex32 and of PendingName: fills an array with two digits for each byte. */
  method HexText(b: Bytes) returns (t: Text)
    ensures t == HexEncode(b)
  {
    var out := new uint8[2 * |b|];
    for i := 0 to |b|
      invariant forall j :: 0 <= j < i ==> out[2 * j] == HexDigit(b[j] as int / 16)
      invariant forall j :: 0 <= j < i ==> out[2 * j + 1] == HexDigit(b[j] as int % 16)
    {
      out[i * 2] := HexDigit(b[i] as int / 16);
      out[i * 2 + 1] := HexDigit(b[i] as int % 16);
    }
    t := out[..];
    forall k | 0 <= k < |t| ensures t[k] == HexEncode(b)[k] {
      HexEncodeAt(b, k / 2);
      assert k == 2 * (k / 2) || k == 2 * (k / 2) + 1;
    }
  }

  // ---- what the payload determines ----

  ghost predicate EntrySized(p: Primitives, e: Entry) {
    && |Listed(e)| < TWO32
    && forall s :: s in Listed(e) ==> |s.nodeId| < TWO32 && |s.overlayIp| < TWO32
  }

  lemma ContentSized(p: Primitives, e: Entry)
    requires HasPayload(p, e) && EntrySized(p, e)
    ensures Sized(ContentOf(p, e))
  {
    var subs := SortBy(NodeIdOf, Listed(e));
    forall i | 0 <= i < |subs| ensures CoreSized(CoreOf(p, subs[i])) {
      assert subs[i] in Listed(e);
    }
  }

  /** The payload decodes to what was signed, across all three operations. */
  lemma PayloadDecodes(p: Primitives, e: Entry)
    requires HasPayload(p, e) && EntrySized(p, e)
    ensures Decode(Payload(p, e).value) == Some(ContentOf(p, e))
  {
    ContentSized(p, e);
    DecodeEncode(ContentOf(p, e));
  }

  /** Two entries have the same payload exactly when they sign the same content. */
  lemma SamePayloadSameContent(p: Primitives, e: Entry, f: Entry)
    requires HasPayload(p, e) && EntrySized(p, e)
    requires HasPayload(p, f) && EntrySized(p, f)
    ensures Payload(p, e) == Payload(p, f) <==> ContentOf(p, e) == ContentOf(p, f)
  {
    PayloadDecodes(p, e);
    PayloadDecodes(p, f);
  }

  /** Sequence number and prev hash are determined by the payload without any bound on lengths. */
  lemma SamePayloadSameHeader(p: Primitives, e: Entry, f: Entry)
    requires Payload(p, e).Some? && Payload(p, e) == Payload(p, f)
    ensures e.seqNo == f.seqNo
    ensures HexDecode(e.prevHash) == HexDecode(f.prevHash)
  {
    HeaderRoundTrip(ContentOf(p, e));
    HeaderRoundTrip(ContentOf(p, f));
  }

  /** Approvals and endpoints are outside the payload, so signing never changes the hash. */
  lemma UnsignedFields(p: Primitives, e: Entry, f: Entry)
    requires e.seqNo == f.seqNo && e.prevHash == f.prevHash && e.op == f.op
    requires e.subject.Some? == f.subject.Some?
    requires e.subject.Some? ==> e.subject.value.(endpoint := []) == f.subject.value.(endpoint := [])
    requires |e.subjects| == |f.subjects|
    requires forall i :: 0 <= i < |e.subjects| ==>
               e.subjects[i].(endpoint := []) == f.subjects[i].(endpoint := [])
    ensures Payload(p, e) == Payload(p, f)
  {
    var a, b := Listed(e), Listed(f);
    assert SameButEndpoint(a, b);
    SortIgnoresEndpoint(a, b);
    SameCores(p, SortBy(NodeIdOf, a), SortBy(NodeIdOf, b));
    SameCores(p, a, b);
  }

  ghost predicate SameButEndpoint(a: seq<Subject>, b: seq<Subject>) {
    && |a| == |b|
    && forall i :: 0 <= i < |a| ==> a[i].(endpoint := []) == b[i].(endpoint := [])
  }

  lemma SameCores(p: Primitives, a: seq<Subject>, b: seq<Subject>)
    requires SameButEndpoint(a, b)
    ensures CoresOf(p, a) == CoresOf(p, b)
    ensures (forall s :: s in a ==> WellFormed(p, s)) <==> (forall s :: s in b ==> WellFormed(p, s))
  {
    forall i | 0 <= i < |a|
      ensures CoreOf(p, a[i]) == CoreOf(p, b[i])
      ensures WellFormed(p, a[i]) <==> WellFormed(p, b[i])
    {
      assert a[i].(endpoint := []) == b[i].(endpoint := []);
    }
    assert CoresOf(p, a) == CoresOf(p, b);
  }

  lemma {:induction false} InsertIgnoresEndpoint(x: Subject, y: Subject, a: seq<Subject>, b: seq<Subject>)
    requires SameButEndpoint([x], [y]) && SameButEndpoint(a, b)
    ensures SameButEndpoint(Insert(NodeIdOf, x, a), Insert(NodeIdOf, y, b))
  {
    assert [x][0].(endpoint := []) == [y][0].(endpoint := []);
    if a != [] {
      assert a[0].(endpoint := []) == b[0].(endpoint := []);
      assert NodeIdOf(a[0]) == NodeIdOf(b[0]) && NodeIdOf(x) == NodeIdOf(y);
      InsertIgnoresEndpoint(x, y, a[1..], b[1..]);
    }
  }

  lemma {:induction false} SortIgnoresEndpoint(a: seq<Subject>, b: seq<Subject>)
    requires SameButEndpoint(a, b)
    ensures SameButEndpoint(SortBy(NodeIdOf, a), SortBy(NodeIdOf, b))
  {
    if a != [] {
      SortIgnoresEndpoint(a[1..], b[1..]);
      assert a[0].(endpoint := []) == b[0].(endpoint := []);
      InsertIgnoresEndpoint(a[0], b[0], SortBy(NodeIdOf, a[1..]), SortBy(NodeIdOf, b[1..]));
    }
  }

  /** Listing the same genesis subjects in another order changes nothing that is signed. */
  lemma GenesisOrder(p: Primitives, e: Entry, f: Entry)
    requires e.op.Genesis? && f == e.(subjects := f.subjects)
    requires multiset(e.subjects) == multiset(f.subjects)
    requires DistinctKeys(NodeIdOf, e.subjects)
    ensures Payload(p, e) == Payload(p, f)
  {
    hide WellFormed, CoreOf, SortBy, Encode;
    SortByUnique(NodeIdOf, e.subjects, f.subjects);
    DistinctKeysPermuted(NodeIdOf, e.subjects, f.subjects);
    assert |e.subjects| == |multiset(e.subjects)| == |f.subjects|;
  }
}
