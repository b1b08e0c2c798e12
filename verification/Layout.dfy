/** The canonical payload byte by byte, in terms of the entry's own fields: which entries have one,
    and what stands at which offset. */
module Layout {
  import opened Bytes
  import opened Sorting
  import opened Codec
  import opened Entries

  // ---- which entries have a payload ----

  /** An entry has a payload exactly when its prev hash is the hexadecimal text of 32 bytes, it has
      the subject or the subjects its operation needs and no other, and each of them has a non-empty
      node id, two keys that decode to 32 bytes and an overlay that parses. */
  lemma PayloadExists(p: Primitives, e: Entry)
    ensures Payload(p, e).Some? <==>
            && HexDecode(e.prevHash).Some? && |HexDecode(e.prevHash).value| == 32
            && (e.op == Genesis || e.op == Add || e.op == Remove)
            && (e.op == Genesis ==> e.subject == None && |e.subjects| > 0)
            && (e.op != Genesis ==> e.subject != None && |e.subjects| == 0)
            && forall s :: s in e.subjects || e.subject == Some(s) ==>
                 && |s.nodeId| > 0
                 && p.b64Decode(s.identityPubkey).Some? && |p.b64Decode(s.identityPubkey).value| == 32
                 && p.b64Decode(s.wgPubkey).Some? && |p.b64Decode(s.wgPubkey).value| == 32
                 && p.prefixHost(s.overlayIp).Some?
  {
    hide HexDecode, WellFormed;
    forall s ensures WellFormed(p, s) <==>
                       && |s.nodeId| > 0
                       && p.b64Decode(s.identityPubkey).Some? && |p.b64Decode(s.identityPubkey).value| == 32
                       && p.b64Decode(s.wgPubkey).Some? && |p.b64Decode(s.wgPubkey).value| == 32
                       && p.prefixHost(s.overlayIp).Some?
    {
      WellFormedMeans(p, s);
    }
    if HasPayload(p, e) {
      forall s | s in e.subjects || e.subject == Some(s) ensures WellFormed(p, s) {
        assert s in Listed(e);
      }
    }
  }

  lemma WellFormedMeans(p: Primitives, s: Subject)
    ensures WellFormed(p, s) <==>
            && |s.nodeId| > 0
            && p.b64Decode(s.identityPubkey).Some? && |p.b64Decode(s.identityPubkey).value| == 32
            && p.b64Decode(s.wgPubkey).Some? && |p.b64Decode(s.wgPubkey).value| == 32
            && p.prefixHost(s.overlayIp).Some?
  {
  }

  // ---- one subject ----

  /** The bytes from offset o are those of s: length and text of its node id, its identity key, its
      WireGuard key, length and text of its overlay. */
  ghost predicate SubjectAt(p: Primitives, b: Bytes, o: nat, s: Subject) {
    var n, v := |s.nodeId|, |s.overlayIp|;
    && o + 72 + n + v <= |b|
    && FromBigEndian(b[o..o + 4]) == n % TWO32
    && b[o + 4..o + 4 + n] == s.nodeId
    && p.b64Decode(s.identityPubkey) == Some(b[o + 4 + n..o + 36 + n])
    && p.b64Decode(s.wgPubkey) == Some(b[o + 36 + n..o + 68 + n])
    && FromBigEndian(b[o + 68 + n..o + 72 + n]) == v % TWO32
    && b[o + 72 + n..o + 72 + n + v] == s.overlayIp
  }

  function SizeOf(s: Subject): nat { 72 + |s.nodeId| + |s.overlayIp| }

  lemma CutLength(n: nat)
    ensures FromBigEndian(BigEndian(n, 4)) == n % TWO32
  {
    TruncatedLength(n);
    Pow256Values();
    BigEndianRoundTrip(n % TWO32, 4);
  }

  lemma CoreAt(p: Primitives, s: Subject)
    requires WellFormed(p, s)
    ensures |EncodeCore(CoreOf(p, s))| == SizeOf(s)
    ensures SubjectAt(p, EncodeCore(CoreOf(p, s)), 0, s)
  {
    hide FromBigEndian, BigEndian;
    var b, n, v := EncodeCore(CoreOf(p, s)), |s.nodeId|, |s.overlayIp|;
    CutLength(n);
    CutLength(v);
    assert b[0..4] == BigEndian(n, 4);
    assert b[4..4 + n] == s.nodeId;
    assert b[4 + n..36 + n] == KeyBytes(p, s.identityPubkey);
    assert b[36 + n..68 + n] == KeyBytes(p, s.wgPubkey);
    assert b[68 + n..72 + n] == BigEndian(v, 4);
    assert b[72 + n..72 + n + v] == s.overlayIp;
  }

  lemma Slice(a: Bytes, b: Bytes, c: Bytes, i: nat, j: nat)
    requires i <= j <= |b|
    ensures (a + b + c)[|a| + i..|a| + j] == b[i..j]
  {
  }

  lemma ShiftedSubject(p: Primitives, a: Bytes, b: Bytes, c: Bytes, o: nat, s: Subject)
    requires SubjectAt(p, b, o, s)
    ensures SubjectAt(p, a + b + c, |a| + o, s)
  {
    hide FromBigEndian;
    var n, v := |s.nodeId|, |s.overlayIp|;
    Slice(a, b, c, o, o + 4);
    Slice(a, b, c, o + 4, o + 4 + n);
    Slice(a, b, c, o + 4 + n, o + 36 + n);
    Slice(a, b, c, o + 36 + n, o + 68 + n);
    Slice(a, b, c, o + 68 + n, o + 72 + n);
    Slice(a, b, c, o + 72 + n, o + 72 + n + v);
  }

  // ---- several subjects ----

  /** Where the i-th subject starts when they are written one after the other. */
  function Offset(subs: seq<Subject>, i: nat): nat
    requires i <= |subs|
  {
    if i == 0 then 0 else SizeOf(subs[0]) + Offset(subs[1..], i - 1)
  }

  lemma {:induction false} CoresAt(p: Primitives, subs: seq<Subject>)
    requires forall s :: s in subs ==> WellFormed(p, s)
    ensures |EncodeCores(CoresOf(p, subs))| == Offset(subs, |subs|)
    ensures forall i :: 0 <= i < |subs| ==>
              SubjectAt(p, EncodeCores(CoresOf(p, subs)), Offset(subs, i), subs[i])
  {
    hide WellFormed, CoreOf, EncodeCore, SubjectAt, SizeOf;
    if subs != [] {
      var first, rest := EncodeCore(CoreOf(p, subs[0])), EncodeCores(CoresOf(p, subs[1..]));
      assert CoresOf(p, subs)[1..] == CoresOf(p, subs[1..]);
      CoreAt(p, subs[0]);
      CoresAt(p, subs[1..]);
      forall i | 0 <= i < |subs| ensures SubjectAt(p, first + rest, Offset(subs, i), subs[i]) {
        if i == 0 {
          ShiftedSubject(p, [], first, rest, 0, subs[0]);
          assert [] + first + rest == first + rest;
        } else {
          ShiftedSubject(p, first, rest, [], Offset(subs[1..], i - 1), subs[i]);
          assert first + rest + [] == first + rest;
        }
      }
    }
  }

  // ---- whole payloads ----

  /** Every payload starts with the sequence number, the bytes of the previous hash, and the
      operation text with its length. */
  ghost predicate HeaderBytes(b: Bytes, seqNo: nat, prevHash: Text, op: string)
    requires forall i :: 0 <= i < |op| ==> op[i] as int < 128
  {
    && |b| >= 44 + |op|
    && FromBigEndian(b[..8]) == seqNo
    && HexDecode(prevHash) == Some(b[8..40])
    && FromBigEndian(b[40..44]) == |op| && b[44..44 + |op|] == Ascii(op)
  }

  lemma HeaderAt(p: Primitives, e: Entry, b: Bytes, op: string)
    requires forall i :: 0 <= i < |op| ==> op[i] as int < 128
    requires Payload(p, e) == Some(b) && Ascii(op) == OpName(e.op) && |op| < TWO32
    ensures HeaderBytes(b, e.seqNo, e.prevHash, op)
    ensures b[44 + |op|..] == EncodeSubjects(e.op, CoresOf(p, SortBy(NodeIdOf, Listed(e))))
  {
    hide FromBigEndian, BigEndian, HexDecode, EncodeSubjects, CoresOf, SortBy, OpName, WellFormed, Ascii;
    HeaderRoundTrip(ContentOf(p, e));
    CutLength(|op|);
    var tail := EncodeSubjects(e.op, CoresOf(p, SortBy(NodeIdOf, Listed(e))));
    assert b == BigEndian(e.seqNo, 8) + HexDecode(e.prevHash).value + (BigEndian(|op|, 4) + Ascii(op)) + tail;
    assert b[40..44] == BigEndian(|op|, 4);
    assert b[44..44 + |op|] == Ascii(op);
    assert b[44 + |op|..] == tail;
  }

  function OpText(op: Op): (t: string)
    requires op == Add || op == Remove
    ensures forall i :: 0 <= i < |t| ==> t[i] as int < 128
  {
    if op == Add then "ADD" else "REMOVE"
  }

  /** The payload of an ADD or REMOVE: sequence number, previous hash, operation text, and the one
      subject to the end. */
  lemma OneSubjectLayout(p: Primitives, e: Entry, b: Bytes)
    requires (e.op == Add || e.op == Remove) && Payload(p, e) == Some(b)
    ensures e.subject.Some?
    ensures HeaderBytes(b, e.seqNo, e.prevHash, OpText(e.op))
    ensures SubjectAt(p, b, 44 + |OpText(e.op)|, e.subject.value)
    ensures |b| == 44 + |OpText(e.op)| + SizeOf(e.subject.value)
  {
    hide FromBigEndian, HexDecode, SubjectAt, EncodeCores, CoresOf, SortBy, CoreOf, WellFormed, Encode, ContentOf, EncodeCore,
         Ascii, HeaderBytes, SizeOf;
    var s, op := e.subject.value, OpText(e.op);
    HeaderAt(p, e, b, op);
    HeaderFits(b, e, op);
    OneSubject(p, e);
    assert s in Listed(e);
    CoreAt(p, s);
    var pre, post := b[..44 + |op|], b[44 + |op|..];
    ShiftedSubject(p, pre, post, [], 0, s);
    assert pre + post == b;
    assert pre + post + [] == pre + post;
  }

  lemma HeaderFits(b: Bytes, e: Entry, op: string)
    requires forall i :: 0 <= i < |op| ==> op[i] as int < 128
    requires HeaderBytes(b, e.seqNo, e.prevHash, op)
    ensures |b| >= 44 + |op|
  {
  }

  /** For an ADD at plain offsets. */
  lemma AddLayout(p: Primitives, e: Entry, b: Bytes)
    requires e.op == Add && Payload(p, e) == Some(b)
    ensures e.subject.Some?
    ensures var s := e.subject.value;
            var n := |s.nodeId|;
            && |b| == 119 + n + |s.overlayIp|
            && b[44..47] == Ascii("ADD")
            && b[51..51 + n] == s.nodeId
            && p.b64Decode(s.identityPubkey) == Some(b[51 + n..83 + n])
            && p.b64Decode(s.wgPubkey) == Some(b[83 + n..115 + n])
            && b[119 + n..] == s.overlayIp
  {
    hide Payload, FromBigEndian, HexDecode;
    OneSubjectLayout(p, e, b);
    var n := |e.subject.value.nodeId|;
    assert b[119 + n..] == b[119 + n..|b|];
  }

  lemma CountedSubjects(p: Primitives, b: Bytes, subs: seq<Subject>)
    requires |b| >= 51 && b[51..] == BigEndian(|subs|, 4) + EncodeCores(CoresOf(p, subs))
    requires forall s :: s in subs ==> WellFormed(p, s)
    ensures CountedBytes(p, b, 51, subs)
  {
    hide FromBigEndian, BigEndian, SubjectAt, EncodeCores, CoresOf, WellFormed, Offset;
    CoresAt(p, subs);
    CutLength(|subs|);
    var cores := EncodeCores(CoresOf(p, subs));
    assert b[51..55] == b[51..][..4] == BigEndian(|subs|, 4);
    assert b == b[..55] + cores + [];
    forall i | 0 <= i < |subs| ensures SubjectAt(p, b, 55 + Offset(subs, i), subs[i]) {
      ShiftedSubject(p, b[..55], cores, [], Offset(subs, i), subs[i]);
    }
  }

  /** From offset o to the end: the number of subjects, and then all of them. */
  ghost predicate CountedBytes(p: Primitives, b: Bytes, o: nat, subs: seq<Subject>) {
    && |b| == o + 4 + Offset(subs, |subs|)
    && FromBigEndian(b[o..o + 4]) == |subs| % TWO32
    && forall i :: 0 <= i < |subs| ==> SubjectAt(p, b, o + 4 + Offset(subs, i), subs[i])
  }

  /** The payload of a GENESIS: after the operation text the number of subjects, and then all of
      them in node-id order. */
  lemma GenesisLayout(p: Primitives, e: Entry, b: Bytes, subs: seq<Subject>)
    requires e.op == Genesis && Payload(p, e) == Some(b)
    requires multiset(subs) == multiset(e.subjects)
    requires StrictlySorted(NodeIdOf, subs)
    ensures HeaderBytes(b, e.seqNo, e.prevHash, "GENESIS")
    ensures CountedBytes(p, b, 51, subs)
  {
    hide *;
    StrictIsDistinct(subs);
    SortByUnique(NodeIdOf, subs, e.subjects);
    GenesisParts(p, e);
    HeaderAt(p, e, b, "GENESIS");
    HeaderFits(b, e, "GENESIS");
    DistinctKeysPermuted(NodeIdOf, subs, e.subjects);
    SortIsSelf(subs);
    CountedSubjects(p, b, subs);
  }

  lemma StrictIsDistinct(subs: seq<Subject>)
    requires StrictlySorted(NodeIdOf, subs)
    ensures DistinctKeys(NodeIdOf, subs)
  {
    forall i, j | 0 <= i < j < |subs| ensures NodeIdOf(subs[i]) != NodeIdOf(subs[j]) {
      LessAsymmetric(NodeIdOf(subs[i]), NodeIdOf(subs[j]));
    }
  }

  lemma SortIsSelf(subs: seq<Subject>)
    requires StrictlySorted(NodeIdOf, subs)
    ensures SortBy(NodeIdOf, subs) == subs
  {
    hide *;
    StrictIsDistinct(subs);
    SortByUnique(NodeIdOf, subs, subs);
  }

  lemma GenesisParts(p: Primitives, e: Entry)
    requires e.op == Genesis && Payload(p, e).Some?
    ensures OpName(e.op) == Ascii("GENESIS") && |"GENESIS"| == 7 < TWO32 && Listed(e) == e.subjects
    ensures forall s :: s in e.subjects ==> WellFormed(p, s)
    ensures var cores := CoresOf(p, SortBy(NodeIdOf, e.subjects));
            EncodeSubjects(e.op, cores) == BigEndian(|e.subjects|, 4) + EncodeCores(cores)
  {
    hide WellFormed, Encode, ContentOf, HexDecode, Ascii;
  }
}
