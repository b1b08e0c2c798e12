/** The canonical byte form of an entry's signed content, and its decoder. */
module Codec {
  import opened Bytes

  /** The operation of an entry. Unknown stands for any other operation text. */
  datatype Op = Genesis | Add | Remove | Unknown(text: Text)

  /** What a subject contributes to the signed payload: endpoint is not part of it, and the keys
      count as bytes, not as base64 text. */
  datatype Core = Core(nodeId: Text, identityKey: Bytes32, wgKey: Bytes32, overlay: Text)

  /** Everything the approvals sign over. */
  datatype Content = Content(seqNo: uint64, prev: Bytes32, op: Op, subjects: seq<Core>)

  function OpName(op: Op): Text {
    match op
    case Genesis => Ascii("GENESIS")
    case Add => Ascii("ADD")
    case Remove => Ascii("REMOVE")
    case Unknown(text) => text
  }

  /** The contents canonicalPayload accepts: a list for GENESIS, one subject otherwise. */
  predicate Shaped(c: Content) {
    match c.op
    case Genesis => c.subjects != []
    case Add => |c.subjects| == 1
    case Remove => |c.subjects| == 1
    case Unknown(_) => false
  }

  /** No length is cut by its conversion to uint32. */
  ghost predicate Sized(c: Content) {
    && |c.subjects| < TWO32
    && forall i :: 0 <= i < |c.subjects| ==> CoreSized(c.subjects[i])
  }

  predicate CoreSized(s: Core) {
    |s.nodeId| < TWO32 && |s.overlay| < TWO32
  }

  // ---- encoder ----

  function LenStr(s: Text): (b: Bytes)
    ensures |b| == 4 + |s|
  {
    BigEndian(|s|, 4) + s
  }

  function EncodeCore(s: Core): Bytes {
    LenStr(s.nodeId) + s.identityKey + s.wgKey + LenStr(s.overlay)
  }

  function EncodeCores(subs: seq<Core>): Bytes {
    if subs == [] then [] else EncodeCore(subs[0]) + EncodeCores(subs[1..])
  }

  function EncodeSubjects(op: Op, subs: seq<Core>): Bytes {
    (if op.Genesis? then BigEndian(|subs|, 4) else []) + EncodeCores(subs)
  }

  function Encode(c: Content): Bytes
    requires Shaped(c)
  {
    BigEndian(c.seqNo, 8) + c.prev + LenStr(OpName(c.op)) + EncodeSubjects(c.op, c.subjects)
  }

  // ---- decoder ----

  function TakeLenStr(b: Bytes): (r: Option<(Text, Bytes)>)
    ensures r.Some? ==> |b| == 4 + |r.value.0| + |r.value.1|
  {
    if |b| < 4 then None
    else
      var n := FromBigEndian(b[..4]);
      if |b| < 4 + n then None else Some((b[4..4 + n], b[4 + n..]))
  }

  function TakeCore(b: Bytes): (r: Option<(Core, Bytes)>)
    ensures r.Some? ==> |r.value.1| < |b|
  {
    match TakeLenStr(b)
    case None => None
    case Some((nodeId, b1)) =>
      if |b1| < 64 then None
      else
        match TakeLenStr(b1[64..])
        case None => None
        case Some((overlay, b2)) => Some((Core(nodeId, b1[..32], b1[32..64], overlay), b2))
  }

  function TakeCores(n: nat, b: Bytes): (r: Option<(seq<Core>, Bytes)>)
    ensures r.Some? ==> |r.value.0| == n
  {
    if n == 0 then Some(([], b))
    else
      match TakeCore(b)
      case None => None
      case Some((s, b1)) =>
        match TakeCores(n - 1, b1)
        case None => None
        case Some((rest, b2)) => Some(([s] + rest, b2))
  }

  function ParseOp(name: Text): Option<Op> {
    if name == Ascii("GENESIS") then Some(Genesis)
    else if name == Ascii("ADD") then Some(Add)
    else if name == Ascii("REMOVE") then Some(Remove)
    else None
  }

  function TakeSubjects(op: Op, b: Bytes): Option<(seq<Core>, Bytes)> {
    if !op.Genesis? then TakeCores(1, b)
    else if |b| < 4 then None
    else
      var n := FromBigEndian(b[..4]);
      if n == 0 then None else TakeCores(n, b[4..])
  }

  function Decode(b: Bytes): Option<Content> {
    if |b| < 40 then None
    else
      Pow256Values();
      match TakeLenStr(b[40..])
      case None => None
      case Some((name, b1)) =>
        match ParseOp(name)
        case None => None
        case Some(op) =>
          match TakeSubjects(op, b1)
          case None => None
          case Some((subs, b2)) =>
            if b2 != [] then None
            else Some(Content(FromBigEndian(b[..8]), b[8..40], op, subs))
  }

  lemma Assoc(a: Bytes, b: Bytes, c: Bytes)
    ensures (a + b) + c == a + (b + c)
  {
  }

  // ---- decoder after encoder ----

  /** A length-prefixed string reads back exactly when its length survives uint32(len(s)). */
  lemma LenStrRoundTrip(s: Text, rest: Bytes)
    ensures TakeLenStr(LenStr(s) + rest) == Some((s, rest)) <==> |s| < TWO32
  {
    Pow256Values();
    BigEndianRoundTrip(|s|, 4);
    var b := LenStr(s) + rest;
    assert b[..4] == BigEndian(|s|, 4);
    if |s| < TWO32 {
      assert b[4..4 + |s|] == s;
      assert b[4 + |s|..] == rest;
    }
  }

  lemma CoreRoundTrip(s: Core, rest: Bytes)
    requires CoreSized(s)
    ensures TakeCore(EncodeCore(s) + rest) == Some((s, rest))
  {
    var tail := LenStr(s.overlay) + rest;
    var mid := s.identityKey + s.wgKey + tail;
    assert EncodeCore(s) + rest == LenStr(s.nodeId) + mid;
    LenStrRoundTrip(s.nodeId, mid);
    assert mid[64..] == tail && mid[..32] == s.identityKey && mid[32..64] == s.wgKey;
    LenStrRoundTrip(s.overlay, rest);
  }

  lemma {:induction false} CoresRoundTrip(subs: seq<Core>, rest: Bytes)
    requires forall i :: 0 <= i < |subs| ==> CoreSized(subs[i])
    ensures TakeCores(|subs|, EncodeCores(subs) + rest) == Some((subs, rest))
  {
    hide EncodeCore, TakeCore;
    if subs == [] {
      assert EncodeCores(subs) + rest == rest;
    } else {
      Assoc(EncodeCore(subs[0]), EncodeCores(subs[1..]), rest);
      CoreRoundTrip(subs[0], EncodeCores(subs[1..]) + rest);
      CoresRoundTrip(subs[1..], rest);
      assert subs == [subs[0]] + subs[1..];
    }
  }

  lemma SubjectsRoundTrip(c: Content)
    requires Shaped(c) && Sized(c)
    ensures TakeSubjects(c.op, EncodeSubjects(c.op, c.subjects)) == Some((c.subjects, []))
  {
    CoresRoundTrip(c.subjects, []);
    var b := EncodeSubjects(c.op, c.subjects);
    if c.op.Genesis? {
      Pow256Values();
      BigEndianRoundTrip(|c.subjects|, 4);
      assert b[..4] == BigEndian(|c.subjects|, 4);
      assert b[4..] == EncodeCores(c.subjects) + [];
    } else {
      assert b == EncodeCores(c.subjects) + [];
    }
  }

  /** Fields at fixed offsets read back whatever the lengths are. */
  lemma HeaderRoundTrip(c: Content)
    requires Shaped(c)
    ensures |Encode(c)| >= 40
    ensures FromBigEndian(Encode(c)[..8]) == c.seqNo
    ensures Encode(c)[8..40] == c.prev
  {
    Pow256Values();
    BigEndianRoundTrip(c.seqNo, 8);
    assert Encode(c)[..8] == BigEndian(c.seqNo, 8);
  }

  lemma DecodeEncode(c: Content)
    requires Shaped(c) && Sized(c)
    ensures Decode(Encode(c)) == Some(c)
  {
    HeaderRoundTrip(c);
    var tail := EncodeSubjects(c.op, c.subjects);
    assert Encode(c)[40..] == LenStr(OpName(c.op)) + tail;
    LenStrRoundTrip(OpName(c.op), tail);
    SubjectsRoundTrip(c);
  }

  // ---- encoder after decoder ----

  lemma TakeLenStrInverse(b: Bytes)
    requires TakeLenStr(b).Some?
    ensures var (s, rest) := TakeLenStr(b).value; LenStr(s) + rest == b && |s| < TWO32
  {
    Pow256Values();
    FromBigEndianRoundTrip(b[..4]);
    var (s, rest) := TakeLenStr(b).value;
    assert b == b[..4] + s + rest;
  }

  lemma TakeCoreInverse(b: Bytes)
    requires TakeCore(b).Some?
    ensures var (s, rest) := TakeCore(b).value; EncodeCore(s) + rest == b && CoreSized(s)
  {
    hide TakeLenStr, LenStr;
    TakeLenStrInverse(b);
    var (nodeId, b1) := TakeLenStr(b).value;
    TakeLenStrInverse(b1[64..]);
    var (s, rest) := TakeCore(b).value;
    var keys := s.identityKey + s.wgKey;
    assert b1 == keys + b1[64..];
    Assoc(LenStr(nodeId), s.identityKey, s.wgKey);
    Assoc(LenStr(nodeId) + keys, LenStr(s.overlay), rest);
    Assoc(LenStr(nodeId), keys, b1[64..]);
  }

  lemma EncodeCoresCons(s: Core, tail: seq<Core>, rest: Bytes)
    ensures EncodeCores([s] + tail) + rest == EncodeCore(s) + (EncodeCores(tail) + rest)
  {
    assert ([s] + tail)[1..] == tail;
    Assoc(EncodeCore(s), EncodeCores(tail), rest);
  }

  lemma TakeCoresStep(n: nat, b: Bytes) returns (s: Core, b1: Bytes, tail: seq<Core>, rest: Bytes)
    requires n > 0 && TakeCores(n, b).Some?
    ensures TakeCore(b) == Some((s, b1)) && TakeCores(n - 1, b1) == Some((tail, rest))
    ensures TakeCores(n, b) == Some(([s] + tail, rest))
  {
    s, b1 := TakeCore(b).value.0, TakeCore(b).value.1;
    tail, rest := TakeCores(n - 1, b1).value.0, TakeCores(n - 1, b1).value.1;
  }

  lemma CoresPrepended(s: Core, b1: Bytes, tail: seq<Core>, rest: Bytes, b: Bytes)
    requires EncodeCore(s) + b1 == b && CoreSized(s)
    requires EncodeCores(tail) + rest == b1 && forall i :: 0 <= i < |tail| ==> CoreSized(tail[i])
    ensures EncodeCores([s] + tail) + rest == b
    ensures forall i :: 0 <= i < |[s] + tail| ==> CoreSized(([s] + tail)[i])
  {
    hide EncodeCore, EncodeCores, CoreSized;
    EncodeCoresCons(s, tail, rest);
  }

  lemma {:induction false} TakeCoresInverse(n: nat, b: Bytes, subs: seq<Core>, rest: Bytes)
    requires TakeCores(n, b) == Some((subs, rest))
    ensures EncodeCores(subs) + rest == b
    ensures forall i :: 0 <= i < |subs| ==> CoreSized(subs[i])
  {
    if n == 0 {
      assert [] + b == b;
    } else {
      hide EncodeCore, TakeCore, EncodeCores, CoreSized, TakeCores;
      var s, b1, tail, _ := TakeCoresStep(n, b);
      TakeCoreInverse(b);
      TakeCoresInverse(n - 1, b1, tail, rest);
      CoresPrepended(s, b1, tail, rest, b);
    }
  }

  lemma TakeSubjectsInverse(op: Op, b: Bytes)
    requires TakeSubjects(op, b).Some?
    ensures var (subs, rest) := TakeSubjects(op, b).value;
            && EncodeSubjects(op, subs) + rest == b
            && (if op.Genesis? then 0 < |subs| < TWO32 else |subs| == 1)
            && forall i :: 0 <= i < |subs| ==> CoreSized(subs[i])
  {
    var (subs, rest) := TakeSubjects(op, b).value;
    if op.Genesis? {
      Pow256Values();
      TakeCoresInverse(FromBigEndian(b[..4]), b[4..], subs, rest);
      FromBigEndianRoundTrip(b[..4]);
      Assoc(b[..4], EncodeCores(subs), rest);
      assert b == b[..4] + b[4..];
    } else {
      TakeCoresInverse(1, b, subs, rest);
      assert EncodeSubjects(op, subs) == EncodeCores(subs);
    }
  }

  /** Every byte string that decodes is the encoding of what it decodes to: the canonical form
      is the only form. */
  lemma EncodeDecode(b: Bytes)
    requires Decode(b).Some?
    ensures var c := Decode(b).value; Shaped(c) && Sized(c) && Encode(c) == b
  {
    hide TakeLenStr, LenStr, TakeSubjects, EncodeSubjects;
    var c := Decode(b).value;
    Pow256Values();
    FromBigEndianRoundTrip(b[..8]);
    TakeLenStrInverse(b[40..]);
    var (name, b1) := TakeLenStr(b[40..]).value;
    TakeSubjectsInverse(c.op, b1);
    assert EncodeSubjects(c.op, c.subjects) + [] == EncodeSubjects(c.op, c.subjects);
    assert b == b[..8] + b[8..40] + b[40..];
    Assoc(b[..8] + b[8..40], LenStr(name), b1);
  }
}
