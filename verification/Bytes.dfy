/** Byte strings and the library routines on them that the ledger relies on: big-endian
    integers, hexadecimal text, and sorting by Go's byte-wise string order. */
module Bytes {

  newtype uint8 = x: int | 0 <= x < 256

  type Bytes = seq<uint8>

  /** A Go string: bytes, not code points. */
  type Text = seq<uint8>

  const TWO32: int := 0x1_0000_0000
  const TWO64: int := 0x1_0000_0000_0000_0000

  type uint64 = x: int | 0 <= x < TWO64

  /** A SHA-256 digest or a 32-byte public key. */
  type Bytes32 = b: Bytes | |b| == 32 witness seq(32, i => 0)

  datatype Option<+T> = None | Some(value: T)

  /** The bytes of an ASCII literal. */
  function Ascii(s: string): (t: Text)
    requires forall i :: 0 <= i < |s| ==> s[i] as int < 128
    ensures |t| == |s| && forall i :: 0 <= i < |s| ==> t[i] as int == s[i] as int
  {
    seq(|s|, i requires 0 <= i < |s| => s[i] as int as uint8)
  }

  // ---- big-endian integers ----

  function Pow256(width: nat): (r: nat)
    ensures r > 0
  {
    if width == 0 then 1 else 256 * Pow256(width - 1)
  }

  /** The low `width` bytes of n, most significant first (binary.BigEndian.PutUint32 after a
      truncating conversion). */
  function BigEndian(n: nat, width: nat): (b: Bytes)
    ensures |b| == width
  {
    if width == 0 then [] else BigEndian(n / 256, width - 1) + [(n % 256) as uint8]
  }

  function FromBigEndian(b: Bytes): (n: nat)
    ensures n < Pow256(|b|)
  {
    if b == [] then 0
    else
      var high := FromBigEndian(b[..|b| - 1]);
      256 * high + b[|b| - 1] as int
  }

  /** 32 zero bytes. */
  function Zero32(): Bytes32 { BigEndian(0, 32) }

  /** The round trip holds exactly for the numbers that fit. */
  lemma {:induction false} BigEndianRoundTrip(n: nat, width: nat)
    ensures FromBigEndian(BigEndian(n, width)) == n <==> n < Pow256(width)
  {
    if width > 0 {
      BigEndianRoundTrip(n / 256, width - 1);
      assert BigEndian(n, width)[..width - 1] == BigEndian(n / 256, width - 1);
    }
  }

  lemma {:induction false} FromBigEndianRoundTrip(b: Bytes)
    ensures BigEndian(FromBigEndian(b), |b|) == b
  {
    if b != [] {
      FromBigEndianRoundTrip(b[..|b| - 1]);
      assert b == b[..|b| - 1] + [b[|b| - 1]];
    }
  }

  /** Multiples of 256^width are cut off. */
  lemma {:induction false} BigEndianMultiple(q: nat, n: nat, width: nat)
    ensures BigEndian(q * Pow256(width) + n, width) == BigEndian(n, width)
  {
    if width > 0 {
      var k := q * Pow256(width - 1);
      assert q * Pow256(width) == 256 * k;
      assert (256 * k + n) / 256 == k + n / 256 && (256 * k + n) % 256 == n % 256;
      BigEndianMultiple(q, n / 256, width - 1);
    }
  }

  lemma Pow256Values()
    ensures Pow256(4) == TWO32 && Pow256(8) == TWO64
  {
    assert Pow256(2) == 0x1_0000;
    assert Pow256(4) == TWO32;
    assert Pow256(6) == 0x1_0000_0000_0000;
  }

  /** The first byte is the most significant one. */
  lemma {:induction false} MostSignificantFirst(x: uint8, rest: Bytes)
    ensures FromBigEndian([x] + rest) == x as int * Pow256(|rest|) + FromBigEndian(rest)
  {
    var b := [x] + rest;
    if rest == [] {
      assert b[..0] == [];
    } else {
      var init := rest[..|rest| - 1];
      assert b[..|b| - 1] == [x] + init;
      MostSignificantFirst(x, init);
      assert 256 * (x as int * Pow256(|init|)) == x as int * Pow256(|rest|);
    }
  }

  // ---- hexadecimal text ----

  function HexDigit(n: int): (c: uint8)
    requires 0 <= n < 16
  {
    if n < 10 then (48 + n) as uint8 else (87 + n) as uint8
  }

  /** hex.DecodeString accepts both letter cases. */
  function HexValue(c: uint8): (r: Option<int>)
    ensures r.Some? ==> 0 <= r.value < 16
  {
    var n := c as int;
    if 48 <= n <= 57 then Some(n - 48)
    else if 97 <= n <= 102 then Some(n - 87)
    else if 65 <= n <= 70 then Some(n - 55)
    else None
  }

  function HexEncode(b: Bytes): (t: Text)
    ensures |t| == 2 * |b|
  {
    if b == [] then []
    else [HexDigit(b[0] as int / 16), HexDigit(b[0] as int % 16)] + HexEncode(b[1..])
  }

  function HexDecode(t: Text): (r: Option<Bytes>)
    ensures r.Some? ==> |t| == 2 * |r.value|
  {
    if t == [] then Some([])
    else if |t| == 1 then None
    else
      match (HexValue(t[0]), HexValue(t[1]), HexDecode(t[2..]))
      case (Some(hi), Some(lo), Some(rest)) => Some([(16 * hi + lo) as uint8] + rest)
      case _ => None
  }

  lemma {:induction false} HexRoundTrip(b: Bytes)
    ensures HexDecode(HexEncode(b)) == Some(b)
  {
    if b != [] {
      HexRoundTrip(b[1..]);
      assert HexEncode(b)[2..] == HexEncode(b[1..]);
      assert b == [b[0]] + b[1..];
    }
  }

  lemma {:induction false} HexEncodeAt(b: Bytes, i: nat)
    requires i < |b|
    ensures HexEncode(b)[2 * i] == HexDigit(b[i] as int / 16)
    ensures HexEncode(b)[2 * i + 1] == HexDigit(b[i] as int % 16)
  {
    if i > 0 {
      HexEncodeAt(b[1..], i - 1);
    }
  }

  /** Each byte becomes two lower-case digits, high half first. */
  lemma HexDigits(b: Bytes, i: nat)
    requires i < |b|
    ensures HexEncode(b)[2 * i] == Ascii("0123456789abcdef")[b[i] as int / 16]
    ensures HexEncode(b)[2 * i + 1] == Ascii("0123456789abcdef")[b[i] as int % 16]
  {
    hide *;
    HexEncodeAt(b, i);
    HexDigitText(b[i] as int / 16);
    HexDigitText(b[i] as int % 16);
  }

  lemma HexDigitText(d: nat)
    requires d < 16
    ensures HexDigit(d) == Ascii("0123456789abcdef")[d]
  {
  }

  /** hex.DecodeString accepts exactly the texts of even length over the digits of both cases. */
  lemma {:induction false} HexDecodable(t: Text)
    ensures HexDecode(t).Some? <==>
            |t| % 2 == 0 && forall i :: 0 <= i < |t| ==> t[i] in Ascii("0123456789abcdefABCDEF")
  {
    hide Ascii, HexValue;
    if |t| >= 2 {
      HexDecodable(t[2..]);
      HexCharacter(t[0]);
      HexCharacter(t[1]);
      assert forall i :: 2 <= i < |t| ==> t[i] == t[2..][i - 2];
      assert forall i :: 0 <= i < |t[2..]| ==> t[2..][i] == t[i + 2];
    }
  }

  lemma HexCharacter(c: uint8)
    ensures HexValue(c).Some? <==> c in Ascii("0123456789abcdefABCDEF")
  {
    var digits := Ascii("0123456789abcdefABCDEF");
    if HexValue(c).Some? {
      var n := c as int;
      var i := if n <= 57 then n - 48 else if n >= 97 then n - 87 else n - 49;
      assert digits[i] == c;
    }
  }

  /** Upper-case digits decode like lower-case ones. */
  lemma HexCase(d: nat)
    requires d < 16
    ensures HexValue(Ascii("0123456789abcdef")[d]) == HexValue(Ascii("0123456789ABCDEF")[d]) == Some(d)
  {
  }

  // ---- Go's string order ----

  predicate Less(a: Text, b: Text)
  {
    b != [] && (a == [] || a[0] < b[0] || (a[0] == b[0] && Less(a[1..], b[1..])))
  }

  lemma {:induction false} LessTotal(a: Text, b: Text)
    ensures Less(a, b) || a == b || Less(b, a)
  {
    if a != [] && b != [] && a[0] == b[0] {
      LessTotal(a[1..], b[1..]);
      assert a == [a[0]] + a[1..] && b == [b[0]] + b[1..];
    }
  }

  lemma {:induction false} LessAsymmetric(a: Text, b: Text)
    ensures !(Less(a, b) && Less(b, a))
  {
    if a != [] && b != [] {
      LessAsymmetric(a[1..], b[1..]);
    }
  }

  lemma {:induction false} LessTransitive(a: Text, b: Text, c: Text)
    requires Less(a, b) && Less(b, c)
    ensures Less(a, c)
  {
    if a != [] && a[0] == b[0] && b[0] == c[0] {
      LessTransitive(a[1..], b[1..], c[1..]);
    }
  }

  /** The first difference decides, the smaller byte first, and a proper prefix comes first. */
  lemma {:induction false} LessAtDifference(a: Text, b: Text, k: nat)
    requires k <= |a| && k <= |b| && a[..k] == b[..k]
    ensures k < |a| && k < |b| && a[k] != b[k] ==> (Less(a, b) <==> a[k] < b[k])
    ensures k == |a| ==> (Less(a, b) <==> |a| < |b|)
  {
    if k > 0 {
      assert a[0] == a[..k][0] == b[..k][0] == b[0];
      assert a[1..][..k - 1] == a[..k][1..] && b[1..][..k - 1] == b[..k][1..];
      LessAtDifference(a[1..], b[1..], k - 1);
    }
  }
}
