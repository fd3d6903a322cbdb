/** Little-endian numbers: least significant byte first, two's complement when signed. */
module LittleEndian {
  import opened Foundations

  function Pow256(n: nat): (p: nat)
    ensures p >= 1
  {
    if n == 0 then 1 else 256 * Pow256(n - 1)
  }

  /** The low `n` bytes of `v`; division rounds down, as an arithmetic shift does. */
  function Encode(v: int, n: nat): (bytes: seq<Byte>)
    ensures |bytes| == n
    decreases n
  {
    if n == 0 then [] else [v % 256] + Encode(v / 256, n - 1)
  }

  function Decode(bytes: seq<Byte>): (v: nat)
    ensures v < Pow256(|bytes|)
  {
    if bytes == [] then 0 else bytes[0] + 256 * Decode(bytes[1..])
  }

  /** The reading of an `n`-byte pattern as two's complement. */
  function ToSigned(u: nat, n: nat): int {
    if 2 * u < Pow256(n) then u else u - Pow256(n)
  }

  predicate IsUnsigned(v: int, n: nat) {
    0 <= v < Pow256(n)
  }

  predicate IsSigned(v: int, n: nat) {
    -Half(n) <= v < Half(n)
  }

  function Half(n: nat): int {
    if n == 0 then 0 else 128 * Pow256(n - 1)
  }

  lemma {:induction false} DecodeEncode(v: int, n: nat)
    requires IsUnsigned(v, n)
    ensures Decode(Encode(v, n)) == v
    decreases n
  {
    if n > 0 {
      DecodeEncode(v / 256, n - 1);
      assert Encode(v, n)[1..] == Encode(v / 256, n - 1);
    }
  }

  /** Byte `k` of the encoding is digit `k` of the value to base 256, least significant first. */
  lemma {:induction false} EncodeDigits(v: int, n: nat, k: nat)
    requires k < n
    ensures Encode(v, n)[k] == v / Pow256(k) % 256
    decreases n
  {
    if k > 0 {
      EncodeDigits(v / 256, n - 1, k - 1);
      DivTwice(v, Pow256(k - 1));
    }
  }

  lemma DivTwice(v: int, p: nat)
    requires p > 0
    ensures v / 256 / p == v / (256 * p)
  {
    var q := v / 256;
    var a, b := q / p, v / (256 * p);
    assert a * p <= q < a * p + p;
    assert 256 * (a * p) <= v < 256 * (a * p + p);
    QuotientUnique(v, 256 * p, a);
  }

  lemma QuotientUnique(v: int, d: int, q: int)
    requires d > 0 && q * d <= v < q * d + d
    ensures v / d == q
  {
    var e := v / d - q;
    assert e * d == v - v % d - q * d;
    assert e >= 1 ==> e * d >= d;
    assert e <= -1 ==> e * d <= -d;
  }

  lemma {:induction false} EncodeDecode(bytes: seq<Byte>)
    ensures Encode(Decode(bytes), |bytes|) == bytes
  {
    if bytes != [] {
      EncodeDecode(bytes[1..]);
      assert bytes == [bytes[0]] + bytes[1..];
    }
  }

  /** A value and the same value a full turn up have the same bytes. */
  lemma {:induction false} EncodeTurns(v: int, n: nat)
    ensures Encode(v + Pow256(n), n) == Encode(v, n)
    decreases n
  {
    if n > 0 {
      var p := Pow256(n - 1);
      assert (v + 256 * p) / 256 == v / 256 + p && (v + 256 * p) % 256 == v % 256;
      EncodeTurns(v / 256, n - 1);
    }
  }

  lemma SignedDecodeEncode(v: int, n: nat)
    requires IsSigned(v, n)
    ensures ToSigned(Decode(Encode(v, n)), n) == v
  {
    var u := if v < 0 then v + Pow256(n) else v;
    if v < 0 {
      EncodeTurns(v, n);
    }
    DecodeEncode(u, n);
  }

  lemma SignedEncodeDecode(bytes: seq<Byte>)
    requires bytes != []
    ensures IsSigned(ToSigned(Decode(bytes), |bytes|), |bytes|)
    ensures Encode(ToSigned(Decode(bytes), |bytes|), |bytes|) == bytes
  {
    hide Decode, Encode, Pow256, Half;
    var u, n := Decode(bytes), |bytes|;
    TwoHalves(n);
    EncodeDecode(bytes);
    EncodeTurns(u - Pow256(n), n);
    assert u - Pow256(n) + Pow256(n) == u;
  }

  lemma TwoHalves(n: nat)
    requires n > 0
    ensures Pow256(n) == 2 * Half(n)
  {
  }
}
