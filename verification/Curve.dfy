/** The conversions between Ed25519 and X25519 keys of internal/crypto/chat_crypto_manager.go. */
module Curve {
  import opened Results
  import opened Modular
  import opened Bytes

  /** 2^255 - 19. */
  function P(): int {
    Pow(2, 255) - 19
  }

  lemma PFacts()
    ensures P() + 19 == Pow(2, 255) && 2 < P() < Pow(256, 32) && P() % 2 == 1
  {
    hide Pow;
    SmallPowers();
    PowAdd(2, 5, 250);
    PowPositive(2, 250);
    PowAdd(2, 1, 254);
    PowAdd(2, 1, 255);
    Pow256(32);
  }

  // The lemmas below need nothing of p but that it is odd, so they hold of every
  // odd modulus.

  /** The field equation of u = (1 + y) / (1 - y), section 4.1 of RFC 7748. */
  ghost predicate Montgomery(y: int, u: int, p: int) {
    Cong(u * (1 - y), 1 + y, p)
  }

  /** The y-coordinate of a compressed point: its sign bit is cleared. */
  function YOf(pub: seq<byte>): nat
    requires |pub| == 32
  {
    Little(pub[31 := pub[31] % 128])
  }

  /** The y-coordinate is the key read little-endian without its highest bit. */
  lemma YOfIs(pub: seq<byte>)
    requires |pub| == 32
    ensures Little(pub) == YOf(pub) + Pow(2, 255) * (pub[31] / 128) && YOf(pub) < Pow(2, 255)
  {
    hide Pow, Little;
    var cleared := pub[31 := pub[31] % 128];
    LittleSplit(pub, 31);
    LittleSplit(cleared, 31);
    assert cleared[..31] == pub[..31] && pub[31..] == [pub[31]] && cleared[31..] == [pub[31] % 128];
    OneByte(pub[31..]);
    OneByte(cleared[31..]);
    LittleBounded(pub[..31]);
    TopBit(Little(pub[..31]), pub[31], 31);
  }

  lemma TopBit(low: nat, top: nat, n: nat)
    requires low < Pow(256, n) && top < 256
    ensures low + Pow(256, n) * top == low + Pow(256, n) * (top % 128) + Pow(2, 8 * n + 7) * (top / 128)
    ensures low + Pow(256, n) * (top % 128) < Pow(2, 8 * n + 7)
  {
    hide Pow;
    Pow256(n);
    SmallPowers();
    PowAdd(2, 7, 8 * n);
    SplitTop(low, top % 128, top / 128, Pow(256, n));
  }

  lemma SplitTop(low: nat, rest: nat, bit: nat, q: nat)
    requires low < q && rest < 128
    ensures q * (128 * bit + rest) == q * rest + (128 * q) * bit
    ensures low + q * rest < 128 * q
  {
    assert q * (127 - rest) >= 0;
  }

  /** `out` is the X25519 key of the Ed25519 key `pub`. */
  ghost predicate Converts(pub: seq<byte>, out: seq<byte>, p: int) {
    && |pub| == 32 && |out| == 32 && Little(out) < p
    && Montgomery(YOf(pub), Little(out), p)
  }

  lemma MontgomeryIs(y: int, u: int, p: int)
    requires Montgomery(y, u, p)
    ensures Cong(u * (1 - y), 1 + y, p)
  {
  }

  /** (1 + u)(1 - y) = 2 */
  lemma ProductIsTwo(y: int, u: int, p: int)
    requires Montgomery(y, u, p)
    ensures Cong((1 + u) * (1 - y), 2, p)
  {
    Added(u * (1 - y), 1 + y, 1 - y, p);
    assert (1 + u) * (1 - y) == u * (1 - y) + (1 - y);
  }

  /** Two is invertible because p is odd, and so is whatever divides it. */
  lemma DividesTwo(a: int, b: int, p: int)
    requires p > 0 && p % 2 == 1 && Cong(a * b, 2, p)
    ensures Cong((p + 1) / 2 * a * b, 1, p)
  {
    var h := (p + 1) / 2;
    Scaled(a * b, 2, h, p);
    assert h * (a * b) == h * a * b;
    Because(h * 2, 1, p, 1);
    Transitive(h * (a * b), h * 2, 1, p);
  }

  /** The map has at most one value. */
  lemma MontgomeryUnique(y: int, u: int, v: int, p: int)
    requires p > 0 && p % 2 == 1 && Montgomery(y, u, p) && Montgomery(y, v, p)
    ensures Cong(u, v, p)
  {
    var d := 1 - y;
    ProductIsTwo(y, u, p);
    DividesTwo(1 + u, d, p);
    Symmetric(v * d, 1 + y, p);
    Transitive(u * d, 1 + y, v * d, p);
    assert u * d == d * u && v * d == d * v;
    Cancelled(d, (p + 1) / 2 * (1 + u), u, v, p);
  }

  /** The map is injective on the field. */
  lemma MontgomeryInjective(y: int, z: int, u: int, p: int)
    requires p > 0 && p % 2 == 1 && Montgomery(y, u, p) && Montgomery(z, u, p)
    ensures Cong(y, z, p)
  {
    var e := 1 + u;
    ProductIsTwo(y, u, p);
    ProductIsTwo(z, u, p);
    assert e * (1 - y) == (1 - y) * e;
    DividesTwo(1 - y, e, p);
    Symmetric(e * (1 - z), 2, p);
    Transitive(e * (1 - y), 2, e * (1 - z), p);
    Cancelled(e, (p + 1) / 2 * (1 - y), 1 - y, 1 - z, p);
    var k :| (1 - y) - (1 - z) == Times(k, p);
    Because(y, z, p, -k);
  }

  /** It is a map on the field: only the residue of y matters. */
  lemma MontgomeryCongruent(y: int, z: int, u: int, p: int)
    requires Montgomery(y, u, p) && Cong(y, z, p)
    ensures Montgomery(z, u, p)
  {
    var k :| y - z == Times(k, p);
    var l :| u * (1 - y) - (1 + y) == Times(l, p);
    assert u * (1 - z) == u * (1 - y) + u * (y - z);
    assert u * (y - z) == (u * k) * p;
    assert u * (1 - z) - (1 + z) == (l + u * k + k) * p;
    Because(u * (1 - z), 1 + z, p, l + u * k + k);
  }

  /** Two Ed25519 keys get the same X25519 key exactly when their y-coordinates are the
      same element of the field. */
  lemma SameKeyIff(a: seq<byte>, x: seq<byte>, b: seq<byte>, y: seq<byte>, p: int)
    requires p > 0 && p % 2 == 1 && Converts(a, x, p) && Converts(b, y, p)
    ensures x == y <==> Cong(YOf(a), YOf(b), p)
  {
    hide Montgomery, YOf, Little;
    if x == y {
      MontgomeryInjective(YOf(a), YOf(b), Little(x), p);
    }
    if Cong(YOf(a), YOf(b), p) {
      MontgomeryCongruent(YOf(a), YOf(b), Little(x), p);
      MontgomeryUnique(YOf(b), Little(x), Little(y), p);
      Small(Little(x), Little(y), p);
      LittleInjective(x, y);
    }
  }

  /** The sign bit of the Ed25519 key does not reach the X25519 key. */
  lemma SignBitIgnored(a: seq<byte>, x: seq<byte>, b: seq<byte>, y: seq<byte>, p: int)
    requires p > 0 && p % 2 == 1 && Converts(a, x, p) && Converts(b, y, p)
    requires a[..31] == b[..31] && a[31] % 128 == b[31] % 128
    ensures x == y
  {
    hide Montgomery, Little;
    assert a[31 := a[31] % 128] == a[..31] + [a[31] % 128];
    assert b[31 := b[31] % 128] == b[..31] + [b[31] % 128];
    Because(YOf(a), YOf(b), p, 0);
    SameKeyIff(a, x, b, y, p);
  }

  /** Where 1 - y has no inverse, no u solves the equation either. */
  lemma NoImage(y: int, u: int, d: int, p: int)
    requires p > 0 && p % 2 == 1 && Cong(d, 1 - y, p) && forall i :: !Cong(d * i, 1, p)
    ensures !Montgomery(y, u, p)
  {
    if Montgomery(y, u, p) {
      var i := (p + 1) / 2 * (1 + u);
      ProductIsTwo(y, u, p);
      DividesTwo(1 + u, 1 - y, p);
      Scaled(d, 1 - y, i, p);
      assert i * d == d * i;
      Transitive(i * d, i * (1 - y), 1, p);
      assert false;
    }
  }

  /** u = numerator * inverse solves the equation. */
  lemma Image(y: int, m: int, d: int, i: int, u: int, p: int)
    requires Cong(m, 1 + y, p) && Cong(d, 1 - y, p) && Cong(d * i, 1, p) && Cong(u, m * i, p)
    ensures Montgomery(y, u, p)
  {
    Symmetric(d, 1 - y, p);
    Scaled(1 - y, d, u, p);
    Scaled(u, m * i, d, p);
    assert u * d == d * u;
    Transitive(u * (1 - y), d * u, d * (m * i), p);
    Scaled(d * i, 1, m, p);
    assert m * (d * i) == d * (m * i);
    Transitive(u * (1 - y), d * (m * i), m, p);
    Transitive(u * (1 - y), m, 1 + y, p);
  }

  /** The conversion: it fails exactly on a wrong length and where the map has no value,
      and otherwise returns the one 32-byte string that encodes the value. */
  method Ed25519PublicKeyToCurve25519(pub: seq<byte>) returns (r: Result<seq<byte>>)
    ensures r.Ok? <==> exists out :: Converts(pub, out, P())
    ensures r.Ok? ==> Converts(pub, r.value, P()) && forall out :: Converts(pub, out, P()) ==> out == r.value
    ensures r.Ok? ==>
              && |pub| == 32 && |r.value| == 32 && Little(r.value) < P()
              && Cong(Little(r.value) * (1 - YOf(pub)), 1 + YOf(pub), P())
  {
    hide P, Montgomery, Little, Pow, Big, BigBytes, Zeros, Reversed;
    PFacts();
    if |pub| != 32 {
      return Err("invalid Ed25519 public key size");
    }
    var reversed := ReverseBytes(pub[31 := pub[31] % 128]);
    var y := Big(reversed);
    BigOfReversed(pub[31 := pub[31] % 128]);
    var numerator := (1 + y) % P();
    var denominator := (1 - y) % P();
    Remainder(1 + y, P());
    Remainder(1 - y, P());
    var found, inverse := ModInverse(denominator, P());
    if !found {
      forall out | Converts(pub, out, P())
        ensures false
      {
        NoImage(y, Little(out), denominator, P());
      }
      return Err("failed to compute modular inverse - invalid point");
    }
    var u := numerator * inverse % P();
    Remainder(numerator * inverse, P());
    Image(y, numerator, denominator, inverse, u, P());
    BigBytesFit(u, 32);
    DecodeEncode(u, 32);
    var uBytes := BigBytes(u);
    var out := ReverseBytes(Zeros(32 - |uBytes|) + uBytes);
    assert Converts(pub, out, P());
    MontgomeryIs(YOf(pub), Little(out), P());
    forall other | Converts(pub, other, P())
      ensures other == out
    {
      Because(YOf(pub), YOf(pub), P(), 0);
      SameKeyIff(pub, other, pub, out, P());
    }
    return Ok(out);
  }

  /** y = 1 is refused: the neutral element has no Montgomery coordinate. */
  lemma OneHasNoImage(y: int, u: int, p: int)
    requires p > 2 && Cong(y, 1, p)
    ensures !Montgomery(y, u, p)
  {
    if Montgomery(y, u, p) {
      MontgomeryCongruent(y, 1, u, p);
      assert u * (1 - 1) == 0;
      Symmetric(0, 2, p);
      Small(2, 0, p);
      assert false;
    }
  }

  /** `b | 64`. */
  function Or64(b: byte): byte {
    if b / 64 % 2 == 1 then b else b + 64
  }

  /** The three masks of section 5 of RFC 7748. */
  function Clamped(s: seq<byte>): (r: seq<byte>)
    requires |s| == 32
    ensures |r| == 32
  {
    s[0 := s[0] - s[0] % 8][31 := Or64(s[31] % 128)]
  }

  lemma ClampedBytes(s: seq<byte>)
    requires |s| == 32
    ensures var r := Clamped(s);
            && r[1..31] == s[1..31]
            && r[0] % 8 == 0 && r[0] / 8 == s[0] / 8
            && 64 <= r[31] < 128 && r[31] % 64 == s[31] % 64
  {
  }

  lemma ClampedTwice(s: seq<byte>)
    requires |s| == 32
    ensures Clamped(Clamped(s)) == Clamped(s)
  {
    ClampedBytes(s);
    var r := Clamped(s);
    assert Or64(r[31] % 128) == r[31];
  }

  lemma LowBits(s: seq<byte>)
    requires s != [] && s[0] % 8 == 0
    ensures Little(s) % 8 == 0
  {
    LittleTail(s);
    hide *;
    assert (256 * Little(s[1..])) % 8 == 0;
  }

  lemma LittleTail(s: seq<byte>)
    requires s != []
    ensures Little(s) == s[0] + 256 * Little(s[1..])
  {
    hide Little, Pow;
    LittleSplit(s, 1);
    OneByte(s[..1]);
    PowOne(256);
  }

  lemma OneByte(s: seq<byte>)
    requires |s| == 1
    ensures Little(s) == s[0]
  {
    assert Little(s[1..]) == 0;
  }

  lemma PowOne(b: nat)
    ensures Pow(b, 1) == b
  {
    assert Pow(b, 0) == 1;
  }

  lemma Between(low: nat, top: nat, q: nat)
    requires low < q && 64 <= top < 128
    ensures 64 * q <= low + q * top < 128 * q
  {
    assert q * (top - 64) >= 0 && q * (127 - top) >= 0;
  }

  lemma TopByte(low: nat, top: nat, n: nat)
    requires low < Pow(256, n) && 64 <= top < 128
    ensures Pow(2, 8 * n + 6) <= low + Pow(256, n) * top < Pow(2, 8 * n + 7)
  {
    hide Pow;
    Pow256(n);
    SmallPowers();
    PowAdd(2, 6, 8 * n);
    PowAdd(2, 7, 8 * n);
    Between(low, top, Pow(256, n));
  }

  /** The scalar is a multiple of 8 in [2^254, 2^255), for every seed hash. */
  lemma ClampedRange(s: seq<byte>)
    requires |s| == 32
    ensures Little(Clamped(s)) % 8 == 0 && Pow(2, 254) <= Little(Clamped(s)) < Pow(2, 255)
  {
    hide Pow, Little, Clamped;
    var r := Clamped(s);
    ClampedBytes(s);
    LowBits(r);
    LittleSplit(r, 31);
    LittleBounded(r[..31]);
    OneByte(r[31..]);
    TopByte(Little(r[..31]), r[31], 31);
  }

  /** The conversion of a private key; `hash` is SHA-512 of its seed. */
  method Ed25519PrivateKeyToCurve25519(priv: seq<byte>, hash: seq<byte>) returns (r: Result<seq<byte>>)
    requires |hash| == 64
    ensures r.Ok? <==> |priv| == 64
    ensures r.Ok? ==> r.value == Clamped(hash[..32])
    ensures r.Ok? ==> Little(r.value) % 8 == 0 && Pow(2, 254) <= Little(r.value) < Pow(2, 255)
  {
    hide Pow, Little;
    if |priv| != 64 {
      return Err("invalid Ed25519 private key size");
    }
    var key := hash[..32];
    key := key[0 := key[0] - key[0] % 8];
    key := key[31 := key[31] % 128];
    key := key[31 := Or64(key[31])];
    ClampedRange(hash[..32]);
    return Ok(key);
  }
}
