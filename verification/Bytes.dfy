/** Byte strings as numbers, in both orders. */
module Bytes {
  type byte = b: int | 0 <= b < 256

  function Pow(b: nat, n: nat): nat {
    if n == 0 then 1 else b * Pow(b, n - 1)
  }

  lemma {:induction false} PowAdd(b: nat, m: nat, n: nat)
    ensures Pow(b, m + n) == Pow(b, m) * Pow(b, n)
    decreases m
  {
    if m > 0 {
      PowAdd(b, m - 1, n);
      assert b * (Pow(b, m - 1) * Pow(b, n)) == b * Pow(b, m - 1) * Pow(b, n);
    }
  }

  lemma {:induction false} PowPositive(b: nat, n: nat)
    requires b > 0
    ensures Pow(b, n) > 0
    decreases n
  {
    if n > 0 {
      PowPositive(b, n - 1);
    }
  }

  lemma SmallPowers()
    ensures Pow(2, 1) == 2 && Pow(2, 5) == 32 && Pow(2, 6) == 64 && Pow(2, 7) == 128 && Pow(2, 8) == 256
  {
  }

  lemma {:induction false} Pow256(n: nat)
    ensures Pow(256, n) == Pow(2, 8 * n)
    decreases n
  {
    if n > 0 {
      Pow256(n - 1);
      PowAdd(2, 8, 8 * (n - 1));
      SmallPowers();
    }
  }

  function Little(s: seq<byte>): (v: nat) {
    if s == [] then 0 else s[0] + 256 * Little(s[1..])
  }

  /** `big.Int.SetBytes`. */
  function Big(s: seq<byte>): nat {
    if s == [] then 0 else 256 * Big(s[..|s| - 1]) + s[|s| - 1]
  }

  /** `big.Int.Bytes`: big-endian without leading zeros. */
  function BigBytes(u: nat): (s: seq<byte>)
    ensures Big(s) == u
    ensures s != [] ==> s[0] != 0
  {
    if u == 0 then []
    else
      var s := BigBytes(u / 256) + [u % 256];
      assert s[..|s| - 1] == BigBytes(u / 256);
      s
  }

  function Zeros(n: nat): (s: seq<byte>)
    ensures |s| == n && forall i :: 0 <= i < n ==> s[i] == 0
  {
    if n == 0 then [] else [0] + Zeros(n - 1)
  }

  function Reversed(s: seq<byte>): (r: seq<byte>)
    ensures |r| == |s| && forall i :: 0 <= i < |s| ==> r[i] == s[|s| - 1 - i]
  {
    if s == [] then [] else Reversed(s[1..]) + [s[0]]
  }

  /** The loop of reverseBytes. */
  method ReverseBytes(b: seq<byte>) returns (r: seq<byte>)
    ensures r == Reversed(b)
  {
    var result := new byte[|b|](_ => 0);
    for i := 0 to |b|
      invariant forall k :: 0 <= k < i ==> result[k] == b[|b| - 1 - k]
    {
      result[i] := b[|b| - 1 - i];
    }
    r := result[..];
  }

  /** Reading the reversed bytes as big-endian is reading them as little-endian. */
  lemma {:induction false} BigOfReversed(s: seq<byte>)
    ensures Big(Reversed(s)) == Little(s)
    decreases |s|
  {
    if s != [] {
      BigOfReversed(s[1..]);
      assert Reversed(s)[..|s| - 1] == Reversed(s[1..]);
    }
  }

  lemma ReversedTwice(s: seq<byte>)
    ensures Reversed(Reversed(s)) == s
  {
  }

  lemma {:induction false} BigOfZeros(n: nat, s: seq<byte>)
    ensures Big(Zeros(n) + s) == Big(s)
    decreases |s|, n
  {
    var z := Zeros(n) + s;
    if s == [] {
      if n > 0 {
        assert z[..|z| - 1] == Zeros(n - 1) + [];
        BigOfZeros(n - 1, []);
      }
    } else {
      assert z[..|z| - 1] == Zeros(n) + s[..|s| - 1];
      BigOfZeros(n, s[..|s| - 1]);
    }
  }

  lemma {:induction false} BigBytesFit(u: nat, n: nat)
    requires u < Pow(256, n)
    ensures |BigBytes(u)| <= n
    decreases n
  {
    if u > 0 {
      BigBytesFit(u / 256, n - 1);
    }
  }

  /** `copy(padded[32-len(b):], b)` and the reversal that follows it. */
  function Encoded(u: nat, n: nat): (s: seq<byte>)
    requires u < Pow(256, n)
  {
    BigBytesFit(u, n);
    Reversed(Zeros(n - |BigBytes(u)|) + BigBytes(u))
  }

  /** Encoding and then decoding gives the number back. */
  lemma DecodeEncode(u: nat, n: nat)
    requires u < Pow(256, n)
    ensures |Encoded(u, n)| == n && Little(Encoded(u, n)) == u
  {
    hide Big, Little, Pow, Zeros, BigBytes, Reversed;
    BigBytesFit(u, n);
    var s := Zeros(n - |BigBytes(u)|) + BigBytes(u);
    ReversedTwice(s);
    BigOfReversed(Reversed(s));
    BigOfZeros(n - |BigBytes(u)|, BigBytes(u));
  }

  lemma {:induction false} LittleBounded(s: seq<byte>)
    ensures Little(s) < Pow(256, |s|)
    decreases |s|
  {
    if s != [] {
      LittleBounded(s[1..]);
    }
  }

  /** Bytes of one length are determined by their value. */
  lemma {:induction false} LittleInjective(s: seq<byte>, t: seq<byte>)
    requires |s| == |t| && Little(s) == Little(t)
    ensures s == t
    decreases |s|
  {
    if s != [] {
      LittleInjective(s[1..], t[1..]);
      assert s == [s[0]] + s[1..] && t == [t[0]] + t[1..];
    }
  }

  /** Decoding and then encoding gives the bytes back. */
  lemma EncodeDecode(s: seq<byte>)
    ensures Little(s) < Pow(256, |s|) && Encoded(Little(s), |s|) == s
  {
    LittleBounded(s);
    DecodeEncode(Little(s), |s|);
    LittleInjective(Encoded(Little(s), |s|), s);
  }

  lemma {:induction false} LittleSplit(s: seq<byte>, k: nat)
    requires k <= |s|
    ensures Little(s) == Little(s[..k]) + Pow(256, k) * Little(s[k..])
    decreases k
  {
    if k == 0 {
      assert s[0..] == s && s[..0] == [];
    } else {
      LittleSplit(s[1..], k - 1);
      assert s[1..][..k - 1] == s[..k][1..] && s[1..][k - 1..] == s[k..];
      assert Pow(256, k) * Little(s[k..]) == 256 * (Pow(256, k - 1) * Little(s[k..])) by {
        assert Pow(256, k) == 256 * Pow(256, k - 1);
      }
    }
  }
}
