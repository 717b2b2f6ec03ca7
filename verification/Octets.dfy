/**
 Numbers in byte memory, least significant byte first.
 */
module Octets {

  type octet = x: int | 0 <= x < 256

  /* One more than the largest number of k bytes. */
  function Limit(k: nat): (m: nat)
    ensures m >= 1
  {
    if k == 0 then 1 else 256 * Limit(k - 1)
  }

  function Encode(n: nat, k: nat): (s: seq<octet>)
    ensures |s| == k
    decreases k
  {
    if k == 0 then [] else [n % 256] + Encode(n / 256, k - 1)
  }

  function Decode(s: seq<octet>): nat
    decreases |s|
  {
    if s == [] then 0 else s[0] + 256 * Decode(s[1..])
  }

  lemma {:induction false} DecodeEncode(n: nat, k: nat)
    requires n < Limit(k)
    ensures Decode(Encode(n, k)) == n
    decreases k
  {
    if k != 0 {
      DecodeEncode(n / 256, k - 1);
      assert Encode(n, k)[1..] == Encode(n / 256, k - 1);
    }
  }

  /* The first byte is the least significant one. */
  lemma DecodeFirst(x: octet, s: seq<octet>)
    ensures Decode([x] + s) == x + 256 * Decode(s)
  {
    assert ([x] + s)[1..] == s;
  }

  lemma {:induction false} DecodeBelowLimit(s: seq<octet>)
    ensures Decode(s) < Limit(|s|)
    decreases |s|
  {
    if s != [] {
      DecodeBelowLimit(s[1..]);
    }
  }

  /* Equal numbers of equal width have equal bytes. */
  lemma {:induction false} DecodeInjective(s: seq<octet>, t: seq<octet>)
    requires |s| == |t| && Decode(s) == Decode(t)
    ensures s == t
    decreases |s|
  {
    if s != [] {
      var x, y := Decode(s[1..]), Decode(t[1..]);
      assert s[0] - t[0] == 256 * (y - x);
      DecodeInjective(s[1..], t[1..]);
      assert s == [s[0]] + s[1..] && t == [t[0]] + t[1..];
    }
  }
}
