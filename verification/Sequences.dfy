/**
 Facts about sequences that stand for memory and for C strings.
 */
module Sequences {

  function Repeat<T>(x: T, n: nat): (r: seq<T>)
    ensures |r| == n
  {
    seq(n, _ => x)
  }

  /* A run of memory with b stored over it from index `at`. */
  function Overlay<T>(s: seq<T>, at: nat, b: seq<T>): (r: seq<T>)
    requires at + |b| <= |s|
    ensures |r| == |s|
  {
    s[..at] + b + s[at + |b|..]
  }

  lemma OverlaySlices<T>(s: seq<T>, at: nat, b: seq<T>)
    requires at + |b| <= |s|
    ensures var r := Overlay(s, at, b);
            r[..at] == s[..at] && r[at..at + |b|] == b && r[at + |b|..] == s[at + |b|..]
  {
  }

  /* A store leaves every range that it does not overlap. */
  lemma OverlayElsewhere<T>(s: seq<T>, at: nat, b: seq<T>, lo: nat, hi: nat)
    requires at + |b| <= |s| && lo <= hi <= |s|
    requires hi <= at || at + |b| <= lo
    ensures Overlay(s, at, b)[lo..hi] == s[lo..hi]
  {
  }

  lemma OverlayTwice<T>(s: seq<T>, at: nat, b: seq<T>, c: seq<T>)
    requires at + |b| + |c| <= |s|
    ensures Overlay(Overlay(s, at, b), at + |b|, c) == Overlay(s, at, b + c)
  {
  }

  lemma OverlayNothing<T>(s: seq<T>, at: nat)
    requires at <= |s|
    ensures Overlay(s, at, []) == s
  {
  }

  /* Storing one element more. */
  lemma OverlayNext<T>(s: seq<T>, at: nat, b: seq<T>, x: T)
    requires at + |b| < |s|
    ensures Overlay(s, at, b)[at + |b| := x] == Overlay(s, at, b + [x])
  {
  }

  lemma OverlayAt<T>(s: seq<T>, b: seq<T>, k: nat)
    requires |b| <= |s| && k < |s|
    ensures Overlay(s, 0, b)[k] == if k < |b| then b[k] else s[k]
  {
  }

  /* Runs that agree on a range agree on every part of it. */
  lemma SubRange<T>(s: seq<T>, t: seq<T>, lo: nat, hi: nat, l: nat, r: nat)
    requires lo <= l <= r <= hi <= |s| && |s| == |t|
    requires s[lo..hi] == t[lo..hi]
    ensures s[l..r] == t[l..r]
  {
    forall k | l <= k < r
      ensures s[k] == t[k]
    {
      assert s[k] == s[lo..hi][k - lo] && t[k] == t[lo..hi][k - lo];
    }
  }

  lemma ConcatSame<T>(a: seq<T>, b: seq<T>, c: seq<T>, d: seq<T>)
    requires |a| == |c|
    ensures a + b == c + d <==> a == c && b == d
  {
    assert (a + b)[..|a|] == a && (a + b)[|a|..] == b;
    assert (c + d)[..|c|] == c && (c + d)[|c|..] == d;
  }

  predicate OccursAt(s: string, part: string, k: nat) {
    k + |part| <= |s| && s[k..k + |part|] == part
  }

  predicate Occurs(s: string, part: string) {
    exists k :: 0 <= k <= |s| && OccursAt(s, part, k)
  }

  /* The string is a + part + b. */
  predicate Splits(s: string, a: string, part: string, b: string) {
    s == a + part + b
  }

  lemma OccursSplits(s: string, part: string)
    ensures Occurs(s, part) <==> exists a, b :: Splits(s, a, part, b)
  {
    if Occurs(s, part) {
      var k :| 0 <= k <= |s| && OccursAt(s, part, k);
      assert s == s[..k] + s[k..k + |part|] + s[k + |part|..];
      assert Splits(s, s[..k], part, s[k + |part|..]);
    }
    if a, b :| Splits(s, a, part, b) {
      assert s[|a|..|a| + |part|] == part;
      assert OccursAt(s, part, |a|);
    }
  }
}
