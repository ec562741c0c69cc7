/**
 Byte sequences as Go's bytes.Compare and encoding/binary read them.

 A Go string is a sequence of bytes. Texts here are Dafny strings in which each char stands
 for one byte, so lengths and positions are Go's.
 */
module Bytes {
  type byte = x: int | 0 <= x < 256

  function Codes(text: string): (codes: seq<int>)
    ensures |codes| == |text|
  {
    seq(|text|, i requires 0 <= i < |text| => text[i] as int)
  }

  /** bytes.Compare: -1, 0 or +1, lexicographically. */
  function Compare(a: seq<int>, b: seq<int>): (c: int)
    ensures c == -1 || c == 0 || c == 1
  {
    if a == [] then (if b == [] then 0 else -1)
    else if b == [] then 1
    else if a[0] < b[0] then -1
    else if a[0] > b[0] then 1
    else Compare(a[1..], b[1..])
  }

  predicate Below(a: seq<int>, b: seq<int>) {
    Compare(a, b) == -1
  }

  lemma {:induction false} CompareSwapped(a: seq<int>, b: seq<int>)
    ensures Compare(a, b) == -Compare(b, a)
  {
    if a != [] && b != [] && a[0] == b[0] {
      CompareSwapped(a[1..], b[1..]);
    }
  }

  lemma {:induction false} CompareEqual(a: seq<int>, b: seq<int>)
    ensures Compare(a, b) == 0 <==> a == b
  {
    if a != [] && b != [] && a[0] == b[0] {
      CompareEqual(a[1..], b[1..]);
      assert a == [a[0]] + a[1..] && b == [b[0]] + b[1..];
    }
  }

  lemma {:induction false} BelowTransitive(a: seq<int>, b: seq<int>, c: seq<int>)
    requires Below(a, b) && Below(b, c)
    ensures Below(a, c)
  {
    if a != [] && b != [] && c != [] && a[0] == b[0] == c[0] {
      BelowTransitive(a[1..], b[1..], c[1..]);
    }
  }

  /** Of two different sequences exactly one is below the other, and none is below itself. */
  lemma BelowIsTotal(a: seq<int>, b: seq<int>)
    ensures a == b || Below(a, b) || Below(b, a)
    ensures !(Below(a, b) && Below(b, a)) && !Below(a, a)
  {
    CompareSwapped(a, b);
    CompareSwapped(a, a);
    CompareEqual(a, b);
  }

  /** Leading parts of one length decide, and the rest only when those are equal. */
  lemma {:induction false} CompareConcat(a: seq<int>, b: seq<int>, a': seq<int>, b': seq<int>)
    requires |a| == |b|
    ensures Compare(a + a', b + b') == if Compare(a, b) != 0 then Compare(a, b) else Compare(a', b')
  {
    if a == [] {
      assert a + a' == a' && b + b' == b';
    } else {
      assert (a + a')[1..] == a[1..] + a' && (b + b')[1..] == b[1..] + b';
      if a[0] == b[0] {
        CompareConcat(a[1..], b[1..], a', b');
      }
    }
  }

  /** All bits set is above everything else of its length. */
  lemma {:induction false} TopIsAbove(a: seq<byte>, top: seq<byte>)
    requires |a| == |top| && a != top && forall i :: 0 <= i < |top| ==> top[i] == 0xff
    ensures Below(a, top)
  {
    if a[0] == top[0] {
      assert a == [a[0]] + a[1..] && top == [top[0]] + top[1..];
      TopIsAbove(a[1..], top[1..]);
    }
  }

  function Power256(n: nat): (p: nat)
    ensures p > 0
  {
    if n == 0 then 1 else 256 * Power256(n - 1)
  }

  /** The low n bytes of x, most significant first. */
  function BigEndian(x: nat, n: nat): (s: seq<byte>)
    ensures |s| == n
  {
    if n == 0 then [] else BigEndian(x / 256, n - 1) + [x % 256]
  }

  function FromBigEndian(s: seq<byte>): nat {
    if s == [] then 0 else 256 * FromBigEndian(s[..|s| - 1]) + s[|s| - 1]
  }

  lemma {:induction false} BigEndianReadsBack(x: nat, n: nat)
    requires x < Power256(n)
    ensures FromBigEndian(BigEndian(x, n)) == x
  {
    if n > 0 {
      BigEndianReadsBack(x / 256, n - 1);
      assert BigEndian(x, n)[..n - 1] == BigEndian(x / 256, n - 1);
    }
  }

  /** Byte order is numeric order. */
  lemma {:induction false} BigEndianOrder(x: nat, y: nat, n: nat)
    requires x < Power256(n) && y < Power256(n)
    ensures Compare(BigEndian(x, n), BigEndian(y, n)) == if x < y then -1 else if x > y then 1 else 0
  {
    if n > 0 {
      BigEndianOrder(x / 256, y / 256, n - 1);
      CompareConcat(BigEndian(x / 256, n - 1), BigEndian(y / 256, n - 1), [x % 256], [y % 256]);
    }
  }

  /** And a number read off n bytes is below the n-th power and gives them back. */
  lemma {:induction false} FromBigEndianReadsBack(s: seq<byte>)
    ensures FromBigEndian(s) < Power256(|s|) && BigEndian(FromBigEndian(s), |s|) == s
  {
    if s != [] {
      var n := |s| - 1;
      FromBigEndianReadsBack(s[..n]);
      assert s == s[..n] + [s[n]];
    }
  }
}
