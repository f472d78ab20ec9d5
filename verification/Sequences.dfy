/** Facts about sequences, and 32-bit numbers as bytes, that several models share. */
module Sequences {

  /** No element occurs twice. */
  ghost predicate Distinct<T(!new)>(s: seq<T>) {
    forall i, j :: 0 <= i < j < |s| ==> s[i] != s[j]
  }

  lemma TakeNext<T>(s: seq<T>, i: nat)
    requires i < |s|
    ensures s[..i + 1] == s[..i] + [s[i]]
  {
  }

  lemma TakeAll<T>(s: seq<T>)
    ensures s[..|s|] == s
  {
  }

  lemma Assoc<T>(t: seq<T>, u: seq<T>, v: seq<T>)
    ensures t + u + v == t + (u + v)
  {
  }

  lemma TakeConcat<T>(p: seq<T>, q: seq<T>, m: nat)
    requires m <= |p| + |q|
    ensures (p + q)[..m] == if m <= |p| then p[..m] else p + q[..m - |p|]
  {
  }
}

/** 32-bit numbers as four bytes, low byte first. */
module LittleEndian {

  const LIMIT: nat := 0x1_0000_0000

  type Byte = x: int | 0 <= x < 256

  function EncodeU32(n: nat): (s: seq<Byte>)
    requires n < LIMIT
    ensures |s| == 4
  {
    [n % 256, n / 256 % 256, n / 65536 % 256, n / 16777216]
  }

  function DecodeU32(s: seq<nat>): (n: nat)
    requires |s| == 4
  {
    s[0] + 256 * s[1] + 65536 * s[2] + 16777216 * s[3]
  }

  lemma U32RoundTrip(n: nat)
    requires n < LIMIT
    ensures DecodeU32(EncodeU32(n)) == n
  {
    var a := n / 256;
    var b := a / 256;
    assert n / 65536 == b && n / 16777216 == b / 256;
    assert n == 256 * a + n % 256 && a == 256 * b + a % 256 && b == 256 * (b / 256) + b % 256;
  }
}
