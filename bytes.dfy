/** Bytes and the big-endian number a byte string denotes. */
module Bytes {

  /** An octet, kept as an integer so that arithmetic on it stays linear. */
  type Byte = x: int | 0 <= x < 256

  /** k zero bytes. */
  function Zeros(k: nat): (r: seq<Byte>)
    ensures |r| == k
    ensures forall i :: 0 <= i < k ==> r[i] == 0
  {
    if k == 0 then [] else [0] + Zeros(k - 1)
  }

  /** 256 raised to the power k. */
  function Pow256(k: nat): (r: nat)
    ensures r >= 1
  {
    if k == 0 then 1 else 256 * Pow256(k - 1)
  }

  /** The unsigned number whose big-endian (most significant byte first) encoding is b. */
  function Value(b: seq<Byte>): (r: nat)
  {
    if |b| == 0 then 0 else b[0] * Pow256(|b| - 1) + Value(b[1..])
  }

  /** A byte string of length n denotes a number below 256^n. */
  lemma {:induction false} ValueBound(b: seq<Byte>)
    ensures Value(b) < Pow256(|b|)
  {
    if |b| > 0 {
      var p := Pow256(|b| - 1);
      ValueBound(b[1..]);
      MulLeft(b[0], 255, p);
      assert Value(b) < 256 * p;
    }
  }

  /** A run of zero bytes followed by one more zero byte is a longer run. */
  lemma ZerosAppend(k: nat, b: seq<Byte>)
    ensures Zeros(k) + (Zeros(1) + b) == Zeros(k + 1) + b
  {
    assert Zeros(k) + Zeros(1) == Zeros(k + 1);
    assert Zeros(k) + (Zeros(1) + b) == (Zeros(k) + Zeros(1)) + b;
  }

  /** Multiplying by a non-negative factor keeps an ordering. */
  lemma MulLeft(x: int, y: int, p: nat)
    requires x <= y
    ensures x * p <= y * p
  {
  }

  /** Leading zero bytes do not change the number a byte string denotes. */
  lemma {:induction false} ValueZeroPrefix(k: nat, b: seq<Byte>)
    ensures Value(Zeros(k) + b) == Value(b)
  {
    if k > 0 {
      var z := Zeros(k) + b;
      assert z == [0] + (Zeros(k - 1) + b);
      assert z[1..] == Zeros(k - 1) + b;
      ValueZeroPrefix(k - 1, b);
      assert z[0] == 0;
      assert Value(z) == z[0] * Pow256(|z| - 1) + Value(z[1..]);
    } else {
      assert Zeros(k) + b == b;
    }
  }

  /** Two byte strings that differ only after a common zero prefix are equal once the prefix is dropped. */
  lemma ZeroPrefixCancel(k: nat, a: seq<Byte>, b: seq<Byte>)
    requires Zeros(k) + a == Zeros(k) + b
    ensures a == b
  {
    assert a == (Zeros(k) + a)[k..];
    assert b == (Zeros(k) + b)[k..];
  }
}
