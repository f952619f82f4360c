/** Facts about products, quotients and sequences that several modules need. */
module Arithmetic {

  lemma {:induction false} MulOrder(x: nat, y: nat, m: nat)
    requires x <= y
    ensures x * m <= y * m
    decreases y
  {
    if x < y {
      MulOrder(x, y - 1, m);
      assert y * m == (y - 1) * m + m;
    }
  }

  /** There is only one quotient and remainder. */
  lemma DivModUnique(x: nat, m: nat, q: nat, r: nat)
    requires m > 0 && r < m && x == q * m + r
    ensures x / m == q && x % m == r
  {
    var p := x / m;
    assert x == p * m + x % m;
    assert (p + 1) * m == p * m + m && (q + 1) * m == q * m + m;
    if p < q {
      MulOrder(p + 1, q, m);
    } else if q < p {
      MulOrder(q + 1, p, m);
    }
  }

  lemma Associative<T>(a: seq<T>, b: seq<T>, c: seq<T>)
    ensures a + b + c == a + (b + c)
  {
  }

  /** One element more of a prefix. */
  lemma TakeMore<T>(s: seq<T>, i: nat)
    requires i < |s|
    ensures s[..i + 1] == s[..i] + [s[i]]
  {
  }

  /** The elements from i on, one by one. */
  lemma DropLess<T>(s: seq<T>, i: nat)
    requires i < |s|
    ensures s[i..] == [s[i]] + s[i + 1..]
  {
  }

  /** A sequence put together comes apart where it was joined. */
  lemma Parts<T>(a: seq<T>, b: seq<T>)
    ensures (a + b)[..|a|] == a && (a + b)[|a|..] == b
  {
  }

  lemma PlusNothing<T>(s: seq<T>)
    ensures s + [] == s && [] + s == s
  {
  }

  /** A slice without its first element. */
  lemma SliceTail<T>(s: seq<T>, i: nat, j: nat)
    requires i < j <= |s|
    ensures s[i..j][1..] == s[i + 1..j] && s[i..][1..] == s[i + 1..]
  {
  }
}
