/** Facts about slices that several components need. */
module Sequences {
  lemma SliceOfPrefix<T>(m: seq<T>, n: nat, a: nat, b: nat)
    requires a <= b <= n <= |m|
    ensures m[..n][a..b] == m[a..b]
  {
  }

  lemma Associative<T>(a: seq<T>, b: seq<T>, c: seq<T>)
    ensures (a + b) + c == a + (b + c)
  {
  }
}
