/** The order of the identity tree: first the 32-bit hash, then the key bytes. */
module Keys {

  /** Sign of the byte-string comparison: common prefix first, then length. */
  function Compare(a: string, b: string): int {
    if a == [] then (if b == [] then 0 else -1)
    else if b == [] then 1
    else if a[0] < b[0] then -1
    else if b[0] < a[0] then 1
    else Compare(a[1..], b[1..])
  }

  predicate Before(h1: nat, k1: string, h2: nat, k2: string) {
    h1 < h2 || (h1 == h2 && Compare(k1, k2) < 0)
  }

  lemma {:induction false} CompareAntisymmetric(a: string, b: string)
    ensures Compare(a, b) == -Compare(b, a)
    ensures Compare(a, b) == 0 <==> a == b
  {
    if a != [] && b != [] {
      CompareAntisymmetric(a[1..], b[1..]);
      assert a == [a[0]] + a[1..] && b == [b[0]] + b[1..];
    }
  }

  lemma {:induction false} CompareTransitive(a: string, b: string, c: string)
    requires Compare(a, b) < 0 && Compare(b, c) < 0
    ensures Compare(a, c) < 0
  {
    if a != [] && b != [] && c != [] && a[0] == b[0] == c[0] {
      CompareTransitive(a[1..], b[1..], c[1..]);
    }
  }

  /** Two distinct (hash, key) pairs are ordered one way and not the other. */
  lemma BeforeIsTotal(h1: nat, k1: string, h2: nat, k2: string)
    ensures h1 != h2 || k1 != k2 <==> Before(h1, k1, h2, k2) || Before(h2, k2, h1, k1)
    ensures !(Before(h1, k1, h2, k2) && Before(h2, k2, h1, k1))
  {
    CompareAntisymmetric(k1, k2);
  }

  lemma BeforeIsTransitive(h1: nat, k1: string, h2: nat, k2: string, h3: nat, k3: string)
    requires Before(h1, k1, h2, k2) && Before(h2, k2, h3, k3)
    ensures Before(h1, k1, h3, k3)
  {
    if h1 == h2 == h3 {
      CompareTransitive(k1, k2, k3);
    }
  }
}
