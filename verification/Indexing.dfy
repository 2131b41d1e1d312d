/** Division of file block numbers by the capacity of a subtree. */
module Indexing {

  lemma MulMono(a: nat, b: nat, c: nat)
    ensures a <= b ==> a * c <= b * c
  {
  }

  lemma DivMod(k: nat, c: nat)
    requires c >= 1
    ensures k == (k / c) * c + k % c && k % c < c
  {
  }

  lemma Unique(k: nat, c: nat, i: nat, r: nat)
    requires c >= 1 && k == i * c + r && r < c
    ensures k / c == i && k % c == r
  {
    DivMod(k, c);
    MulMono(k / c + 1, i, c);
    MulMono(i + 1, k / c, c);
  }

  lemma IndexBound(k: nat, c: nat, n: nat)
    requires c >= 1 && k < n * c
    ensures k / c < n
  {
    DivMod(k, c);
    MulMono(n, k / c, c);
  }

  lemma DivMono(a: nat, b: nat, c: nat)
    requires c >= 1
    ensures a <= b ==> a / c <= b / c
  {
    DivMod(a, c);
    DivMod(b, c);
    MulMono(b / c + 1, a / c, c);
  }

  /** A range of block numbers, split into whole multiples of c and remainders. */
  lemma RangeByIndex(first: nat, last: nat, c: nat, k: nat)
    requires c >= 1 && first <= last
    ensures first / c <= last / c
    ensures first <= k <= last <==>
      && first / c <= k / c <= last / c
      && (k / c == first / c ==> first % c <= k % c)
      && (k / c == last / c ==> k % c <= last % c)
  {
    DivMod(first, c);
    DivMod(last, c);
    DivMod(k, c);
    DivMono(first, last, c);
    DivMono(first, k, c);
    DivMono(k, first, c);
    DivMono(k, last, c);
    DivMono(last, k, c);
  }
}
