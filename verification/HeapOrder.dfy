/**
  The order of a binary heap, on the sequence of its keys in level order: the
  entry at position `i` has its children at `2 * i + 1` and `2 * i + 2`.  The
  steps of sifting are swaps of an entry with its parent; these lemmas say what
  each swap keeps.
*/
module HeapOrder {
  import opened Bits

  /** `less` orders its arguments, up to a notion of being equally urgent. */
  ghost predicate StrictWeakOrder<K(!new)>(less: (K, K) -> bool) {
    && (forall a, b :: less(a, b) ==> !less(b, a))
    && (forall a, b, c :: less(a, c) ==> less(a, b) || less(b, c))
  }

  predicate Leq<K>(less: (K, K) -> bool, a: K, b: K) {
    !less(b, a)
  }

  lemma LeqTransitive<K(!new)>(less: (K, K) -> bool, a: K, b: K, c: K)
    requires StrictWeakOrder(less) && Leq(less, a, b) && Leq(less, b, c)
    ensures Leq(less, a, c)
  {
  }

  /** Position of the parent of the entry at `i > 0`. */
  function Par(i: int): int {
    (i - 1) / 2
  }

  function Swap<T>(s: seq<T>, i: nat, j: nat): (r: seq<T>)
    requires i < |s| && j < |s|
    ensures |r| == |s|
    ensures i != j ==> multiset(r) == multiset(s)
  {
    SwapPermutes(s, i, j);
    s[i := s[j]][j := s[i]]
  }

  lemma SwapPermutes<T>(s: seq<T>, i: nat, j: nat)
    requires i < |s| && j < |s|
    ensures multiset(s[i := s[j]][j := s[i]]) == multiset(s)
  {
  }

  /** No entry comes before its parent. */
  ghost predicate Ordered<K>(less: (K, K) -> bool, keys: seq<K>) {
    forall j :: 0 < j < |keys| ==> Leq(less, keys[Par(j)], keys[j])
  }

  /** Ordered, except that the entry at `i` may come before its parent. */
  ghost predicate OrderedAbove<K>(less: (K, K) -> bool, keys: seq<K>, i: nat) {
    && i < |keys|
    && (forall j :: 0 < j < |keys| && j != i ==> Leq(less, keys[Par(j)], keys[j]))
    && Bridged(less, keys, i)
  }

  /** Ordered, except around the entry at `i`. */
  ghost predicate OrderedAround<K>(less: (K, K) -> bool, keys: seq<K>, i: nat) {
    && i < |keys|
    && (forall j :: 0 < j < |keys| && j != i && Par(j) != i ==> Leq(less, keys[Par(j)], keys[j]))
    && Bridged(less, keys, i)
  }

  /** The children of the entry at `i` do not come before its parent. */
  ghost predicate Bridged<K>(less: (K, K) -> bool, keys: seq<K>, i: nat)
    requires i < |keys|
  {
    i > 0 ==> forall j :: 0 < j < |keys| && Par(j) == i ==> Leq(less, keys[Par(i)], keys[j])
  }

  /** The root comes first. */
  lemma {:induction false} RootIsLeast<K(!new)>(less: (K, K) -> bool, keys: seq<K>, i: nat)
    requires StrictWeakOrder(less) && Ordered(less, keys) && i < |keys|
    ensures Leq(less, keys[0], keys[i])
  {
    if i > 0 {
      RootIsLeast(less, keys, Par(i));
      LeqTransitive(less, keys[0], keys[Par(i)], keys[i]);
    }
  }

  /** A new last entry. */
  lemma AppendLast<K(!new)>(less: (K, K) -> bool, keys: seq<K>, k: K)
    requires Ordered(less, keys)
    ensures OrderedAbove(less, keys + [k], |keys|)
  {
    var ks := keys + [k];
    forall j | 0 < j < |ks| && j != |keys| ensures Leq(less, ks[Par(j)], ks[j]) {
      assert ks[Par(j)] == keys[Par(j)];
    }
  }

  /** Moving an entry up past its parent. */
  lemma SwapUp<K(!new)>(less: (K, K) -> bool, keys: seq<K>, i: nat)
    requires StrictWeakOrder(less) && OrderedAbove(less, keys, i)
    requires i > 0 && less(keys[i], keys[Par(i)])
    ensures OrderedAbove(less, Swap(keys, Par(i), i), Par(i))
  {
    var p := Par(i);
    var ks := Swap(keys, p, i);
    forall j | 0 < j < |ks| && j != p ensures Leq(less, ks[Par(j)], ks[j]) {
      if j != i && Par(j) == p {
        LeqTransitive(less, keys[i], keys[p], keys[j]);
      }
    }
    if p > 0 {
      forall j | 0 < j < |ks| && Par(j) == p ensures Leq(less, ks[Par(p)], ks[j]) {
        assert Leq(less, keys[Par(p)], keys[p]);
        if j != i {
          LeqTransitive(less, keys[Par(p)], keys[p], keys[j]);
        }
      }
    }
  }

  lemma UpDone<K(!new)>(less: (K, K) -> bool, keys: seq<K>, i: nat)
    requires OrderedAbove(less, keys, i)
    requires i > 0 ==> !less(keys[i], keys[Par(i)])
    ensures Ordered(less, keys)
  {
  }

  /** `c` is the position of the least of the entry at `i` and its children. */
  ghost predicate LeastChild<K>(less: (K, K) -> bool, keys: seq<K>, i: nat, c: nat) {
    && i < |keys| && c < |keys| && (c == i || (c > 0 && Par(c) == i))
    && (forall j :: 0 < j < |keys| && Par(j) == i ==> Leq(less, keys[c], keys[j]))
    && (c != i ==> less(keys[c], keys[i]))
  }

  /** Comparing with the left child and then with the right one finds the least. */
  lemma LeastOfThree<K(!new)>(less: (K, K) -> bool, keys: seq<K>, i: nat, a: nat, c: nat)
    requires StrictWeakOrder(less) && i < |keys|
    requires a == if 2 * i + 1 < |keys| && less(keys[2 * i + 1], keys[i]) then 2 * i + 1 else i
    requires c == if 2 * i + 2 < |keys| && less(keys[2 * i + 2], keys[a]) then 2 * i + 2 else a
    ensures LeastChild(less, keys, i, c) && c >= i
  {
  }

  /** Moving an entry down past its least child. */
  lemma SwapDown<K(!new)>(less: (K, K) -> bool, keys: seq<K>, i: nat, c: nat)
    requires StrictWeakOrder(less) && OrderedAround(less, keys, i)
    requires LeastChild(less, keys, i, c) && c != i
    ensures OrderedAround(less, Swap(keys, i, c), c)
  {
    var ks := Swap(keys, i, c);
    forall j | 0 < j < |ks| && j != c && Par(j) != c ensures Leq(less, ks[Par(j)], ks[j]) {
      if j == i {
        assert Leq(less, keys[Par(i)], keys[c]);
      }
    }
    forall j | 0 < j < |ks| && Par(j) == c ensures Leq(less, ks[Par(c)], ks[j]) {
      assert Leq(less, keys[c], keys[j]);
    }
  }

  lemma DownDone<K(!new)>(less: (K, K) -> bool, keys: seq<K>, i: nat)
    requires OrderedAround(less, keys, i) && LeastChild(less, keys, i, i)
    ensures OrderedAbove(less, keys, i)
  {
  }

  /** Replacing the entry at `i` of a heap by the last one. */
  lemma ReplaceByLast<K(!new)>(less: (K, K) -> bool, keys: seq<K>, i: nat)
    requires StrictWeakOrder(less) && Ordered(less, keys) && i < |keys| - 1
    ensures OrderedAround(less, keys[..|keys| - 1][i := keys[|keys| - 1]], i)
  {
    var ks := keys[..|keys| - 1][i := keys[|keys| - 1]];
    if i > 0 {
      forall j | 0 < j < |ks| && Par(j) == i ensures Leq(less, ks[Par(i)], ks[j]) {
        LeqTransitive(less, keys[Par(i)], keys[i], keys[j]);
      }
    }
  }

  lemma DropLast<K(!new)>(less: (K, K) -> bool, keys: seq<K>)
    requires Ordered(less, keys) && keys != []
    ensures Ordered(less, keys[..|keys| - 1])
  {
    var ks := keys[..|keys| - 1];
    forall j | 0 < j < |ks| ensures Leq(less, ks[Par(j)], ks[j]) {
      assert ks[Par(j)] == keys[Par(j)];
    }
  }

  // ----- the path to a position -----

  /** The `k` low bits of `n` in reverse order: the way from the root to the `n`-th node
      (counting from 1), first step in the lowest bit. */
  function Path(n: nat, k: nat): nat {
    if k == 0 then 0 else 2 * Path(n, k - 1) + Shr(n, k - 1) % 2
  }

  lemma PathStep(n: nat, k: nat)
    requires k > 0
    ensures Path(n, k) % 2 == Shr(n, k - 1) % 2 && Path(n, k) / 2 == Path(n, k - 1)
    ensures Shr(n, k - 1) == 2 * Shr(n, k) + Path(n, k) % 2
  {
  }

  /** The path is smaller than the number it was taken from. */
  lemma PathFits(n: nat, k: nat)
    requires Shr(n, k) >= 1
    ensures Path(n, k) < n
  {
    PathBelow(n, k);
    MulAtMost(1, Shr(n, k), Pow2(k));
  }

  /** The path has `k` bits, and `n` more than that. */
  lemma {:induction false} PathBelow(n: nat, k: nat)
    ensures Path(n, k) < Pow2(k)
    ensures Shr(n, k) * Pow2(k) <= n
  {
    if k > 0 {
      PathBelow(n, k - 1);
      DoubleStep(Shr(n, k - 1), Pow2(k - 1), n);
    }
  }

  lemma DoubleStep(a: nat, q: nat, n: nat)
    requires a * q <= n
    ensures a / 2 * (2 * q) <= n
  {
    assert a / 2 * (2 * q) == a / 2 * 2 * q;
    MulAtMost(a / 2 * 2, a, q);
  }

  /** Number of edges between position `i` and the root. */
  function Depth(i: nat): nat {
    if i == 0 then 0 else 1 + Depth(Par(i))
  }

  /** A node at depth `d` comes after the `2^d - 1` nodes above: the depth is at most the
      binary logarithm of its number. */
  lemma {:induction false} DepthLogarithmic(i: nat)
    ensures Pow2(Depth(i)) <= i + 1
  {
    if i > 0 {
      DepthLogarithmic(Par(i));
    }
  }
}
