/** The element index `b2j`: for each element (or key) of B, the ascending list
    of positions where it occurs, and the popularity pruning of the equality
    engine. */
module ElementIndex {

  /** Each position is larger than the one before it. */
  predicate StrictlyAscending(s: seq<int>) {
    forall p, r :: 0 <= p < r < |s| ==> s[p] < s[r]
  }

  /** The positions of `x` among the first `n` elements of `s`, in ascending order. */
  ghost function PositionsUpTo<K>(s: seq<K>, x: K, n: nat): seq<int>
    requires n <= |s|
  {
    if n == 0 then []
    else PositionsUpTo(s, x, n - 1) + (if s[n - 1] == x then [n - 1] else [])
  }

  /** The positions listed for x ascend and are exactly those of x below n. */
  lemma {:induction false} PositionsExact<K>(s: seq<K>, x: K, n: nat)
    requires n <= |s|
    ensures var r := PositionsUpTo(s, x, n);
            && StrictlyAscending(r)
            && (forall p :: 0 <= p < |r| ==> 0 <= r[p] < n && s[r[p]] == x)
            && (forall j :: 0 <= j < n && s[j] == x ==> j in r)
  {
    if n > 0 {
      PositionsExact(s, x, n - 1);
    }
  }

  /** The index of the first `n` elements of `s`: every element seen so far,
      mapped to its positions. */
  ghost function IndexUpTo<K>(s: seq<K>, n: nat): map<K, seq<int>>
    requires n <= |s|
  {
    map x | x in s[..n] :: PositionsUpTo(s, x, n)
  }

  /** The full index of `s`, before any pruning. */
  ghost function Index<K>(s: seq<K>): map<K, seq<int>> {
    IndexUpTo(s, |s|)
  }

  /** Appending position n under key s[n] turns the index of s[..n] into the
      index of s[..n+1]: the step of the building loop. */
  lemma IndexStep<K>(s: seq<K>, n: nat)
    requires n < |s|
    ensures var m := IndexUpTo(s, n);
            var x := s[n];
            IndexUpTo(s, n + 1) == m[x := (if x in m then m[x] else []) + [n]]
  {
    var m := IndexUpTo(s, n);
    var x := s[n];
    var m' := m[x := (if x in m then m[x] else []) + [n]];
    var next := IndexUpTo(s, n + 1);
    assert next.Keys == m'.Keys by {
      IndexStepKeys(s, n);
    }
    assert forall y :: y in m' ==> next[y] == m'[y] by {
      forall y | y in m'
        ensures next[y] == m'[y]
      {
        PositionsStep(s, n, y);
        if y == x && x !in m {
          PositionsAbsent(s, x, n);
        }
      }
    }
    MapExtensionality(next, m');
  }

  /** Two maps with the same keys and the same value at every key are equal. */
  lemma MapExtensionality<X, Y>(m1: map<X, Y>, m2: map<X, Y>)
    requires m1.Keys == m2.Keys
    requires forall x :: x in m2 ==> m1[x] == m2[x]
    ensures m1 == m2
  {
  }

  /** The keys of the index grow by the element just appended. */
  lemma IndexStepKeys<K>(s: seq<K>, n: nat)
    requires n < |s|
    ensures IndexUpTo(s, n + 1).Keys == IndexUpTo(s, n).Keys + {s[n]}
  {
    assert s[..n + 1] == s[..n] + [s[n]];
    forall y
      ensures y in IndexUpTo(s, n + 1) <==> y in IndexUpTo(s, n) || y == s[n]
    {
      assert y in s[..n + 1] <==> y in s[..n] || y == s[n];
    }
  }

  /** One more element adds its own position to its own list only. */
  lemma PositionsStep<K>(s: seq<K>, n: nat, y: K)
    requires n < |s|
    ensures PositionsUpTo(s, y, n + 1) == PositionsUpTo(s, y, n) + (if s[n] == y then [n] else [])
  {
  }

  /** An element that does not occur in s[..n] has no positions there. */
  lemma PositionsAbsent<K>(s: seq<K>, x: K, n: nat)
    requires n <= |s| && x !in s[..n]
    ensures PositionsUpTo(s, x, n) == []
  {
  }

  /** Each list is strictly ascending and names positions of B holding its key. */
  ghost predicate IndexSound<K>(b2j: map<K, seq<int>>, kb: seq<K>) {
    forall x :: x in b2j ==>
      StrictlyAscending(b2j[x]) &&
      forall p :: 0 <= p < |b2j[x]| ==> 0 <= b2j[x][p] < |kb| && kb[b2j[x][p]] == x
  }

  /** Every key the index keeps lists every position of B holding it: an
      index that drops keys drops whole lists. */
  ghost predicate ListsComplete<K>(b2j: map<K, seq<int>>, kb: seq<K>) {
    forall j :: 0 <= j < |kb| && kb[j] in b2j ==> j in b2j[kb[j]]
  }

  /** Every position of B is listed under its own key. */
  ghost predicate IndexComplete<K>(b2j: map<K, seq<int>>, kb: seq<K>) {
    forall j :: 0 <= j < |kb| ==> kb[j] in b2j && j in b2j[kb[j]]
  }

  /** The unpruned index lists position j under key x exactly when B[j] is x,
      so every position appears in exactly one list, and every list ascends. */
  lemma IndexExact<K>(s: seq<K>)
    ensures IndexSound(Index(s), s) && IndexComplete(Index(s), s)
    ensures forall x, j :: x in Index(s) && j in Index(s)[x] <==> 0 <= j < |s| && s[j] == x
  {
    assert s[..|s|] == s;
    forall x
      ensures var r := PositionsUpTo(s, x, |s|);
              && StrictlyAscending(r)
              && (forall p :: 0 <= p < |r| ==> 0 <= r[p] < |s| && s[r[p]] == x)
              && (forall j :: 0 <= j < |s| && s[j] == x ==> j in r)
    {
      PositionsExact(s, x, |s|);
    }
  }

  /** The popularity threshold: 1 + floor(n / 100). */
  function PopularLimit(n: nat): nat {
    1 + n / 100
  }

  /** The index after pruning: when B has at least 200 elements, every key listed
      more than PopularLimit(|B|) times is dropped; shorter B is left alone. */
  ghost function Pruned<K>(index: map<K, seq<int>>, n: nat): (r: map<K, seq<int>>)
    ensures r.Keys <= index.Keys
    ensures forall x :: x in r ==> r[x] == index[x]
    ensures n < 200 ==> r == index
    ensures n >= 200 ==> forall x :: x in r ==> |r[x]| <= PopularLimit(n)
    ensures n >= 200 ==> forall x :: x in index && |index[x]| <= PopularLimit(n) ==> x in r
  {
    if n >= 200 then map x | x in index && |index[x]| <= PopularLimit(n) :: index[x]
    else index
  }

  /** Pruning drops whole lists and never edits one, so a sound index stays
      sound and every list it keeps stays complete. */
  lemma PrunedSound<K>(s: seq<K>)
    ensures IndexSound(Pruned(Index(s), |s|), s) && ListsComplete(Pruned(Index(s), |s|), s)
    ensures |s| < 200 ==> IndexComplete(Pruned(Index(s), |s|), s)
  {
    IndexExact(s);
  }
}
