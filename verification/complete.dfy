/** What the match list finds when the index lists every position of B: no
    agreeing element pair is left outside its Equal spans, and a sequence
    diffed against itself is one Equal span. */
module Complete {
  import opened Primitives
  import opened ElementIndex
  import opened Runs
  import opened Normalize
  import opened Spans

  /** Element x of A and element y of B exist and are equal. */
  ghost predicate Agree<K>(ka: seq<K>, kb: seq<K>, x: int, y: int) {
    0 <= x < |ka| && 0 <= y < |kb| && ka[x] == kb[y]
  }

  /** The pair (x, y) lies inside window q. */
  predicate CellIn(x: int, y: int, q: Quad) {
    q.Astart <= x < q.Aend && q.Bstart <= y < q.Bend
  }

  /** Run m shadows the pair (x, y): the pair lies neither wholly before m
      nor wholly after it in both sequences, so no run separated from m can
      use it. */
  predicate Shadows(m: Match, x: int, y: int) {
    !(x < m.astart && y < m.bstart) && !(m.astart + m.length <= x && m.bstart + m.length <= y)
  }

  /** Some run of `runs` shadows the pair (x, y). */
  ghost predicate Shadowed(runs: seq<Match>, x: int, y: int) {
    exists p :: 0 <= p < |runs| && Shadows(runs[p], x, y)
  }

  /** Some queued window holds the pair (x, y). */
  ghost predicate Queued(queue: seq<Quad>, x: int, y: int) {
    exists r :: 0 <= r < |queue| && CellIn(x, y, queue[r])
  }

  /** No element of A inside span s equals an element of B inside it. */
  ghost predicate NoCommonPair<K>(ka: seq<K>, kb: seq<K>, s: Span) {
    forall x, y :: s.Astart <= x < s.Aend && s.Bstart <= y < s.Bend && 0 <= x < |ka| && 0 <= y < |kb|
      ==> ka[x] != kb[y]
  }

  /** A window whose first longest run is empty holds no agreeing pair: any
      such pair would be a run of length one. */
  lemma EmptyLongestNoPair<K>(ka: seq<K>, kb: seq<K>, q: Quad, m: Match, x: int, y: int)
    requires IsFirstLongest(ka, kb, q, m) && m.length == 0 && CellIn(x, y, q)
    requires 0 <= x < |ka| && 0 <= y < |kb|
    ensures ka[x] != kb[y]
  {
    if ka[x] == kb[y] {
      assert IsRun(ka, kb, Match(x, y, 1)) && InQuad(Match(x, y, 1), q);
    }
  }

  /** A pair held by the queue rest + [q] is held by q or by a window of rest. */
  lemma QueuedPop(rest: seq<Quad>, q: Quad, x: int, y: int)
    requires Queued(rest + [q], x, y)
    ensures CellIn(x, y, q) || Queued(rest, x, y)
  {
    var r :| 0 <= r < |rest + [q]| && CellIn(x, y, (rest + [q])[r]);
    if r < |rest| {
      assert rest[r] == (rest + [q])[r];
    }
  }

  /** A pair held by rest, or by window q without being shadowed by q's run m,
      is held by rest with m's children pushed: the part of q before m or the
      part after it. */
  lemma QueuedPush(rest: seq<Quad>, q: Quad, m: Match, x: int, y: int)
    requires InQuad(m, q)
    requires Queued(rest, x, y) || (CellIn(x, y, q) && !Shadows(m, x, y))
    ensures Queued(rest + Children(q, m), x, y)
  {
    var kids := Children(q, m);
    if Queued(rest, x, y) {
      var r :| 0 <= r < |rest| && CellIn(x, y, rest[r]);
      assert (rest + kids)[r] == rest[r];
    } else if x < m.astart && y < m.bstart {
      assert (rest + kids)[|rest|] == kids[0];
    } else {
      assert (rest + kids)[|rest| + |kids| - 1] == kids[|kids| - 1];
    }
  }

  /** A shadow by m, or by a run of tail, is a shadow by a run of [m] + tail. */
  lemma ShadowedCons(m: Match, tail: seq<Match>, x: int, y: int)
    requires Shadows(m, x, y) || Shadowed(tail, x, y)
    ensures Shadowed([m] + tail, x, y)
  {
    if Shadows(m, x, y) {
      assert ([m] + tail)[0] == m;
    } else {
      var p :| 0 <= p < |tail| && Shadows(tail[p], x, y);
      assert ([m] + tail)[p + 1] == tail[p];
    }
  }

  /** With every position of B indexed, every agreeing pair held by a queued
      window is shadowed by a run the worklist goes on to record: a window
      whose first longest run is empty holds no agreeing pair, and a pair of a
      window that its run does not shadow moves to one of the windows pushed
      after it. */
  lemma {:induction false} PendingShadows<K>(ka: seq<K>, kb: seq<K>, b2j: map<K, seq<int>>,
                                             queue: seq<Quad>, x: int, y: int)
    requires IndexComplete(b2j, kb) && QueueValid(queue, |ka|, |kb|)
    requires Agree(ka, kb, x, y) && Queued(queue, x, y)
    ensures Shadowed(Pending(ka, kb, b2j, queue), x, y)
    decreases Weight(queue), |queue|, 1
  {
    var q, rest := queue[|queue| - 1], queue[..|queue| - 1];
    assert queue == rest + [q];
    PendingShadowsPop(ka, kb, b2j, rest, q, x, y);
  }

  /** PendingShadows for a queue whose last window is q. */
  lemma {:induction false} PendingShadowsPop<K>(ka: seq<K>, kb: seq<K>, b2j: map<K, seq<int>>,
                                                rest: seq<Quad>, q: Quad, x: int, y: int)
    requires IndexComplete(b2j, kb) && QueueValid(rest + [q], |ka|, |kb|)
    requires Agree(ka, kb, x, y) && Queued(rest + [q], x, y)
    ensures Shadowed(Pending(ka, kb, b2j, rest + [q]), x, y)
    decreases Weight(rest + [q]), |rest + [q]|, 0
  {
    PendingStep(ka, kb, b2j, rest, q);
    var m := LongestIn(ka, kb, b2j, q);
    LongestInSpec(ka, kb, b2j, q);
    WeightStep(rest, q, m);
    QueuedPop(rest, q, x, y);
    if m.length == 0 {
      if CellIn(x, y, q) {
        EmptyLongestNoPair(ka, kb, q, m, x, y);
        assert false;
      }
      PendingShadows(ka, kb, b2j, rest, x, y);
    } else if CellIn(x, y, q) && Shadows(m, x, y) {
      ShadowedCons(m, Pending(ka, kb, b2j, rest + Children(q, m)), x, y);
    } else {
      QueuedPush(rest, q, m, x, y);
      PendingShadows(ka, kb, b2j, rest + Children(q, m), x, y);
      ShadowedCons(m, Pending(ka, kb, b2j, rest + Children(q, m)), x, y);
    }
  }

  /** Sorting keeps every run, so it keeps every shadow. */
  lemma SortedShadows(found: seq<Match>, sorted: seq<Match>, x: int, y: int)
    requires multiset(sorted) == multiset(found) && Shadowed(found, x, y)
    ensures Shadowed(sorted, x, y)
  {
    var p :| 0 <= p < |found| && Shadows(found[p], x, y);
    assert found[p] in multiset(sorted);
    var r :| 0 <= r < |sorted| && sorted[r] == found[p];
  }

  /** A run that holds m on the same cells or more shadows whatever m shadows. */
  lemma ShadowsInside(m: Match, big: Match, x: int, y: int)
    requires big.astart <= m.astart && big.bstart <= m.bstart
    requires m.astart + m.length <= big.astart + big.length && m.bstart + m.length <= big.bstart + big.length
    requires Shadows(m, x, y)
    ensures Shadows(big, x, y)
  {
  }

  /** Coalescing keeps every shadow: the accumulator, when non-empty, and each
      remaining sorted run end up inside a run of the result. */
  lemma {:induction false} CoalesceShadows(acc: Match, sorted: seq<Match>, p: nat, x: int, y: int)
    requires p <= |sorted| && AllNonEmpty(sorted) && acc.length >= 0
    requires (acc.length > 0 && Shadows(acc, x, y)) || (exists r :: p <= r < |sorted| && Shadows(sorted[r], x, y))
    ensures Shadowed(Coalesce(acc, sorted, p), x, y)
    decreases |sorted| - p
  {
    if p == |sorted| {
      assert acc.length > 0 && Shadows(acc, x, y);
      assert Flush(acc)[0] == acc;
    } else if Adjacent(acc, sorted[p]) {
      var joined := Join(acc, sorted[p]);
      if acc.length > 0 && Shadows(acc, x, y) {
        ShadowsInside(acc, joined, x, y);
      } else if Shadows(sorted[p], x, y) {
        ShadowsInside(sorted[p], joined, x, y);
      }
      CoalesceShadows(joined, sorted, p + 1, x, y);
    } else {
      var tail := Coalesce(sorted[p], sorted, p + 1);
      assert Coalesce(acc, sorted, p) == Flush(acc) + tail;
      if acc.length > 0 && Shadows(acc, x, y) {
        assert (Flush(acc) + tail)[0] == acc;
      } else {
        CoalesceShadows(sorted[p], sorted, p + 1, x, y);
        var t :| 0 <= t < |tail| && Shadows(tail[t], x, y);
        assert (Flush(acc) + tail)[|Flush(acc)| + t] == tail[t];
      }
    }
  }

  /** Every run of the spans' match list from position p on starts at or after
      (i, j), and every run before p ends at or before (i, j). */
  ghost predicate CursorBetween(ms: seq<Match>, p: nat, i: int, j: int)
    requires p <= |ms|
  {
    && (forall l :: 0 <= l < p ==> ms[l].astart + ms[l].length <= i && ms[l].bstart + ms[l].length <= j)
    && (forall l :: p <= l < |ms| ==> i <= ms[l].astart && j <= ms[l].bstart)
  }

  /** No run of the match list shadows a pair inside a gap span: a gap lies
      after every earlier run and before every later one. */
  lemma {:induction false} GapsUnshadowed(ms: seq<Match>, p: nat, i: int, j: int, s: Span, x: int, y: int)
    requires p <= |ms| && Increasing(ms) && CursorBetween(ms, p, i, j)
    requires forall l :: 0 <= l < |ms| ==> ms[l].length >= 0
    requires s in SpansFrom(ms, p, i, j) && s.tag != Equal
    requires s.Astart <= x < s.Aend && s.Bstart <= y < s.Bend
    ensures forall l :: 0 <= l < |ms| ==> !Shadows(ms[l], x, y)
    decreases |ms| - p
  {
    if p == |ms| {
      assert false;
    }
    var m := ms[p];
    var step, rest := StepSpans(i, j, m), SpansFrom(ms, p + 1, m.astart + m.length, m.bstart + m.length);
    assert SpansFrom(ms, p, i, j) == step + rest;
    forall l | p + 1 <= l < |ms|
      ensures m.astart + m.length <= ms[l].astart && m.bstart + m.length <= ms[l].bstart
    {
      assert QuadBefore(Rect(ms[p]), Rect(ms[l]));
    }
    if s in step {
      assert s == Span(GapTag(i, j, m), i, m.astart, j, m.bstart);
      forall l | 0 <= l < |ms|
        ensures !Shadows(ms[l], x, y)
      {
        if l < p {
          assert ms[l].astart + ms[l].length <= x && ms[l].bstart + ms[l].length <= y;
        } else {
          assert x < ms[l].astart && y < ms[l].bstart;
        }
      }
    } else {
      GapsUnshadowed(ms, p + 1, m.astart + m.length, m.bstart + m.length, s, x, y);
    }
  }

  /** With every position of B indexed, every agreeing pair is shadowed by a
      run the worklist records, and still after sorting; the sorted runs are
      all non-empty. */
  lemma SortedShadowed<K>(ka: seq<K>, kb: seq<K>, b2j: map<K, seq<int>>, x: int, y: int)
    requires IndexComplete(b2j, kb) && Agree(ka, kb, x, y)
    ensures var sorted := InsertionSort(Pending(ka, kb, b2j, [Quad(0, |ka|, 0, |kb|)]));
            AllNonEmpty(sorted) && Shadowed(sorted, x, y)
  {
    var whole := [Quad(0, |ka|, 0, |kb|)];
    var found := Pending(ka, kb, b2j, whole);
    var sorted := InsertionSort(found);
    InsertionSortSpec(found);
    WorklistStart(ka, kb);
    PendingInv(ka, kb, b2j, [], whole);
    assert [] + found == found;
    SortedRunsIncrease(ka, kb, found, [], sorted);
    assert CellIn(x, y, whole[0]);
    PendingShadows(ka, kb, b2j, whole, x, y);
    SortedShadows(found, sorted, x, y);
  }

  /** With every position of B indexed, every agreeing pair is shadowed by a
      run of the match list: coalescing keeps the sorted runs' shadows. */
  lemma MatchListShadows<K>(ka: seq<K>, kb: seq<K>, b2j: map<K, seq<int>>, x: int, y: int)
    requires IndexComplete(b2j, kb) && Agree(ka, kb, x, y)
    ensures Shadowed(MatchList(ka, kb, b2j), x, y)
  {
    var sorted := InsertionSort(Pending(ka, kb, b2j, [Quad(0, |ka|, 0, |kb|)]));
    SortedShadowed(ka, kb, b2j, x, y);
    CoalesceShadows(Match(0, 0, 0), sorted, 0, x, y);
    var co := Coalesce(Match(0, 0, 0), sorted, 0);
    var t :| 0 <= t < |co| && Shadows(co[t], x, y);
    assert MatchList(ka, kb, b2j)[t] == co[t];
  }

  /** With every position of B indexed, no Insert, Delete or Replace span of
      the match list pairs an element of A with an equal element of B: every
      agreeing pair is shadowed by a run the worklist records, sorting and
      coalescing keep that shadow, and no run shadows a pair of a gap. */
  lemma GapsHaveNoCommonPair<K>(ka: seq<K>, kb: seq<K>, b2j: map<K, seq<int>>)
    requires IndexComplete(b2j, kb)
    ensures forall s :: s in SpansFrom(MatchList(ka, kb, b2j), 0, 0, 0) && s.tag != Equal ==> NoCommonPair(ka, kb, s)
  {
    var ms := MatchList(ka, kb, b2j);
    MatchListWellFormed(ka, kb, b2j);
    forall s | s in SpansFrom(ms, 0, 0, 0) && s.tag != Equal
      ensures NoCommonPair(ka, kb, s)
    {
      forall x, y | s.Astart <= x < s.Aend && s.Bstart <= y < s.Bend && 0 <= x < |ka| && 0 <= y < |kb|
        ensures ka[x] != kb[y]
      {
        if ka[x] == kb[y] {
          MatchListShadows(ka, kb, b2j, x, y);
          assert forall l :: 0 <= l < |ms| ==> ms[l].length >= 0;
          GapsUnshadowed(ms, 0, 0, 0, s, x, y);
          assert false;
        }
      }
    }
  }

  /** With every position indexed, a non-empty sequence diffed against itself
      gives the single run over all of it, then the sentinel, and so a single
      Equal span. */
  lemma IdenticalMatches<K>(ks: seq<K>, b2j: map<K, seq<int>>)
    requires IndexComplete(b2j, ks) && |ks| > 0
    ensures MatchList(ks, ks, b2j) == [Match(0, 0, |ks|), Match(|ks|, |ks|, 0)]
    ensures SpansFrom(MatchList(ks, ks, b2j), 0, 0, 0) == [Span(Equal, 0, |ks|, 0, |ks|)]
  {
    var n := |ks|;
    var w := Quad(0, n, 0, n);
    var m := LongestIn(ks, ks, b2j, w);
    LongestInSpec(ks, ks, b2j, w);
    assert IsRun(ks, ks, Match(0, 0, n)) && InQuad(Match(0, 0, n), w);
    assert m == Match(0, 0, n);
    assert Children(w, m) == [];
    assert [] + [w] == [w];
    PendingStep(ks, ks, b2j, [], w);
    assert Pending(ks, ks, b2j, []) == [];
    assert Pending(ks, ks, b2j, [w]) == [m];
    assert InsertionSort([m]) == [m] by {
      assert [m][..0] == [];
    }
    assert Coalesce(Match(0, 0, 0), [m], 0) == [m];
    var ms := MatchList(ks, ks, b2j);
    assert ms == [m, Match(n, n, 0)];
    assert SpansFrom(ms, 2, n, n) == [];
    assert SpansFrom(ms, 1, n, n) == [];
    assert SpansFrom(ms, 0, 0, 0) == [Span(Equal, 0, n, 0, n)];
  }

  /** The one block covering a single Equal span over all of a and all of b
      holds all of a and all of b. */
  lemma OneEqualBlock<T>(a: seq<T>, b: seq<T>, spans: seq<Span>, blocks: seq<Block<T>>)
    requires spans == [Span(Equal, 0, |a|, 0, |b|)] && |blocks| == |spans|
    requires forall p :: 0 <= p < |blocks| ==> Covers(a, b, spans[p], blocks[p])
    ensures blocks == [Block(Equal, a, b)]
  {
    assert Covers(a, b, spans[0], blocks[0]);
    assert a[0..|a|] == a && b[0..|b|] == b;
  }
}
