/** The worklist search's invariant and the normaliser: sorting the runs found,
    coalescing adjacent ones and appending the (len A, len B, 0) sentinel.
    Both engines run exactly this code on their own runs. */
module Normalize {
  import opened Primitives
  import opened Runs

  /** The rectangle of cells a match covers. */
  function Rect(m: Match): Quad {
    Quad(m.astart, m.astart + m.length, m.bstart, m.bstart + m.length)
  }

  /** `x` lies wholly before `y` in both sequences. */
  predicate QuadBefore(x: Quad, y: Quad) {
    x.Aend <= y.Astart && x.Bend <= y.Bstart
  }

  /** One of the two lies wholly before the other. */
  predicate Separated(x: Quad, y: Quad) {
    QuadBefore(x, y) || QuadBefore(y, x)
  }

  /** `x` lies inside `q`. */
  predicate Within(x: Quad, q: Quad) {
    q.Astart <= x.Astart && x.Aend <= q.Aend && q.Bstart <= x.Bstart && x.Bend <= q.Bend
  }

  /** The number of cells along the two sides of a window; 0 for a side that is empty. */
  function Width(q: Quad): nat {
    (if q.Astart < q.Aend then q.Aend - q.Astart else 0) +
    (if q.Bstart < q.Bend then q.Bend - q.Bstart else 0)
  }

  /** The sum of the widths of the windows still queued: the worklist's termination measure. */
  function Weight(queue: seq<Quad>): nat {
    if queue == [] then 0 else Weight(queue[..|queue| - 1]) + Width(queue[|queue| - 1])
  }

  /** The windows pushed after window q produced the non-empty run m: the part
      strictly before m and the part strictly after it, each only when both of
      its ranges are non-empty. */
  function Children(q: Quad, m: Match): seq<Quad> {
    (if q.Astart < m.astart && q.Bstart < m.bstart
     then [Quad(q.Astart, m.astart, q.Bstart, m.bstart)] else []) +
    (if m.astart + m.length < q.Aend && m.bstart + m.length < q.Bend
     then [Quad(m.astart + m.length, q.Aend, m.bstart + m.length, q.Bend)] else [])
  }

  /** Popping a window and pushing its children takes at least 2 * m.length
      cells off the weight, so the worklist shrinks. */
  lemma {:induction false} WeightStep(rest: seq<Quad>, q: Quad, m: Match)
    requires q.Astart <= m.astart && m.astart + m.length <= q.Aend
    requires q.Bstart <= m.bstart && m.bstart + m.length <= q.Bend
    requires m.length >= 0
    ensures Weight(rest + [q]) == Weight(rest) + Width(q)
    ensures Weight(rest + Children(q, m)) + 2 * m.length <= Weight(rest) + Width(q)
  {
    assert (rest + [q])[..|rest|] == rest;
    var kids := Children(q, m);
    if |kids| == 2 {
      assert (rest + kids)[..|rest| + 1] == rest + [kids[0]];
      assert (rest + [kids[0]])[..|rest|] == rest;
    } else if |kids| == 1 {
      assert (rest + kids)[..|rest|] == rest;
    } else {
      assert rest + kids == rest;
    }
  }

  /** The runs found so far are genuine and non-empty. */
  ghost predicate FoundRuns<K>(ka: seq<K>, kb: seq<K>, found: seq<Match>) {
    forall p :: 0 <= p < |found| ==> IsRun(ka, kb, found[p]) && found[p].length > 0
  }

  /** The queued windows lie inside sequences of lengths la and lb. */
  predicate QueueValid(queue: seq<Quad>, la: int, lb: int) {
    forall p :: 0 <= p < |queue| ==> ValidQuad(queue[p], la, lb)
  }

  /** Any two runs found lie one wholly before the other. */
  predicate RunsApart(found: seq<Match>) {
    forall p, r :: 0 <= p < r < |found| ==> Separated(Rect(found[p]), Rect(found[r]))
  }

  /** Any two queued windows lie one wholly before the other. */
  predicate QueueApart(queue: seq<Quad>) {
    forall p, r :: 0 <= p < r < |queue| ==> Separated(queue[p], queue[r])
  }

  /** Every run found lies wholly before or after every queued window. */
  predicate RunsClear(found: seq<Match>, queue: seq<Quad>) {
    forall p, r :: 0 <= p < |found| && 0 <= r < |queue| ==> Separated(Rect(found[p]), queue[r])
  }

  /** The invariant of the worklist loop: the runs found so far are genuine and
      non-empty, the queued windows are valid, and any two of these rectangles,
      runs or windows, lie one wholly before the other. */
  ghost predicate WorklistInv<K>(ka: seq<K>, kb: seq<K>, found: seq<Match>, queue: seq<Quad>) {
    && FoundRuns(ka, kb, found) && QueueValid(queue, |ka|, |kb|)
    && RunsApart(found) && QueueApart(queue) && RunsClear(found, queue)
  }

  /** The loop starts with the whole of A against the whole of B. */
  lemma WorklistStart<K>(ka: seq<K>, kb: seq<K>)
    ensures WorklistInv(ka, kb, [], [Quad(0, |ka|, 0, |kb|)])
  {
  }

  /** Anything separated from a window is separated from everything inside it. */
  lemma SeparatedWithin(x: Quad, q: Quad, y: Quad)
    requires Within(x, q) && Separated(q, y)
    ensures Separated(x, y)
  {
  }

  /** Discarding a popped window keeps the invariant. */
  lemma WorklistDrop<K>(ka: seq<K>, kb: seq<K>, found: seq<Match>, rest: seq<Quad>, q: Quad)
    requires WorklistInv(ka, kb, found, rest + [q])
    ensures WorklistInv(ka, kb, found, rest)
  {
    assert forall p :: 0 <= p < |rest| ==> rest[p] == (rest + [q])[p];
  }

  /** The windows pushed for a run inside q lie inside q, one before the
      other, and clear of the run. */
  lemma ChildrenInside(q: Quad, m: Match)
    requires InQuad(m, q) && m.length > 0
    ensures var kids := Children(q, m);
            && (forall r :: 0 <= r < |kids| ==> Within(kids[r], q))
            && (forall r, t :: 0 <= r < t < |kids| ==> QuadBefore(kids[r], kids[t]))
            && (forall r :: 0 <= r < |kids| ==> Separated(Rect(m), kids[r]))
  {
  }

  /** Recording the run found in a popped window and pushing its children keeps the invariant. */
  lemma WorklistSplit<K>(ka: seq<K>, kb: seq<K>, found: seq<Match>, rest: seq<Quad>, q: Quad, m: Match)
    requires WorklistInv(ka, kb, found, rest + [q])
    requires IsRun(ka, kb, m) && InQuad(m, q) && m.length > 0
    ensures WorklistInv(ka, kb, found + [m], rest + Children(q, m))
  {
    var queue := rest + [q];
    assert forall p :: 0 <= p < |rest| ==> rest[p] == queue[p];
    assert q == queue[|rest|];
    ChildrenInside(q, m);
    SplitFound(ka, kb, found, m);
    SplitQueueValid(rest, q, m, |ka|, |kb|);
    SplitRunsApart(found, rest, q, m);
    SplitQueueApart(rest, q, m);
    SplitRunsClear(found, rest, q, m);
  }

  /** The new run joins the genuine non-empty runs. */
  lemma SplitFound<K>(ka: seq<K>, kb: seq<K>, found: seq<Match>, m: Match)
    requires FoundRuns(ka, kb, found) && IsRun(ka, kb, m) && m.length > 0
    ensures FoundRuns(ka, kb, found + [m])
  {
    assert forall p :: 0 <= p < |found| ==> (found + [m])[p] == found[p];
  }

  /** The children of a valid window are valid. */
  lemma SplitQueueValid(rest: seq<Quad>, q: Quad, m: Match, la: int, lb: int)
    requires QueueValid(rest + [q], la, lb) && InQuad(m, q) && m.length > 0
    ensures QueueValid(rest + Children(q, m), la, lb)
  {
    assert forall p :: 0 <= p < |rest| ==> rest[p] == (rest + [q])[p];
    assert ValidQuad((rest + [q])[|rest|], la, lb);
    var kids := Children(q, m);
    assert forall p :: |rest| <= p < |rest + kids| ==> (rest + kids)[p] == kids[p - |rest|];
  }

  /** The new run lies inside the popped window, which every earlier run clears. */
  lemma SplitRunsApart(found: seq<Match>, rest: seq<Quad>, q: Quad, m: Match)
    requires RunsApart(found) && RunsClear(found, rest + [q]) && InQuad(m, q) && m.length > 0
    ensures RunsApart(found + [m])
  {
    var found' := found + [m];
    forall p, r | 0 <= p < r < |found'|
      ensures Separated(Rect(found'[p]), Rect(found'[r]))
    {
      if r == |found| {
        assert Separated(Rect(found[p]), (rest + [q])[|rest|]);
        SeparatedWithin(Rect(m), q, Rect(found[p]));
      } else {
        assert found'[p] == found[p] && found'[r] == found[r];
      }
    }
  }

  /** The children lie inside the popped window, which every other window clears. */
  lemma SplitQueueApart(rest: seq<Quad>, q: Quad, m: Match)
    requires QueueApart(rest + [q]) && InQuad(m, q) && m.length > 0
    ensures QueueApart(rest + Children(q, m))
  {
    var kids := Children(q, m);
    var queue' := rest + kids;
    ChildrenInside(q, m);
    forall p, r | 0 <= p < r < |queue'|
      ensures Separated(queue'[p], queue'[r])
    {
      if r < |rest| {
        assert Separated((rest + [q])[p], (rest + [q])[r]);
      } else if p < |rest| {
        assert Separated((rest + [q])[p], (rest + [q])[|rest|]);
        SeparatedWithin(kids[r - |rest|], q, rest[p]);
      } else {
        assert QuadBefore(kids[p - |rest|], kids[r - |rest|]);
      }
    }
  }

  /** Runs and windows stay clear of each other: the old runs clear the popped
      window and so its children, and the new run clears the other windows and
      its own children. */
  lemma SplitRunsClear(found: seq<Match>, rest: seq<Quad>, q: Quad, m: Match)
    requires RunsClear(found, rest + [q]) && QueueApart(rest + [q]) && InQuad(m, q) && m.length > 0
    ensures RunsClear(found + [m], rest + Children(q, m))
  {
    var kids := Children(q, m);
    var found', queue' := found + [m], rest + kids;
    ChildrenInside(q, m);
    forall p, r | 0 <= p < |found'| && 0 <= r < |queue'|
      ensures Separated(Rect(found'[p]), queue'[r])
    {
      if p < |found| && r < |rest| {
        assert Separated(Rect(found[p]), (rest + [q])[r]);
      } else if p < |found| {
        assert Separated(Rect(found[p]), (rest + [q])[|rest|]);
        SeparatedWithin(kids[r - |rest|], q, Rect(found[p]));
      } else if r < |rest| {
        assert Separated((rest + [q])[r], (rest + [q])[|rest|]);
        SeparatedWithin(Rect(m), q, rest[r]);
      } else {
        assert Separated(Rect(m), kids[r - |rest|]);
      }
    }
  }

  /** The runs the worklist records from `queue` on, in the order it records
      them: it pops the last window, and when the window's LongestIn run is
      non-empty records it and goes on with the window's children pushed;
      otherwise it drops the window. */
  ghost function Pending<K>(ka: seq<K>, kb: seq<K>, b2j: map<K, seq<int>>, queue: seq<Quad>): seq<Match>
    requires QueueValid(queue, |ka|, |kb|)
    decreases Weight(queue), |queue|
  {
    if queue == [] then []
    else
      var q, rest := queue[|queue| - 1], queue[..|queue| - 1];
      var m := LongestIn(ka, kb, b2j, q);
      assert queue == rest + [q];
      WeightStep(rest, q, m);
      if m.length == 0 then Pending(ka, kb, b2j, rest)
      else
        SplitQueueValid(rest, q, m, |ka|, |kb|);
        [m] + Pending(ka, kb, b2j, rest + Children(q, m))
  }

  /** Pending after pushing one window: the window's run, when non-empty,
      comes first, then what its children and the rest of the queue give. */
  lemma PendingStep<K>(ka: seq<K>, kb: seq<K>, b2j: map<K, seq<int>>, rest: seq<Quad>, q: Quad)
    requires QueueValid(rest + [q], |ka|, |kb|)
    ensures ValidQuad(q, |ka|, |kb|) && QueueValid(rest, |ka|, |kb|)
    ensures var m := LongestIn(ka, kb, b2j, q);
            m.length > 0 ==>
              && QueueValid(rest + Children(q, m), |ka|, |kb|)
              && Pending(ka, kb, b2j, rest + [q]) == [m] + Pending(ka, kb, b2j, rest + Children(q, m))
    ensures LongestIn(ka, kb, b2j, q).length == 0 ==> Pending(ka, kb, b2j, rest + [q]) == Pending(ka, kb, b2j, rest)
  {
    var queue := rest + [q];
    assert queue[|queue| - 1] == q && queue[..|queue| - 1] == rest;
    assert ValidQuad(queue[|rest|], |ka|, |kb|);
    assert forall p :: 0 <= p < |rest| ==> rest[p] == queue[p];
    var m := LongestIn(ka, kb, b2j, q);
    if m.length > 0 {
      SplitQueueValid(rest, q, m, |ka|, |kb|);
    }
  }

  /** One step of the worklist from the invariant's point of view: dropping
      the popped window, or recording its run and pushing its children, keeps
      the invariant. */
  lemma PendingInvStep<K>(ka: seq<K>, kb: seq<K>, b2j: map<K, seq<int>>,
                          found: seq<Match>, rest: seq<Quad>, q: Quad)
    requires WorklistInv(ka, kb, found, rest + [q])
    ensures ValidQuad(q, |ka|, |kb|)
    ensures var m := LongestIn(ka, kb, b2j, q);
            && (m.length == 0 ==> WorklistInv(ka, kb, found, rest))
            && (m.length > 0 ==> WorklistInv(ka, kb, found + [m], rest + Children(q, m)))
  {
    PendingStep(ka, kb, b2j, rest, q);
    var m := LongestIn(ka, kb, b2j, q);
    if m.length == 0 {
      WorklistDrop(ka, kb, found, rest, q);
    } else {
      WorklistSplit(ka, kb, found, rest, q, m);
    }
  }

  /** Whatever the worklist goes on to record keeps its invariant: all the
      runs recorded are genuine, non-empty and pairwise separated. */
  lemma {:induction false} PendingInv<K>(ka: seq<K>, kb: seq<K>, b2j: map<K, seq<int>>,
                                         found: seq<Match>, queue: seq<Quad>)
    requires WorklistInv(ka, kb, found, queue)
    ensures WorklistInv(ka, kb, found + Pending(ka, kb, b2j, queue), [])
    decreases Weight(queue), |queue|, 2
  {
    if queue == [] {
      assert found + Pending(ka, kb, b2j, queue) == found;
    } else {
      var q, rest := queue[|queue| - 1], queue[..|queue| - 1];
      assert queue == rest + [q];
      PendingInvStep(ka, kb, b2j, found, rest, q);
      if LongestIn(ka, kb, b2j, q).length == 0 {
        PendingInvDrop(ka, kb, b2j, found, rest, q);
      } else {
        PendingInvKeep(ka, kb, b2j, found, rest, q);
      }
    }
  }

  /** PendingInv when the last window of the queue yields no run. */
  lemma {:induction false} PendingInvDrop<K>(ka: seq<K>, kb: seq<K>, b2j: map<K, seq<int>>,
                                             found: seq<Match>, rest: seq<Quad>, q: Quad)
    requires QueueValid(rest + [q], |ka|, |kb|) && ValidQuad(q, |ka|, |kb|)
    requires LongestIn(ka, kb, b2j, q).length == 0 && WorklistInv(ka, kb, found, rest)
    ensures WorklistInv(ka, kb, found + Pending(ka, kb, b2j, rest + [q]), [])
    decreases Weight(rest + [q]), |rest + [q]|, 1
  {
    PendingStep(ka, kb, b2j, rest, q);
    WeightStep(rest, q, LongestIn(ka, kb, b2j, q));
    PendingInv(ka, kb, b2j, found, rest);
  }

  /** PendingInv when the last window of the queue yields run m, recorded
      while the window's children are pushed. */
  lemma {:induction false} PendingInvKeep<K>(ka: seq<K>, kb: seq<K>, b2j: map<K, seq<int>>,
                                             found: seq<Match>, rest: seq<Quad>, q: Quad)
    requires QueueValid(rest + [q], |ka|, |kb|) && ValidQuad(q, |ka|, |kb|)
    requires var m := LongestIn(ka, kb, b2j, q);
             m.length > 0 && WorklistInv(ka, kb, found + [m], rest + Children(q, m))
    ensures WorklistInv(ka, kb, found + Pending(ka, kb, b2j, rest + [q]), [])
    decreases Weight(rest + [q]), |rest + [q]|, 1
  {
    var m := LongestIn(ka, kb, b2j, q);
    PendingStep(ka, kb, b2j, rest, q);
    WeightStep(rest, q, m);
    var kids := rest + Children(q, m);
    var tail := Pending(ka, kb, b2j, kids);
    PendingInv(ka, kb, b2j, found + [m], kids);
    AppendAssoc(found, [m], tail);
  }

  /** No element occurs twice. */
  ghost predicate Distinct<T>(s: seq<T>) {
    forall p, r :: 0 <= p < r < |s| ==> s[p] != s[r]
  }

  /** The runs the worklist collects never repeat: a non-empty rectangle is not
      separated from itself. */
  lemma FoundDistinct<K>(ka: seq<K>, kb: seq<K>, found: seq<Match>, queue: seq<Quad>)
    requires WorklistInv(ka, kb, found, queue)
    ensures Distinct(found)
  {
  }

  /** A sequence has no repeated element exactly when every element occurs at most once. */
  lemma {:induction false} DistinctCounts<T>(s: seq<T>)
    ensures Distinct(s) <==> forall x :: multiset(s)[x] <= 1
  {
    if s != [] {
      var h, t := s[0], s[1..];
      assert s == [h] + t;
      DistinctCounts(t);
      assert multiset(s) == multiset{h} + multiset(t);
      if Distinct(s) {
        assert h !in t;
        assert Distinct(t) by {
          forall p, r | 0 <= p < r < |t| ensures t[p] != t[r] {
            assert s[p + 1] != s[r + 1];
          }
        }
      }
      if forall x :: multiset(s)[x] <= 1 {
        assert multiset(t)[h] == 0 by {
          assert multiset(s)[h] == 1 + multiset(t)[h];
        }
        assert forall x :: multiset(t)[x] <= 1 by {
          forall x ensures multiset(t)[x] <= 1 {
            assert multiset(s)[x] >= multiset(t)[x];
          }
        }
        forall p, r | 0 <= p < r < |s| ensures s[p] != s[r] {
          if p == 0 {
            assert s[r] == t[r - 1];
          } else {
            assert s[p] == t[p - 1] && s[r] == t[r - 1];
          }
        }
      }
    }
  }

  /** Rearranging a sequence keeps it free of repeats. */
  lemma DistinctPermutation<T>(s: seq<T>, s': seq<T>)
    requires multiset(s) == multiset(s') && Distinct(s)
    ensures Distinct(s')
  {
    DistinctCounts(s);
    DistinctCounts(s');
  }

  /** Ordered by matchLess, ties allowed, as the library sort leaves a slice. */
  predicate SortedByMatchLess(s: seq<Match>) {
    forall p, r :: 0 <= p < r < |s| ==> !MatchLess(s[r], s[p])
  }

  /** Inserts `m` before the first element larger than it. */
  function InsertSorted(s: seq<Match>, m: Match): seq<Match> {
    if s == [] || MatchLess(m, s[0]) then [m] + s
    else [s[0]] + InsertSorted(s[1..], m)
  }

  /** Inserting adds exactly `m` to the multiset of elements. */
  lemma {:induction false} InsertSortedPerm(s: seq<Match>, m: Match)
    ensures multiset(InsertSorted(s, m)) == multiset(s) + multiset{m}
  {
    if s != [] && !MatchLess(m, s[0]) {
      InsertSortedPerm(s[1..], m);
      assert s == [s[0]] + s[1..];
    }
  }

  /** Every element after inserting is `m` or was already there. */
  lemma {:induction false} InsertSortedFrom(s: seq<Match>, m: Match)
    ensures forall p :: 0 <= p < |InsertSorted(s, m)| ==> InsertSorted(s, m)[p] == m || InsertSorted(s, m)[p] in s
  {
    if s != [] && !MatchLess(m, s[0]) {
      InsertSortedFrom(s[1..], m);
      var tail := InsertSorted(s[1..], m);
      var r := [s[0]] + tail;
      assert forall p :: 0 < p < |r| ==> r[p] == tail[p - 1];
      assert forall x :: x in s[1..] ==> x in s;
    }
  }

  /** Inserting into a sorted sequence keeps it sorted. */
  lemma {:induction false} InsertSortedSorted(s: seq<Match>, m: Match)
    requires SortedByMatchLess(s)
    ensures SortedByMatchLess(InsertSorted(s, m))
  {
    if s != [] && !MatchLess(m, s[0]) {
      var tail := InsertSorted(s[1..], m);
      InsertSortedSorted(s[1..], m);
      InsertSortedFrom(s[1..], m);
      assert forall x :: x in s[1..] ==> !MatchLess(x, s[0]);
      assert forall p :: 0 <= p < |tail| ==> !MatchLess(tail[p], s[0]);
      var r := [s[0]] + tail;
      assert forall p :: 0 < p < |r| ==> r[p] == tail[p - 1];
    }
  }

  /** The insertion sort SortMatches carries out: each element in turn
      inserted into the sorted prefix before it. */
  function InsertionSort(s: seq<Match>): seq<Match>
    decreases |s|
  {
    if s == [] then [] else InsertSorted(InsertionSort(s[..|s| - 1]), s[|s| - 1])
  }

  /** The insertion sort orders by matchLess, and only rearranges. */
  lemma {:induction false} InsertionSortSpec(s: seq<Match>)
    ensures SortedByMatchLess(InsertionSort(s))
    ensures multiset(InsertionSort(s)) == multiset(s)
    decreases |s|
  {
    if s != [] {
      var init, last := s[..|s| - 1], s[|s| - 1];
      InsertionSortSpec(init);
      InsertSortedSorted(InsertionSort(init), last);
      InsertSortedPerm(InsertionSort(init), last);
      assert s == init + [last];
    }
  }

  /** Inserting a run that no element exceeds appends it. */
  lemma {:induction false} InsertSortedLast(s: seq<Match>, m: Match)
    requires forall p :: 0 <= p < |s| ==> !MatchLess(m, s[p])
    ensures InsertSorted(s, m) == s + [m]
  {
    if s != [] {
      InsertSortedLast(s[1..], m);
      assert [s[0]] + (s[1..] + [m]) == s + [m];
    }
  }

  /** Sorting runs already in matchLess order leaves them as they are. */
  lemma {:induction false} InsertionSortSorted(s: seq<Match>)
    requires SortedByMatchLess(s)
    ensures InsertionSort(s) == s
    decreases |s|
  {
    if s != [] {
      var init, last := s[..|s| - 1], s[|s| - 1];
      assert SortedByMatchLess(init);
      InsertionSortSorted(init);
      InsertSortedLast(init, last);
      assert init + [last] == s;
    }
  }

  /** Stands for the library sort of the match slice under matchLess: an
      insertion sort into a new sequence. The result is ordered by matchLess
      and a rearrangement of the input. */
  method SortMatches(ms: seq<Match>) returns (sorted: seq<Match>)
    ensures sorted == InsertionSort(ms)
    ensures SortedByMatchLess(sorted)
    ensures multiset(sorted) == multiset(ms)
  {
    sorted := [];
    for i := 0 to |ms|
      invariant sorted == InsertionSort(ms[..i])
    {
      assert ms[..i + 1][..i] == ms[..i];
      sorted := InsertSorted(sorted, ms[i]);
    }
    assert ms[..|ms|] == ms;
    InsertionSortSpec(ms);
  }

  /** Every entry is a genuine run. */
  ghost predicate AllRuns<K>(ka: seq<K>, kb: seq<K>, s: seq<Match>) {
    forall p :: 0 <= p < |s| ==> IsRun(ka, kb, s[p])
  }

  /** Every entry has positive length. */
  predicate AllNonEmpty(s: seq<Match>) {
    forall p :: 0 <= p < |s| ==> s[p].length > 0
  }

  /** Each entry lies wholly before every later one, in both sequences. */
  predicate Increasing(s: seq<Match>) {
    forall p, r :: 0 <= p < r < |s| ==> QuadBefore(Rect(s[p]), Rect(s[r]))
  }

  /** Sorting the runs the worklist found lines them up one after the other in
      both sequences. */
  lemma SortedRunsIncrease<K>(ka: seq<K>, kb: seq<K>, found: seq<Match>, queue: seq<Quad>, sorted: seq<Match>)
    requires WorklistInv(ka, kb, found, queue)
    requires SortedByMatchLess(sorted) && multiset(sorted) == multiset(found)
    ensures AllRuns(ka, kb, sorted) && AllNonEmpty(sorted) && Increasing(sorted)
  {
    DistinctPermutation(found, sorted);
    forall p | 0 <= p < |sorted|
      ensures IsRun(ka, kb, sorted[p]) && sorted[p].length > 0
    {
      assert sorted[p] in multiset(found);
    }
    forall p, r | 0 <= p < r < |sorted|
      ensures QuadBefore(Rect(sorted[p]), Rect(sorted[r]))
    {
      var x, y := sorted[p], sorted[r];
      assert x in multiset(found) && y in multiset(found);
      var px :| 0 <= px < |found| && found[px] == x;
      var py :| 0 <= py < |found| && found[py] == y;
      assert px != py;
      if px < py {
        assert Separated(Rect(found[px]), Rect(found[py]));
      } else {
        assert Separated(Rect(found[py]), Rect(found[px]));
      }
    }
  }

  /** `x` ends exactly where `m` starts, in both sequences. */
  predicate Adjacent(x: Match, m: Match) {
    x.astart + x.length == m.astart && x.bstart + x.length == m.bstart
  }

  /** The accumulator, as a list: empty when it holds nothing. */
  function Flush(acc: Match): seq<Match> {
    if acc.length != 0 then [acc] else []
  }

  /** The accumulator with run m folded into it. */
  function Join(acc: Match, m: Match): Match {
    Match(acc.astart, acc.bstart, acc.length + m.length)
  }

  /** The runs that the accumulator `acc` and the sorted runs from position p
      on come to once each run adjacent to the accumulator is folded into it. */
  function Coalesce(acc: Match, sorted: seq<Match>, p: nat): seq<Match>
    requires p <= |sorted|
    decreases |sorted| - p
  {
    if p == |sorted| then Flush(acc)
    else if Adjacent(acc, sorted[p]) then Coalesce(Join(acc, sorted[p]), sorted, p + 1)
    else Flush(acc) + Coalesce(sorted[p], sorted, p + 1)
  }

  /** The normaliser's result: the coalesced runs, starting from an empty
      accumulator at (0, 0), then the sentinel (la, lb, 0). */
  function Normalized(sorted: seq<Match>, la: int, lb: int): seq<Match> {
    Coalesce(Match(0, 0, 0), sorted, 0) + [Match(la, lb, 0)]
  }

  /** Two adjacent runs together form one run. */
  lemma JoinRuns<K>(ka: seq<K>, kb: seq<K>, x: Match, y: Match)
    requires IsRun(ka, kb, x) && IsRun(ka, kb, y) && Adjacent(x, y)
    ensures IsRun(ka, kb, Join(x, y))
  {
    forall a | y.astart <= a < y.astart + y.length
      ensures ka[a] == kb[x.bstart + (a - x.astart)]
    {
      assert ka[a] == kb[y.bstart + (a - y.astart)];
    }
  }

  /** No entry ends exactly where the next one starts. */
  predicate NoneAdjacent(s: seq<Match>) {
    forall p :: 0 < p < |s| ==> !Adjacent(s[p - 1], s[p])
  }

  /** Coalescing genuine non-empty runs gives genuine non-empty runs. */
  lemma {:induction false} CoalesceRuns<K>(ka: seq<K>, kb: seq<K>, acc: Match, sorted: seq<Match>, p: nat)
    requires p <= |sorted| && IsRun(ka, kb, acc)
    requires AllRuns(ka, kb, sorted) && AllNonEmpty(sorted)
    ensures AllRuns(ka, kb, Coalesce(acc, sorted, p)) && AllNonEmpty(Coalesce(acc, sorted, p))
    decreases |sorted| - p
  {
    if p < |sorted| {
      var m := sorted[p];
      if Adjacent(acc, m) {
        JoinRuns(ka, kb, acc, m);
        CoalesceRuns(ka, kb, Join(acc, m), sorted, p + 1);
      } else {
        CoalesceRuns(ka, kb, m, sorted, p + 1);
      }
    }
  }

  /** Coalescing increasing non-empty runs that all follow the accumulator gives
      runs none of which starts before the accumulator, the first one starting
      where the accumulator does when that is non-empty. */
  lemma {:induction false} CoalesceStarts(acc: Match, sorted: seq<Match>, p: nat)
    requires p <= |sorted| && 0 <= acc.length
    requires AllNonEmpty(sorted) && Increasing(sorted)
    requires p < |sorted| ==> QuadBefore(Rect(acc), Rect(sorted[p]))
    ensures var c := Coalesce(acc, sorted, p);
            && (forall r :: 0 <= r < |c| ==> acc.astart <= c[r].astart && acc.bstart <= c[r].bstart)
            && (acc.length > 0 ==> c != [] && c[0].astart == acc.astart && c[0].bstart == acc.bstart)
    decreases |sorted| - p
  {
    if p < |sorted| {
      var m := sorted[p];
      if Adjacent(acc, m) {
        CoalesceStarts(Join(acc, m), sorted, p + 1);
      } else {
        CoalesceStarts(m, sorted, p + 1);
      }
    }
  }

  /** Coalescing increasing runs keeps them increasing and leaves no two
      consecutive runs adjacent. */
  lemma {:induction false} CoalesceOrder(acc: Match, sorted: seq<Match>, p: nat)
    requires p <= |sorted| && 0 <= acc.length
    requires AllNonEmpty(sorted) && Increasing(sorted)
    requires p < |sorted| ==> QuadBefore(Rect(acc), Rect(sorted[p]))
    ensures Increasing(Coalesce(acc, sorted, p)) && NoneAdjacent(Coalesce(acc, sorted, p))
    decreases |sorted| - p
  {
    if p < |sorted| {
      var m := sorted[p];
      if Adjacent(acc, m) {
        CoalesceOrder(Join(acc, m), sorted, p + 1);
      } else {
        CoalesceOrder(m, sorted, p + 1);
        CoalesceStarts(m, sorted, p + 1);
        var tail := Coalesce(m, sorted, p + 1);
        if acc.length != 0 {
          ConsOrdered(acc, tail);
        }
      }
    }
  }

  /** A run placed before an ordered list whose every entry it precedes, and
      which does not touch the first entry, keeps the list ordered. */
  lemma ConsOrdered(acc: Match, tail: seq<Match>)
    requires Increasing(tail) && NoneAdjacent(tail)
    requires forall r :: 0 <= r < |tail| ==> QuadBefore(Rect(acc), Rect(tail[r]))
    requires tail != [] ==> !Adjacent(acc, tail[0])
    ensures Increasing([acc] + tail) && NoneAdjacent([acc] + tail)
  {
    var c := [acc] + tail;
    assert forall r :: 0 < r < |c| ==> c[r] == tail[r - 1];
  }

  /** The shape of a normalised match list: genuine runs, each wholly before the
      next, all non-empty except the last, which is the sentinel (|A|, |B|, 0). */
  ghost predicate WellFormedMatches<K>(ka: seq<K>, kb: seq<K>, ms: seq<Match>) {
    && |ms| > 0 && ms[|ms| - 1] == Match(|ka|, |kb|, 0)
    && AllRuns(ka, kb, ms) && Increasing(ms)
    && AllNonEmpty(ms[..|ms| - 1])
  }

  /** A well-formed match list is strictly ascending under matchLess: every
      run before the sentinel is non-empty and ends before the next starts, so
      the A starts already ascend. */
  lemma WellFormedSorted<K>(ka: seq<K>, kb: seq<K>, ms: seq<Match>)
    requires WellFormedMatches(ka, kb, ms)
    ensures forall p, r :: 0 <= p < r < |ms| ==> MatchLess(ms[p], ms[r])
  {
    forall p, r | 0 <= p < r < |ms|
      ensures MatchLess(ms[p], ms[r])
    {
      assert ms[..|ms| - 1][p] == ms[p];
      assert QuadBefore(Rect(ms[p]), Rect(ms[r]));
    }
  }

  /** Genuine runs end no later than the sentinel (|A|, |B|, 0), so appending it
      to ordered, non-empty, non-adjacent runs gives a well-formed match list. */
  lemma SentinelLast<K>(ka: seq<K>, kb: seq<K>, c: seq<Match>)
    requires AllRuns(ka, kb, c) && AllNonEmpty(c) && Increasing(c) && NoneAdjacent(c)
    ensures var ms := c + [Match(|ka|, |kb|, 0)];
            WellFormedMatches(ka, kb, ms) && NoneAdjacent(ms[..|ms| - 1])
  {
    var ms := c + [Match(|ka|, |kb|, 0)];
    assert ms[..|ms| - 1] == c;
  }

  /** Normalising sorted, increasing, genuine runs gives a well-formed match list
      in which no two runs before the sentinel are adjacent. */
  lemma NormalizedWellFormed<K>(ka: seq<K>, kb: seq<K>, sorted: seq<Match>)
    requires AllRuns(ka, kb, sorted) && AllNonEmpty(sorted) && Increasing(sorted)
    ensures var ms := Normalized(sorted, |ka|, |kb|);
            WellFormedMatches(ka, kb, ms) && NoneAdjacent(ms[..|ms| - 1])
  {
    var acc := Match(0, 0, 0);
    assert sorted != [] ==> IsRun(ka, kb, sorted[0]);
    CoalesceRuns(ka, kb, acc, sorted, 0);
    CoalesceOrder(acc, sorted, 0);
    SentinelLast(ka, kb, Coalesce(acc, sorted, 0));
  }

  /** What matches returns: the runs the worklist records starting from the
      whole of A against the whole of B, sorted, coalesced and closed by the
      sentinel. */
  ghost function MatchList<K>(ka: seq<K>, kb: seq<K>, b2j: map<K, seq<int>>): seq<Match> {
    Normalized(InsertionSort(Pending(ka, kb, b2j, [Quad(0, |ka|, 0, |kb|)])), |ka|, |kb|)
  }

  /** The match list is well-formed, and no run before its sentinel ends
      where the next one starts. */
  lemma MatchListWellFormed<K>(ka: seq<K>, kb: seq<K>, b2j: map<K, seq<int>>)
    ensures var ms := MatchList(ka, kb, b2j);
            WellFormedMatches(ka, kb, ms) && NoneAdjacent(ms[..|ms| - 1])
  {
    var found := Pending(ka, kb, b2j, [Quad(0, |ka|, 0, |kb|)]);
    WorklistStart(ka, kb);
    PendingInv(ka, kb, b2j, [], [Quad(0, |ka|, 0, |kb|)]);
    assert [] + found == found;
    InsertionSortSpec(found);
    SortedRunsIncrease(ka, kb, found, [], InsertionSort(found));
    NormalizedWellFormed(ka, kb, InsertionSort(found));
  }
}
