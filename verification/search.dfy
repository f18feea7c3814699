/** The search both engines run, written once over key sequences `ka` and `kb`
    and an element index `b2j` of `kb`: longestMatch's rolling search and its
    stretching loops, and the worklist, sort and coalescing loops of matches.
    The rolling search sees B through the index: it finds the first longest
    run of the masked view (Runs.Mask), which is the first longest run of A
    against B whenever the index lists every position of B. */
module Search {
  import opened Primitives
  import opened ElementIndex
  import opened Runs
  import opened Normalize

  /** The body of longestMatch's anchor loop for an anchor j inside q's B
      range: the run ending at (i, j) is one longer than the run the previous
      row's map j2len holds at j - 1 (none when absent), it is recorded in the
      new map, and it becomes the best run when strictly longer. The scan
      state is stated over the view (ka, kb) whose agreeing pairs the anchor
      lists name. */
  method VisitAnchor<K>(ghost ka: seq<K>, ghost kb: seq<K>, q: Quad, i: int, j2len: map<int, int>,
                        newJ2len: map<int, int>, indexes: seq<int>, t: int, ghost jf: int,
                        bestI: int, bestJ: int, bestSize: int)
    returns (newJ2len': map<int, int>, bestI': int, bestJ': int, bestSize': int)
    requires q.Astart <= i < q.Aend && AnchorList(ka, kb, i, indexes) && PrevRow(ka, kb, q, i, j2len)
    requires RowScan(ka, kb, q, i, newJ2len, indexes, t, jf, Match(bestI, bestJ, bestSize))
    requires t < |indexes| && q.Bstart <= indexes[t] < q.Bend
    ensures var j := indexes[t];
            var k := (if j - 1 in j2len then j2len[j - 1] else 0) + 1;
            && newJ2len' == newJ2len[j := k]
            && Match(bestI', bestJ', bestSize') == Better(Match(bestI, bestJ, bestSize), i, j, k)
    ensures RowScan(ka, kb, q, i, newJ2len', indexes, t + 1, indexes[t] + 1, Match(bestI', bestJ', bestSize'))
  {
    var j := indexes[t];
    RowScanVisit(ka, kb, q, i, j2len, newJ2len, indexes, t, jf, Match(bestI, bestJ, bestSize));
    var k := if j - 1 in j2len then j2len[j - 1] else 0;
    k := k + 1;
    newJ2len' := newJ2len[j := k];
    bestI', bestJ', bestSize' := bestI, bestJ, bestSize;
    if k > bestSize {
      bestI' := i - k + 1;
      bestJ' := j - k + 1;
      bestSize' := k;
    }
  }

  /** One row of longestMatch's rolling search, over the anchors `indexes` of
      row i: anchors left of q are passed over, the first one right of q ends
      the row, and every one inside q is visited. The new map is the previous
      row's map for row i + 1, and the best run keeps its meaning one row on. */
  method ScanRow<K>(ghost ka: seq<K>, ghost kb: seq<K>, q: Quad, i: int, indexes: seq<int>,
                    j2len: map<int, int>, best: Match)
    returns (newJ2len: map<int, int>, best': Match)
    requires ValidQuad(q, |ka|, |kb|) && q.Astart <= i < q.Aend
    requires AnchorList(ka, kb, i, indexes)
    requires RowsScanned(ka, kb, q, i, j2len, best)
    ensures RowsScanned(ka, kb, q, i + 1, newJ2len, best')
  {
    var bStart, bEnd := q.Bstart, q.Bend;
    var bestI, bestJ, bestSize := best.astart, best.bstart, best.length;
    newJ2len := map[];
    ghost var jf := bStart;
    var t := 0;
    RowScanStart(ka, kb, q, i, indexes, Match(bestI, bestJ, bestSize));
    while t < |indexes|
      invariant RowScan(ka, kb, q, i, newJ2len, indexes, t, jf, Match(bestI, bestJ, bestSize))
      decreases |indexes| - t
    {
      var j := indexes[t];
      if j < bStart {
        RowScanSkip(ka, kb, q, i, newJ2len, indexes, t, jf, Match(bestI, bestJ, bestSize));
        t := t + 1;
        continue;
      }
      if j >= bEnd {
        break;
      }
      newJ2len, bestI, bestJ, bestSize := VisitAnchor(ka, kb, q, i, j2len, newJ2len, indexes, t, jf, bestI, bestJ, bestSize);
      jf := j + 1;
      t := t + 1;
    }
    RowScanEnd(ka, kb, q, i, newJ2len, indexes, t, jf, Match(bestI, bestJ, bestSize));
    best' := Match(bestI, bestJ, bestSize);
  }

  /** The row loop of longestMatch: every row of q in turn, each with the
      anchors the index lists for its key (none when the key is absent). The
      result is the first longest run of q among the runs whose B elements the
      index lists: the first longest run of the masked view. */
  method ScanRows<K(==)>(ka: seq<K>, kb: seq<K>, b2j: map<K, seq<int>>, q: Quad)
    returns (best: Match)
    requires IndexSound(b2j, kb) && ListsComplete(b2j, kb)
    requires ValidQuad(q, |ka|, |kb|)
    ensures IsFirstLongest(Lift(ka), Mask(kb, b2j), q, best)
  {
    ghost var la, lb := Lift(ka), Mask(kb, b2j);
    var aStart, aEnd, bStart := q.Astart, q.Aend, q.Bstart;
    best := Match(aStart, bStart, 0);
    var j2len: map<int, int> := map[];
    RowsStart(la, lb, q);
    for i := aStart to aEnd
      invariant RowsScanned(la, lb, q, i, j2len, best)
    {
      var indexes := AnchorsFor(ka, kb, b2j, i);
      j2len, best := ScanRow(la, lb, q, i, indexes, j2len, best);
    }
    RowsDone(la, lb, q, j2len, best);
  }

  /** The index lookup of one row: the anchor list of A[i], empty when A[i] is
      not a key of the index; it names exactly the columns where the masked
      view agrees with A[i]. */
  method AnchorsFor<K(==)>(ka: seq<K>, kb: seq<K>, b2j: map<K, seq<int>>, i: int)
    returns (indexes: seq<int>)
    requires IndexSound(b2j, kb) && ListsComplete(b2j, kb) && 0 <= i < |ka|
    ensures AnchorList(Lift(ka), Mask(kb, b2j), i, indexes)
  {
    indexes := [];
    if ka[i] in b2j {
      indexes := b2j[ka[i]];
    }
    AnchorsOf(b2j, ka, kb, i);
  }

  /** longestMatch: the rolling search for the longest common run inside q,
      over the anchors the index lists, then stretched backwards and forwards
      while the neighbouring keys agree. The result is LongestIn(q): a genuine
      run of q that cannot be stretched, at q's corner when empty, containing
      the first longest run of the masked view, and, with every position of B
      indexed, the first longest run of q. */
  method LongestMatch<K(==)>(ka: seq<K>, kb: seq<K>, b2j: map<K, seq<int>>, q: Quad)
    returns (m: Match)
    requires IndexSound(b2j, kb) && ListsComplete(b2j, kb)
    requires ValidQuad(q, |ka|, |kb|)
    ensures m == LongestIn(ka, kb, b2j, q)
    ensures IsRun(ka, kb, m) && InQuad(m, q) && NotExtendable(ka, kb, q, m)
    ensures IndexComplete(b2j, kb) ==> IsFirstLongest(ka, kb, q, m)
  {
    var best := ScanRows(ka, kb, b2j, q);
    FirstLongestUnique(Lift(ka), Mask(kb, b2j), q, best, FirstLongest(Lift(ka), Mask(kb, b2j), q));
    MaskedRun(ka, kb, b2j, best);
    m := Stretch(ka, kb, q, best);
    LongestInSpec(ka, kb, b2j, q);
  }

  /** The two stretching loops of longestMatch: take in agreeing key pairs in
      front of the run while inside q, then behind it. */
  method Stretch<K(==)>(ka: seq<K>, kb: seq<K>, q: Quad, best: Match) returns (m: Match)
    requires Stretched(ka, kb, q, best)
    ensures m == Forward(ka, kb, q, Backward(ka, kb, q, best))
  {
    m := StretchBefore(ka, kb, q, best);
    m := StretchAfter(ka, kb, q, m);
  }

  /** The first stretching loop: while the key pair just before the run agrees
      and lies inside q, the run takes it in. */
  method StretchBefore<K(==)>(ka: seq<K>, kb: seq<K>, q: Quad, m0: Match) returns (m: Match)
    requires Stretched(ka, kb, q, m0)
    ensures m == Backward(ka, kb, q, m0)
  {
    var aStart, bStart := q.Astart, q.Bstart;
    var bestI, bestJ, bestSize := m0.astart, m0.bstart, m0.length;
    while bestI > aStart && bestJ > bStart && ka[bestI - 1] == kb[bestJ - 1]
      invariant Stretched(ka, kb, q, Match(bestI, bestJ, bestSize))
      invariant Backward(ka, kb, q, Match(bestI, bestJ, bestSize)) == Backward(ka, kb, q, m0)
      decreases bestI
    {
      ExtendFront(ka, kb, Match(bestI, bestJ, bestSize));
      bestI := bestI - 1;
      bestJ := bestJ - 1;
      bestSize := bestSize + 1;
    }
    m := Match(bestI, bestJ, bestSize);
  }

  /** The second stretching loop: while the key pair just after the run agrees
      and lies inside q, the run takes it in; its start stays put. */
  method StretchAfter<K(==)>(ka: seq<K>, kb: seq<K>, q: Quad, m0: Match) returns (m: Match)
    requires Stretched(ka, kb, q, m0)
    ensures m == Forward(ka, kb, q, m0)
  {
    var aEnd, bEnd := q.Aend, q.Bend;
    var bestI, bestJ, bestSize := m0.astart, m0.bstart, m0.length;
    while bestI + bestSize < aEnd && bestJ + bestSize < bEnd && ka[bestI + bestSize] == kb[bestJ + bestSize]
      invariant Stretched(ka, kb, q, Match(bestI, bestJ, bestSize))
      invariant Forward(ka, kb, q, Match(bestI, bestJ, bestSize)) == Forward(ka, kb, q, m0)
      decreases aEnd - bestI - bestSize
    {
      ExtendBack(ka, kb, Match(bestI, bestJ, bestSize));
      bestSize := bestSize + 1;
    }
    m := Match(bestI, bestJ, bestSize);
  }

  /** The worklist loop of matches: starting from the whole of both sequences,
      pops the last window, looks for its longest run and, when that is
      non-empty, records it and pushes the windows before and after it. The
      runs recorded are Pending's for the whole of both sequences; they are
      genuine, non-empty and pairwise separated. */
  method FindRuns<K(==)>(ka: seq<K>, kb: seq<K>, b2j: map<K, seq<int>>)
    returns (found: seq<Match>)
    requires IndexSound(b2j, kb) && ListsComplete(b2j, kb)
    ensures found == Pending(ka, kb, b2j, [Quad(0, |ka|, 0, |kb|)])
    ensures WorklistInv(ka, kb, found, [])
  {
    var aLength, bLength := |ka|, |kb|;
    var queue := [Quad(0, aLength, 0, bLength)];
    found := [];
    WorklistStart(ka, kb);
    while |queue| > 0
      invariant WorklistInv(ka, kb, found, queue)
      invariant found + Pending(ka, kb, b2j, queue) == Pending(ka, kb, b2j, [Quad(0, |ka|, 0, |kb|)])
      decreases Weight(queue), |queue|
    {
      found, queue := WorklistStep(ka, kb, b2j, found, queue);
    }
    assert found + Pending(ka, kb, b2j, queue) == found;
  }

  /** One turn of the worklist loop: pops the last window, and when its longest
      run is non-empty records the run and pushes the windows before and after
      it. The invariant holds again, the runs still to come shrink by exactly
      the one recorded, and the queue's weight drops, or stays put while the
      queue gets shorter. */
  method WorklistStep<K(==)>(ka: seq<K>, kb: seq<K>, b2j: map<K, seq<int>>, found: seq<Match>, queue: seq<Quad>)
    returns (found': seq<Match>, queue': seq<Quad>)
    requires IndexSound(b2j, kb) && ListsComplete(b2j, kb)
    requires WorklistInv(ka, kb, found, queue) && |queue| > 0
    ensures WorklistInv(ka, kb, found', queue')
    ensures found' + Pending(ka, kb, b2j, queue') == found + Pending(ka, kb, b2j, queue)
    ensures Weight(queue') < Weight(queue) || (Weight(queue') == Weight(queue) && |queue'| < |queue|)
  {
    var end := |queue| - 1;
    var quad := queue[end];
    var rest := queue[..end];
    assert queue == rest + [quad];
    assert ValidQuad(quad, |ka|, |kb|);
    var m := LongestMatch(ka, kb, b2j, quad);
    WeightStep(rest, quad, m);
    PendingStep(ka, kb, b2j, rest, quad);
    PendingInvStep(ka, kb, b2j, found, rest, quad);
    if m.length > 0 {
      found' := found + [m];
      queue' := PushChildren(rest, quad, m);
      AppendAssoc(found, [m], Pending(ka, kb, b2j, queue'));
    } else {
      found', queue' := found, rest;
    }
  }

  /** The pushes of a worklist turn: the window before run m, when both of its
      ranges are non-empty, then the window after it, likewise. */
  method PushChildren(rest: seq<Quad>, quad: Quad, m: Match) returns (queue': seq<Quad>)
    ensures queue' == rest + Children(quad, m)
  {
    var i, j, k := m.astart, m.bstart, m.length;
    queue' := rest;
    if quad.Astart < i && quad.Bstart < j {
      queue' := queue' + [Quad(quad.Astart, i, quad.Bstart, j)];
    }
    if i + k < quad.Aend && j + k < quad.Bend {
      queue' := queue' + [Quad(i + k, quad.Aend, j + k, quad.Bend)];
    }
  }

  /** The coalescing loop of matches and the sentinel: folds each sorted run
      that starts where the accumulated run ends into it, emits the
      accumulated run otherwise, and finally appends (la, lb, 0). */
  method CoalesceSorted(sorted: seq<Match>, la: int, lb: int) returns (nonAdjacent: seq<Match>)
    ensures nonAdjacent == Normalized(sorted, la, lb)
  {
    var aStart, bStart, length := 0, 0, 0;
    nonAdjacent := [];
    for p := 0 to |sorted|
      invariant nonAdjacent + Coalesce(Match(aStart, bStart, length), sorted, p) == Coalesce(Match(0, 0, 0), sorted, 0)
    {
      var m := sorted[p];
      if aStart + length == m.astart && bStart + length == m.bstart {
        length := length + m.length;
      } else {
        ghost var before, acc := nonAdjacent, Match(aStart, bStart, length);
        if length != 0 {
          nonAdjacent := nonAdjacent + [Match(aStart, bStart, length)];
        }
        aStart, bStart, length := m.astart, m.bstart, m.length;
        assert nonAdjacent == before + Flush(acc);
        assert (before + Flush(acc)) + Coalesce(m, sorted, p + 1) == before + (Flush(acc) + Coalesce(m, sorted, p + 1));
      }
    }
    if length != 0 {
      nonAdjacent := nonAdjacent + [Match(aStart, bStart, length)];
    }
    nonAdjacent := nonAdjacent + [Match(la, lb, 0)];
  }

  /** matches: the runs the worklist finds, sorted, coalesced, and closed by
      the sentinel (|ka|, |kb|, 0): exactly MatchList. The result is a
      well-formed match list in which no run before the sentinel ends where
      the next one starts. */
  method Matches<K(==)>(ka: seq<K>, kb: seq<K>, b2j: map<K, seq<int>>)
    returns (ms: seq<Match>)
    requires IndexSound(b2j, kb) && ListsComplete(b2j, kb)
    ensures ms == MatchList(ka, kb, b2j)
    ensures WellFormedMatches(ka, kb, ms)
    ensures NoneAdjacent(ms[..|ms| - 1])
  {
    var found := FindRuns(ka, kb, b2j);
    var sorted := SortMatches(found);
    ms := CoalesceSorted(sorted, |ka|, |kb|);
    MatchListWellFormed(ka, kb, b2j);
  }
}
