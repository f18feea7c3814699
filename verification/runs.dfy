/** What a common run is, and the facts the longest-run search relies on.
    Everything here is stated over two key sequences `ka` and `kb`: the
    sequences themselves for the equality engine, their key images for the
    keyed engine, and the masked view of either (below) for the rolling search
    over an index that may have been pruned. */
module Runs {
  import opened Primitives
  import opened ElementIndex

  /** `m` is a common run: ka[astart + t] == kb[bstart + t] for every t below length
      (stated over the A position a = astart + t). */
  ghost predicate IsRun<K>(ka: seq<K>, kb: seq<K>, m: Match) {
    && 0 <= m.astart && 0 <= m.bstart && 0 <= m.length
    && m.astart + m.length <= |ka| && m.bstart + m.length <= |kb|
    && forall a :: m.astart <= a < m.astart + m.length ==> ka[a] == kb[m.bstart + (a - m.astart)]
  }

  /** `m` lies inside window `q`. */
  predicate InQuad(m: Match, q: Quad) {
    && q.Astart <= m.astart && m.astart + m.length <= q.Aend
    && q.Bstart <= m.bstart && m.bstart + m.length <= q.Bend
  }

  /** Neither the element pair just before `m` nor the one just after it lies
      inside `q` and agrees. */
  ghost predicate NotExtendable<K>(ka: seq<K>, kb: seq<K>, q: Quad, m: Match) {
    && (q.Astart < m.astart <= |ka| && q.Bstart < m.bstart <= |kb| && 0 < m.astart && 0 < m.bstart
        ==> ka[m.astart - 1] != kb[m.bstart - 1])
    && (0 <= m.astart + m.length < q.Aend && 0 <= m.bstart + m.length < q.Bend
        && m.astart + m.length < |ka| && m.bstart + m.length < |kb|
        ==> ka[m.astart + m.length] != kb[m.bstart + m.length])
  }

  /** Scan order on cells: row by row, and left to right within a row. */
  predicate CellBefore(i1: int, j1: int, i2: int, j2: int) {
    i1 < i2 || (i1 == i2 && j1 < j2)
  }

  /** `m1` starts before `m2` in scan order. */
  predicate StartsBefore(m1: Match, m2: Match) {
    CellBefore(m1.astart, m1.bstart, m2.astart, m2.bstart)
  }

  /** `m` is the longest common run inside `q` and, among the longest ones,
      the first in scan order: the run the left-to-right search settles on. */
  ghost predicate IsFirstLongest<K>(ka: seq<K>, kb: seq<K>, q: Quad, m: Match) {
    && IsRun(ka, kb, m) && InQuad(m, q)
    && forall m': Match :: IsRun(ka, kb, m') && InQuad(m', q) ==>
         m'.length <= m.length && (m'.length == m.length ==> !StartsBefore(m', m))
  }

  /** There is at most one first-longest run in a window. */
  lemma FirstLongestUnique<K>(ka: seq<K>, kb: seq<K>, q: Quad, m1: Match, m2: Match)
    requires IsFirstLongest(ka, kb, q, m1) && IsFirstLongest(ka, kb, q, m2)
    ensures m1 == m2
  {
  }

  /** An empty first-longest run sits at the window's corner: the empty run
      there is a run too, and nothing starts before the corner. */
  lemma FirstLongestEmpty<K>(ka: seq<K>, kb: seq<K>, q: Quad, m: Match)
    requires ValidQuad(q, |ka|, |kb|) && IsFirstLongest(ka, kb, q, m) && m.length == 0
    ensures m.astart == q.Astart && m.bstart == q.Bstart
  {
    var corner := Match(q.Astart, q.Bstart, 0);
    assert IsRun(ka, kb, corner) && InQuad(corner, q);
  }

  /** A first-longest run cannot be stretched: the agreeing pair just before
      or just after it inside q would give a longer run. */
  lemma FirstLongestFixed<K>(ka: seq<K>, kb: seq<K>, q: Quad, m: Match)
    requires ValidQuad(q, |ka|, |kb|) && IsFirstLongest(ka, kb, q, m)
    ensures NotExtendable(ka, kb, q, m)
  {
    if q.Astart < m.astart && q.Bstart < m.bstart && ka[m.astart - 1] == kb[m.bstart - 1] {
      ExtendFront(ka, kb, m);
      assert InQuad(Match(m.astart - 1, m.bstart - 1, m.length + 1), q);
      assert false;
    }
    var ea, eb := m.astart + m.length, m.bstart + m.length;
    if ea < q.Aend && eb < q.Bend && ka[ea] == kb[eb] {
      ExtendBack(ka, kb, m);
      assert InQuad(Match(m.astart, m.bstart, m.length + 1), q);
      assert false;
    }
  }

  /** Length of the longest common run that ends at cell (i, j), inclusive,
      without leaving window `q`. */
  ghost function RunLen<K>(ka: seq<K>, kb: seq<K>, q: Quad, i: int, j: int): nat {
    Streak(ka, kb, q, i, j)
  }

  /** The recursion behind RunLen: one more than the run ending at the cell
      diagonally before, when the two elements at (i, j) agree inside q. (The
      properties quantify over RunLen, so that unfolding this recursion never
      produces new instances of them.) */
  ghost function Streak<K>(ka: seq<K>, kb: seq<K>, q: Quad, i: int, j: int): nat
    decreases i - q.Astart + 1
  {
    if q.Astart <= i < q.Aend && q.Bstart <= j < q.Bend && 0 <= i < |ka| && 0 <= j < |kb| && ka[i] == kb[j]
    then 1 + Streak(ka, kb, q, i - 1, j - 1)
    else 0
  }

  /** A run of length k ending at (i, j) is a genuine common run inside q. */
  lemma {:induction false} RunLenIsRun<K>(ka: seq<K>, kb: seq<K>, q: Quad, i: int, j: int, k: int)
    requires 1 <= k <= RunLen(ka, kb, q, i, j)
    ensures IsRun(ka, kb, Match(i - k + 1, j - k + 1, k)) && InQuad(Match(i - k + 1, j - k + 1, k), q)
    decreases k
  {
    if k > 1 {
      RunLenIsRun(ka, kb, q, i - 1, j - 1, k - 1);
    }
  }

  /** Every non-empty common run inside q shows up in RunLen at its last cell. */
  lemma {:induction false} RunLenOfRun<K>(ka: seq<K>, kb: seq<K>, q: Quad, m: Match)
    requires IsRun(ka, kb, m) && InQuad(m, q) && m.length > 0
    ensures RunLen(ka, kb, q, m.astart + m.length - 1, m.bstart + m.length - 1) >= m.length
    decreases m.length
  {
    if m.length > 1 {
      RunLenOfRun(ka, kb, q, Match(m.astart, m.bstart, m.length - 1));
    }
  }

  /** Every cell of q before (i, j) in scan order ends a run no longer than `size`. */
  ghost predicate ScannedUpTo<K>(ka: seq<K>, kb: seq<K>, q: Quad, i: int, j: int, size: int) {
    forall i', j' :: q.Astart <= i' < q.Aend && q.Bstart <= j' < q.Bend && CellBefore(i', j', i, j)
      ==> RunLen(ka, kb, q, i', j') <= size
  }

  /** No cell of q before (i, j) in scan order ends a run as long as `size`. */
  ghost predicate NoEarlierTie<K>(ka: seq<K>, kb: seq<K>, q: Quad, i: int, j: int, size: int) {
    forall i', j' :: q.Astart <= i' < q.Aend && q.Bstart <= j' < q.Bend && CellBefore(i', j', i, j)
      ==> RunLen(ka, kb, q, i', j') < size
  }

  /** What the best run found so far always satisfies: a genuine run inside q,
      parked at the window's corner while it is empty. */
  ghost predicate BestInQuad<K>(ka: seq<K>, kb: seq<K>, q: Quad, best: Match) {
    && IsRun(ka, kb, best) && InQuad(best, q)
    && (best.length == 0 ==> best.astart == q.Astart && best.bstart == q.Bstart)
  }

  /** The best run after scanning up to (i, j) is the first longest among the
      cells scanned. */
  ghost predicate FirstSoFar<K>(ka: seq<K>, kb: seq<K>, q: Quad, i: int, j: int, best: Match) {
    && ScannedUpTo(ka, kb, q, i, j, best.length)
    && (best.length > 0 ==>
          NoEarlierTie(ka, kb, q, best.astart + best.length - 1, best.bstart + best.length - 1, best.length))
  }

  /** A scan that starts at the window's corner has seen nothing yet. */
  lemma ScanStart<K>(ka: seq<K>, kb: seq<K>, q: Quad)
    ensures FirstSoFar(ka, kb, q, q.Astart, q.Bstart, Match(q.Astart, q.Bstart, 0))
  {
  }

  /** Cells whose runs are empty can be skipped without changing the best run. */
  lemma SkipEmptyCells<K>(ka: seq<K>, kb: seq<K>, q: Quad, i: int, jlo: int, jhi: int, best: Match)
    requires FirstSoFar(ka, kb, q, i, jlo, best) && best.length >= 0 && jlo <= jhi
    requires forall j' :: jlo <= j' < jhi ==> RunLen(ka, kb, q, i, j') == 0
    ensures FirstSoFar(ka, kb, q, i, jhi, best)
  {
  }

  /** Scanning a whole row moves the scan to the start of the next row. */
  lemma NextRow<K>(ka: seq<K>, kb: seq<K>, q: Quad, i: int, best: Match)
    requires FirstSoFar(ka, kb, q, i, q.Bend, best)
    ensures FirstSoFar(ka, kb, q, i + 1, q.Bstart, best)
  {
  }

  /** The best run after visiting cell (i, j), whose run has length k: the run
      ending there when it is strictly longer than `best`, otherwise `best`. */
  function Better(best: Match, i: int, j: int, k: int): Match {
    if k > best.length then Match(i - k + 1, j - k + 1, k) else best
  }

  /** Visiting cell (i, j) and keeping the better of the best run so far and
      the longest run ending at (i, j), as the search does. */
  lemma VisitCell<K>(ka: seq<K>, kb: seq<K>, q: Quad, i: int, j: int, best: Match)
    requires q.Astart <= i < q.Aend && q.Bstart <= j < q.Bend
    requires BestInQuad(ka, kb, q, best) && FirstSoFar(ka, kb, q, i, j, best)
    ensures var best' := Better(best, i, j, RunLen(ka, kb, q, i, j));
            BestInQuad(ka, kb, q, best') && FirstSoFar(ka, kb, q, i, j + 1, best')
  {
    var k := RunLen(ka, kb, q, i, j);
    if k > best.length {
      RunLenIsRun(ka, kb, q, i, j, k);
    }
  }

  /** The element pair in front of a run is part of a longer run when it agrees. */
  lemma ExtendFront<K>(ka: seq<K>, kb: seq<K>, m: Match)
    requires IsRun(ka, kb, m) && 0 < m.astart && 0 < m.bstart
    requires ka[m.astart - 1] == kb[m.bstart - 1]
    ensures IsRun(ka, kb, Match(m.astart - 1, m.bstart - 1, m.length + 1))
  {
  }

  /** The element pair just past a run is part of a longer run when it agrees. */
  lemma ExtendBack<K>(ka: seq<K>, kb: seq<K>, m: Match)
    requires IsRun(ka, kb, m) && m.astart + m.length < |ka| && m.bstart + m.length < |kb|
    requires ka[m.astart + m.length] == kb[m.bstart + m.length]
    ensures IsRun(ka, kb, Match(m.astart, m.bstart, m.length + 1))
  {
  }

  /** Once every row is scanned, the best run is the first longest run of the
      window. */
  lemma ScanComplete<K>(ka: seq<K>, kb: seq<K>, q: Quad, best: Match)
    requires ValidQuad(q, |ka|, |kb|)
    requires BestInQuad(ka, kb, q, best) && FirstSoFar(ka, kb, q, q.Aend, q.Bstart, best)
    ensures IsFirstLongest(ka, kb, q, best)
  {
    forall m': Match | IsRun(ka, kb, m') && InQuad(m', q)
      ensures m'.length <= best.length && (m'.length == best.length ==> !StartsBefore(m', best))
    {
      if m'.length > 0 {
        RunLenOfRun(ka, kb, q, m');
      }
    }
  }

  /** Scanning the rest of a valid window from cell (i, j) on, visiting every
      cell as the search does, ends with the first longest run of the window;
      so every valid window has one. */
  lemma {:induction false} ScanRest<K>(ka: seq<K>, kb: seq<K>, q: Quad, i: int, j: int, best: Match)
    requires ValidQuad(q, |ka|, |kb|) && q.Astart <= i <= q.Aend && q.Bstart <= j <= q.Bend
    requires i == q.Aend ==> j == q.Bstart
    requires BestInQuad(ka, kb, q, best) && FirstSoFar(ka, kb, q, i, j, best)
    ensures exists m :: IsFirstLongest(ka, kb, q, m)
    decreases q.Aend - i, q.Bend - j
  {
    if i == q.Aend {
      ScanComplete(ka, kb, q, best);
    } else if j == q.Bend {
      NextRow(ka, kb, q, i, best);
      ScanRest(ka, kb, q, i + 1, q.Bstart, best);
    } else {
      VisitCell(ka, kb, q, i, j, best);
      ScanRest(ka, kb, q, i, j + 1, Better(best, i, j, RunLen(ka, kb, q, i, j)));
    }
  }

  /** The first longest run of a valid window. */
  ghost function FirstLongest<K>(ka: seq<K>, kb: seq<K>, q: Quad): (m: Match)
    requires ValidQuad(q, |ka|, |kb|)
    ensures IsFirstLongest(ka, kb, q, m)
  {
    ScanStart(ka, kb, q);
    ScanRest(ka, kb, q, q.Astart, q.Bstart, Match(q.Astart, q.Bstart, 0));
    var m :| IsFirstLongest(ka, kb, q, m); m
  }

  /** The rolling map of the search for row i: every entry is a column of q
      holding the length of a genuine run ending at (i, column). */
  ghost predicate RowSound<K>(ka: seq<K>, kb: seq<K>, q: Quad, i: int, row: map<int, int>) {
    forall j :: j in row ==> q.Bstart <= j < q.Bend && 1 <= row[j] <= RunLen(ka, kb, q, i, j)
  }

  /** The rolling map of row i, filled up to column jf, holds exactly the
      columns before jf that end a run, each with the length of the longest
      run ending there. */
  ghost predicate RowExact<K>(ka: seq<K>, kb: seq<K>, q: Quad, i: int, row: map<int, int>, jf: int) {
    && (forall j :: j in row ==> j < jf)
    && (forall j :: q.Bstart <= j < jf ==> (j in row <==> RunLen(ka, kb, q, i, j) > 0))
    && (forall j :: j in row ==> row[j] == RunLen(ka, kb, q, i, j))
  }

  /** Looking column j up in the rolling map of row i, with 0 for an absent
      column, never overstates the run ending at (i, j), and gives it exactly
      once the whole row is in the map. */
  lemma RowLookup<K>(ka: seq<K>, kb: seq<K>, q: Quad, i: int, row: map<int, int>, j: int)
    requires RowSound(ka, kb, q, i, row)
    ensures (if j in row then row[j] else 0) <= RunLen(ka, kb, q, i, j)
    ensures RowExact(ka, kb, q, i, row, q.Bend) ==> (if j in row then row[j] else 0) == RunLen(ka, kb, q, i, j)
  {
  }

  /** Before the first row is scanned, the empty rolling map is exact. */
  lemma RowStart<K>(ka: seq<K>, kb: seq<K>, q: Quad)
    ensures RowSound(ka, kb, q, q.Astart - 1, map[]) && RowExact(ka, kb, q, q.Astart - 1, map[], q.Bend)
  {
  }

  /** When `indexes` lists, in ascending order, every position of B holding
      A[i], and the first t of them all lie before column jf, then no column from
      jf up to the next listed one (or to jhi, if nothing is listed after the
      first t) ends a run in row i. */
  lemma GapHasNoRuns<K>(ka: seq<K>, kb: seq<K>, q: Quad, i: int, indexes: seq<int>, t: int, jf: int, jhi: int)
    requires 0 <= i < |ka| && 0 <= t <= |indexes|
    requires StrictlyAscending(indexes)
    requires forall j :: 0 <= j < |kb| && kb[j] == ka[i] ==> j in indexes
    requires forall p :: 0 <= p < t ==> indexes[p] < jf
    requires t < |indexes| ==> jhi <= indexes[t]
    ensures forall j :: jf <= j < jhi ==> RunLen(ka, kb, q, i, j) == 0
  {
    forall j | jf <= j < jhi
      ensures RunLen(ka, kb, q, i, j) == 0
    {
      if 0 <= j < |kb| && kb[j] == ka[i] {
        assert false;
      }
    }
  }

  /** What the search knows about the anchor list of row i: it ascends and
      names exactly the positions of B whose element agrees with A[i]. */
  ghost predicate AnchorList<K>(ka: seq<K>, kb: seq<K>, i: int, indexes: seq<int>) {
    && 0 <= i < |ka| && StrictlyAscending(indexes)
    && (forall p :: 0 <= p < |indexes| ==> 0 <= indexes[p] < |kb| && kb[indexes[p]] == ka[i])
    && (forall j :: 0 <= j < |kb| && kb[j] == ka[i] ==> j in indexes)
  }

  /** The rolling map of the previous row, sound and exact. */
  ghost predicate PrevRow<K>(ka: seq<K>, kb: seq<K>, q: Quad, i: int, prev: map<int, int>) {
    RowSound(ka, kb, q, i - 1, prev) && RowExact(ka, kb, q, i - 1, prev, q.Bend)
  }

  /** The state of the search before row i: the best run so far is a genuine
      run of q, the first longest among the rows before i, and the rolling map
      describes row i - 1. */
  ghost predicate RowsScanned<K>(ka: seq<K>, kb: seq<K>, q: Quad, i: int, prev: map<int, int>, best: Match) {
    BestInQuad(ka, kb, q, best) && PrevRow(ka, kb, q, i, prev) && FirstSoFar(ka, kb, q, i, q.Bstart, best)
  }

  /** The state of the scan of row i after the first t anchors: the new rolling
      map `row` is sound and exact up to column jf, the anchors visited lie
      before jf and the ones left from q's B range on do not, and `best` is the
      first longest run among the cells before (i, jf). */
  ghost predicate RowScan<K>(ka: seq<K>, kb: seq<K>, q: Quad, i: int, row: map<int, int>,
                             indexes: seq<int>, t: int, jf: int, best: Match) {
    && 0 <= t <= |indexes| && q.Bstart <= jf <= q.Bend
    && BestInQuad(ka, kb, q, best) && RowSound(ka, kb, q, i, row)
    && (forall p :: 0 <= p < t ==> indexes[p] < jf)
    && (forall p :: t <= p < |indexes| ==> indexes[p] < q.Bstart || jf <= indexes[p])
    && RowExact(ka, kb, q, i, row, jf) && FirstSoFar(ka, kb, q, i, jf, best)
  }

  /** A row scan starts with an empty rolling map at the left edge of q. */
  lemma RowScanStart<K>(ka: seq<K>, kb: seq<K>, q: Quad, i: int, indexes: seq<int>, best: Match)
    requires q.Bstart <= q.Bend && BestInQuad(ka, kb, q, best)
    requires FirstSoFar(ka, kb, q, i, q.Bstart, best)
    ensures RowScan(ka, kb, q, i, map[], indexes, 0, q.Bstart, best)
  {
  }

  /** An anchor left of q is passed over. */
  lemma RowScanSkip<K>(ka: seq<K>, kb: seq<K>, q: Quad, i: int, row: map<int, int>,
                       indexes: seq<int>, t: int, jf: int, best: Match)
    requires RowScan(ka, kb, q, i, row, indexes, t, jf, best)
    requires t < |indexes| && indexes[t] < q.Bstart
    ensures RowScan(ka, kb, q, i, row, indexes, t + 1, jf, best)
  {
  }

  /** Visiting anchor j inside q: the run ending at (i, j) is one longer than
      the one the previous row's map holds at j - 1; it goes into the new map,
      and replaces the best run when it is strictly longer. */
  lemma RowScanVisit<K>(ka: seq<K>, kb: seq<K>, q: Quad, i: int, prev: map<int, int>, row: map<int, int>,
                        indexes: seq<int>, t: int, jf: int, best: Match)
    requires q.Astart <= i < q.Aend && AnchorList(ka, kb, i, indexes) && PrevRow(ka, kb, q, i, prev)
    requires RowScan(ka, kb, q, i, row, indexes, t, jf, best)
    requires t < |indexes| && q.Bstart <= indexes[t] < q.Bend
    ensures var j := indexes[t];
            var k := (if j - 1 in prev then prev[j - 1] else 0) + 1;
            RowScan(ka, kb, q, i, row[j := k], indexes, t + 1, j + 1, Better(best, i, j, k))
  {
    var j := indexes[t];
    RowScanVisitSound(ka, kb, q, i, prev, row, indexes, t, jf, best);
    RowScanVisitExact(ka, kb, q, i, prev, row, indexes, t, jf, best);
    assert forall p :: 0 <= p < t + 1 ==> indexes[p] < j + 1;
    assert forall p :: t + 1 <= p < |indexes| ==> j < indexes[p];
  }

  /** Visiting anchor j records a genuine run length and keeps a genuine best
      run inside q. */
  lemma RowScanVisitSound<K>(ka: seq<K>, kb: seq<K>, q: Quad, i: int, prev: map<int, int>, row: map<int, int>,
                             indexes: seq<int>, t: int, jf: int, best: Match)
    requires q.Astart <= i < q.Aend && AnchorList(ka, kb, i, indexes) && PrevRow(ka, kb, q, i, prev)
    requires RowScan(ka, kb, q, i, row, indexes, t, jf, best)
    requires t < |indexes| && q.Bstart <= indexes[t] < q.Bend
    ensures var j := indexes[t];
            var k := (if j - 1 in prev then prev[j - 1] else 0) + 1;
            RowSound(ka, kb, q, i, row[j := k]) && BestInQuad(ka, kb, q, Better(best, i, j, k))
  {
    var j := indexes[t];
    RowLookup(ka, kb, q, i - 1, prev, j - 1);
    var k := (if j - 1 in prev then prev[j - 1] else 0) + 1;
    assert k <= RunLen(ka, kb, q, i, j);
    RowSoundVisit(ka, kb, q, i, row, j, k);
    if k > best.length {
      RunLenIsRun(ka, kb, q, i, j, k);
    }
  }

  /** Visiting anchor j keeps the new map exact up to j + 1 and the best run
      the first longest among the cells scanned. */
  lemma RowScanVisitExact<K>(ka: seq<K>, kb: seq<K>, q: Quad, i: int, prev: map<int, int>, row: map<int, int>,
                             indexes: seq<int>, t: int, jf: int, best: Match)
    requires q.Astart <= i < q.Aend && AnchorList(ka, kb, i, indexes) && PrevRow(ka, kb, q, i, prev)
    requires RowScan(ka, kb, q, i, row, indexes, t, jf, best)
    requires t < |indexes| && q.Bstart <= indexes[t] < q.Bend
    ensures var j := indexes[t];
            var k := (if j - 1 in prev then prev[j - 1] else 0) + 1;
            RowExact(ka, kb, q, i, row[j := k], j + 1) && FirstSoFar(ka, kb, q, i, j + 1, Better(best, i, j, k))
  {
    var j := indexes[t];
    RowLookup(ka, kb, q, i - 1, prev, j - 1);
    var k := (if j - 1 in prev then prev[j - 1] else 0) + 1;
    GapHasNoRuns(ka, kb, q, i, indexes, t, jf, j);
    RowExactVisit(ka, kb, q, i, row, jf, j, k);
    AdvanceTo(ka, kb, q, i, jf, j, best);
  }

  /** Passing over the empty cells from jf to j and then visiting cell (i, j)
      keeps the best run the first longest among the cells scanned. */
  lemma AdvanceTo<K>(ka: seq<K>, kb: seq<K>, q: Quad, i: int, jf: int, j: int, best: Match)
    requires q.Astart <= i < q.Aend && q.Bstart <= jf <= j < q.Bend
    requires BestInQuad(ka, kb, q, best) && FirstSoFar(ka, kb, q, i, jf, best)
    requires forall j' :: jf <= j' < j ==> RunLen(ka, kb, q, i, j') == 0
    ensures FirstSoFar(ka, kb, q, i, j + 1, Better(best, i, j, RunLen(ka, kb, q, i, j)))
  {
    SkipEmptyCells(ka, kb, q, i, jf, j, best);
    VisitCell(ka, kb, q, i, j, best);
  }

  /** Recording a genuine run length at a column of q keeps the map sound. */
  lemma RowSoundVisit<K>(ka: seq<K>, kb: seq<K>, q: Quad, i: int, row: map<int, int>, j: int, k: int)
    requires RowSound(ka, kb, q, i, row) && q.Bstart <= j < q.Bend && 1 <= k <= RunLen(ka, kb, q, i, j)
    ensures RowSound(ka, kb, q, i, row[j := k])
  {
  }

  /** Recording the exact run length at column j, with no run ending between jf
      and j, extends an exact map up to jf to one exact up to j + 1. */
  lemma RowExactVisit<K>(ka: seq<K>, kb: seq<K>, q: Quad, i: int, row: map<int, int>, jf: int, j: int, k: int)
    requires RowExact(ka, kb, q, i, row, jf) && jf <= j
    requires forall j' :: jf <= j' < j ==> RunLen(ka, kb, q, i, j') == 0
    requires 1 <= k == RunLen(ka, kb, q, i, j)
    ensures RowExact(ka, kb, q, i, row[j := k], j + 1)
  {
  }

  /** Once the anchors run out or pass q's right edge, the new map is the
      previous-row map for row i + 1 and the scan moves to the next row. */
  lemma RowScanEnd<K>(ka: seq<K>, kb: seq<K>, q: Quad, i: int, row: map<int, int>,
                      indexes: seq<int>, t: int, jf: int, best: Match)
    requires AnchorList(ka, kb, i, indexes)
    requires RowScan(ka, kb, q, i, row, indexes, t, jf, best)
    requires t == |indexes| || indexes[t] >= q.Bend
    ensures RowsScanned(ka, kb, q, i + 1, row, best)
  {
    GapHasNoRuns(ka, kb, q, i, indexes, t, jf, q.Bend);
    SkipEmptyCells(ka, kb, q, i, jf, q.Bend, best);
    NextRow(ka, kb, q, i, best);
  }

  /** Before the first row the search has the empty best run at q's corner and
      an empty rolling map. */
  lemma RowsStart<K>(ka: seq<K>, kb: seq<K>, q: Quad)
    requires ValidQuad(q, |ka|, |kb|)
    ensures RowsScanned(ka, kb, q, q.Astart, map[], Match(q.Astart, q.Bstart, 0))
  {
    ScanStart(ka, kb, q);
    RowStart(ka, kb, q);
  }

  /** After the last row the best run is the first longest run of q. */
  lemma RowsDone<K>(ka: seq<K>, kb: seq<K>, q: Quad, prev: map<int, int>, best: Match)
    requires ValidQuad(q, |ka|, |kb|) && RowsScanned(ka, kb, q, q.Aend, prev, best)
    ensures IsFirstLongest(ka, kb, q, best)
  {
    ScanComplete(ka, kb, q, best);
  }

  /** The keys of A, each wrapped so that it can meet a masked key of B. */
  ghost function Lift<K>(ka: seq<K>): seq<Option<K>> {
    seq(|ka|, i requires 0 <= i < |ka| => Some(ka[i]))
  }

  /** The keys of B as the rolling search sees them through the index: a key
      the index does not list becomes None, which agrees with no key of A. */
  ghost function Mask<K>(kb: seq<K>, b2j: map<K, seq<int>>): seq<Option<K>> {
    seq(|kb|, j requires 0 <= j < |kb| => if kb[j] in b2j then Some(kb[j]) else None)
  }

  /** A run of the masked view is a run of the keys themselves, whose B
      elements all remain listed in the index. */
  lemma MaskedRun<K>(ka: seq<K>, kb: seq<K>, b2j: map<K, seq<int>>, m: Match)
    requires IsRun(Lift(ka), Mask(kb, b2j), m)
    ensures IsRun(ka, kb, m)
    ensures forall b :: m.bstart <= b < m.bstart + m.length ==> kb[b] in b2j
  {
    var la, lb := Lift(ka), Mask(kb, b2j);
    forall a | m.astart <= a < m.astart + m.length
      ensures ka[a] == kb[m.bstart + (a - m.astart)] && kb[m.bstart + (a - m.astart)] in b2j
    {
      assert la[a] == lb[m.bstart + (a - m.astart)];
    }
    forall b | m.bstart <= b < m.bstart + m.length
      ensures kb[b] in b2j
    {
      var a := m.astart + (b - m.bstart);
      assert la[a] == lb[m.bstart + (a - m.astart)];
      assert m.bstart + (a - m.astart) == b;
    }
  }

  /** When the index lists every position of B, the mask hides nothing: the
      masked view has exactly the runs of the keys, and the same first longest
      run in every window. */
  lemma FullMask<K>(ka: seq<K>, kb: seq<K>, b2j: map<K, seq<int>>, q: Quad, m: Match)
    requires IndexComplete(b2j, kb)
    ensures IsFirstLongest(Lift(ka), Mask(kb, b2j), q, m) <==> IsFirstLongest(ka, kb, q, m)
  {
    var la, lb := Lift(ka), Mask(kb, b2j);
    forall m': Match
      ensures IsRun(la, lb, m') <==> IsRun(ka, kb, m')
    {
      if IsRun(ka, kb, m') {
        forall a | m'.astart <= a < m'.astart + m'.length
          ensures la[a] == lb[m'.bstart + (a - m'.astart)]
        {
          assert ka[a] == kb[m'.bstart + (a - m'.astart)];
        }
      }
      if IsRun(la, lb, m') {
        MaskedRun(ka, kb, b2j, m');
      }
    }
  }

  /** A sound index whose every kept key lists all its positions gives, as the
      anchor list of row i (the list of A[i], none when A[i] is not a key),
      exactly the columns where the masked view agrees with A[i]. */
  lemma AnchorsOf<K>(b2j: map<K, seq<int>>, ka: seq<K>, kb: seq<K>, i: int)
    requires IndexSound(b2j, kb) && ListsComplete(b2j, kb) && 0 <= i < |ka|
    ensures AnchorList(Lift(ka), Mask(kb, b2j), i, if ka[i] in b2j then b2j[ka[i]] else [])
  {
    var la, lb := Lift(ka), Mask(kb, b2j);
    var indexes := if ka[i] in b2j then b2j[ka[i]] else [];
    forall j | 0 <= j < |lb| && lb[j] == la[i]
      ensures j in indexes
    {
      assert kb[j] in b2j && kb[j] == ka[i];
    }
  }

  /** The key pair just before m lies inside q and agrees. */
  predicate FrontAgrees<K(==)>(ka: seq<K>, kb: seq<K>, q: Quad, m: Match)
    requires ValidQuad(q, |ka|, |kb|) && InQuad(m, q) && m.length >= 0
  {
    q.Astart < m.astart && q.Bstart < m.bstart && ka[m.astart - 1] == kb[m.bstart - 1]
  }

  /** The key pair just after m lies inside q and agrees. */
  predicate BackAgrees<K(==)>(ka: seq<K>, kb: seq<K>, q: Quad, m: Match)
    requires ValidQuad(q, |ka|, |kb|) && InQuad(m, q) && m.length >= 0
  {
    m.astart + m.length < q.Aend && m.bstart + m.length < q.Bend && ka[m.astart + m.length] == kb[m.bstart + m.length]
  }

  /** A genuine run inside the valid window q: what longestMatch's stretching
      loops keep. */
  ghost predicate Stretched<K>(ka: seq<K>, kb: seq<K>, q: Quad, m: Match) {
    ValidQuad(q, |ka|, |kb|) && IsRun(ka, kb, m) && InQuad(m, q)
  }

  /** The run m stretched backwards inside q, one agreeing pair at a time, as
      far as it goes: the result ends where m ends, on m's diagonal, and the
      pair before it no longer agrees inside q. */
  ghost function Backward<K>(ka: seq<K>, kb: seq<K>, q: Quad, m: Match): (r: Match)
    requires Stretched(ka, kb, q, m)
    ensures Stretched(ka, kb, q, r) && !FrontAgrees(ka, kb, q, r)
    ensures r.astart <= m.astart && r.astart - m.astart == r.bstart - m.bstart
    ensures r.astart + r.length == m.astart + m.length
    decreases m.astart
  {
    if FrontAgrees(ka, kb, q, m) then
      ExtendFront(ka, kb, m);
      Backward(ka, kb, q, Match(m.astart - 1, m.bstart - 1, m.length + 1))
    else m
  }

  /** The run m stretched forwards inside q, one agreeing pair at a time, as
      far as it goes: the result starts where m starts, is no shorter, and the
      pair after it no longer agrees inside q. */
  ghost function Forward<K>(ka: seq<K>, kb: seq<K>, q: Quad, m: Match): (r: Match)
    requires Stretched(ka, kb, q, m)
    ensures Stretched(ka, kb, q, r) && !BackAgrees(ka, kb, q, r)
    ensures r.astart == m.astart && r.bstart == m.bstart && r.length >= m.length
    decreases q.Aend - m.astart - m.length
  {
    if BackAgrees(ka, kb, q, m) then
      ExtendBack(ka, kb, m);
      Forward(ka, kb, q, Match(m.astart, m.bstart, m.length + 1))
    else m
  }

  /** A run whose ends cannot be stretched comes back from both unchanged. */
  lemma StretchFixed<K>(ka: seq<K>, kb: seq<K>, q: Quad, m: Match)
    requires Stretched(ka, kb, q, m) && NotExtendable(ka, kb, q, m)
    ensures Backward(ka, kb, q, m) == m && Forward(ka, kb, q, m) == m
  {
  }

  /** Stretching backwards and then forwards gives a run that cannot be
      stretched at either end and that contains m; an empty result is m
      itself, so it stays at q's corner when m does. */
  lemma StretchBoth<K>(ka: seq<K>, kb: seq<K>, q: Quad, m: Match)
    requires Stretched(ka, kb, q, m)
    ensures var r := Forward(ka, kb, q, Backward(ka, kb, q, m));
            && NotExtendable(ka, kb, q, r)
            && r.astart <= m.astart && r.astart - m.astart == r.bstart - m.bstart
            && m.astart + m.length <= r.astart + r.length
            && (r.length == 0 ==> r == m)
  {
    var back := Backward(ka, kb, q, m);
    var r := Forward(ka, kb, q, back);
    assert !FrontAgrees(ka, kb, q, r) by {
      assert !FrontAgrees(ka, kb, q, back);
    }
  }

  /** What longestMatch returns for window q: the first longest run of the
      masked view (the runs whose B elements the index still lists), stretched
      backwards and then forwards while the neighbouring keys agree. It is a
      genuine run of q; LongestInSpec states the rest. */
  ghost function LongestIn<K>(ka: seq<K>, kb: seq<K>, b2j: map<K, seq<int>>, q: Quad): (m: Match)
    requires ValidQuad(q, |ka|, |kb|)
    ensures IsRun(ka, kb, m) && InQuad(m, q)
  {
    var best := FirstLongest(Lift(ka), Mask(kb, b2j), q);
    MaskedRun(ka, kb, b2j, best);
    Forward(ka, kb, q, Backward(ka, kb, q, best))
  }

  /** The run longestMatch returns cannot be stretched within q, contains the
      masked view's first longest run on the same diagonal, sits at q's corner
      when empty, and, when the index lists every position of B, is the first
      longest run of q itself. */
  lemma LongestInSpec<K>(ka: seq<K>, kb: seq<K>, b2j: map<K, seq<int>>, q: Quad)
    requires ValidQuad(q, |ka|, |kb|)
    ensures var m, best := LongestIn(ka, kb, b2j, q), FirstLongest(Lift(ka), Mask(kb, b2j), q);
            && NotExtendable(ka, kb, q, m)
            && m.astart <= best.astart && m.astart - best.astart == m.bstart - best.bstart
            && best.astart + best.length <= m.astart + m.length
            && (m.length == 0 ==> m.astart == q.Astart && m.bstart == q.Bstart)
            && (IndexComplete(b2j, kb) ==> m == best && IsFirstLongest(ka, kb, q, m))
  {
    var best := FirstLongest(Lift(ka), Mask(kb, b2j), q);
    MaskedRun(ka, kb, b2j, best);
    StretchBoth(ka, kb, q, best);
    if best.length == 0 {
      FirstLongestEmpty(Lift(ka), Mask(kb, b2j), q, best);
    }
    if IndexComplete(b2j, kb) {
      FullMask(ka, kb, b2j, q, best);
      FirstLongestFixed(ka, kb, q, best);
      StretchFixed(ka, kb, q, best);
    }
  }
}
