/** Worked examples from the repository's own tests, stated over the model:
    the first longest run of each window the worklist visits, the match list
    that results, and what Spans and Blocks return for it. */
module Worked {
  import opened Primitives
  import opened ElementIndex
  import opened Runs
  import opened Normalize
  import opened Spans
  import opened Search
  import opened Diff2
  import opened ByKey

  /** With every position of B indexed, the run longestMatch returns for a
      window is its first longest run. */
  lemma LongestIs<K>(ka: seq<K>, kb: seq<K>, b2j: map<K, seq<int>>, q: Quad, m: Match)
    requires IndexComplete(b2j, kb) && ValidQuad(q, |ka|, |kb|) && IsFirstLongest(ka, kb, q, m)
    ensures LongestIn(ka, kb, b2j, q) == m
  {
    LongestInSpec(ka, kb, b2j, q);
    FirstLongestUnique(ka, kb, q, m, LongestIn(ka, kb, b2j, q));
  }

  /** The t-th pair of a run agrees. */
  lemma RunAt<K>(ka: seq<K>, kb: seq<K>, m: Match, t: int)
    requires IsRun(ka, kb, m) && 0 <= t < m.length
    ensures ka[m.astart + t] == kb[m.bstart + t]
  {
  }

  /** A worklist holding only window q records q's run m, when non-empty,
      then whatever the windows pushed after it give. */
  lemma PendingOne<K>(ka: seq<K>, kb: seq<K>, b2j: map<K, seq<int>>, q: Quad, m: Match)
    requires ValidQuad(q, |ka|, |kb|) && LongestIn(ka, kb, b2j, q) == m
    ensures m.length > 0 ==> Pending(ka, kb, b2j, [q]) == [m] + Pending(ka, kb, b2j, Children(q, m))
    ensures m.length == 0 ==> Pending(ka, kb, b2j, [q]) == []
  {
    assert [] + [q] == [q];
    assert [] + Children(q, m) == Children(q, m);
    PendingStep(ka, kb, b2j, [], q);
    assert Pending(ka, kb, b2j, []) == [];
  }

  // A = [1, 2, 3, 4, 5, 6] against B = [2, 3, 5, 7].

  /** Over the whole of A and B the first longest run is (1, 0, 2): the pair
      2, 3. Every other run has length at most one, since 3 is followed by 4
      in A but by 5 in B, and 5 by 6 in A but by 7 in B. */
  lemma Test011Whole()
    ensures IsFirstLongest([1, 2, 3, 4, 5, 6], [2, 3, 5, 7], Quad(0, 6, 0, 4), Match(1, 0, 2))
  {
    var ka, kb, q := [1, 2, 3, 4, 5, 6], [2, 3, 5, 7], Quad(0, 6, 0, 4);
    var best := Match(1, 0, 2);
    assert IsRun(ka, kb, best);
    forall m': Match | IsRun(ka, kb, m') && InQuad(m', q)
      ensures m'.length <= best.length && (m'.length == best.length ==> !StartsBefore(m', best))
    {
      if m'.length >= 2 {
        var a, b := m'.astart, m'.bstart;
        assert ka[a] == kb[b] && ka[a + 1] == kb[b + 1];
        assert a == ka[a] - 1;
        if m'.length > 2 {
          RunAt(ka, kb, m', 2);
          assert false;
        }
      }
    }
  }

  /** After (1, 0, 2) the worklist searches A[3..6] = 4, 5, 6 against
      B[2..4] = 5, 7: the only agreeing pair is 5 against 5. */
  lemma Test011After()
    ensures IsFirstLongest([1, 2, 3, 4, 5, 6], [2, 3, 5, 7], Quad(3, 6, 2, 4), Match(4, 2, 1))
  {
    var ka, kb, q := [1, 2, 3, 4, 5, 6], [2, 3, 5, 7], Quad(3, 6, 2, 4);
    var best := Match(4, 2, 1);
    assert IsRun(ka, kb, best);
    forall m': Match | IsRun(ka, kb, m') && InQuad(m', q)
      ensures m'.length <= best.length && (m'.length == best.length ==> !StartsBefore(m', best))
    {
      if m'.length >= 1 {
        RunAt(ka, kb, m', 0);
        var a, b := m'.astart, m'.bstart;
        assert a == ka[a] - 1;
        assert b == 2;
        if m'.length > 1 {
          RunAt(ka, kb, m', 1);
          assert false;
        }
      }
    }
  }

  /** Last, A[5..6] = 6 against B[3..4] = 7 agree nowhere: the first longest
      run is empty, at the window's corner. */
  lemma Test011Last()
    ensures IsFirstLongest([1, 2, 3, 4, 5, 6], [2, 3, 5, 7], Quad(5, 6, 3, 4), Match(5, 3, 0))
  {
    var ka, kb, q := [1, 2, 3, 4, 5, 6], [2, 3, 5, 7], Quad(5, 6, 3, 4);
    forall m': Match | IsRun(ka, kb, m') && InQuad(m', q)
      ensures m'.length <= 0 && (m'.length == 0 ==> !StartsBefore(m', Match(5, 3, 0)))
    {
      if m'.length >= 1 {
        RunAt(ka, kb, m', 0);
      }
    }
  }

  /** longestMatch returns (1, 0, 2) for the whole window. */
  lemma Test011WholeRun(ka: seq<int>, kb: seq<int>, b2j: map<int, seq<int>>)
    requires ka == [1, 2, 3, 4, 5, 6] && kb == [2, 3, 5, 7] && IndexComplete(b2j, kb)
    ensures LongestIn(ka, kb, b2j, Quad(0, 6, 0, 4)) == Match(1, 0, 2)
  {
    Test011Whole();
    LongestIs(ka, kb, b2j, Quad(0, 6, 0, 4), Match(1, 0, 2));
  }

  /** longestMatch returns (4, 2, 1) for the window after (1, 0, 2). */
  lemma Test011AfterRun(ka: seq<int>, kb: seq<int>, b2j: map<int, seq<int>>)
    requires ka == [1, 2, 3, 4, 5, 6] && kb == [2, 3, 5, 7] && IndexComplete(b2j, kb)
    ensures LongestIn(ka, kb, b2j, Quad(3, 6, 2, 4)) == Match(4, 2, 1)
  {
    Test011After();
    LongestIs(ka, kb, b2j, Quad(3, 6, 2, 4), Match(4, 2, 1));
  }

  /** longestMatch returns the empty run (5, 3, 0) for the last window. */
  lemma Test011LastRun(ka: seq<int>, kb: seq<int>, b2j: map<int, seq<int>>)
    requires ka == [1, 2, 3, 4, 5, 6] && kb == [2, 3, 5, 7] && IndexComplete(b2j, kb)
    ensures LongestIn(ka, kb, b2j, Quad(5, 6, 3, 4)) == Match(5, 3, 0)
  {
    Test011Last();
    LongestIs(ka, kb, b2j, Quad(5, 6, 3, 4), Match(5, 3, 0));
  }

  /** Behind (1, 0, 2) the worklist records (4, 2, 1); the window behind that
      yields nothing. Only the runs longestMatch returns for the two windows
      matter here. */
  lemma Test011Tail<K>(ka: seq<K>, kb: seq<K>, b2j: map<K, seq<int>>)
    requires |ka| == 6 && |kb| == 4
    requires LongestIn(ka, kb, b2j, Quad(3, 6, 2, 4)) == Match(4, 2, 1)
    requires LongestIn(ka, kb, b2j, Quad(5, 6, 3, 4)) == Match(5, 3, 0)
    ensures Pending(ka, kb, b2j, [Quad(3, 6, 2, 4)]) == [Match(4, 2, 1)]
  {
    var w1, w2 := Quad(3, 6, 2, 4), Quad(5, 6, 3, 4);
    PendingOne(ka, kb, b2j, w2, Match(5, 3, 0));
    PendingOne(ka, kb, b2j, w1, Match(4, 2, 1));
    assert Children(w1, Match(4, 2, 1)) == [w2];
  }

  /** The worklist records (1, 0, 2), then, in the window after it, (4, 2, 1);
      the window after that yields nothing. */
  lemma Test011Found<K>(ka: seq<K>, kb: seq<K>, b2j: map<K, seq<int>>)
    requires |ka| == 6 && |kb| == 4
    requires LongestIn(ka, kb, b2j, Quad(0, 6, 0, 4)) == Match(1, 0, 2)
    requires LongestIn(ka, kb, b2j, Quad(3, 6, 2, 4)) == Match(4, 2, 1)
    requires LongestIn(ka, kb, b2j, Quad(5, 6, 3, 4)) == Match(5, 3, 0)
    ensures Pending(ka, kb, b2j, [Quad(0, |ka|, 0, |kb|)]) == [Match(1, 0, 2), Match(4, 2, 1)]
  {
    var w0 := Quad(0, 6, 0, 4);
    PendingOne(ka, kb, b2j, w0, Match(1, 0, 2));
    assert Children(w0, Match(1, 0, 2)) == [Quad(3, 6, 2, 4)];
    Test011Tail(ka, kb, b2j);
  }

  /** When the worklist records runs already in matchLess order, the match
      list is those runs normalised. */
  lemma MatchListOf<K>(ka: seq<K>, kb: seq<K>, b2j: map<K, seq<int>>, found: seq<Match>)
    requires Pending(ka, kb, b2j, [Quad(0, |ka|, 0, |kb|)]) == found && SortedByMatchLess(found)
    ensures MatchList(ka, kb, b2j) == Normalized(found, |ka|, |kb|)
  {
    InsertionSortSorted(found);
  }

  /** The runs longestMatch returns for the three windows the worklist visits. */
  lemma Test011Runs(ka: seq<int>, kb: seq<int>, b2j: map<int, seq<int>>)
    requires ka == [1, 2, 3, 4, 5, 6] && kb == [2, 3, 5, 7] && IndexComplete(b2j, kb)
    ensures |ka| == 6 && |kb| == 4
    ensures LongestIn(ka, kb, b2j, Quad(0, 6, 0, 4)) == Match(1, 0, 2)
    ensures LongestIn(ka, kb, b2j, Quad(3, 6, 2, 4)) == Match(4, 2, 1)
    ensures LongestIn(ka, kb, b2j, Quad(5, 6, 3, 4)) == Match(5, 3, 0)
  {
    Test011WholeRun(ka, kb, b2j);
    Test011AfterRun(ka, kb, b2j);
    Test011LastRun(ka, kb, b2j);
  }

  /** Sorted and coalesced, those two runs stay as they are; the sentinel
      closes the match list. */
  lemma Test011MatchList<K>(ka: seq<K>, kb: seq<K>, b2j: map<K, seq<int>>)
    requires |ka| == 6 && |kb| == 4
    requires LongestIn(ka, kb, b2j, Quad(0, 6, 0, 4)) == Match(1, 0, 2)
    requires LongestIn(ka, kb, b2j, Quad(3, 6, 2, 4)) == Match(4, 2, 1)
    requires LongestIn(ka, kb, b2j, Quad(5, 6, 3, 4)) == Match(5, 3, 0)
    ensures MatchList(ka, kb, b2j) == [Match(1, 0, 2), Match(4, 2, 1), Match(6, 4, 0)]
  {
    Test011Found(ka, kb, b2j);
    MatchListOf(ka, kb, b2j, [Match(1, 0, 2), Match(4, 2, 1)]);
    Test011Normalized();
  }

  /** Neither run touches the empty start or the other, so coalescing leaves
      both as they are. */
  lemma Test011Normalized()
    ensures Normalized([Match(1, 0, 2), Match(4, 2, 1)], 6, 4) == [Match(1, 0, 2), Match(4, 2, 1), Match(6, 4, 0)]
  {
    var first, second := Match(1, 0, 2), Match(4, 2, 1);
    var found := [first, second];
    assert Coalesce(second, found, 2) == [second];
    assert !Adjacent(first, second) && Flush(first) == [first];
    assert Coalesce(first, found, 1) == found;
    assert !Adjacent(Match(0, 0, 0), first) && Flush(Match(0, 0, 0)) == [];
    assert Coalesce(Match(0, 0, 0), found, 0) == found;
  }

  /** The spans the builder emits for Test011's match list. */
  lemma Test011SpansOf()
    ensures SpansFrom([Match(1, 0, 2), Match(4, 2, 1), Match(6, 4, 0)], 0, 0, 0)
            == [Span(Delete, 0, 1, 0, 0), Span(Equal, 1, 3, 0, 2), Span(Delete, 3, 4, 2, 2),
                Span(Equal, 4, 5, 2, 3), Span(Replace, 5, 6, 3, 4)]
  {
    var ms := [Match(1, 0, 2), Match(4, 2, 1), Match(6, 4, 0)];
    assert SpansFrom(ms, 3, 6, 4) == [];
    assert SpansFrom(ms, 2, 5, 3) == [Span(Replace, 5, 6, 3, 4)];
    assert SpansFrom(ms, 1, 3, 2) == [Span(Delete, 3, 4, 2, 2), Span(Equal, 4, 5, 2, 3), Span(Replace, 5, 6, 3, 4)];
  }

  /** Test011: Spans of a Diff of A and B is delete 1, keep 2 3, delete 4,
      keep 5, replace 6 by 7. */
  method Test011() returns (spans: seq<Span>)
    ensures spans == [Span(Delete, 0, 1, 0, 0), Span(Equal, 1, 3, 0, 2), Span(Delete, 3, 4, 2, 2),
                      Span(Equal, 4, 5, 2, 3), Span(Replace, 5, 6, 3, 4)]
  {
    var diff := new Diff([1, 2, 3, 4, 5, 6], [2, 3, 5, 7]);
    spans := diff.Spans();
    Test011Runs(diff.A, diff.B, diff.b2j);
    Test011MatchList(diff.A, diff.B, diff.b2j);
    Test011SpansOf();
  }

  /** Blocks covering Test011's spans slice [1, 2, 3, 4, 5, 6] and [2, 3, 5, 7]
      along them. */
  lemma Test012Covers(a: seq<int>, b: seq<int>, spans: seq<Span>, blocks: seq<Block<int>>)
    requires a == [1, 2, 3, 4, 5, 6] && b == [2, 3, 5, 7]
    requires spans == [Span(Delete, 0, 1, 0, 0), Span(Equal, 1, 3, 0, 2), Span(Delete, 3, 4, 2, 2),
                       Span(Equal, 4, 5, 2, 3), Span(Replace, 5, 6, 3, 4)]
    requires |blocks| == |spans|
    requires forall p :: 0 <= p < |blocks| ==> Covers(a, b, spans[p], blocks[p])
    ensures blocks == [Block(Delete, [1], []), Block(Equal, [2, 3], [2, 3]), Block(Delete, [4], []),
                       Block(Equal, [5], [5]), Block(Replace, [6], [7])]
  {
    assert a[0..1] == [1] && a[1..3] == [2, 3] && a[3..4] == [4] && a[4..5] == [5] && a[5..6] == [6];
    assert b[0..0] == [] && b[0..2] == [2, 3] && b[2..2] == [] && b[2..3] == [5] && b[3..4] == [7];
    assert Covers(a, b, spans[0], blocks[0]);
    assert Covers(a, b, spans[1], blocks[1]);
    assert Covers(a, b, spans[2], blocks[2]);
    assert Covers(a, b, spans[3], blocks[3]);
    assert Covers(a, b, spans[4], blocks[4]);
  }

  /** Test012: the longest run of the whole window is (1, 0, 2), and Blocks
      of the same Diff delete 1, keep 2 3, delete 4, keep 5 and replace 6 by
      7; the payloads are [1], [2, 3], [4], [5] and [7]. */
  method Test012() returns (m: Match, blocks: seq<Block<int>>)
    ensures m == Match(1, 0, 2)
    ensures blocks == [Block(Delete, [1], []), Block(Equal, [2, 3], [2, 3]), Block(Delete, [4], []),
                       Block(Equal, [5], [5]), Block(Replace, [6], [7])]
    ensures blocks[0].Items() == [1] && blocks[1].Items() == [2, 3] && blocks[2].Items() == [4]
    ensures blocks[3].Items() == [5] && blocks[4].Items() == [7]
  {
    var diff := new Diff([1, 2, 3, 4, 5, 6], [2, 3, 5, 7]);
    m := LongestMatch(diff.A, diff.B, diff.b2j, Quad(0, 6, 0, 4));
    Test011Whole();
    LongestIs(diff.A, diff.B, diff.b2j, Quad(0, 6, 0, 4), Match(1, 0, 2));
    blocks := diff.Blocks();
    Test012Blocks(diff.A, diff.B, diff.b2j, blocks);
  }

  /** The blocks that cover the spans of Test011's match list. */
  lemma Test012Blocks(a: seq<int>, b: seq<int>, b2j: map<int, seq<int>>, blocks: seq<Block<int>>)
    requires a == [1, 2, 3, 4, 5, 6] && b == [2, 3, 5, 7] && IndexComplete(b2j, b)
    requires var spans := SpansFrom(MatchList(a, b, b2j), 0, 0, 0);
             |blocks| == |spans| && forall p :: 0 <= p < |blocks| ==> Covers(a, b, spans[p], blocks[p])
    ensures blocks == [Block(Delete, [1], []), Block(Equal, [2, 3], [2, 3]), Block(Delete, [4], []),
                       Block(Equal, [5], [5]), Block(Replace, [6], [7])]
  {
    Test011Runs(a, b, b2j);
    Test011MatchList(a, b, b2j);
    Test011SpansOf();
    Test012Covers(a, b, SpansFrom([Match(1, 0, 2), Match(4, 2, 1), Match(6, 4, 0)], 0, 0, 0), blocks);
  }

  // Places keyed by name: A's names foo, bar, baz, quux against B's foo,
  // baz, bar, quux.

  /** Over the whole of both sequences no two consecutive names agree, so
      every run has length at most one, and the first in scan order is foo
      against foo. */
  lemma NameKeyWhole()
    ensures IsFirstLongest(["foo", "bar", "baz", "quux"], ["foo", "baz", "bar", "quux"], Quad(0, 4, 0, 4), Match(0, 0, 1))
  {
    var ka, kb, q := ["foo", "bar", "baz", "quux"], ["foo", "baz", "bar", "quux"], Quad(0, 4, 0, 4);
    var best := Match(0, 0, 1);
    assert IsRun(ka, kb, best);
    forall m': Match | IsRun(ka, kb, m') && InQuad(m', q)
      ensures m'.length <= best.length && (m'.length == best.length ==> !StartsBefore(m', best))
    {
      if m'.length >= 2 {
        RunAt(ka, kb, m', 0);
        RunAt(ka, kb, m', 1);
        assert false;
      }
    }
  }

  /** After foo, bar baz quux against baz bar quux: the first agreeing pair in
      scan order is bar against bar. */
  lemma NameKeySecond()
    ensures IsFirstLongest(["foo", "bar", "baz", "quux"], ["foo", "baz", "bar", "quux"], Quad(1, 4, 1, 4), Match(1, 2, 1))
  {
    var ka, kb, q := ["foo", "bar", "baz", "quux"], ["foo", "baz", "bar", "quux"], Quad(1, 4, 1, 4);
    var best := Match(1, 2, 1);
    assert IsRun(ka, kb, best);
    forall m': Match | IsRun(ka, kb, m') && InQuad(m', q)
      ensures m'.length <= best.length && (m'.length == best.length ==> !StartsBefore(m', best))
    {
      if m'.length >= 1 {
        RunAt(ka, kb, m', 0);
        if m'.length >= 2 {
          RunAt(ka, kb, m', 1);
          assert false;
        }
      }
    }
  }

  /** Then baz quux against quux: quux against quux. */
  lemma NameKeyThird()
    ensures IsFirstLongest(["foo", "bar", "baz", "quux"], ["foo", "baz", "bar", "quux"], Quad(2, 4, 3, 4), Match(3, 3, 1))
  {
    var ka, kb, q := ["foo", "bar", "baz", "quux"], ["foo", "baz", "bar", "quux"], Quad(2, 4, 3, 4);
    var best := Match(3, 3, 1);
    assert IsRun(ka, kb, best);
    forall m': Match | IsRun(ka, kb, m') && InQuad(m', q)
      ensures m'.length <= best.length && (m'.length == best.length ==> !StartsBefore(m', best))
    {
      if m'.length >= 1 {
        RunAt(ka, kb, m', 0);
      }
    }
  }

  /** longestMatch returns foo against foo for the whole window. */
  lemma NameKeyWholeRun(ka: seq<string>, kb: seq<string>, b2j: map<string, seq<int>>)
    requires ka == ["foo", "bar", "baz", "quux"] && kb == ["foo", "baz", "bar", "quux"] && IndexComplete(b2j, kb)
    ensures LongestIn(ka, kb, b2j, Quad(0, 4, 0, 4)) == Match(0, 0, 1)
  {
    NameKeyWhole();
    LongestIs(ka, kb, b2j, Quad(0, 4, 0, 4), Match(0, 0, 1));
  }

  /** longestMatch returns bar against bar for the window after foo. */
  lemma NameKeySecondRun(ka: seq<string>, kb: seq<string>, b2j: map<string, seq<int>>)
    requires ka == ["foo", "bar", "baz", "quux"] && kb == ["foo", "baz", "bar", "quux"] && IndexComplete(b2j, kb)
    ensures LongestIn(ka, kb, b2j, Quad(1, 4, 1, 4)) == Match(1, 2, 1)
  {
    NameKeySecond();
    LongestIs(ka, kb, b2j, Quad(1, 4, 1, 4), Match(1, 2, 1));
  }

  /** longestMatch returns quux against quux for the window after bar. */
  lemma NameKeyThirdRun(ka: seq<string>, kb: seq<string>, b2j: map<string, seq<int>>)
    requires ka == ["foo", "bar", "baz", "quux"] && kb == ["foo", "baz", "bar", "quux"] && IndexComplete(b2j, kb)
    ensures LongestIn(ka, kb, b2j, Quad(2, 4, 3, 4)) == Match(3, 3, 1)
  {
    NameKeyThird();
    LongestIs(ka, kb, b2j, Quad(2, 4, 3, 4), Match(3, 3, 1));
  }

  /** After foo, the window behind it records bar, and the window behind bar
      records quux; nothing is left behind quux. */
  lemma NameKeyTail<K>(ka: seq<K>, kb: seq<K>, b2j: map<K, seq<int>>)
    requires |ka| == 4 && |kb| == 4
    requires LongestIn(ka, kb, b2j, Quad(1, 4, 1, 4)) == Match(1, 2, 1)
    requires LongestIn(ka, kb, b2j, Quad(2, 4, 3, 4)) == Match(3, 3, 1)
    ensures Pending(ka, kb, b2j, [Quad(1, 4, 1, 4)]) == [Match(1, 2, 1), Match(3, 3, 1)]
  {
    var w1, w2 := Quad(1, 4, 1, 4), Quad(2, 4, 3, 4);
    PendingOne(ka, kb, b2j, w2, Match(3, 3, 1));
    assert Children(w2, Match(3, 3, 1)) == [];
    assert Pending(ka, kb, b2j, []) == [];
    PendingOne(ka, kb, b2j, w1, Match(1, 2, 1));
    assert Children(w1, Match(1, 2, 1)) == [w2];
  }

  /** The worklist records foo, bar and quux one window after the other. */
  lemma NameKeyFound<K>(ka: seq<K>, kb: seq<K>, b2j: map<K, seq<int>>)
    requires |ka| == 4 && |kb| == 4
    requires LongestIn(ka, kb, b2j, Quad(0, 4, 0, 4)) == Match(0, 0, 1)
    requires LongestIn(ka, kb, b2j, Quad(1, 4, 1, 4)) == Match(1, 2, 1)
    requires LongestIn(ka, kb, b2j, Quad(2, 4, 3, 4)) == Match(3, 3, 1)
    ensures Pending(ka, kb, b2j, [Quad(0, |ka|, 0, |kb|)]) == [Match(0, 0, 1), Match(1, 2, 1), Match(3, 3, 1)]
  {
    var w0 := Quad(0, 4, 0, 4);
    PendingOne(ka, kb, b2j, w0, Match(0, 0, 1));
    assert Children(w0, Match(0, 0, 1)) == [Quad(1, 4, 1, 4)];
    NameKeyTail(ka, kb, b2j);
  }

  /** The runs longestMatch returns for the three windows the worklist visits. */
  lemma NameKeyRuns(ka: seq<string>, kb: seq<string>, b2j: map<string, seq<int>>)
    requires ka == ["foo", "bar", "baz", "quux"] && kb == ["foo", "baz", "bar", "quux"] && IndexComplete(b2j, kb)
    ensures |ka| == 4 && |kb| == 4
    ensures LongestIn(ka, kb, b2j, Quad(0, 4, 0, 4)) == Match(0, 0, 1)
    ensures LongestIn(ka, kb, b2j, Quad(1, 4, 1, 4)) == Match(1, 2, 1)
    ensures LongestIn(ka, kb, b2j, Quad(2, 4, 3, 4)) == Match(3, 3, 1)
  {
    NameKeyWholeRun(ka, kb, b2j);
    NameKeySecondRun(ka, kb, b2j);
    NameKeyThirdRun(ka, kb, b2j);
  }

  /** Sorting leaves those runs as they are; coalescing folds foo into the
      empty start, and the sentinel closes the list. */
  lemma NameKeyMatchList<K>(ka: seq<K>, kb: seq<K>, b2j: map<K, seq<int>>)
    requires |ka| == 4 && |kb| == 4
    requires LongestIn(ka, kb, b2j, Quad(0, 4, 0, 4)) == Match(0, 0, 1)
    requires LongestIn(ka, kb, b2j, Quad(1, 4, 1, 4)) == Match(1, 2, 1)
    requires LongestIn(ka, kb, b2j, Quad(2, 4, 3, 4)) == Match(3, 3, 1)
    ensures MatchList(ka, kb, b2j) == [Match(0, 0, 1), Match(1, 2, 1), Match(3, 3, 1), Match(4, 4, 0)]
  {
    NameKeyFound(ka, kb, b2j);
    MatchListOf(ka, kb, b2j, [Match(0, 0, 1), Match(1, 2, 1), Match(3, 3, 1)]);
    NameKeyNormalized();
  }

  /** foo folds into the empty start at (0, 0) and comes out unchanged; bar
      and quux touch neither it nor each other. */
  lemma NameKeyNormalized()
    ensures Normalized([Match(0, 0, 1), Match(1, 2, 1), Match(3, 3, 1)], 4, 4)
            == [Match(0, 0, 1), Match(1, 2, 1), Match(3, 3, 1), Match(4, 4, 0)]
  {
    NameKeyCoalesceTail();
    FoldedIntoStart([Match(0, 0, 1), Match(1, 2, 1), Match(3, 3, 1)], 4, 4);
  }

  /** A first run starting at (0, 0) folds into the empty start and comes out
      as itself. */
  lemma FoldedIntoStart(s: seq<Match>, la: int, lb: int)
    requires |s| > 0 && s[0].astart == 0 && s[0].bstart == 0
    ensures Normalized(s, la, lb) == Coalesce(s[0], s, 1) + [Match(la, lb, 0)]
  {
    assert Join(Match(0, 0, 0), s[0]) == s[0];
  }

  /** From foo on, no run touches the one before it, so coalescing keeps all three. */
  lemma NameKeyCoalesceTail()
    ensures Coalesce(Match(0, 0, 1), [Match(0, 0, 1), Match(1, 2, 1), Match(3, 3, 1)], 1)
            == [Match(0, 0, 1), Match(1, 2, 1), Match(3, 3, 1)]
  {
    var foo, bar, quux := Match(0, 0, 1), Match(1, 2, 1), Match(3, 3, 1);
    var found := [foo, bar, quux];
    assert Coalesce(quux, found, 3) == [quux];
    assert !Adjacent(bar, quux) && Flush(bar) == [bar];
    assert Coalesce(bar, found, 2) == [bar, quux];
    assert !Adjacent(foo, bar) && Flush(foo) == [foo];
  }

  /** The spans of the name-keyed example: keep foo, insert baz, keep bar,
      delete baz, keep quux. */
  lemma NameKeySpans(ka: seq<string>, kb: seq<string>, b2j: map<string, seq<int>>)
    requires ka == ["foo", "bar", "baz", "quux"] && kb == ["foo", "baz", "bar", "quux"] && IndexComplete(b2j, kb)
    ensures SpansFrom(MatchList(ka, kb, b2j), 0, 0, 0)
            == [Span(Equal, 0, 1, 0, 1), Span(Insert, 1, 1, 1, 2), Span(Equal, 1, 2, 2, 3),
                Span(Delete, 2, 3, 3, 3), Span(Equal, 3, 4, 3, 4)]
  {
    NameKeyRuns(ka, kb, b2j);
    NameKeyMatchList(ka, kb, b2j);
    NameKeySpansOf();
  }

  /** The spans the builder emits for the name-keyed match list. */
  lemma NameKeySpansOf()
    ensures SpansFrom([Match(0, 0, 1), Match(1, 2, 1), Match(3, 3, 1), Match(4, 4, 0)], 0, 0, 0)
            == [Span(Equal, 0, 1, 0, 1), Span(Insert, 1, 1, 1, 2), Span(Equal, 1, 2, 2, 3),
                Span(Delete, 2, 3, 3, 3), Span(Equal, 3, 4, 3, 4)]
  {
    var ms := [Match(0, 0, 1), Match(1, 2, 1), Match(3, 3, 1), Match(4, 4, 0)];
    assert SpansFrom(ms, 4, 4, 4) == [];
    assert SpansFrom(ms, 3, 4, 4) == [];
    assert SpansFrom(ms, 2, 2, 3) == [Span(Delete, 2, 3, 3, 3), Span(Equal, 3, 4, 3, 4)];
    assert SpansFrom(ms, 1, 1, 1) == [Span(Insert, 1, 1, 1, 2), Span(Equal, 1, 2, 2, 3),
                                      Span(Delete, 2, 3, 3, 3), Span(Equal, 3, 4, 3, 4)];
  }

  /** A place: its coordinates and its name. */
  datatype Place = Place(x: int, y: int, name: string)

  /** The key function of the example: a place's name. */
  function Name(p: Place): string {
    p.name
  }

  /** The places of the name-keyed example, A's and B's. */
  const PlacesA := [Place(1, 2, "foo"), Place(3, 4, "bar"), Place(5, 6, "baz"), Place(7, 8, "quux")]
  const PlacesB := [Place(1, 2, "foo"), Place(6, 2, "baz"), Place(3, 4, "bar"), Place(7, 8, "quux")]

  /** The names of A's places and of B's. */
  lemma NameKeys()
    ensures Keys(PlacesA, Name) == ["foo", "bar", "baz", "quux"]
    ensures Keys(PlacesB, Name) == ["foo", "baz", "bar", "quux"]
  {
    var ka, kb := Keys(PlacesA, Name), Keys(PlacesB, Name);
    assert PlacesA[0].name == "foo" && PlacesA[1].name == "bar" && PlacesA[2].name == "baz" && PlacesA[3].name == "quux";
    assert PlacesB[0].name == "foo" && PlacesB[1].name == "baz" && PlacesB[2].name == "bar" && PlacesB[3].name == "quux";
    assert ka[0] == Name(PlacesA[0]) && ka[1] == Name(PlacesA[1]) && ka[2] == Name(PlacesA[2]) && ka[3] == Name(PlacesA[3]);
    assert kb[0] == Name(PlacesB[0]) && kb[1] == Name(PlacesB[1]) && kb[2] == Name(PlacesB[2]) && kb[3] == Name(PlacesB[3]);
  }

  /** Blocks covering the name-keyed example's spans hold, in order: foo kept,
      B's baz inserted, bar kept, A's baz deleted, quux kept. */
  lemma NameKeyCovers(spans: seq<Span>, blocks: seq<Block<Place>>)
    requires spans == [Span(Equal, 0, 1, 0, 1), Span(Insert, 1, 1, 1, 2), Span(Equal, 1, 2, 2, 3),
                       Span(Delete, 2, 3, 3, 3), Span(Equal, 3, 4, 3, 4)]
    requires |blocks| == |spans| && forall p :: 0 <= p < |blocks| ==> Covers(PlacesA, PlacesB, spans[p], blocks[p])
    ensures blocks == [Block(Equal, [PlacesA[0]], [PlacesB[0]]), Block(Insert, [], [PlacesB[1]]),
                       Block(Equal, [PlacesA[1]], [PlacesB[2]]), Block(Delete, [PlacesA[2]], []),
                       Block(Equal, [PlacesA[3]], [PlacesB[3]])]
  {
    assert PlacesA[0..1] == [PlacesA[0]] && PlacesA[1..2] == [PlacesA[1]];
    assert PlacesA[2..3] == [PlacesA[2]] && PlacesA[3..4] == [PlacesA[3]];
    assert PlacesB[0..1] == [PlacesB[0]] && PlacesB[1..2] == [PlacesB[1]];
    assert PlacesB[2..3] == [PlacesB[2]] && PlacesB[3..4] == [PlacesB[3]];
    assert Covers(PlacesA, PlacesB, spans[0], blocks[0]);
    assert Covers(PlacesA, PlacesB, spans[1], blocks[1]);
    assert Covers(PlacesA, PlacesB, spans[2], blocks[2]);
    assert Covers(PlacesA, PlacesB, spans[3], blocks[3]);
    assert Covers(PlacesA, PlacesB, spans[4], blocks[4]);
  }

  /** The name-keyed example: the blocks keep foo, insert B's baz, keep bar
      (the items on the two sides are equal here), delete A's baz, and keep
      quux. */
  method NameKeyBlocks() returns (blocks: seq<Block<Place>>)
    ensures blocks == [Block(Equal, [Place(1, 2, "foo")], [Place(1, 2, "foo")]),
                       Block(Insert, [], [Place(6, 2, "baz")]),
                       Block(Equal, [Place(3, 4, "bar")], [Place(3, 4, "bar")]),
                       Block(Delete, [Place(5, 6, "baz")], []),
                       Block(Equal, [Place(7, 8, "quux")], [Place(7, 8, "quux")])]
    ensures blocks[0].Items() == [Place(1, 2, "foo")] && blocks[1].Items() == [Place(6, 2, "baz")]
    ensures blocks[2].Items() == [Place(3, 4, "bar")] && blocks[3].Items() == [Place(5, 6, "baz")]
    ensures blocks[4].Items() == [Place(7, 8, "quux")]
  {
    var diff := new DiffKeyFn(PlacesA, PlacesB, Name);
    blocks := diff.Blocks();
    NameKeyBlocksOf(diff.A, diff.B, diff.keyfn, diff.b2j, blocks);
  }

  /** The blocks that cover the spans of the name-keyed match list. */
  lemma NameKeyBlocksOf(a: seq<Place>, b: seq<Place>, keyfn: Place -> string, b2j: map<string, seq<int>>,
                        blocks: seq<Block<Place>>)
    requires a == PlacesA && b == PlacesB && keyfn == Name && IndexComplete(b2j, Keys(b, keyfn))
    requires var spans := SpansFrom(MatchList(Keys(a, keyfn), Keys(b, keyfn), b2j), 0, 0, 0);
             |blocks| == |spans| && forall p :: 0 <= p < |blocks| ==> Covers(a, b, spans[p], blocks[p])
    ensures blocks == [Block(Equal, [Place(1, 2, "foo")], [Place(1, 2, "foo")]),
                       Block(Insert, [], [Place(6, 2, "baz")]),
                       Block(Equal, [Place(3, 4, "bar")], [Place(3, 4, "bar")]),
                       Block(Delete, [Place(5, 6, "baz")], []),
                       Block(Equal, [Place(7, 8, "quux")], [Place(7, 8, "quux")])]
  {
    NameKeys();
    NameKeySpans(Keys(a, keyfn), Keys(b, keyfn), b2j);
    NameKeyCovers(SpansFrom(MatchList(Keys(a, keyfn), Keys(b, keyfn), b2j), 0, 0, 0), blocks);
  }
}
