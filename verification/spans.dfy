/** The span builder shared by both engines, the block materialiser's slicing,
    and what they promise: the spans tile both sequences, and the blocks
    put A and B back together. */
module Spans {
  import opened Primitives
  import opened Runs
  import opened Normalize

  /** The tag of the gap between cursor (i, j) and the start of run m: Equal
      (the zero tag) when there is no gap at all. */
  function GapTag(i: int, j: int, m: Match): (t: Tag)
    ensures ValidTag(t)
    ensures t == Equal <==> i >= m.astart && j >= m.bstart
    ensures t == Replace <==> i < m.astart && j < m.bstart
    ensures t == Delete <==> i < m.astart && j >= m.bstart
    ensures t == Insert <==> i >= m.astart && j < m.bstart
  {
    if i < m.astart then
      if j < m.bstart then Replace else Delete
    else if j < m.bstart then Insert
    else Equal
  }

  /** The spans emitted for one run m with the cursors at (i, j): the gap
      before it (unless empty), then the run itself as an Equal span (unless
      it has no length). */
  function StepSpans(i: int, j: int, m: Match): seq<Span> {
    var tag := GapTag(i, j, m);
    (if tag != Equal then [Span(tag, i, m.astart, j, m.bstart)] else []) +
    (if m.length != 0 then [Span(Equal, m.astart, m.astart + m.length, m.bstart, m.bstart + m.length)] else [])
  }

  /** The spans the builder emits for the runs ms[p..] once its cursors stand
      at (i, j); after each run the cursors move to its end. */
  function SpansFrom(ms: seq<Match>, p: nat, i: int, j: int): seq<Span>
    requires p <= |ms|
    decreases |ms| - p
  {
    if p == |ms| then []
    else StepSpans(i, j, ms[p]) + SpansFrom(ms, p + 1, ms[p].astart + ms[p].length, ms[p].bstart + ms[p].length)
  }

  /** spansForMatches: walks the runs with two cursors, appending a gap span and
      an Equal span per run. */
  method SpansForMatches(ms: seq<Match>) returns (spans: seq<Span>)
    ensures spans == SpansFrom(ms, 0, 0, 0)
  {
    spans := [];
    var i, j := 0, 0;
    for p := 0 to |ms|
      invariant spans + SpansFrom(ms, p, i, j) == SpansFrom(ms, 0, 0, 0)
    {
      var m := ms[p];
      ghost var before, i0, j0 := spans, i, j;
      var tag: Tag := Equal;
      if i < m.astart {
        if j < m.bstart {
          tag := Replace;
        } else {
          tag := Delete;
        }
      } else if j < m.bstart {
        tag := Insert;
      }
      if tag != Equal {
        spans := spans + [Span(tag, i, m.astart, j, m.bstart)];
      }
      i, j := m.astart + m.length, m.bstart + m.length;
      if m.length != 0 {
        spans := spans + [Span(Equal, m.astart, i, m.bstart, j)];
      }
      ghost var step, rest := StepSpans(i0, j0, m), SpansFrom(ms, p + 1, i, j);
      assert spans == before + step by {
        assert tag == GapTag(i0, j0, m);
      }
      assert SpansFrom(ms, p, i0, j0) == step + rest;
      AppendAssoc(before, step, rest);
    }
  }

  /** The spans cover A from i to la and B from j to lb without gap or overlap:
      each starts where the previous one ended. */
  ghost predicate Tiles(spans: seq<Span>, i: int, j: int, la: int, lb: int)
    decreases |spans|
  {
    if spans == [] then i == la && j == lb
    else spans[0].Astart == i && spans[0].Bstart == j && Tiles(spans[1..], spans[0].Aend, spans[0].Bend, la, lb)
  }

  /** A span inside sequences of lengths la and lb. */
  predicate SpanInBounds(s: Span, la: int, lb: int) {
    Sliceable(s) && s.Aend <= la && s.Bend <= lb
  }

  /** The ranges of a span are ordered and start at or after 0. */
  predicate Sliceable(s: Span) {
    0 <= s.Astart <= s.Aend && 0 <= s.Bstart <= s.Bend
  }

  /** What each kind of span means: an Equal span pairs equal non-empty ranges
      that agree element by element (key by key), an Insert span has an empty
      A range, a Delete span an empty B range, a Replace span two non-empty ranges. */
  ghost predicate SpanOK<K>(ka: seq<K>, kb: seq<K>, s: Span) {
    && SpanInBounds(s, |ka|, |kb|)
    && ValidTag(s.tag)
    && (s.tag == Equal ==>
          && s.Aend - s.Astart == s.Bend - s.Bstart > 0
          && forall a :: s.Astart <= a < s.Aend ==> ka[a] == kb[s.Bstart + (a - s.Astart)])
    && (s.tag == Insert ==> s.Astart == s.Aend && s.Bstart < s.Bend)
    && (s.tag == Delete ==> s.Astart < s.Aend && s.Bstart == s.Bend)
    && (s.tag == Replace ==> s.Astart < s.Aend && s.Bstart < s.Bend)
  }

  /** Every span is meaningful in the sense of SpanOK. */
  ghost predicate AllSpansOK<K>(ka: seq<K>, kb: seq<K>, spans: seq<Span>) {
    forall p :: 0 <= p < |spans| ==> SpanOK(ka, kb, spans[p])
  }

  /** The spans of a well-formed match list tile A and B from (0, 0) to
      (|A|, |B|), and every span is meaningful. */
  lemma SpansTile<K>(ka: seq<K>, kb: seq<K>, ms: seq<Match>)
    requires WellFormedMatches(ka, kb, ms)
    ensures Tiles(SpansFrom(ms, 0, 0, 0), 0, 0, |ka|, |kb|)
    ensures AllSpansOK(ka, kb, SpansFrom(ms, 0, 0, 0))
  {
    assert IsRun(ka, kb, ms[0]);
    IncreasingChain(ms, 0, |ka|, |kb|);
    SpansFromTile(ms, 0, 0, 0, |ka|, |kb|);
    SpansFromOK(ka, kb, ms, 0, 0, 0);
  }

  /** From run p on, no run has negative length, each ends before the next one
      starts, and the last is the sentinel (la, lb, 0). */
  ghost predicate ChainFrom(ms: seq<Match>, p: nat, la: int, lb: int)
    requires p < |ms|
    decreases |ms| - p
  {
    if p == |ms| - 1 then ms[p] == Match(la, lb, 0)
    else ms[p].length >= 0 && QuadBefore(Rect(ms[p]), Rect(ms[p + 1])) && ChainFrom(ms, p + 1, la, lb)
  }

  /** An increasing list of runs of non-negative length that ends with the
      sentinel is chained from every position. */
  lemma {:induction false} IncreasingChain(ms: seq<Match>, p: nat, la: int, lb: int)
    requires p < |ms| && ms[|ms| - 1] == Match(la, lb, 0) && Increasing(ms)
    requires forall r :: 0 <= r < |ms| ==> ms[r].length >= 0
    ensures ChainFrom(ms, p, la, lb)
    decreases |ms| - p
  {
    if p < |ms| - 1 {
      IncreasingChain(ms, p + 1, la, lb);
      assert QuadBefore(Rect(ms[p]), Rect(ms[p + 1]));
    }
  }

  /** The tiling half of SpansTile, from any run p and any cursor that does not
      overtake it: only the order of the runs and the final sentinel matter. */
  lemma {:induction false} SpansFromTile(ms: seq<Match>, p: nat, i: int, j: int, la: int, lb: int)
    requires p < |ms| && ChainFrom(ms, p, la, lb)
    requires i <= ms[p].astart && j <= ms[p].bstart
    ensures Tiles(SpansFrom(ms, p, i, j), i, j, la, lb)
    decreases |ms| - p
  {
    var m := ms[p];
    var i', j' := m.astart + m.length, m.bstart + m.length;
    if p + 1 < |ms| {
      SpansFromTile(ms, p + 1, i', j', la, lb);
    } else {
      assert m == Match(la, lb, 0) && SpansFrom(ms, p + 1, i', j') == [];
    }
    SpansFromStep(ms, p, i, j, la, lb);
  }

  /** One run's spans put in front of a tiling from the run's end. */
  lemma SpansFromStep(ms: seq<Match>, p: nat, i: int, j: int, la: int, lb: int)
    requires p < |ms| && i <= ms[p].astart && j <= ms[p].bstart && ms[p].length >= 0
    requires Tiles(SpansFrom(ms, p + 1, ms[p].astart + ms[p].length, ms[p].bstart + ms[p].length),
                   ms[p].astart + ms[p].length, ms[p].bstart + ms[p].length, la, lb)
    ensures Tiles(SpansFrom(ms, p, i, j), i, j, la, lb)
  {
    var m := ms[p];
    TilesStep(i, j, m, SpansFrom(ms, p + 1, m.astart + m.length, m.bstart + m.length), la, lb);
  }

  /** The meaning half of SpansTile: every span emitted from run p on, with a
      cursor that does not overtake it, is meaningful. */
  lemma {:induction false} SpansFromOK<K>(ka: seq<K>, kb: seq<K>, ms: seq<Match>, p: nat, i: int, j: int)
    requires WellFormedMatches(ka, kb, ms) && p < |ms|
    requires 0 <= i <= ms[p].astart && 0 <= j <= ms[p].bstart
    ensures AllSpansOK(ka, kb, SpansFrom(ms, p, i, j))
    decreases |ms| - p
  {
    var m := ms[p];
    var i', j' := m.astart + m.length, m.bstart + m.length;
    assert IsRun(ka, kb, m);
    StepSpansOK(ka, kb, i, j, m);
    if p + 1 < |ms| {
      assert QuadBefore(Rect(ms[p]), Rect(ms[p + 1]));
      SpansFromOK(ka, kb, ms, p + 1, i', j');
      AllSpansOKAppend(ka, kb, StepSpans(i, j, m), SpansFrom(ms, p + 1, i', j'));
    }
  }

  /** Meaningful spans stay meaningful when two lists are joined. */
  lemma AllSpansOKAppend<K>(ka: seq<K>, kb: seq<K>, s: seq<Span>, t: seq<Span>)
    requires AllSpansOK(ka, kb, s) && AllSpansOK(ka, kb, t)
    ensures AllSpansOK(ka, kb, s + t)
  {
    assert forall p :: |s| <= p < |s + t| ==> (s + t)[p] == t[p - |s|];
  }

  /** The spans for one run are meaningful, given the cursor does not overtake it. */
  lemma StepSpansOK<K>(ka: seq<K>, kb: seq<K>, i: int, j: int, m: Match)
    requires IsRun(ka, kb, m) && 0 <= i <= m.astart && 0 <= j <= m.bstart
    ensures AllSpansOK(ka, kb, StepSpans(i, j, m))
  {
  }

  /** The spans for one run lead the cursor from (i, j) to the run's end, so
      they extend a tiling from there back to (i, j). */
  lemma TilesStep(i: int, j: int, m: Match, rest: seq<Span>, la: int, lb: int)
    requires i <= m.astart && j <= m.bstart && m.length >= 0
    requires Tiles(rest, m.astart + m.length, m.bstart + m.length, la, lb)
    ensures Tiles(StepSpans(i, j, m) + rest, i, j, la, lb)
  {
    var i', j' := m.astart + m.length, m.bstart + m.length;
    var run := if m.length != 0 then [Span(Equal, m.astart, i', m.bstart, j')] else [];
    if m.length != 0 {
      TilesCons(run[0], rest, la, lb);
    }
    if m.length == 0 {
      assert run + rest == rest;
    }
    var tag := GapTag(i, j, m);
    if tag != Equal {
      TilesCons(Span(tag, i, m.astart, j, m.bstart), run + rest, la, lb);
      assert StepSpans(i, j, m) + rest == [Span(tag, i, m.astart, j, m.bstart)] + (run + rest);
    } else {
      assert StepSpans(i, j, m) + rest == run + rest;
    }
  }

  /** Putting a span in front of a tiling that starts where the span ends. */
  lemma TilesCons(s: Span, rest: seq<Span>, la: int, lb: int)
    requires Tiles(rest, s.Aend, s.Bend, la, lb)
    ensures Tiles([s] + rest, s.Astart, s.Bstart, la, lb)
  {
    assert ([s] + rest)[1..] == rest;
  }

  /** With A empty only the sentinel is left, so the spans are one Insert of all
      of B (none when B is empty too); likewise an empty B gives one Delete of
      all of A. */
  lemma EmptySides<K>(ka: seq<K>, kb: seq<K>, ms: seq<Match>)
    requires WellFormedMatches(ka, kb, ms)
    requires |ka| == 0 || |kb| == 0
    ensures |ka| == 0 && |kb| == 0 ==> SpansFrom(ms, 0, 0, 0) == []
    ensures |ka| == 0 && |kb| > 0 ==> SpansFrom(ms, 0, 0, 0) == [Span(Insert, 0, 0, 0, |kb|)]
    ensures |ka| > 0 && |kb| == 0 ==> SpansFrom(ms, 0, 0, 0) == [Span(Delete, 0, |ka|, 0, 0)]
  {
    OnlySentinel(ka, kb, ms);
    assert SpansFrom(ms, 0, 0, 0) == StepSpans(0, 0, Match(|ka|, |kb|, 0)) + SpansFrom(ms, 1, |ka|, |kb|);
  }

  /** In a well-formed match list with more than one entry, the first entry is
      a non-empty run. */
  lemma FirstRunNonEmpty<K>(ka: seq<K>, kb: seq<K>, ms: seq<Match>)
    requires WellFormedMatches(ka, kb, ms) && |ms| > 1
    ensures IsRun(ka, kb, ms[0]) && ms[0].length > 0
  {
    assert ms[..|ms| - 1][0] == ms[0];
  }

  /** No non-empty run fits when one side is empty. */
  lemma OnlySentinel<K>(ka: seq<K>, kb: seq<K>, ms: seq<Match>)
    requires WellFormedMatches(ka, kb, ms)
    requires |ka| == 0 || |kb| == 0
    ensures ms == [Match(|ka|, |kb|, 0)]
  {
    if |ms| > 1 {
      FirstRunNonEmpty(ka, kb, ms);
      assert false;
    }
    assert ms == [ms[|ms| - 1]];
  }

  /** The block for one span: its tag and the slices of A and B it covers; a
      range that ends past its sequence gives no items. */
  function BlockOf<T>(s: Span, a: seq<T>, b: seq<T>): (blk: Block<T>)
    requires Sliceable(s)
    ensures blk.tag == s.tag
    ensures s.Aend <= |a| ==> |blk.Aitems| == s.Aend - s.Astart
    ensures s.Aend <= |a| ==> forall t :: 0 <= t < |blk.Aitems| ==> blk.Aitems[t] == a[s.Astart + t]
    ensures s.Aend > |a| ==> blk.Aitems == []
    ensures s.Bend <= |b| ==> |blk.Bitems| == s.Bend - s.Bstart
    ensures s.Bend <= |b| ==> forall t :: 0 <= t < |blk.Bitems| ==> blk.Bitems[t] == b[s.Bstart + t]
    ensures s.Bend > |b| ==> blk.Bitems == []
  {
    Block(s.tag, if s.Aend <= |a| then a[s.Astart..s.Aend] else [], if s.Bend <= |b| then b[s.Bstart..s.Bend] else [])
  }

  /** The loop of Blocks: one block per span, with the items of A and B the
      span covers (none for a range past the end of its sequence). */
  method BlocksForSpans<T>(a: seq<T>, b: seq<T>, spans: seq<Span>) returns (blocks: seq<Block<T>>)
    requires forall p :: 0 <= p < |spans| ==> Sliceable(spans[p])
    ensures |blocks| == |spans|
    ensures forall p :: 0 <= p < |spans| ==> blocks[p] == BlockOf(spans[p], a, b)
  {
    blocks := [];
    for p := 0 to |spans|
      invariant |blocks| == p
      invariant forall r :: 0 <= r < p ==> blocks[r] == BlockOf(spans[r], a, b)
    {
      var span := spans[p];
      var aitems: seq<T> := [];
      var bitems: seq<T> := [];
      if span.Aend <= |a| {
        aitems := a[span.Astart..span.Aend];
      }
      if span.Bend <= |b| {
        bitems := b[span.Bstart..span.Bend];
      }
      blocks := blocks + [Block(span.tag, aitems, bitems)];
    }
  }

  /** What the block of a meaningful span holds: an Insert block only B items,
      a Delete block only A items, a Replace block both, and an Equal block
      equally many of each, agreeing item by item under `key`. */
  ghost predicate BlockOK<T, K>(key: T -> K, blk: Block<T>) {
    && ValidTag(blk.tag)
    && (blk.tag == Insert ==> blk.Aitems == [] && blk.Bitems != [])
    && (blk.tag == Delete ==> blk.Aitems != [] && blk.Bitems == [])
    && (blk.tag == Replace ==> blk.Aitems != [] && blk.Bitems != [])
    && (blk.tag == Equal ==>
          && |blk.Aitems| == |blk.Bitems| > 0
          && forall t :: 0 <= t < |blk.Aitems| ==> key(blk.Aitems[t]) == key(blk.Bitems[t]))
  }

  /** Blocks built from spans that are meaningful over the keys of A and B are
      shaped as their tags say. */
  lemma BlocksOK<K, T>(key: T -> K, ka: seq<K>, kb: seq<K>, a: seq<T>, b: seq<T>, spans: seq<Span>, blocks: seq<Block<T>>)
    requires |ka| == |a| && |kb| == |b|
    requires forall x :: 0 <= x < |a| ==> ka[x] == key(a[x])
    requires forall y :: 0 <= y < |b| ==> kb[y] == key(b[y])
    requires AllSpansOK(ka, kb, spans)
    requires |blocks| == |spans|
    requires forall p :: 0 <= p < |spans| ==> blocks[p] == BlockOf(spans[p], a, b)
    ensures forall p :: 0 <= p < |blocks| ==> BlockOK(key, blocks[p])
  {
    forall p | 0 <= p < |blocks|
      ensures BlockOK(key, blocks[p])
    {
      var s, blk := spans[p], blocks[p];
      assert SpanOK(ka, kb, s);
      if s.tag == Equal {
        forall t | 0 <= t < |blk.Aitems|
          ensures key(blk.Aitems[t]) == key(blk.Bitems[t])
        {
          assert ka[s.Astart + t] == kb[s.Bstart + ((s.Astart + t) - s.Astart)];
        }
      }
    }
  }

  /** All A items of the blocks, in order. */
  function AllAitems<T>(blocks: seq<Block<T>>): seq<T> {
    if blocks == [] then [] else blocks[0].Aitems + AllAitems(blocks[1..])
  }

  /** All B items of the blocks, in order. */
  function AllBitems<T>(blocks: seq<Block<T>>): seq<T> {
    if blocks == [] then [] else blocks[0].Bitems + AllBitems(blocks[1..])
  }

  /** The payloads (Items) of all blocks that are not deletions, in order. */
  function ItemsExceptDeleted<T>(blocks: seq<Block<T>>): seq<T> {
    if blocks == [] then []
    else (if blocks[0].tag == Delete then [] else blocks[0].Items()) + ItemsExceptDeleted(blocks[1..])
  }

  /** `blk` carries the tag of span `s` and holds exactly the items of A and
      B inside it. */
  ghost predicate Covers<T>(a: seq<T>, b: seq<T>, s: Span, blk: Block<T>) {
    && SpanInBounds(s, |a|, |b|) && blk.tag == s.tag
    && blk.Aitems == a[s.Astart..s.Aend] && blk.Bitems == b[s.Bstart..s.Bend]
  }

  /** A block built from a span inside A and B covers it exactly. */
  lemma BlockOfCovers<T>(a: seq<T>, b: seq<T>, s: Span)
    requires SpanInBounds(s, |a|, |b|)
    ensures Covers(a, b, s, BlockOf(s, a, b))
  {
  }

  /** Blocks that cover tiling spans give back the tiled parts of A and B. */
  lemma {:induction false} BlocksRebuild<T>(a: seq<T>, b: seq<T>, spans: seq<Span>, blocks: seq<Block<T>>, i: int, j: int)
    requires Tiles(spans, i, j, |a|, |b|) && 0 <= i && 0 <= j
    requires |blocks| == |spans|
    requires forall p :: 0 <= p < |spans| ==> Covers(a, b, spans[p], blocks[p])
    ensures i <= |a| && j <= |b|
    ensures AllAitems(blocks) == a[i..] && AllBitems(blocks) == b[j..]
    decreases |spans|
  {
    if spans != [] {
      var s := spans[0];
      assert Covers(a, b, s, blocks[0]);
      assert forall p :: 0 <= p < |spans| - 1 ==> spans[1..][p] == spans[p + 1] && blocks[1..][p] == blocks[p + 1];
      BlocksRebuild(a, b, spans[1..], blocks[1..], s.Aend, s.Bend);
      assert a[i..] == a[s.Astart..s.Aend] + a[s.Aend..];
      assert b[j..] == b[s.Bstart..s.Bend] + b[s.Bend..];
    }
  }

  /** Only Delete blocks carry A items without B items: every other block has its
      B items as payload, and a Delete block has none, so the payloads of the
      non-deletions spell out B. */
  lemma {:induction false} ItemsSpellB<T>(blocks: seq<Block<T>>)
    requires forall p :: 0 <= p < |blocks| && blocks[p].tag == Delete ==> blocks[p].Bitems == []
    ensures ItemsExceptDeleted(blocks) == AllBitems(blocks)
    decreases |blocks|
  {
    if blocks != [] {
      assert blocks[0].tag == Delete ==> blocks[0].Bitems == [];
      ItemsSpellB(blocks[1..]);
    }
  }

  /** What Blocks promises, for blocks built from the spans of a well-formed
      match list over the keys of A and B: together they give back A and B,
      the payloads of the non-deletions give back B, each block is shaped as
      its tag says, and with one side empty there is one Insert or Delete
      block of the other side, or none at all. */
  lemma BlocksOfMatches<T, K>(key: T -> K, ka: seq<K>, kb: seq<K>, a: seq<T>, b: seq<T>,
                              ms: seq<Match>, spans: seq<Span>, blocks: seq<Block<T>>)
    requires |ka| == |a| && |kb| == |b|
    requires forall x :: 0 <= x < |a| ==> ka[x] == key(a[x])
    requires forall y :: 0 <= y < |b| ==> kb[y] == key(b[y])
    requires WellFormedMatches(ka, kb, ms) && spans == SpansFrom(ms, 0, 0, 0)
    requires |blocks| == |spans|
    requires forall p :: 0 <= p < |spans| ==> Sliceable(spans[p]) && blocks[p] == BlockOf(spans[p], a, b)
    ensures forall p :: 0 <= p < |blocks| ==> Covers(a, b, spans[p], blocks[p])
    ensures AllAitems(blocks) == a && AllBitems(blocks) == b
    ensures ItemsExceptDeleted(blocks) == b
    ensures forall p :: 0 <= p < |blocks| ==> BlockOK(key, blocks[p])
    ensures |a| == 0 && |b| == 0 ==> blocks == []
    ensures |a| == 0 && |b| > 0 ==> blocks == [Block(Insert, [], b)]
    ensures |a| > 0 && |b| == 0 ==> blocks == [Block(Delete, a, [])]
  {
    SpansTile(ka, kb, ms);
    forall p | 0 <= p < |spans|
      ensures Covers(a, b, spans[p], blocks[p])
    {
      assert SpanOK(ka, kb, spans[p]);
      BlockOfCovers(a, b, spans[p]);
    }
    BlocksRebuild(a, b, spans, blocks, 0, 0);
    BlocksOK(key, ka, kb, a, b, spans, blocks);
    ItemsSpellB(blocks);
    if |a| == 0 || |b| == 0 {
      EmptySides(ka, kb, ms);
      assert a[0..|a|] == a && b[0..|b|] == b;
    }
  }
}
