/** The equality engine: a Diff holds the two sequences and the element index
    of B, finds common runs window by window and turns them into spans and
    blocks. */
module Diff2 {
  import opened Primitives
  import opened Runs
  import opened ElementIndex
  import opened Normalize
  import opened Spans
  import opened Search
  import opened Complete

  class Diff<T(==)> {
    const A: seq<T>
    const B: seq<T>
    var b2j: map<T, seq<int>>

    /** What the search relies on: every list in the index ascends and names
        positions of its own element, an element still listed has all of its
        positions listed, and while B is shorter than 200 no position is
        missing. */
    ghost predicate Valid()
      reads this
    {
      IndexSound(b2j, B) && ListsComplete(b2j, B) && (|B| < 200 ==> IndexComplete(b2j, B))
    }

    /** New: stores the two sequences and builds the index of B. */
    constructor (a: seq<T>, b: seq<T>)
      ensures A == a && B == b
      ensures b2j == Pruned(Index(B), |B|)
      ensures Valid()
    {
      A := a;
      B := b;
      b2j := map[];
      new;
      ChainBseq();
      PrunedSound(B);
    }

    /** chainBseq: lists every position of B under its element, then, for B of
        200 elements or more, deletes every element listed more than
        1 + |B| / 100 times. */
    method ChainBseq()
      requires b2j == map[]
      modifies this
      ensures b2j == Pruned(Index(B), |B|)
    {
      assert IndexUpTo(B, 0) == map[] by {
        assert B[..0] == [];
      }
      for i := 0 to |B|
        invariant b2j == IndexUpTo(B, i)
      {
        var x := B[i];
        var indexes: seq<int>;
        if x in b2j {
          indexes := b2j[x];
        } else {
          indexes := [];
        }
        IndexStep(B, i);
        b2j := b2j[x := indexes + [i]];
      }
      var length := |B|;
      if length >= 200 {
        DropPopular(length);
      }
    }

    /** The pruning half of chainBseq: collects every element listed more than
        1 + length / 100 times, then deletes them all. */
    method DropPopular(length: nat)
      requires length >= 200
      modifies this
      ensures b2j == Pruned(old(b2j), length)
    {
      ghost var index := b2j;
      var popular: set<T> := {};
      var limit := 1 + length / 100;
      var unseen := b2j.Keys;
      while unseen != {}
        invariant unseen <= index.Keys && b2j == index
        invariant forall x :: x in popular <==> x in index && x !in unseen && |index[x]| > limit
        decreases |unseen|
      {
        var x :| x in unseen;
        if |b2j[x]| > limit {
          popular := popular + {x};
        }
        unseen := unseen - {x};
      }
      var doomed := popular;
      while doomed != {}
        invariant doomed <= popular
        invariant b2j.Keys == index.Keys - (popular - doomed)
        invariant forall x :: x in b2j ==> b2j[x] == index[x]
        decreases |doomed|
      {
        var x :| x in doomed;
        b2j := b2j - {x};
        doomed := doomed - {x};
      }
      MapExtensionality(b2j, Pruned(index, length));
    }

    /** Spans: the spans of the match list MatchList(A, B) under the current
        index; they tile A and B from (0, 0) to (|A|, |B|) and each is
        meaningful (an Equal span pairs equal ranges, an Insert span has an
        empty A range, and so on). With one side empty the result is a single
        Insert or Delete of the other side, or nothing. While B is shorter
        than 200, so that nothing is pruned, no other span pairs an element of
        A with an equal element of B, and a non-empty sequence diffed against
        itself is one Equal span. */
    method Spans() returns (spans: seq<Span>)
      requires Valid()
      ensures spans == SpansFrom(MatchList(A, B, b2j), 0, 0, 0)
      ensures Tiles(spans, 0, 0, |A|, |B|) && AllSpansOK(A, B, spans)
      ensures |A| == 0 && |B| == 0 ==> spans == []
      ensures |A| == 0 && |B| > 0 ==> spans == [Span(Insert, 0, 0, 0, |B|)]
      ensures |A| > 0 && |B| == 0 ==> spans == [Span(Delete, 0, |A|, 0, 0)]
      ensures |B| < 200 ==> forall s :: s in spans && s.tag != Equal ==> NoCommonPair(A, B, s)
      ensures A == B && 0 < |B| < 200 ==> spans == [Span(Equal, 0, |A|, 0, |B|)]
    {
      var ms := Matches(A, B, b2j);
      spans := SpansForMatches(ms);
      SpansTile(A, B, ms);
      if |A| == 0 || |B| == 0 {
        EmptySides(A, B, ms);
      }
      if |B| < 200 {
        GapsHaveNoCommonPair(A, B, b2j);
        if A == B && 0 < |B| {
          IdenticalMatches(B, b2j);
        }
      }
    }

    /** Blocks: one block per span of the match list, as Spans gives them, carrying its tag and the items of
        A and B it covers. Together the blocks give back A and B, their
        payloads leaving out the deletions give back B, and each block is
        shaped as its tag says; an Equal block holds the same items on both
        sides. A non-empty sequence diffed against itself, while shorter than
        200, is one Equal block. */
    method Blocks() returns (blocks: seq<Block<T>>)
      requires Valid()
      ensures var spans := SpansFrom(MatchList(A, B, b2j), 0, 0, 0);
              |blocks| == |spans| && forall p :: 0 <= p < |blocks| ==> Covers(A, B, spans[p], blocks[p])
      ensures AllAitems(blocks) == A && AllBitems(blocks) == B
      ensures ItemsExceptDeleted(blocks) == B
      ensures forall p :: 0 <= p < |blocks| ==> BlockOK(x => x, blocks[p])
      ensures forall p :: 0 <= p < |blocks| && blocks[p].tag == Equal ==> blocks[p].Aitems == blocks[p].Bitems
      ensures |A| == 0 && |B| == 0 ==> blocks == []
      ensures |A| == 0 && |B| > 0 ==> blocks == [Block(Insert, [], B)]
      ensures |A| > 0 && |B| == 0 ==> blocks == [Block(Delete, A, [])]
      ensures A == B && 0 < |B| < 200 ==> blocks == [Block(Equal, A, B)]
    {
      var ms := Matches(A, B, b2j);
      var spans := SpansForMatches(ms);
      SpansTile(A, B, ms);
      assert forall p :: 0 <= p < |spans| ==> SpanOK(A, B, spans[p]);
      blocks := BlocksForSpans(A, B, spans);
      BlocksOfMatches(x => x, A, B, A, B, ms, spans, blocks);
      forall p | 0 <= p < |blocks| && blocks[p].tag == Equal
        ensures blocks[p].Aitems == blocks[p].Bitems
      {
        assert BlockOK(x => x, blocks[p]);
      }
      if A == B && 0 < |B| < 200 {
        IdenticalMatches(B, b2j);
        OneEqualBlock(A, B, spans, blocks);
      }
    }
  }
}
