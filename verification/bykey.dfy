/** The key engine: a DiffKeyFn compares A and B by the string key that a key
    function gives each item, and otherwise works as the equality engine
    does, except that it never prunes its index. */
module ByKey {
  import opened Primitives
  import opened ElementIndex
  import opened Runs
  import opened Normalize
  import opened Spans
  import opened Search
  import opened Complete

  /** The key of every item of `s`, in order; the search runs over these. */
  function Keys<T>(s: seq<T>, keyfn: T -> string): seq<string> {
    seq(|s|, i requires 0 <= i < |s| => keyfn(s[i]))
  }

  class DiffKeyFn<T> {
    const A: seq<T>
    const B: seq<T>
    const keyfn: T -> string
    var b2j: map<string, seq<int>>

    /** The index of B's keys lists every position of B under its own key,
        each list in ascending order. */
    ghost predicate Valid()
      reads this
    {
      IndexSound(b2j, Keys(B, keyfn)) && IndexComplete(b2j, Keys(B, keyfn))
    }

    /** NewKeyFn: stores the two sequences and the key function, and builds the
        index of B's keys. */
    constructor (a: seq<T>, b: seq<T>, keyfn: T -> string)
      ensures A == a && B == b && this.keyfn == keyfn
      ensures b2j == Index(Keys(b, keyfn))
      ensures Valid()
    {
      A := a;
      B := b;
      this.keyfn := keyfn;
      b2j := map[];
      new;
      ChainBseq();
      IndexExact(Keys(B, keyfn));
    }

    /** chainBseq: lists every position of B under the key of its item. Unlike
        the equality engine, no key is ever dropped for being popular. */
    method ChainBseq()
      requires b2j == map[]
      modifies this
      ensures b2j == Index(Keys(B, keyfn))
    {
      ghost var kb := Keys(B, keyfn);
      assert IndexUpTo(kb, 0) == map[] by {
        assert kb[..0] == [];
      }
      for i := 0 to |B|
        invariant b2j == IndexUpTo(kb, i)
      {
        var key := keyfn(B[i]);
        var indexes: seq<int>;
        if key in b2j {
          indexes := b2j[key];
        } else {
          indexes := [];
        }
        IndexStep(kb, i);
        b2j := b2j[key := indexes + [i]];
      }
    }

    /** Spans: the spans of the match list MatchList over the keys of A and
        B; they tile A and B from (0, 0) to (|A|, |B|) and each is meaningful
        over the keys (an Equal span pairs ranges with equal keys, an Insert
        span has an empty A range, and so on). With one side empty the result
        is a single Insert or Delete of the other side, or nothing. Since the
        index is never pruned, no other span pairs an item of A with an item
        of B of the same key, and a non-empty sequence against one with the
        same keys is one Equal span. */
    method Spans() returns (spans: seq<Span>)
      requires Valid()
      ensures spans == SpansFrom(MatchList(Keys(A, keyfn), Keys(B, keyfn), b2j), 0, 0, 0)
      ensures Tiles(spans, 0, 0, |A|, |B|) && AllSpansOK(Keys(A, keyfn), Keys(B, keyfn), spans)
      ensures |A| == 0 && |B| == 0 ==> spans == []
      ensures |A| == 0 && |B| > 0 ==> spans == [Span(Insert, 0, 0, 0, |B|)]
      ensures |A| > 0 && |B| == 0 ==> spans == [Span(Delete, 0, |A|, 0, 0)]
      ensures forall s :: s in spans && s.tag != Equal ==> NoCommonPair(Keys(A, keyfn), Keys(B, keyfn), s)
      ensures Keys(A, keyfn) == Keys(B, keyfn) && 0 < |B| ==> spans == [Span(Equal, 0, |A|, 0, |B|)]
    {
      var ka, kb := Keys(A, keyfn), Keys(B, keyfn);
      var ms := Matches(ka, kb, b2j);
      spans := SpansForMatches(ms);
      SpansTile(ka, kb, ms);
      if |A| == 0 || |B| == 0 {
        EmptySides(ka, kb, ms);
      }
      GapsHaveNoCommonPair(ka, kb, b2j);
      if ka == kb && 0 < |B| {
        IdenticalMatches(kb, b2j);
      }
    }

    /** Blocks: one block per span of the match list, as Spans gives them, carrying its tag and the items of
        A and B it covers. Together the blocks give back A and B, their
        payloads leaving out the deletions give back B, and each block is
        shaped as its tag says; the items on the two sides of an Equal block
        have equal keys, item by item, though the items themselves may
        differ. */
    method Blocks() returns (blocks: seq<Block<T>>)
      requires Valid()
      ensures var spans := SpansFrom(MatchList(Keys(A, keyfn), Keys(B, keyfn), b2j), 0, 0, 0);
              |blocks| == |spans| && forall p :: 0 <= p < |blocks| ==> Covers(A, B, spans[p], blocks[p])
      ensures AllAitems(blocks) == A && AllBitems(blocks) == B
      ensures ItemsExceptDeleted(blocks) == B
      ensures forall p :: 0 <= p < |blocks| ==> BlockOK(keyfn, blocks[p])
      ensures |A| == 0 && |B| == 0 ==> blocks == []
      ensures |A| == 0 && |B| > 0 ==> blocks == [Block(Insert, [], B)]
      ensures |A| > 0 && |B| == 0 ==> blocks == [Block(Delete, A, [])]
      ensures Keys(A, keyfn) == Keys(B, keyfn) && 0 < |B| ==> blocks == [Block(Equal, A, B)]
    {
      var ka, kb := Keys(A, keyfn), Keys(B, keyfn);
      var ms := Matches(ka, kb, b2j);
      var spans := SpansForMatches(ms);
      SpansTile(ka, kb, ms);
      assert forall p :: 0 <= p < |spans| ==> SpanOK(ka, kb, spans[p]);
      blocks := BlocksForSpans(A, B, spans);
      BlocksOfMatches(keyfn, ka, kb, A, B, ms, spans, blocks);
      if ka == kb && 0 < |B| {
        IdenticalMatches(kb, b2j);
        OneEqualBlock(A, B, spans, blocks);
      }
    }
  }
}
