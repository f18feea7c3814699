/** Record types shared by both diff engines: tags, blocks, matches, quads and spans. */
module Primitives {

  /** Go's `Tag` is a `uint8`: every byte is a Tag value, only four of them are named. */
  newtype Tag = x: int | 0 <= x < 256

  /** The zero value of Tag is Equal; the span builder uses it to mean "no gap". */
  const Equal: Tag := 0
  const Insert: Tag := 1
  const Delete: Tag := 2
  const Replace: Tag := 3

  datatype Option<T> = None | Some(value: T)

  /** True of the four named tags. */
  predicate ValidTag(t: Tag) {
    t <= Replace
  }

  /** Tag.String: the one-character symbol of a tag. Any other value is a
      programming defect (the source panics); here it gives None. */
  function TagString(t: Tag): (r: Option<string>)
    ensures r.Some? <==> ValidTag(t)
    ensures r.Some? ==> |r.value| == 1
    ensures t == Equal ==> r == Some("=")
    ensures t == Insert ==> r == Some("+")
    ensures t == Delete ==> r == Some("-")
    ensures t == Replace ==> r == Some("%")
  {
    if t == Equal then Some("=")
    else if t == Insert then Some("+")
    else if t == Delete then Some("-")
    else if t == Replace then Some("%")
    else None
  }

  /** Different named tags render differently, so a symbol identifies its tag. */
  lemma TagStringInjective(t1: Tag, t2: Tag)
    requires ValidTag(t1) && ValidTag(t2)
    requires TagString(t1) == TagString(t2)
    ensures t1 == t2
  {
  }

  /** A tag together with the items of A and of B that its span covers.
      Both Go types Block[T] and BlockKeyFn[T] have exactly this shape. */
  datatype Block<T> = Block(tag: Tag, Aitems: seq<T>, Bitems: seq<T>)
  {
    /** The payload of a block: A's items for a deletion, B's items otherwise. */
    function Items(): seq<T> {
      if tag == Delete then Aitems else Bitems
    }
  }

  /** One aligned run: A[astart..astart+length) against B[bstart..bstart+length). */
  datatype Match = Match(astart: int, bstart: int, length: int)

  /** matchLess: the lexicographic strict order on (astart, bstart, length). */
  predicate MatchLess(a: Match, b: Match) {
    if a.astart != b.astart then a.astart < b.astart
    else if a.bstart != b.bstart then a.bstart < b.bstart
    else a.length < b.length
  }

  /** matchLess is a strict total order. */
  lemma MatchLessStrictTotalOrder(a: Match, b: Match, c: Match)
    ensures !MatchLess(a, a)
    ensures MatchLess(a, b) && MatchLess(b, c) ==> MatchLess(a, c)
    ensures a != b ==> (MatchLess(a, b) <==> !MatchLess(b, a))
  {
  }

  /** A search window [Astart, Aend) x [Bstart, Bend). */
  datatype Quad = Quad(Astart: int, Aend: int, Bstart: int, Bend: int)

  /** A window that lies inside sequences of lengths la and lb. */
  predicate ValidQuad(q: Quad, la: int, lb: int) {
    0 <= q.Astart <= q.Aend <= la && 0 <= q.Bstart <= q.Bend <= lb
  }

  /** A tagged window; Go embeds a Quad in Span, here its four fields are flattened. */
  datatype Span = Span(tag: Tag, Astart: int, Aend: int, Bstart: int, Bend: int)

  /** Concatenation is associative. */
  lemma AppendAssoc<X>(a: seq<X>, b: seq<X>, c: seq<X>)
    ensures (a + b) + c == a + (b + c)
  {
  }
}
