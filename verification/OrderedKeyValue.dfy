/** The comparison objects every heap and result handler is a template over.

    Distances are only ever compared, never computed with, so a distance is an
    `int`: any finite total order (floats other than NaN, `uint16_t`) embeds in
    it.  The neutral value is a field because it need not be the worst value of
    the order (an infinity is worse than the largest finite float). */
module OrderedKeyValue {

  /** One entry of the two parallel arrays: a distance and a label. */
  datatype Pair = Pair(val: int, id: int)

  datatype C = CMin(lowest: int) | CMax(highest: int) {

    /** Strict order on distances: `a` is worse than `b`. */
    predicate Cmp(a: int, b: int) {
      if CMin? then a < b else a > b
    }

    /** The same order with ties broken by the label. */
    predicate Cmp2(a1: int, b1: int, a2: int, b2: int) {
      if CMin? then a1 < b1 || (a1 == b1 && a2 < b2) else a1 > b1 || (a1 == b1 && a2 > b2)
    }

    function Neutral(): int {
      if CMin? then lowest else highest
    }

    predicate Worse(p: Pair, q: Pair) {
      Cmp2(p.val, q.val, p.id, q.id)
    }

    /** What an empty result slot holds. */
    function Pad(): Pair {
      Pair(Neutral(), -1)
    }

    /** `Cmp2` is a strict total order that refines `Cmp`: all the heap code
        relies on. */
    lemma StrictTotalOrder(p: Pair, q: Pair, r: Pair)
      ensures !Worse(p, p)
      ensures p == q || Worse(p, q) || Worse(q, p)
      ensures !(Worse(p, q) && Worse(q, p))
      ensures Worse(p, q) && Worse(q, r) ==> Worse(p, r)
      ensures Cmp(p.val, q.val) ==> Worse(p, q)
      ensures Worse(p, q) ==> !Cmp(q.val, p.val)
    {
    }
  }
}
