/**
  A span is the half-open interval [start, end) of a ledger's ancestry.  Only
  the first `end` ids of its ledger matter: they are its path from genesis.
 */
module Spans {
  import opened Collections
  import opened Histories

  datatype SpanTip = SpanTip(seqNo: nat, id: Id, ledger: Ledger)

  datatype Span = Span(start: nat, end: nat, ledger: Ledger) {

    predicate Valid() {
      start < end <= |ledger| && ledger[0] == GENESIS
    }

    predicate Covers(s: nat) {
      start <= s < end
    }

    /** The ids from genesis to the tip of this span. */
    function Path(): Ledger
      requires Valid()
    {
      ledger[..end]
    }

    function Clamp(v: nat): nat
      requires Valid()
    {
      if v < start then start else if v > end then end else v
    }

    /** The part of this span inside [from, to), if there is any. */
    function Sub(from: nat, to: nat): (r: Option<Span>)
      requires Valid()
      ensures r.Some? <==> exists s: nat :: Covers(s) && from <= s < to
      ensures r.Some? ==> r.value.Valid() && r.value.ledger == ledger
      ensures r.Some? ==> forall s: nat :: r.value.Covers(s) <==> Covers(s) && from <= s < to
    {
      var newFrom := Clamp(from);
      var newTo := Clamp(to);
      if newFrom < newTo then
        assert Covers(newFrom) && from <= newFrom < to;
        Some(Span(newFrom, newTo, ledger))
      else None
    }

    function From(spot: nat): (r: Option<Span>)
      requires Valid()
      ensures start <= spot ==> r == if spot < end then Some(Span(spot, end, ledger)) else None
    {
      Sub(spot, end)
    }

    function Before(spot: nat): (r: Option<Span>)
      requires Valid()
      ensures spot <= end ==> r == if start < spot then Some(Span(start, spot, ledger)) else None
    {
      Sub(start, spot)
    }

    function StartId(): Id
      requires Valid()
    {
      ledger[start]
    }

    function Tip(): SpanTip
      requires Valid()
    {
      SpanTip(end - 1, ledger[end - 1], ledger)
    }

    /**
      The first sequence number at which this span and a ledger may differ.
      What the ledger of the span holds beyond its end plays no part.
     */
    function Diff(o: Ledger): (d: nat)
      requires Valid()
      ensures start <= d <= end
      ensures start < d ==> d <= |o| && o[..d] == Path()[..d]
      ensures d < end && d < |o| && o[..start] == ledger[..start] ==> o[d] != Path()[d]
    {
      Clamp(Mismatch(ledger, o))
    }
  }

  /** A span covering a whole ledger. */
  function Whole(l: Ledger): Span
    requires IsLedger(l)
  {
    Span(0, |l|, l)
  }

  /** Two adjacent spans joined, with the ledger of the one that reaches further. */
  function Merge(a: Span, b: Span): (r: Span)
    requires a.Valid() && b.Valid()
    ensures r.Valid()
    ensures a.end < b.end ==> r.Path() == b.Path()
    ensures r.start == if a.start < b.start then a.start else b.start
    ensures a.end == b.start ==> forall s :: r.Covers(s) <==> a.Covers(s) || b.Covers(s)
  {
    var start := if a.start < b.start then a.start else b.start;
    if a.end < b.end then Span(start, b.end, b.ledger) else Span(start, a.end, a.ledger)
  }
}
