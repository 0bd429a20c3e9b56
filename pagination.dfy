/** The listing pager: how many pages a listing has and which page numbers the
    page strip shows around the current page (`None` is a gap marker). */
module Paging {
  import opened SgfBase

  /** The pager shows this many pages on each side of the current one; the
      constructor's `neighbours` argument is ignored in favour of it. */
  const Neighbours: int := 5

  datatype Pagination = Pagination(perPage: int, page: int, count: int)
  {
    /** Number of pages; Python's floor division, here on a non-negative
        numerator and a positive divisor, where it agrees with Dafny's. */
    function Pages(): (n: int)
      requires perPage > 0
      ensures n >= 1
      ensures (n - 1) * perPage <= (if count - 1 > 0 then count - 1 else 0) < n * perPage
    {
      var x := if count - 1 > 0 then count - 1 else 0;
      assert x == (x / perPage) * perPage + x % perPage;
      x / perPage + 1
    }

    /** There is a page before the current one. */
    predicate HasPrevious()
      ensures HasPrevious() <==> Range(1, page) != []
    {
      page > 1
    }

    /** For a page of the listing, there is a next page exactly when entries
        are left after the current page's `perPage`. */
    predicate HasNext()
      requires perPage > 0
      ensures page >= 1 ==> (HasNext() <==> page * perPage < count)
    {
      assert page >= 1 ==> (page < Pages() <==> page * perPage < count) by {
        if page >= 1 {
          var n := Pages();
          if page < n {
            MulMonotone(page, n - 1, perPage);
          } else {
            MulMonotone(n, page, perPage);
          }
        }
      }
      page < Pages()
    }

    /** The numbers yielded before the current page: none without a previous
        page, otherwise starting at page 1 and ending right below the page. */
    function Before(): (r: seq<Option<int>>)
      ensures r == [] <==> !HasPrevious()
      ensures r != [] ==> r[0] == Some(1) && r[|r| - 1] == Some(page - 1)
    {
      if HasPrevious() then
        var lo := if 2 > page - Neighbours then 2 else page - Neighbours;
        RangeAt(lo, page);
        [Some(1)] + (if lo > 2 then [None] else []) + Range(lo, page)
      else []
    }

    /** The numbers yielded after the current page: none without a next page,
        otherwise starting right above the page and ending at the last one. */
    function After(): (r: seq<Option<int>>)
      requires perPage > 0
      ensures r == [] <==> !HasNext()
      ensures r != [] ==> r[0] == Some(page + 1) && r[|r| - 1] == Some(Pages())
    {
      if HasNext() then
        var hi := if Pages() < page + Neighbours + 1 then Pages() else page + Neighbours + 1;
        RangeAt(page + 1, hi);
        Range(page + 1, hi) + (if hi < Pages() then [None] else []) + [Some(Pages())]
      else []
    }

    /** What iterating over the pager yields: the current page, with its
        neighbours on either side, where there are any. */
    function Iter(): (r: seq<Option<int>>)
      requires perPage > 0
      ensures |r| == |Before()| + 1 + |After()| && r[|Before()|] == Some(page)
      ensures HasPrevious() ==> r[|Before()| - 1] == Some(page - 1)
      ensures HasNext() ==> r[|Before()| + 1] == Some(page + 1)
    {
      Before() + [Some(page)] + After()
    }
  }

  lemma MulMonotone(a: int, b: int, k: int)
    requires a <= b && k > 0
    ensures a * k <= b * k
  {
  }

  /** Python's `range(lo, hi)`, each number wrapped in `Some`. */
  function Range(lo: int, hi: int): seq<Option<int>>
    decreases hi - lo
  {
    if lo >= hi then [] else [Some(lo)] + Range(lo + 1, hi)
  }

  lemma {:induction false} RangeAt(lo: int, hi: int)
    decreases hi - lo
    ensures |Range(lo, hi)| == if lo < hi then hi - lo else 0
    ensures forall i :: 0 <= i < |Range(lo, hi)| ==> Range(lo, hi)[i] == Some(lo + i)
  {
    if lo < hi {
      RangeAt(lo + 1, hi);
    }
  }

  /** The page count is at least one, and for a non-empty listing it is the
      number of pages of `perPage` entries needed to hold `count` entries. */
  lemma PagesIsCeiling(p: Pagination)
    requires p.perPage > 0
    ensures p.Pages() >= 1
    ensures p.count <= 1 ==> p.Pages() == 1
    ensures p.count >= 1 ==> (p.Pages() - 1) * p.perPage < p.count <= p.Pages() * p.perPage
  {
    if p.count >= 1 {
      var q := (p.count - 1) / p.perPage;
      var r := (p.count - 1) % p.perPage;
      assert p.count - 1 == q * p.perPage + r;
      assert p.Pages() * p.perPage == q * p.perPage + p.perPage;
    }
  }

  lemma BeforeIsBelow(p: Pagination)
    ensures forall i :: 0 <= i < |p.Before()| && p.Before()[i].Some? ==>
      p.Before()[i].value < p.page && (p.Before()[i].value == 1 || p.Before()[i].value >= p.page - Neighbours)
    ensures forall i :: 0 <= i < |p.Before()| && p.Before()[i].Some? ==> p.Before()[i].value >= 1
    ensures forall i, j :: 0 <= i < j < |p.Before()| && p.Before()[i].Some? && p.Before()[j].Some? ==>
      p.Before()[i].value < p.Before()[j].value
    ensures forall i :: 0 <= i < |p.Before()| && p.Before()[i].None? <==>
      p.HasPrevious() && p.page - Neighbours > 2 && i == 1
  {
    if p.HasPrevious() {
      BeforeAt(p);
    }
  }

  /** With a previous page, `Before` is page 1, a gap marker when `lo` is
      above 2, and the pages from `lo` up to the current one, element by
      element. */
  lemma BeforeAt(p: Pagination)
    requires p.HasPrevious()
    ensures var lo := if 2 > p.page - Neighbours then 2 else p.page - Neighbours;
      var g := if lo > 2 then 1 else 0;
      |p.Before()| == 1 + g + (p.page - lo) &&
      forall i :: 0 <= i < |p.Before()| ==>
        p.Before()[i] == if i == 0 then Some(1) else if i < 1 + g then None else Some(lo + i - 1 - g)
  {
    var lo := if 2 > p.page - Neighbours then 2 else p.page - Neighbours;
    RangeAt(lo, p.page);
    var gap: seq<Option<int>> := if lo > 2 then [None] else [];
    assert p.Before() == [Some(1)] + gap + Range(lo, p.page);
    forall i | 0 <= i < |p.Before()|
      ensures p.Before()[i] == if i == 0 then Some(1)
                               else if i < 1 + |gap| then None
                               else Some(lo + i - 1 - |gap|)
    {
      if i >= 1 + |gap| {
        assert p.Before()[i] == Range(lo, p.page)[i - 1 - |gap|];
      }
    }
  }

  lemma AfterIsAbove(p: Pagination)
    requires p.perPage > 0
    ensures forall i :: 0 <= i < |p.After()| && p.After()[i].Some? ==>
      p.After()[i].value > p.page && (p.After()[i].value == p.Pages() || p.After()[i].value <= p.page + Neighbours)
    ensures forall i :: 0 <= i < |p.After()| && p.After()[i].Some? ==> p.After()[i].value <= p.Pages()
    ensures forall i, j :: 0 <= i < j < |p.After()| && p.After()[i].Some? && p.After()[j].Some? ==>
      p.After()[i].value < p.After()[j].value
    ensures forall i :: 0 <= i < |p.After()| && p.After()[i].None? <==>
      p.HasNext() && p.page + Neighbours + 1 < p.Pages() && i == |p.After()| - 2
  {
    if p.HasNext() {
      AfterAt(p);
    }
  }

  /** With a next page, `After` is the pages from `page + 1` up to `hi`, a
      gap marker when `hi` stops short of the last page, and the last page. */
  lemma AfterAt(p: Pagination)
    requires p.perPage > 0 && p.HasNext()
    ensures var hi := if p.Pages() < p.page + Neighbours + 1 then p.Pages() else p.page + Neighbours + 1;
      var n := hi - p.page - 1;
      var g := if hi < p.Pages() then 1 else 0;
      0 <= n && |p.After()| == n + g + 1 &&
      forall i :: 0 <= i < |p.After()| ==>
        p.After()[i] == if i < n then Some(p.page + 1 + i) else if i < n + g then None else Some(p.Pages())
  {
    var hi := if p.Pages() < p.page + Neighbours + 1 then p.Pages() else p.page + Neighbours + 1;
    RangeAt(p.page + 1, hi);
    var r := Range(p.page + 1, hi);
    var gap: seq<Option<int>> := if hi < p.Pages() then [None] else [];
    assert p.After() == r + gap + [Some(p.Pages())];
    forall i | 0 <= i < |p.After()|
      ensures p.After()[i] == if i < |r| then Some(p.page + 1 + i)
                              else if i < |r| + |gap| then None
                              else Some(p.Pages())
    {
      if i < |r| {
        assert p.After()[i] == r[i];
      }
    }
  }

  /** The current page is yielded exactly once; everything before it is a
      smaller page number and everything after it a larger one. */
  lemma CurrentPageOnce(p: Pagination)
    requires p.perPage > 0
    ensures var s := p.Iter();
      var k := |p.Before()|;
      k < |s| && s[k] == Some(p.page) &&
      (forall i :: 0 <= i < k && s[i].Some? ==> s[i].value < p.page) &&
      (forall i :: k < i < |s| && s[i].Some? ==> s[i].value > p.page) &&
      (forall i :: 0 <= i < |s| && i != k ==> s[i] != Some(p.page))
  {
    BeforeIsBelow(p);
    AfterIsAbove(p);
    var s := p.Iter();
    var k := |p.Before()|;
    forall i | 0 <= i < |s| && i != k ensures s[i] == (if i < k then p.Before()[i] else p.After()[i - k - 1]) {}
  }

  /** The strip starts with page 1 when there is a previous page and ends with
      the last page when there is a next one. */
  lemma FirstAndLast(p: Pagination)
    requires p.perPage > 0
    ensures p.HasPrevious() ==> p.Iter()[0] == Some(1)
    ensures !p.HasPrevious() ==> p.Iter()[0] == Some(p.page)
    ensures p.HasNext() ==> p.Iter()[|p.Iter()| - 1] == Some(p.Pages())
    ensures !p.HasNext() ==> p.Iter()[|p.Iter()| - 1] == Some(p.page)
  {
  }

  /** For a current page within the listing, the page numbers shown are
      strictly increasing and all lie between 1 and the page count. */
  lemma IncreasingWithinBounds(p: Pagination)
    requires p.perPage > 0 && 1 <= p.page <= p.Pages()
    ensures var s := p.Iter();
      (forall i :: 0 <= i < |s| && s[i].Some? ==> 1 <= s[i].value <= p.Pages()) &&
      (forall i, j :: 0 <= i < j < |s| && s[i].Some? && s[j].Some? ==> s[i].value < s[j].value)
  {
    BeforeIsBelow(p);
    AfterIsAbove(p);
    var s := p.Iter();
    var k := |p.Before()|;
    assert forall i :: 0 <= i < k ==> s[i] == p.Before()[i];
    assert forall i :: k < i < |s| ==> s[i] == p.After()[i - k - 1];
  }

  /** Gap markers: one right after page 1 exactly when the first shown
      neighbour is above 2, one right before the last page exactly when the last
      shown neighbour is below it, and none anywhere else. */
  lemma GapMarkers(p: Pagination)
    requires p.perPage > 0
    ensures var s := p.Iter();
      forall i :: 0 <= i < |s| ==>
        (s[i].None? <==>
          (p.HasPrevious() && p.page - Neighbours > 2 && i == 1) ||
          (p.HasNext() && p.page + Neighbours + 1 < p.Pages() && i == |s| - 2))
  {
    BeforeIsBelow(p);
    AfterIsAbove(p);
    var s := p.Iter();
    var k := |p.Before()|;
    assert forall i :: 0 <= i < k ==> s[i] == p.Before()[i];
    assert forall i :: k < i < |s| ==> s[i] == p.After()[i - k - 1];
    assert p.HasNext() ==> |p.After()| >= 1;
    assert p.HasPrevious() ==> k >= 1;
  }

  /** Apart from the first and the last page, only pages at most
      `Neighbours` away from the current one are shown. */
  lemma WindowWidth(p: Pagination)
    requires p.perPage > 0
    ensures var s := p.Iter();
      forall i :: 0 <= i < |s| && s[i].Some? ==>
        s[i].value == 1 || s[i].value == p.Pages() ||
        p.page - Neighbours <= s[i].value <= p.page + Neighbours
  {
    BeforeIsBelow(p);
    AfterIsAbove(p);
    var s := p.Iter();
    var k := |p.Before()|;
    assert forall i :: 0 <= i < k ==> s[i] == p.Before()[i];
    assert forall i :: k < i < |s| ==> s[i] == p.After()[i - k - 1];
  }
}
