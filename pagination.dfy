/**
 * Page slicing and the page-button window shared by the feed
 * (`renderFeedArticles`/`renderFeedPagination`, script.js:1154-1304, ten per
 * page) and the country modal (`renderModalArticles`/`renderModalPagination`,
 * script.js:776-881, five per page).
 */
module Pagination {

  const FeedPageSize: nat := 10
  const ModalPageSize: nat := 5

  /** How `Array.prototype.slice` reads an index: negative counts from the end, then clamped to the array. */
  function RelativeIndex(i: int, len: nat): (r: nat)
    ensures r <= len
    ensures 0 <= i <= len ==> r == i
  {
    if i < 0 then (if len + i < 0 then 0 else len + i)
    else if i > len then len
    else i
  }

  /** `Array.prototype.slice(start, end)`: never fails, possibly empty. */
  function Slice<T>(s: seq<T>, start: int, end: int): seq<T>
  {
    var from, to := RelativeIndex(start, |s|), RelativeIndex(end, |s|);
    if from < to then s[from..to] else []
  }

  /** The articles shown on page `page`: `articles.slice((page - 1) * perPage, (page - 1) * perPage + perPage)`. */
  function PageSlice<T>(s: seq<T>, page: int, perPage: nat): seq<T>
  {
    Slice(s, (page - 1) * perPage, (page - 1) * perPage + perPage)
  }

  /** `Math.ceil(len / perPage)`. */
  function TotalPages(len: nat, perPage: nat): nat
    requires perPage > 0
  {
    (len + perPage - 1) / perPage
  }

  lemma MulMonotone(a: int, b: int, n: nat)
    requires a <= b
    ensures a * n <= b * n
  {
    assert b * n - a * n == (b - a) * n;
  }

  /** `TotalPages` is the least page count that covers the list. */
  lemma TotalPagesBounds(len: nat, perPage: nat)
    requires perPage > 0
    ensures TotalPages(len, perPage) * perPage >= len
    ensures TotalPages(len, perPage) == 0 || (TotalPages(len, perPage) - 1) * perPage < len
  {
    var t := TotalPages(len, perPage);
    var rem := (len + perPage - 1) % perPage;
    assert len + perPage - 1 == t * perPage + rem;
    assert (t - 1) * perPage == t * perPage - perPage;
  }

  /**
   * Page `page` (from 1) shows the entries from `(page - 1) * perPage` on, at
   * most `perPage` of them, clipped to the list: an out-of-range page shows nothing.
   */
  lemma PageContents<T>(s: seq<T>, page: int, perPage: nat)
    requires page >= 1 && perPage > 0
    ensures var r, start := PageSlice(s, page, perPage), (page - 1) * perPage;
      && |r| == (if start >= |s| then 0 else if |s| - start < perPage then |s| - start else perPage)
      && forall k :: 0 <= k < |r| ==> r[k] == s[start + k]
  {
    MulMonotone(0, page - 1, perPage);
  }

  /** A page is empty exactly when it lies beyond the last page. */
  lemma PageEmptyIff<T>(s: seq<T>, page: int, perPage: nat)
    requires page >= 1 && perPage > 0
    ensures PageSlice(s, page, perPage) == [] <==> page > TotalPages(|s|, perPage)
  {
    var t := TotalPages(|s|, perPage);
    PageContents(s, page, perPage);
    TotalPagesBounds(|s|, perPage);
    if page > t {
      MulMonotone(t, page - 1, perPage);
    } else {
      MulMonotone(page - 1, t - 1, perPage);
    }
  }

  /** Every entry of the list is on exactly the page its index says: the pages partition the list. */
  lemma EntryOnItsPage<T>(s: seq<T>, i: nat, perPage: nat)
    requires i < |s| && perPage > 0
    ensures i % perPage < |PageSlice(s, i / perPage + 1, perPage)|
    ensures PageSlice(s, i / perPage + 1, perPage)[i % perPage] == s[i]
  {
    PageContents(s, i / perPage + 1, perPage);
    assert i == (i / perPage) * perPage + i % perPage;
  }

  /** One control of a pagination bar: the arrows carry the page they open; `Gap` is an ellipsis standing at loop index `at`. */
  datatype Control = Prev(target: int) | PageButton(page: int, active: bool) | Gap(at: int) | Next(target: int)

  /** Page `i` gets a numbered button: the first, the last and the neighbours of the current page. */
  predicate Shown(i: int, total: int, current: int)
  {
    i == 1 || i == total || (current - 1 <= i <= current + 1)
  }

  /** An ellipsis stands at `i`: two before the current page past page 3, or two after it before the last two. */
  predicate GapAt(i: int, total: int, current: int)
  {
    (i == current - 2 && current > 3) || (i == current + 2 && current < total - 2)
  }

  /** What one iteration of the page loop appends. */
  function Slot(i: int, total: int, current: int): seq<Control>
  {
    if Shown(i, total, current) then [PageButton(i, i == current)]
    else if GapAt(i, total, current) then [Gap(i)]
    else []
  }

  /** The position of a numbered button or an ellipsis in the page loop. */
  function Pos(c: Control): int
  {
    match c
    case PageButton(i, _) => i
    case Gap(i) => i
    case _ => 0
  }

  /** The numbered buttons and ellipses appended by the loop for pages 1 to `k`. */
  function Window(total: int, current: int, k: int): seq<Control>
    decreases k
  {
    if k <= 0 then [] else Window(total, current, k - 1) + Slot(k, total, current)
  }

  /** `w` holds only numbered buttons and ellipses, for pages 1 to `k`, in strictly increasing page order. */
  ghost predicate PagesInOrder(w: seq<Control>, k: int)
  {
    && (forall j :: 0 <= j < |w| ==> (w[j].PageButton? || w[j].Gap?) && 1 <= Pos(w[j]) <= k)
    && (forall a, b :: 0 <= a < b < |w| ==> Pos(w[a]) < Pos(w[b]))
  }

  /** The loop's output for pages 1 to `k` is in page order. */
  lemma {:induction false} WindowOrdered(total: int, current: int, k: int)
    ensures PagesInOrder(Window(total, current, k), k)
    decreases k
  {
    if k > 0 {
      WindowOrdered(total, current, k - 1);
      var prev, slot := Window(total, current, k - 1), Slot(k, total, current);
      var w := prev + slot;
      assert Window(total, current, k) == w;
      assert |slot| <= 1;
      assert forall c :: c in slot ==> Pos(c) == k && (c.PageButton? || c.Gap?);
      forall j | 0 <= j < |w| ensures (w[j].PageButton? || w[j].Gap?) && 1 <= Pos(w[j]) <= k {
        if j < |prev| {
          assert w[j] == prev[j];
        } else {
          assert w[j] == slot[j - |prev|] && w[j] in slot;
        }
      }
      forall a, b | 0 <= a < b < |w| ensures Pos(w[a]) < Pos(w[b]) {
        assert w[a] == prev[a];
        if b < |prev| {
          assert w[b] == prev[b];
        } else {
          assert w[b] == slot[b - |prev|] && w[b] in slot;
        }
      }
    }
  }

  /** The window holds a button exactly for each shown page (active on the current one) and an ellipsis exactly where one is due. */
  lemma {:induction false} WindowMembers(total: int, current: int, k: int)
    ensures var w := Window(total, current, k);
      && (forall i, act :: PageButton(i, act) in w <==> 1 <= i <= k && Shown(i, total, current) && act == (i == current))
      && (forall i :: Gap(i) in w <==> 1 <= i <= k && !Shown(i, total, current) && GapAt(i, total, current))
    decreases k
  {
    if k > 0 {
      WindowMembers(total, current, k - 1);
      var prev, slot := Window(total, current, k - 1), Slot(k, total, current);
      assert Window(total, current, k) == prev + slot;
      assert forall c :: c in slot ==> Pos(c) == k;
    }
  }

  /**
   * The controls `renderFeedPagination` and `renderModalPagination` append for
   * `total` pages: nothing for a single page; otherwise an optional previous
   * arrow, the numbered buttons and ellipses in page order, and an optional
   * next arrow.
   */
  function Bar(total: int, current: int): seq<Control>
  {
    if total <= 1 then []
    else
      (if current > 1 then [Prev(current - 1)] else [])
      + Window(total, current, total)
      + (if current < total then [Next(current + 1)] else [])
  }

  /** Which controls the bar holds, control by control. */
  lemma BarMembers(total: int, current: int)
    ensures forall p :: Prev(p) in Bar(total, current) <==> total > 1 && current > 1 && p == current - 1
    ensures forall p :: Next(p) in Bar(total, current) <==> total > 1 && current < total && p == current + 1
    ensures forall i, act :: PageButton(i, act) in Bar(total, current) <==>
              total > 1 && 1 <= i <= total && Shown(i, total, current) && act == (i == current)
    ensures forall i :: Gap(i) in Bar(total, current) <==>
              total > 1 && 1 <= i <= total && !Shown(i, total, current) && GapAt(i, total, current)
  {
    if total > 1 {
      WindowOrdered(total, current, total);
      WindowMembers(total, current, total);
      var w := Window(total, current, total);
      assert forall p :: Prev(p) !in w;
      assert forall p :: Next(p) !in w;
    }
  }

  /** The page an arrow or numbered button opens; an ellipsis has no handler and opens none. */
  function PageOf(c: Control): int
  {
    match c
    case Prev(t) => t
    case Next(t) => t
    case PageButton(p, _) => p
    case Gap(_) => 0
  }

  /** When the current page is a real page, every control of the bar opens a real page. */
  lemma BarTargetsInRange(total: int, current: int)
    requires 1 <= current <= total
    ensures forall c :: c in Bar(total, current) && !c.Gap? ==> 1 <= PageOf(c) <= total
  {
    BarMembers(total, current);
    forall c | c in Bar(total, current) && !c.Gap? ensures 1 <= PageOf(c) <= total {
      match c
      case Prev(t) =>
      case Next(t) =>
      case PageButton(i, act) =>
    }
  }

  /** Both pagination renderers: the previous arrow, the page loop and the next arrow, proved to build `Bar`. */
  method RenderPagination(len: nat, perPage: nat, current: int) returns (controls: seq<Control>)
    requires perPage > 0
    ensures controls == Bar(TotalPages(len, perPage), current)
  {
    var total := TotalPages(len, perPage);
    controls := [];
    if total <= 1 {
      return;
    }
    if current > 1 {
      controls := controls + [Prev(current - 1)];
    }
    controls := AppendWindow(controls, total, current);
    if current < total {
      controls := controls + [Next(current + 1)];
    }
  }

  /** The page loop: a numbered button or an ellipsis, or nothing, for each page from 1 to `total`. */
  method AppendWindow(head: seq<Control>, total: int, current: int) returns (controls: seq<Control>)
    ensures controls == head + Window(total, current, total)
  {
    controls := head;
    var i := 1;
    while i <= total
      invariant 1 <= i <= if total < 1 then 1 else total + 1
      invariant controls == head + Window(total, current, i - 1)
    {
      var slot := [];
      if i == 1 || i == total || (i >= current - 1 && i <= current + 1) {
        slot := [PageButton(i, i == current)];
      } else if (i == current - 2 && current > 3) || (i == current + 2 && current < total - 2) {
        slot := [Gap(i)];
      }
      assert slot == Slot(i, total, current);
      assert Window(total, current, i) == Window(total, current, i - 1) + slot;
      controls := controls + slot;
      i := i + 1;
    }
  }
}
