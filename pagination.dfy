/** The pagination envelope the channel, category, sub-category and author
    lists share: a page count, and Skip((page - 1) * size).Take(size) applied
    only when there is at least one item. */
module Pagination {
  import opened Seqs
  import opened Models

  /** (totalItems / itemsPerPage) + 1, or 0 for no items. C# division
      truncates toward zero; for the non-negative totalItems it agrees with
      Dafny's division. A zero page size with items would divide by zero. */
  function TotalPages(totalItems: nat, itemsPerPage: int): (r: int)
    requires totalItems > 0 ==> itemsPerPage != 0
    ensures totalItems == 0 ==> r == 0
    ensures totalItems > 0 && itemsPerPage > 0 ==> r >= 1 && (r - 1) * itemsPerPage <= totalItems < r * itemsPerPage
  {
    if totalItems > 0 then totalItems / itemsPerPage + 1 else 0
  }

  /** Where the page starts, by position: (page - 1) * size, kept inside the list. */
  function PageStart(n: nat, currentPage: int, itemsPerPage: int): (lo: nat)
  {
    var skip := (currentPage - 1) * itemsPerPage;
    if skip <= 0 then 0 else if skip >= n then n else skip
  }

  /** Where the page ends, by position: at most `size` past its start. */
  function PageEnd(n: nat, currentPage: int, itemsPerPage: int): (hi: nat)
    ensures PageStart(n, currentPage, itemsPerPage) <= hi <= n
  {
    var lo := PageStart(n, currentPage, itemsPerPage);
    if itemsPerPage <= 0 then lo else if lo + itemsPerPage >= n then n else lo + itemsPerPage
  }

  /** The positions from PageStart up to PageEnd: the page a request asks for. */
  function PageSlice<T>(items: seq<T>, currentPage: int, itemsPerPage: int): seq<T>
  {
    items[PageStart(|items|, currentPage, itemsPerPage)..PageEnd(|items|, currentPage, itemsPerPage)]
  }

  /** The "Shred" step: Skip then Take. */
  function Shred<T>(items: seq<T>, currentPage: int, itemsPerPage: int): (r: seq<T>)
    ensures r == items[PageStart(|items|, currentPage, itemsPerPage)..PageEnd(|items|, currentPage, itemsPerPage)]
  {
    Take(Skip(items, (currentPage - 1) * itemsPerPage), itemsPerPage)
  }

  /** The envelope: the page count and, only when there are items, the page. */
  function Paginate<T>(items: seq<T>, currentPage: int, itemsPerPage: int): (r: PaginationModel<T>)
    requires |items| > 0 ==> itemsPerPage != 0
    ensures r.currentPage == currentPage && r.itemsPerPage == itemsPerPage && r.errors == []
    ensures r.totalItems == |items|
    ensures r.totalPages == TotalPages(|items|, itemsPerPage)
    ensures r.items == items[PageStart(|items|, currentPage, itemsPerPage)..PageEnd(|items|, currentPage, itemsPerPage)]
    ensures itemsPerPage > 0 ==> |r.items| <= itemsPerPage
    ensures forall v :: v in r.items ==> v in items
  {
    var totalItems := |items|;
    var totalPages := TotalPages(totalItems, itemsPerPage);
    var shredded := if totalItems > 0 then Shred(items, currentPage, itemsPerPage) else items;
    PaginationModel(currentPage, totalPages, itemsPerPage, totalItems, shredded, [])
  }

  /** Asking for a page past TotalPages yields no items, while the counts
      still describe the whole list. */
  lemma PageBeyondEndIsEmpty<T>(items: seq<T>, currentPage: int, itemsPerPage: int)
    requires itemsPerPage > 0
    requires currentPage > TotalPages(|items|, itemsPerPage)
    ensures Paginate(items, currentPage, itemsPerPage).items == []
    ensures Paginate(items, currentPage, itemsPerPage).totalItems == |items|
  {
    var n := |items|;
    if n > 0 {
      var t := TotalPages(n, itemsPerPage);
      assert currentPage - 1 >= t;
      MulMono(currentPage - 1, t, itemsPerPage);
      assert (currentPage - 1) * itemsPerPage >= n;
    }
  }

  lemma MulMono(a: int, b: int, c: int)
    requires a >= b && c > 0
    ensures a * c >= b * c
  {
  }

  /** The formula's quirk: when the count is an exact multiple of the page
      size, the last page it announces is empty. */
  lemma {:induction false} ExactMultipleAnnouncesEmptyPage<T>(items: seq<T>, itemsPerPage: int)
    requires itemsPerPage > 0 && |items| > 0 && |items| % itemsPerPage == 0
    ensures TotalPages(|items|, itemsPerPage) == |items| / itemsPerPage + 1
    ensures Paginate(items, TotalPages(|items|, itemsPerPage), itemsPerPage).items == []
  {
    var n := |items|;
    var t := TotalPages(n, itemsPerPage);
    assert n == itemsPerPage * (n / itemsPerPage) + n % itemsPerPage;
    assert (t - 1) * itemsPerPage == n;
  }

  /** Pages 1 .. k laid end to end. */
  function PagesUpTo<T>(items: seq<T>, itemsPerPage: int, k: nat): seq<T>
    requires itemsPerPage > 0
  {
    if k == 0 then [] else PagesUpTo(items, itemsPerPage, k - 1) + Paginate(items, k, itemsPerPage).items
  }

  /** Where pages 1 .. k end: k * size, cut at the end of the list. */
  function PrefixEnd(n: nat, k: nat, itemsPerPage: int): (e: nat)
    requires itemsPerPage > 0
    ensures e <= n
  {
    if k * itemsPerPage >= n then n else k * itemsPerPage
  }

  /** Page k (from 1) covers positions (k - 1) * size up to k * size. */
  lemma PageItems<T>(items: seq<T>, k: nat, itemsPerPage: int)
    requires k > 0 && itemsPerPage > 0
    ensures PrefixEnd(|items|, k - 1, itemsPerPage) <= PrefixEnd(|items|, k, itemsPerPage)
    ensures Paginate(items, k, itemsPerPage).items ==
            items[PrefixEnd(|items|, k - 1, itemsPerPage)..PrefixEnd(|items|, k, itemsPerPage)]
  {
    var a := (k - 1) * itemsPerPage;
    MulMono(k - 1, 0, itemsPerPage);
    assert k * itemsPerPage == a + itemsPerPage;
  }

  lemma PrefixThenSlice<T>(s: seq<T>, i: nat, j: nat)
    requires i <= j <= |s|
    ensures s[..i] + s[i..j] == s[..j]
  {
    assert forall x :: 0 <= x < j ==> (s[..i] + s[i..j])[x] == s[x];
  }

  lemma {:induction false} PagesUpToPrefix<T>(items: seq<T>, itemsPerPage: int, k: nat)
    requires itemsPerPage > 0
    ensures PagesUpTo(items, itemsPerPage, k) == items[..PrefixEnd(|items|, k, itemsPerPage)]
  {
    if k > 0 {
      PagesUpToPrefix(items, itemsPerPage, k - 1);
      PageItems(items, k, itemsPerPage);
      var prev := PrefixEnd(|items|, k - 1, itemsPerPage);
      var cur := PrefixEnd(|items|, k, itemsPerPage);
      var page := Paginate(items, k, itemsPerPage).items;
      assert PagesUpTo(items, itemsPerPage, k) == PagesUpTo(items, itemsPerPage, k - 1) + page;
      PrefixThenSlice(items, prev, cur);
    }
  }

  /** Reading every announced page in turn gives back the whole list: no
      item is lost or repeated by the Skip/Take slicing. */
  lemma PagesCoverItems<T>(items: seq<T>, itemsPerPage: int)
    requires itemsPerPage > 0
    ensures PagesUpTo(items, itemsPerPage, TotalPages(|items|, itemsPerPage)) == items
  {
    var t := TotalPages(|items|, itemsPerPage);
    PagesUpToPrefix(items, itemsPerPage, t);
    assert PrefixEnd(|items|, t, itemsPerPage) == |items|;
  }
}
