/** Spring Data's Pageable, Page and PageImpl. */
module Paging {

  /** PageRequest.of(page, size). */
  datatype Pageable = PageRequest(page: nat, size: nat)

  /** A page of results with the total number of results of the whole query. */
  datatype Page<T> = Page(content: seq<T>, pageable: Pageable, totalElements: nat)

  /** Pageable.getOffset(): the position of the first element of the page. */
  function Offset(p: Pageable): nat {
    p.page * p.size
  }

  function Min(a: int, b: int): int {
    if a <= b then a else b
  }

  /** The page `p` of the query result `all`, as a repository returns it. */
  function Paginate<T>(all: seq<T>, p: Pageable): (r: Page<T>)
    ensures r.pageable == p && r.totalElements == |all|
    ensures |r.content| <= p.size
    ensures |r.content| == if |all| <= Offset(p) then 0 else Min(p.size, |all| - Offset(p))
    ensures forall i :: 0 <= i < |r.content| ==> Offset(p) + i < |all| && r.content[i] == all[Offset(p) + i]
    ensures forall x :: x in r.content ==> x in all
  {
    var lo := Min(Offset(p), |all|);
    var hi := Min(lo + p.size, |all|);
    Page(all[lo..hi], p, |all|)
  }

  /** new PageImpl(content, pageable, total): the total is corrected to offset + |content|
      when the content is not empty and the page reaches past the given total. */
  function PageImpl<T>(content: seq<T>, p: Pageable, total: nat): Page<T> {
    if content != [] && Offset(p) + p.size > total then Page(content, p, Offset(p) + |content|)
    else Page(content, p, total)
  }

  /** Re-wrapping the content of a query page (or any content of the same length) keeps
      its total: the correction of PageImpl never fires on a page that Paginate produced. */
  lemma PageImplKeepsTotal<T, U>(all: seq<T>, p: Pageable, content: seq<U>)
    requires |content| == |Paginate(all, p).content|
    ensures PageImpl(content, p, |all|) == Page(content, p, |all|)
  {
  }
}
