/**
 * The body of a search response for students, courses and subjects: the page
 * of representations, the pagination metadata echoed from the request, and
 * the navigation links.
 */
module SearchResponse {
  import opened Links
  import opened SearchEngine

  datatype Pagination = Pagination(page: int, size: int, totalElements: nat, totalPages: nat)

  datatype Page<R> = Page(items: seq<R>, pagination: Pagination, links: LinkMap)

  function From<R>(c: Call<R>, base: string, res: Resource): (p: Page<R>)
    ensures p.items == c.items
    ensures p.pagination == Pagination(c.page, c.size, c.totalElements, c.totalPages)
    ensures p.links == SearchLinks(base, res, c.q, c.sort, c.direction, c.page, c.size, c.totalPages)
  {
    Page(c.items, Pagination(c.page, c.size, c.totalElements, c.totalPages),
         SearchLinks(base, res, c.q, c.sort, c.direction, c.page, c.size, c.totalPages))
  }
}
