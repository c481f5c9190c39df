/**
 * The search pipeline shared by the four resources: resolve sort and
 * direction, filter with a case-insensitive `LIKE` on two text columns, count
 * the matches, then cut out the requested page. The database's ordering is a
 * parameter, `listing`, giving the rows in `ORDER BY` order for a sort spec.
 */
module SearchEngine {
  import opened Wrappers
  import Text
  import opened Paging
  import opened Sorting

  /** A null or blank `q` means no filter. */
  predicate NoFilter(q: Option<string>) {
    q.None? || Text.IsBlank(q.value)
  }

  /** The bound parameter `"%" + q.toLowerCase() + "%"`. */
  function LikePattern(q: string): string {
    "%" + Text.Lower(q) + "%"
  }

  /** `lower(f1) like ?1 or lower(f2) like ?1`, or everything when there is no filter. */
  predicate Matches(q: Option<string>, f1: string, f2: string) {
    || NoFilter(q)
    || Text.Like(Text.Lower(f1), LikePattern(q.value))
    || Text.Like(Text.Lower(f2), LikePattern(q.value))
  }

  lemma LowerKeepsNoWildcards(q: string)
    requires Text.NoWildcards(q)
    ensures Text.NoWildcards(Text.Lower(q))
  {
  }

  /** For a query without `%` or `_`, a row matches exactly when the folded
      query occurs in one of its folded text fields. */
  lemma MatchesIsSubstring(q: string, f1: string, f2: string)
    requires !Text.IsBlank(q) && Text.NoWildcards(q)
    ensures Matches(Some(q), f1, f2) <==>
              Text.IsSubstring(Text.Lower(q), Text.Lower(f1)) || Text.IsSubstring(Text.Lower(q), Text.Lower(f2))
  {
    LowerKeepsNoWildcards(q);
    Text.ContainsPattern(Text.Lower(q), Text.Lower(f1));
    Text.ContainsPattern(Text.Lower(q), Text.Lower(f2));
  }

  /** Letter case matters neither in the query nor in the fields. */
  lemma MatchesIgnoresCase(q: string, f1: string, f2: string)
    ensures Matches(Some(q), f1, f2) == Matches(Some(Text.Lower(q)), f1, f2)
    ensures Matches(Some(q), f1, f2) == Matches(Some(q), Text.Lower(f1), Text.Lower(f2))
  {
    Text.LowerKeepsBlankness(q);
    Text.LowerIdempotent(q);
    Text.LowerIdempotent(f1);
    Text.LowerIdempotent(f2);
  }

  /** The arguments a resource passes on to build its response: the page of
      rows, the raw `q`, the resolved sort field, the raw direction and page,
      the size, and the totals. */
  datatype Call<T> = Call(items: seq<T>, q: Option<string>, sort: string, direction: string,
                          page: int, size: int, totalElements: nat, totalPages: nat)

  function Execute<T>(listing: SortSpec -> seq<T>, allowed: set<string>, keep: T -> bool,
                      q: Option<string>, sort: string, direction: string, page: int, size: int): (c: Call<T>)
    requires size > 0
    ensures c.q == q && c.sort == ResolveField(sort, allowed) && c.direction == direction
    ensures c.page == page && c.size == size
    ensures var matched := Filter(listing(Resolve(sort, direction, allowed)), keep);
            && c.totalElements == |matched|
            && c.totalPages == TotalPages(|matched|, size)
            && c.items == Slice(matched, PageIndex(page), size)
  {
    var matched := Filter(listing(Resolve(sort, direction, allowed)), keep);
    var total := |matched|;
    Call(Slice(matched, PageIndex(page), size), q, ResolveField(sort, allowed), direction,
         page, size, total, TotalPages(total, size))
  }

  /** An unlisted sort field behaves exactly like `id`. */
  lemma UnknownSortIsId<T>(listing: SortSpec -> seq<T>, allowed: set<string>, keep: T -> bool,
                           q: Option<string>, sort: string, direction: string, page: int, size: int)
    requires size > 0 && sort !in allowed && DefaultField in allowed
    ensures Execute(listing, allowed, keep, q, sort, direction, page, size)
         == Execute(listing, allowed, keep, q, DefaultField, direction, page, size)
  {
  }

  /** Pages 0 and below show what page 1 shows, with the same totals; only the
      echoed page number differs. */
  lemma LowPagesShowFirstPage<T>(listing: SortSpec -> seq<T>, allowed: set<string>, keep: T -> bool,
                                 q: Option<string>, sort: string, direction: string, page: int, size: int)
    requires size > 0 && page <= 1
    ensures var c := Execute(listing, allowed, keep, q, sort, direction, page, size);
            c == Execute(listing, allowed, keep, q, sort, direction, 1, size).(page := page)
  {
  }

  /** Totals do not depend on the page asked for; a page past the last one is
      empty, and a page up to the last one is not. */
  lemma TotalsIndependentOfPage<T>(listing: SortSpec -> seq<T>, allowed: set<string>, keep: T -> bool,
                                   q: Option<string>, sort: string, direction: string, page: int, size: int)
    requires size > 0
    ensures var c := Execute(listing, allowed, keep, q, sort, direction, page, size);
            var first := Execute(listing, allowed, keep, q, sort, direction, 1, size);
            && c.totalElements == first.totalElements
            && c.totalPages == first.totalPages
            && (c.items == [] <==> PageIndex(page) >= c.totalPages)
  {
    var matched := Filter(listing(Resolve(sort, direction, allowed)), keep);
    SliceNonEmptyIff(matched, PageIndex(page), size);
  }

  /** Asking for pages 1, 2, ..., totalPages in turn returns every match once, in order. */
  lemma PagesEnumerateMatches<T>(listing: SortSpec -> seq<T>, allowed: set<string>, keep: T -> bool,
                                 q: Option<string>, sort: string, direction: string, size: int)
    requires size > 0
    ensures var first := Execute(listing, allowed, keep, q, sort, direction, 1, size);
            FirstPages(Filter(listing(Resolve(sort, direction, allowed)), keep), size, first.totalPages)
            == Filter(listing(Resolve(sort, direction, allowed)), keep)
  {
    PagesCoverAll(Filter(listing(Resolve(sort, direction, allowed)), keep), size);
  }
}
