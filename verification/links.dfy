/**
 * Hypermedia links: the five per-entity links every representation carries
 * and the page-navigation links of a search response. All of them are plain
 * concatenations onto the caller's base URI (which ends in "/"); nothing is
 * URL-encoded.
 */
module Links {
  import opened Wrappers
  import opened Decimal
  import Text

  type LinkMap = map<string, string>

  /** The four collections and their path segments. */
  datatype Resource = Alunos | Cursos | Professores | Disciplinas {
    function Path(): string {
      match this
      case Alunos => "alunos"
      case Cursos => "cursos"
      case Professores => "professores"
      case Disciplinas => "disciplinas"
    }
  }

  /** `baseUri + path + "/" + id`. */
  function ItemUrl(base: string, path: string, id: nat): string {
    base + path + "/" + NatToString(id)
  }

  /** Reads the identifier back out of an item URL under `base + path + "/"`. */
  function ResolveItem(base: string, path: string, url: string): Option<nat> {
    var prefix := base + path + "/";
    if Text.IsPrefix(prefix, url) then ParseNat(url[|prefix|..]) else None
  }

  /** An item URL leads back to the identifier it was built from. */
  lemma ItemUrlResolves(base: string, path: string, id: nat)
    ensures ResolveItem(base, path, ItemUrl(base, path, id)) == Some(id)
  {
    var prefix := base + path + "/";
    assert ItemUrl(base, path, id)[|prefix|..] == NatToString(id);
    ParseNatRoundTrip(id);
  }

  /** Different entities never share an item URL. */
  lemma ItemUrlInjective(base: string, path: string, id1: nat, id2: nat)
    requires id1 != id2
    ensures ItemUrl(base, path, id1) != ItemUrl(base, path, id2)
  {
    ItemUrlResolves(base, path, id1);
    ItemUrlResolves(base, path, id2);
  }

  /** `self`, `all`, `delete`, `update` and `search` of one entity. */
  function EntityLinks(base: string, res: Resource, id: nat): (r: LinkMap)
    ensures r.Keys == {"self", "all", "delete", "update", "search"}
    ensures r["delete"] == r["self"] && r["update"] == r["self"]
    ensures ResolveItem(base, res.Path(), r["self"]) == Some(id)
    ensures r["all"] == base + res.Path() && r["search"] == r["all"] + "/search"
  {
    ItemUrlResolves(base, res.Path(), id);
    var item := ItemUrl(base, res.Path(), id);
    map["self" := item,
        "all" := base + res.Path(),
        "delete" := item,
        "update" := item,
        "search" := base + res.Path() + "/search"]
  }

  /** The professor's links; its `delete` link is built on the path "preofessores". */
  function ProfessorLinks(base: string, id: nat): (r: LinkMap)
    ensures r.Keys == {"self", "all", "delete", "update", "search"}
    ensures r["update"] == r["self"]
    ensures ResolveItem(base, "professores", r["self"]) == Some(id)
    ensures r["delete"] == ItemUrl(base, "preofessores", id)
    ensures ResolveItem(base, "preofessores", r["delete"]) == Some(id)
    ensures r["all"] == base + "professores" && r["search"] == r["all"] + "/search"
  {
    ItemUrlResolves(base, "professores", id);
    ItemUrlResolves(base, "preofessores", id);
    var item := ItemUrl(base, "professores", id);
    map["self" := item,
        "all" := base + "professores",
        "delete" := ItemUrl(base, "preofessores", id),
        "update" := item,
        "search" := base + "professores/search"]
  }

  /** The professor's `delete` link does not lead to any professor: it is not
      under the collection's path, unlike `self`. */
  lemma ProfessorDeleteLinkMisses(base: string, id: nat)
    ensures ResolveItem(base, "professores", ProfessorLinks(base, id)["delete"]) == None
    ensures ProfessorLinks(base, id)["delete"] != ProfessorLinks(base, id)["self"]
  {
    var del := ProfessorLinks(base, id)["delete"];
    var prefix := base + "professores" + "/";
    assert del[|base| + 2] == 'e';
    assert prefix[|base| + 2] == 'o';
    assert !Text.IsPrefix(prefix, del);
    var self := ProfessorLinks(base, id)["self"];
    assert self[|base| + 2] == 'o';
  }

  // Search-page links.

  /** `q` takes part only when it is present and not blank. */
  predicate HasQuery(q: Option<string>) {
    q.Some? && !Text.IsBlank(q.value)
  }

  /** `[q=<q>&]sort=<sort>&direction=<direction>&size=<size>`, values verbatim. */
  function QueryParams(q: Option<string>, sort: string, direction: string, size: int): string {
    (if HasQuery(q) then "q=" + q.value + "&" else "")
    + "sort=" + sort + "&direction=" + direction + "&size=" + IntToString(size)
  }

  /** Everything a page link has before its page number. */
  function PagePrefix(base: string, res: Resource, params: string): string {
    base + res.Path() + "/search?" + params + "&page="
  }

  function PageUrl(base: string, res: Resource, params: string, page: int): string {
    PagePrefix(base, res, params) + IntToString(page)
  }

  /** Reads the page number back out of a page link. */
  function LinkedPage(base: string, res: Resource, params: string, url: string): Option<int> {
    var prefix := PagePrefix(base, res, params);
    if Text.IsPrefix(prefix, url) then ParseInt(url[|prefix|..]) else None
  }

  lemma PageUrlResolves(base: string, res: Resource, params: string, page: int)
    ensures LinkedPage(base, res, params, PageUrl(base, res, params, page)) == Some(page)
  {
    var prefix := PagePrefix(base, res, params);
    assert PageUrl(base, res, params, page)[|prefix|..] == IntToString(page);
    ParseIntRoundTrip(page);
  }

  /** The navigation links of a search response. */
  function SearchLinks(base: string, res: Resource, q: Option<string>, sort: string, direction: string,
                       page: int, size: int, totalPages: int): (r: LinkMap)
    ensures r.Keys == {"self", "first", "last", res.Path()}
                      + (if page > 1 then {"prev"} else {})
                      + (if page < totalPages then {"next"} else {})
    ensures r[res.Path()] == base + res.Path()
    ensures var params := QueryParams(q, sort, direction, size);
            && r["self"] == PageUrl(base, res, params, page)
            && r["first"] == PageUrl(base, res, params, 1)
            && r["last"] == PageUrl(base, res, params, totalPages)
            && (page > 1 ==> r["prev"] == PageUrl(base, res, params, page - 1))
            && (page < totalPages ==> r["next"] == PageUrl(base, res, params, page + 1))
  {
    var params := QueryParams(q, sort, direction, size);
    var always := map["self" := PageUrl(base, res, params, page),
                      "first" := PageUrl(base, res, params, 1),
                      "last" := PageUrl(base, res, params, totalPages)];
    var withPrev := if page > 1 then always["prev" := PageUrl(base, res, params, page - 1)] else always;
    var withNext := if page < totalPages then withPrev["next" := PageUrl(base, res, params, page + 1)] else withPrev;
    withNext[res.Path() := base + res.Path()]
  }

  /** Each navigation link shares the request's parameters and names the page it
      promises: the current one, 1, the last, and the neighbours when present. */
  lemma SearchLinksPages(base: string, res: Resource, q: Option<string>, sort: string, direction: string,
                         page: int, size: int, totalPages: int)
    ensures var r := SearchLinks(base, res, q, sort, direction, page, size, totalPages);
            var params := QueryParams(q, sort, direction, size);
            && LinkedPage(base, res, params, r["self"]) == Some(page)
            && LinkedPage(base, res, params, r["first"]) == Some(1)
            && LinkedPage(base, res, params, r["last"]) == Some(totalPages)
            && (page > 1 ==> LinkedPage(base, res, params, r["prev"]) == Some(page - 1))
            && (page < totalPages ==> LinkedPage(base, res, params, r["next"]) == Some(page + 1))
  {
    var params := QueryParams(q, sort, direction, size);
    PageUrlResolves(base, res, params, page);
    PageUrlResolves(base, res, params, 1);
    PageUrlResolves(base, res, params, totalPages);
    PageUrlResolves(base, res, params, page - 1);
    PageUrlResolves(base, res, params, page + 1);
  }

  /** The parameters start with `q=` exactly when the query is present and not
      blank, and then carry it unchanged; `sort` always follows. */
  lemma QueryParamsCarryQuery(q: Option<string>, sort: string, direction: string, size: int)
    ensures var params := QueryParams(q, sort, direction, size);
            && (Text.IsPrefix("q=", params) <==> HasQuery(q))
            && (HasQuery(q) ==> Text.IsPrefix("q=" + q.value + "&sort=", params))
            && (!HasQuery(q) ==> Text.IsPrefix("sort=", params))
  {
    var params := QueryParams(q, sort, direction, size);
    if !HasQuery(q) {
      assert params[0] == 's';
    } else {
      assert params[..|"q=" + q.value + "&sort="|] == "q=" + q.value + "&sort=";
    }
  }
}
