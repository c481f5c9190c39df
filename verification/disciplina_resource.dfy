/**
 * The `/disciplinas` endpoints: search, insert, update and delete. A subject's
 * professor is a plain many-to-one reference, so the only thing the commit
 * can refuse is a reference to a professor that does not exist.
 */
module DisciplinaResource {
  import opened Wrappers
  import opened Entities
  import opened Persistence
  import opened Outcomes
  import opened Representation
  import opened Links
  import opened Paging
  import opened Sorting
  import opened SearchEngine
  import opened SearchResponse

  /** `lower(nome) like ?1 or lower(descricao) like ?1` over the stored subjects. */
  function Keep(st: Store, q: Option<string>): Id -> bool {
    (id: Id) => id in st.disciplinas && Matches(q, st.disciplinas[id].nome, st.disciplinas[id].descricao)
  }

  function SearchCall(st: Store, listing: SortSpec -> seq<Id>, q: Option<string>, sort: string,
                      direction: string, page: int, size: int): (c: Call<Id>)
    requires size > 0
    ensures |c.items| <= size
    ensures var m := Filter(listing(Resolve(sort, direction, DisciplinaFields)), Keep(st, q));
            c.totalElements == |m| && c.items == Slice(m, PageIndex(page), size)
    ensures forall i :: 0 <= i < |c.items| ==>
              c.items[i] in st.disciplinas
              && Matches(q, st.disciplinas[c.items[i]].nome, st.disciplinas[c.items[i]].descricao)
    ensures c.q == q && c.sort == ResolveField(sort, DisciplinaFields) && c.direction == direction
    ensures c.page == page && c.size == size && c.totalPages == TotalPages(c.totalElements, size)
  {
    var keep := Keep(st, q);
    var c := Execute(listing, DisciplinaFields, keep, q, sort, direction, page, size);
    assert forall i :: 0 <= i < |c.items| ==> keep(c.items[i]);
    c
  }

  /** `SearchDisciplinaResponse.from`'s mapping: one representation per subject, in order. */
  function Render(st: Store, base: string, c: Call<Id>): (r: Call<DisciplinaRep>)
    requires forall i :: 0 <= i < |c.items| ==> c.items[i] in st.disciplinas
    ensures |r.items| == |c.items|
    ensures forall i :: 0 <= i < |c.items| ==> r.items[i] == DisciplinaFrom(st, base, c.items[i])
    ensures r.q == c.q && r.sort == c.sort && r.direction == c.direction && r.page == c.page
    ensures r.size == c.size && r.totalElements == c.totalElements && r.totalPages == c.totalPages
  {
    var reps := seq(|c.items|, i requires 0 <= i < |c.items| => DisciplinaFrom(st, base, c.items[i]));
    Call(reps, c.q, c.sort, c.direction, c.page, c.size, c.totalElements, c.totalPages)
  }

  function Search(st: Store, listing: SortSpec -> seq<Id>, base: string, q: Option<string>,
                  sort: string, direction: string, page: int, size: int): (r: Page<DisciplinaRep>)
    requires size > 0
    ensures |r.items| <= size
    ensures var m := Filter(listing(Resolve(sort, direction, DisciplinaFields)), Keep(st, q));
            && r.pagination.totalElements == |m|
            && |r.items| == |Slice(m, PageIndex(page), size)|
            && forall i :: 0 <= i < |r.items| ==> r.items[i].id == Slice(m, PageIndex(page), size)[i]
    ensures forall i :: 0 <= i < |r.items| ==>
              var id := r.items[i].id;
              id in st.disciplinas && r.items[i] == DisciplinaFrom(st, base, id)
              && Matches(q, st.disciplinas[id].nome, st.disciplinas[id].descricao)
    ensures r.pagination.page == page && r.pagination.size == size
    ensures r.pagination.totalPages == TotalPages(r.pagination.totalElements, size)
    ensures r.links == SearchLinks(base, Disciplinas, q, ResolveField(sort, DisciplinaFields), direction,
                                   page, size, r.pagination.totalPages)
  {
    var c := SearchCall(st, listing, q, sort, direction, page, size);
    var rendered := Render(st, base, c);
    From(rendered, base, Disciplinas)
  }

  /** Totals are counted on the whole filtered listing, whatever page is asked for. */
  lemma TotalsIndependentOfPage(st: Store, listing: SortSpec -> seq<Id>, base: string, q: Option<string>,
                                sort: string, direction: string, page: int, size: int)
    requires size > 0
    ensures var r := Search(st, listing, base, q, sort, direction, page, size);
            var first := Search(st, listing, base, q, sort, direction, 1, size);
            && r.pagination.totalElements == first.pagination.totalElements
            && r.pagination.totalPages == first.pagination.totalPages
            && (r.items == [] <==> PageIndex(page) >= r.pagination.totalPages)
  {
    SearchEngine.TotalsIndependentOfPage(listing, DisciplinaFields, Keep(st, q), q, sort, direction, page, size);
  }

  /** A subject may name no professor, or an existing one (shared freely). */
  predicate ProfessorExists(st: Store, professor: Option<Id>) {
    professor.Some? ==> professor.value in st.professores
  }

  function Put(st: Store, id: Id, d: Disciplina): (r: Store)
    ensures r.disciplinas == st.disciplinas[id := d] && r.(disciplinas := st.disciplinas) == st
  {
    st.(disciplinas := st.disciplinas[id := d])
  }

  lemma PutConsistentIff(st: Store, id: Id, d: Disciplina)
    requires Consistent(st)
    ensures Consistent(Put(st, id, d)) <==> ProfessorExists(st, d.professor)
  {
    if !ProfessorExists(st, d.professor) {
      assert id in Put(st, id, d).disciplinas;
    }
  }

  /** `POST /disciplinas`. */
  function Insert(st: Store, base: string, body: DisciplinaBody): (r: (Outcome<DisciplinaRep>, Store))
    ensures !DisciplinaBodyValid(body) ==> r == (Fail(400, ""), st)
    ensures r.0.Created? ==>
              && r.0.body.id == st.nextId
              && r.1 == Put(st, st.nextId, NewDisciplina(body)).(nextId := st.nextId + 1)
              && r.0.body == DisciplinaFrom(r.1, base, st.nextId)
    ensures !r.0.Created? ==> r.1 == st
  {
    if !DisciplinaBodyValid(body) then (Fail(400, ""), st)
    else
      var id := st.nextId;
      var st' := Put(st, id, NewDisciplina(body)).(nextId := id + 1);
      Commit(st, st', Created(DisciplinaFrom(st', base, id)))
  }

  lemma InsertSucceedsIff(st: Store, base: string, isEmail: EmailCheck, body: DisciplinaBody)
    requires Invariant(st, isEmail) && DisciplinaBodyValid(body)
    ensures Insert(st, base, body).0.Created? <==> ProfessorExists(st, body.professor)
    ensures Invariant(Insert(st, base, body).1, isEmail)
  {
    NextIdIsFresh(st, isEmail);
    PutConsistentIff(st, st.nextId, NewDisciplina(body));
  }

  /** `PUT /disciplinas/{id}`: nome, descricao, cargaHoraria and professor are overwritten. */
  function Update(st: Store, base: string, id: Id, body: DisciplinaBody): (r: (Outcome<DisciplinaRep>, Store))
    ensures !DisciplinaBodyValid(body) ==> r == (Fail(400, ""), st)
    ensures DisciplinaBodyValid(body) && id !in st.disciplinas ==> r == (Fail(404, ""), st)
    ensures r.0.Ok? ==>
              && id in st.disciplinas
              && r.1 == Put(st, id, NewDisciplina(body))
              && r.0.body == DisciplinaFrom(r.1, base, id)
    ensures !r.0.Ok? ==> r.1 == st
  {
    if !DisciplinaBodyValid(body) then (Fail(400, ""), st)
    else if id !in st.disciplinas then (Fail(404, ""), st)
    else
      var st' := Put(st, id, NewDisciplina(body));
      Commit(st, st', Ok(DisciplinaFrom(st', base, id)))
  }

  lemma UpdateSucceedsIff(st: Store, base: string, isEmail: EmailCheck, id: Id, body: DisciplinaBody)
    requires Invariant(st, isEmail) && DisciplinaBodyValid(body) && id in st.disciplinas
    ensures Update(st, base, id, body).0.Ok? <==> ProfessorExists(st, body.professor)
    ensures Invariant(Update(st, base, id, body).1, isEmail)
  {
    PutConsistentIff(st, id, NewDisciplina(body));
  }

  /** `DELETE /disciplinas/{id}`: nothing refers to a subject, so removal always commits. */
  function Delete(st: Store, id: Id): (r: (Outcome<DisciplinaRep>, Store))
    ensures id !in st.disciplinas ==> r == (Fail(404, ""), st)
    ensures id in st.disciplinas ==>
              && r.0 == NoContent
              && r.1.disciplinas.Keys == st.disciplinas.Keys - {id}
              && (forall other | other in r.1.disciplinas :: r.1.disciplinas[other] == st.disciplinas[other])
              && r.1.(disciplinas := st.disciplinas) == st
  {
    if id !in st.disciplinas then (Fail(404, ""), st)
    else (NoContent, st.(disciplinas := st.disciplinas - {id}))
  }

  lemma DeleteKeepsInvariant(st: Store, isEmail: EmailCheck, id: Id)
    requires Invariant(st, isEmail)
    ensures Invariant(Delete(st, id).1, isEmail)
  {
  }
}
