/**
 * The `/professores` endpoints: search, insert, update and delete. The search
 * response type is not part of this model, so the search stops at the
 * arguments it would be built from.
 */
module ProfessorResource {
  import opened Wrappers
  import opened Entities
  import opened Persistence
  import opened Outcomes
  import opened Representation
  import opened Paging
  import opened Sorting
  import opened SearchEngine

  /** `lower(nome) like ?1 or lower(email) like ?1` over the stored professors. */
  function Keep(st: Store, q: Option<string>): Id -> bool {
    (id: Id) => id in st.professores && Matches(q, st.professores[id].nome, st.professores[id].email)
  }

  /** The arguments handed to `SearchProfessorResponse.from`, the professors
      already represented. */
  function Search(st: Store, listing: SortSpec -> seq<Id>, base: string, q: Option<string>,
                  sort: string, direction: string, page: int, size: int): (r: Call<ProfessorRep>)
    requires size > 0
    ensures |r.items| <= size
    ensures var m := Filter(listing(Resolve(sort, direction, ProfessorFields)), Keep(st, q));
            && r.totalElements == |m|
            && |r.items| == |Slice(m, PageIndex(page), size)|
            && forall i :: 0 <= i < |r.items| ==> r.items[i].id == Slice(m, PageIndex(page), size)[i]
    ensures forall i :: 0 <= i < |r.items| ==>
              var id := r.items[i].id;
              id in st.professores && r.items[i] == ProfessorFrom(st, base, id)
              && Matches(q, st.professores[id].nome, st.professores[id].email)
    ensures r.q == q && r.sort == ResolveField(sort, ProfessorFields) && r.direction == direction
    ensures r.page == page && r.size == size && r.totalPages == TotalPages(r.totalElements, size)
  {
    var keep := Keep(st, q);
    var c := Execute(listing, ProfessorFields, keep, q, sort, direction, page, size);
    assert forall i :: 0 <= i < |c.items| ==> keep(c.items[i]);
    var reps := seq(|c.items|, i requires 0 <= i < |c.items| => ProfessorFrom(st, base, c.items[i]));
    Call(reps, c.q, c.sort, c.direction, c.page, c.size, c.totalElements, c.totalPages)
  }

  /** `POST /professores`: nothing can refuse a valid professor. */
  function Insert(st: Store, base: string, isEmail: EmailCheck, body: ProfessorBody): (r: (Outcome<ProfessorRep>, Store))
    ensures !ProfessorBodyValid(body, isEmail) ==> r == (Fail(400, ""), st)
    ensures ProfessorBodyValid(body, isEmail) ==>
              && r.0.Created? && r.0.body.id == st.nextId
              && r.1.professores == st.professores[st.nextId := NewProfessor(body, isEmail)]
              && r.1.nextId == st.nextId + 1
              && r.1.(professores := st.professores, nextId := st.nextId) == st
              && r.0.body == ProfessorFrom(r.1, base, st.nextId)
  {
    if !ProfessorBodyValid(body, isEmail) then (Fail(400, ""), st)
    else
      var id := st.nextId;
      var st' := st.(professores := st.professores[id := NewProfessor(body, isEmail)], nextId := id + 1);
      (Created(ProfessorFrom(st', base, id)), st')
  }

  /** `PUT /professores/{id}`: only nome and email change. */
  function Update(st: Store, base: string, isEmail: EmailCheck, id: Id, body: ProfessorBody): (r: (Outcome<ProfessorRep>, Store))
    ensures !ProfessorBodyValid(body, isEmail) ==> r == (Fail(400, ""), st)
    ensures ProfessorBodyValid(body, isEmail) && id !in st.professores ==> r == (Fail(404, ""), st)
    ensures ProfessorBodyValid(body, isEmail) && id in st.professores ==>
              && r.0.Ok?
              && r.1.professores.Keys == st.professores.Keys
              && Some(r.1.professores[id].nome) == body.nome && Some(r.1.professores[id].email) == body.email
              && (forall other | other in st.professores && other != id ::
                    r.1.professores[other] == st.professores[other])
              && r.1.(professores := st.professores) == st
              && r.0.body == ProfessorFrom(r.1, base, id)
  {
    if !ProfessorBodyValid(body, isEmail) then (Fail(400, ""), st)
    else if id !in st.professores then (Fail(404, ""), st)
    else
      var st' := st.(professores := st.professores[id := NewProfessor(body, isEmail)]);
      (Ok(ProfessorFrom(st', base, id)), st')
  }

  /** Some course or subject points at the professor. */
  predicate Referenced(st: Store, id: Id) {
    || (exists c :: c in st.cursos && st.cursos[c].professor == Some(id))
    || (exists d :: d in st.disciplinas && st.disciplinas[d].professor == Some(id))
  }

  /** `DELETE /professores/{id}`: a professor still referenced fails the commit. */
  function Delete(st: Store, id: Id): (r: (Outcome<ProfessorRep>, Store))
    ensures id !in st.professores ==> r == (Fail(404, ""), st)
    ensures r.0 == NoContent ==> id in st.professores && r.1 == st.(professores := st.professores - {id})
    ensures r.0 != NoContent ==> r.1 == st
  {
    if id !in st.professores then (Fail(404, ""), st)
    else Commit(st, st.(professores := st.professores - {id}), NoContent)
  }

  lemma DeleteSucceedsIff(st: Store, isEmail: EmailCheck, id: Id)
    requires Invariant(st, isEmail) && id in st.professores
    ensures Delete(st, id).0 == NoContent <==> !Referenced(st, id)
    ensures Invariant(Delete(st, id).1, isEmail)
  {
    var after := st.(professores := st.professores - {id});
    if Referenced(st, id) {
      assert !ForeignKeysHold(after);
    }
  }

  lemma InsertUpdateKeepInvariant(st: Store, base: string, isEmail: EmailCheck, id: Id, body: ProfessorBody)
    requires Invariant(st, isEmail)
    ensures Invariant(Insert(st, base, isEmail, body).1, isEmail)
    ensures Invariant(Update(st, base, isEmail, id, body).1, isEmail)
  {
  }
}
