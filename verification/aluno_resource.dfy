/**
 * The `/alunos` endpoints: search, insert, update, delete, and the
 * student-side enrollment endpoints. Each mutating operation is one
 * transaction: it returns the reply together with the committed store.
 */
module AlunoResource {
  import opened Wrappers
  import opened Entities
  import opened Persistence
  import opened Outcomes
  import opened Representation
  import opened Links
  import opened Paging
  import opened Sorting
  import opened SearchEngine
  import opened SearchResponse
  import opened Enrollment

  /** `lower(nome) like ?1 or lower(email) like ?1` over the stored students. */
  function Keep(st: Store, q: Option<string>): Id -> bool {
    (id: Id) => id in st.alunos && Matches(q, st.alunos[id].nome, st.alunos[id].email)
  }

  /** `SearchAlunoResponse.from`'s mapping: one representation per student, in order. */
  function Render(st: Store, base: string, c: Call<Id>): (r: Call<AlunoRep>)
    requires forall i :: 0 <= i < |c.items| ==> c.items[i] in st.alunos
    ensures |r.items| == |c.items|
    ensures forall i :: 0 <= i < |c.items| ==> r.items[i] == AlunoFrom(st, base, c.items[i])
    ensures r.q == c.q && r.sort == c.sort && r.direction == c.direction && r.page == c.page
    ensures r.size == c.size && r.totalElements == c.totalElements && r.totalPages == c.totalPages
  {
    var reps := seq(|c.items|, i requires 0 <= i < |c.items| => AlunoFrom(st, base, c.items[i]));
    Call(reps, c.q, c.sort, c.direction, c.page, c.size, c.totalElements, c.totalPages)
  }

  function SearchCall(st: Store, listing: SortSpec -> seq<Id>, q: Option<string>, sort: string,
                      direction: string, page: int, size: int): (c: Call<Id>)
    requires size > 0
    ensures |c.items| <= size
    ensures var m := Filter(listing(Resolve(sort, direction, AlunoFields)), Keep(st, q));
            c.totalElements == |m| && c.items == Slice(m, PageIndex(page), size)
    ensures forall i :: 0 <= i < |c.items| ==>
              c.items[i] in st.alunos && Matches(q, st.alunos[c.items[i]].nome, st.alunos[c.items[i]].email)
    ensures c.q == q && c.sort == ResolveField(sort, AlunoFields) && c.direction == direction
    ensures c.page == page && c.size == size && c.totalPages == TotalPages(c.totalElements, size)
  {
    var keep := Keep(st, q);
    var c := Execute(listing, AlunoFields, keep, q, sort, direction, page, size);
    assert forall i :: 0 <= i < |c.items| ==> keep(c.items[i]);
    c
  }

  function Search(st: Store, listing: SortSpec -> seq<Id>, base: string, q: Option<string>,
                  sort: string, direction: string, page: int, size: int): (r: Page<AlunoRep>)
    requires size > 0
    ensures |r.items| <= size
    ensures var m := Filter(listing(Resolve(sort, direction, AlunoFields)), Keep(st, q));
            && r.pagination.totalElements == |m|
            && |r.items| == |Slice(m, PageIndex(page), size)|
            && forall i :: 0 <= i < |r.items| ==> r.items[i].id == Slice(m, PageIndex(page), size)[i]
    ensures forall i :: 0 <= i < |r.items| ==>
              var id := r.items[i].id;
              id in st.alunos && r.items[i] == AlunoFrom(st, base, id)
              && Matches(q, st.alunos[id].nome, st.alunos[id].email)
    ensures r.pagination.page == page && r.pagination.size == size
    ensures r.pagination.totalPages == TotalPages(r.pagination.totalElements, size)
    ensures r.links == SearchLinks(base, Alunos, q, ResolveField(sort, AlunoFields), direction,
                                   page, size, r.pagination.totalPages)
  {
    var c := SearchCall(st, listing, q, sort, direction, page, size);
    var rendered := Render(st, base, c);
    From(rendered, base, Alunos)
  }

  /** `listing` lists exactly the stored students, each once. */
  predicate Enumerates(xs: seq<Id>, st: Store) {
    && (forall i :: 0 <= i < |xs| ==> xs[i] in st.alunos)
    && (forall id :: id in st.alunos ==> id in xs)
    && (forall i, j :: 0 <= i < j < |xs| ==> xs[i] != xs[j])
  }

  /** Without a query the search is the plain listing: every stored student
      counts, and the page is the listing's own slice. */
  lemma BlankQueryListsAll(st: Store, listing: SortSpec -> seq<Id>, base: string, q: Option<string>,
                           sort: string, direction: string, page: int, size: int)
    requires size > 0 && NoFilter(q)
    requires Enumerates(listing(Resolve(sort, direction, AlunoFields)), st)
    ensures var xs := listing(Resolve(sort, direction, AlunoFields));
            var r := Search(st, listing, base, q, sort, direction, page, size);
            && r.pagination.totalElements == |xs|
            && |r.items| == |Slice(xs, PageIndex(page), size)|
            && forall i :: 0 <= i < |r.items| ==> r.items[i].id == Slice(xs, PageIndex(page), size)[i]
  {
    var xs := listing(Resolve(sort, direction, AlunoFields));
    FilterKeepAll(xs, Keep(st, q));
  }

  /** Over a listing of the stored students, the rows kept are as many as the
      students that match. */
  lemma KeptAreMatches(st: Store, xs: seq<Id>, q: Option<string>)
    requires Enumerates(xs, st)
    ensures |Filter(xs, Keep(st, q))| == |set id | id in st.alunos && Matches(q, st.alunos[id].nome, st.alunos[id].email)|
  {
    var keep := Keep(st, q);
    var kept := Accepted(xs, keep);
    var matching := set id | id in st.alunos && Matches(q, st.alunos[id].nome, st.alunos[id].email);
    forall id
      ensures id in kept <==> id in matching
    {
      assert keep(id) <==> id in st.alunos && Matches(q, st.alunos[id].nome, st.alunos[id].email);
      if id in matching {
        assert id in xs;
      }
    }
    assert kept == matching;
    FilterCountsDistinct(xs, keep);
    assert |Filter(xs, keep)| == |kept|;
  }

  /** For any query, the reported total is the number of stored students that
      match it on nome or email. */
  lemma TotalCountsMatches(st: Store, listing: SortSpec -> seq<Id>, base: string, q: Option<string>,
                           sort: string, direction: string, page: int, size: int)
    requires size > 0
    requires Enumerates(listing(Resolve(sort, direction, AlunoFields)), st)
    ensures Search(st, listing, base, q, sort, direction, page, size).pagination.totalElements
         == |set id | id in st.alunos && Matches(q, st.alunos[id].nome, st.alunos[id].email)|
  {
    KeptAreMatches(st, listing(Resolve(sort, direction, AlunoFields)), q);
  }

  /** An unlisted sort field gives the very response `sort=id` gives, links included. */
  lemma UnknownSortIsId(st: Store, listing: SortSpec -> seq<Id>, base: string, q: Option<string>,
                        sort: string, direction: string, page: int, size: int)
    requires size > 0 && sort !in AlunoFields
    ensures Search(st, listing, base, q, sort, direction, page, size)
         == Search(st, listing, base, q, "id", direction, page, size)
  {
  }

  /** Page 0 (or below) shows the students of page 1 with the same totals. */
  lemma LowPageIsFirstPage(st: Store, listing: SortSpec -> seq<Id>, base: string, q: Option<string>,
                           sort: string, direction: string, page: int, size: int)
    requires size > 0 && page <= 1
    ensures var r := Search(st, listing, base, q, sort, direction, page, size);
            var first := Search(st, listing, base, q, sort, direction, 1, size);
            r.items == first.items && r.pagination == first.pagination.(page := page)
  {
    SearchEngine.LowPagesShowFirstPage(listing, AlunoFields, Keep(st, q), q, sort, direction, page, size);
  }

  /** `POST /alunos`: validate, draw an identifier, store the student with no courses. */
  function Insert(st: Store, base: string, isEmail: EmailCheck, body: AlunoBody): (r: (Outcome<AlunoRep>, Store))
    ensures !AlunoBodyValid(body, isEmail) ==> r == (Fail(400, ""), st)
    ensures AlunoBodyValid(body, isEmail) ==>
              && r.0.Created? && r.0.body.id == st.nextId
              && r.1.alunos == st.alunos[st.nextId := NewAluno(body, isEmail)]
              && r.1.nextId == st.nextId + 1
              && r.1.(alunos := st.alunos, nextId := st.nextId) == st
              && r.0.body == AlunoFrom(r.1, base, st.nextId)
  {
    if !AlunoBodyValid(body, isEmail) then (Fail(400, ""), st)
    else
      var id := st.nextId;
      var st' := st.(alunos := st.alunos[id := NewAluno(body, isEmail)], nextId := id + 1);
      (Created(AlunoFrom(st', base, id)), st')
  }

  /** `PUT /alunos/{id}`: an invalid body is refused before the lookup; an
      unknown id is 404; otherwise only nome, email and sexo change. */
  function Update(st: Store, base: string, isEmail: EmailCheck, id: Id, body: AlunoBody): (r: (Outcome<AlunoRep>, Store))
    ensures !AlunoBodyValid(body, isEmail) ==> r == (Fail(400, ""), st)
    ensures AlunoBodyValid(body, isEmail) && id !in st.alunos ==> r == (Fail(404, ""), st)
    ensures AlunoBodyValid(body, isEmail) && id in st.alunos ==>
              && r.0.Ok?
              && r.1.alunos.Keys == st.alunos.Keys
              && Some(r.1.alunos[id].nome) == body.nome && Some(r.1.alunos[id].email) == body.email
              && Some(r.1.alunos[id].sexo) == body.sexo
              && (forall other | other in st.alunos && other != id :: r.1.alunos[other] == st.alunos[other])
              && r.1.(alunos := st.alunos) == st
              && r.0.body == AlunoFrom(r.1, base, id)
  {
    if !AlunoBodyValid(body, isEmail) then (Fail(400, ""), st)
    else if id !in st.alunos then (Fail(404, ""), st)
    else
      var st' := st.(alunos := st.alunos[id := NewAluno(body, isEmail)]);
      (Ok(AlunoFrom(st', base, id)), st')
  }

  /** `DELETE /alunos/{id}`: removing the owning side also removes its join rows. */
  function Delete(st: Store, id: Id): (r: (Outcome<AlunoRep>, Store))
    ensures id !in st.alunos ==> r == (Fail(404, ""), st)
    ensures id in st.alunos ==>
              && r.0 == NoContent
              && r.1.alunos.Keys == st.alunos.Keys - {id}
              && (forall other | other in r.1.alunos :: r.1.alunos[other] == st.alunos[other])
              && (forall a, c :: Matriculado(r.1, a, c) <==> Matriculado(st, a, c) && a != id)
              && r.1.(alunos := st.alunos, matriculas := st.matriculas) == st
  {
    if id !in st.alunos then (Fail(404, ""), st)
    else
      var st' := st.(alunos := st.alunos - {id},
                     matriculas := set m | m in st.matriculas && m.aluno != id);
      (NoContent, st')
  }

  /** `POST /alunos/{id}/cursos/{cursoId}`. */
  function Matricular(st: Store, base: string, alunoId: Id, cursoId: Id): (r: (Outcome<AlunoRep>, Store))
    ensures alunoId !in st.alunos ==> r == (Fail(404, AlunoNaoEncontrado), st)
    ensures alunoId in st.alunos && cursoId !in st.cursos ==> r == (Fail(404, CursoNaoEncontrado), st)
    ensures alunoId in st.alunos && cursoId in st.cursos && Matriculado(st, alunoId, cursoId) ==>
              r == (Fail(409, JaMatriculado), st)
    ensures r.0.Status() == 200 <==>
              alunoId in st.alunos && cursoId in st.cursos && !Matriculado(st, alunoId, cursoId)
    ensures r.0.Status() == 200 ==>
              && r.1 == Enroll(st, alunoId, cursoId)
              && r.0.Ok? && r.0.body == AlunoFrom(r.1, base, alunoId)
              && cursoId in r.0.body.cursos
  {
    if alunoId !in st.alunos then (Fail(404, AlunoNaoEncontrado), st)
    else if cursoId !in st.cursos then (Fail(404, CursoNaoEncontrado), st)
    else if Matriculado(st, alunoId, cursoId) then (Fail(409, JaMatriculado), st)
    else
      var st' := Enroll(st, alunoId, cursoId);
      (Ok(AlunoFrom(st', base, alunoId)), st')
  }

  /** `GET /alunos/{id}/cursos`: the student's own representation, course summaries included. */
  function ListarCursos(st: Store, base: string, alunoId: Id): (r: Outcome<AlunoRep>)
    ensures alunoId !in st.alunos ==> r == Fail(404, "")
    ensures alunoId in st.alunos ==> r == Ok(AlunoFrom(st, base, alunoId))
    ensures alunoId in st.alunos ==> r.body.cursos.Keys == CursosDe(st, alunoId) * st.cursos.Keys
  {
    if alunoId !in st.alunos then Fail(404, "") else Ok(AlunoFrom(st, base, alunoId))
  }

  /** `DELETE /alunos/{id}/cursos/{cursoId}`: a pair that is not enrolled is a 400 here. */
  function Desmatricular(st: Store, alunoId: Id, cursoId: Id): (r: (Outcome<AlunoRep>, Store))
    ensures alunoId !in st.alunos ==> r == (Fail(404, AlunoNaoEncontrado), st)
    ensures alunoId in st.alunos && cursoId !in st.cursos ==> r == (Fail(404, CursoNaoEncontrado), st)
    ensures alunoId in st.alunos && cursoId in st.cursos && !Matriculado(st, alunoId, cursoId) ==>
              r == (Fail(400, NaoMatriculado), st)
    ensures r.0 == NoContent <==>
              alunoId in st.alunos && cursoId in st.cursos && Matriculado(st, alunoId, cursoId)
    ensures r.0 == NoContent ==> r.1 == Unenroll(st, alunoId, cursoId) && !Matriculado(r.1, alunoId, cursoId)
  {
    if alunoId !in st.alunos then (Fail(404, AlunoNaoEncontrado), st)
    else if cursoId !in st.cursos then (Fail(404, CursoNaoEncontrado), st)
    else if !Matriculado(st, alunoId, cursoId) then (Fail(400, NaoMatriculado), st)
    else (NoContent, Unenroll(st, alunoId, cursoId))
  }

  /** Every `/alunos` mutation leaves a well-formed database well-formed. */
  lemma InsertKeepsInvariant(st: Store, base: string, isEmail: EmailCheck, body: AlunoBody)
    requires Invariant(st, isEmail)
    ensures Invariant(Insert(st, base, isEmail, body).1, isEmail)
  {
  }

  lemma UpdateKeepsInvariant(st: Store, base: string, isEmail: EmailCheck, id: Id, body: AlunoBody)
    requires Invariant(st, isEmail)
    ensures Invariant(Update(st, base, isEmail, id, body).1, isEmail)
  {
  }

  lemma DeleteKeepsInvariant(st: Store, id: Id, isEmail: EmailCheck)
    requires Invariant(st, isEmail)
    ensures Invariant(Delete(st, id).1, isEmail)
  {
  }

  lemma EnrollmentEndpointsKeepInvariant(st: Store, base: string, isEmail: EmailCheck, alunoId: Id, cursoId: Id)
    requires Invariant(st, isEmail)
    ensures Invariant(Matricular(st, base, alunoId, cursoId).1, isEmail)
    ensures Invariant(Desmatricular(st, alunoId, cursoId).1, isEmail)
  {
    EnrollmentKeepsInvariant(st, isEmail, alunoId, cursoId);
  }

  /** A new student starts with no courses: its representation lists none. */
  lemma InsertedHasNoCourses(st: Store, base: string, isEmail: EmailCheck, body: AlunoBody)
    requires Invariant(st, isEmail) && AlunoBodyValid(body, isEmail)
    ensures Insert(st, base, isEmail, body).0.body.cursos == map[]
    ensures CursosDe(Insert(st, base, isEmail, body).1, st.nextId) == {}
  {
    NextIdIsFresh(st, isEmail);
  }

  /** Updating keeps the student's enrollments, and repeating an update changes nothing more. */
  lemma UpdateKeepsCoursesAndIsIdempotent(st: Store, base: string, isEmail: EmailCheck, id: Id, body: AlunoBody)
    ensures var st' := Update(st, base, isEmail, id, body).1;
            && CursosDe(st', id) == CursosDe(st, id)
            && Update(st', base, isEmail, id, body).1 == st'
  {
  }
}
