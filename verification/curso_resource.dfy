/**
 * The `/cursos` endpoints: search, insert, update, delete, and the
 * course-side enrollment endpoints. Writes that can break a foreign key or
 * the unique coordinator column only take effect if the commit accepts them.
 */
module CursoResource {
  import opened Wrappers
  import opened Entities
  import opened Persistence
  import opened Outcomes
  import opened Representation
  import opened Links
  import opened Paging
  import opened Sorting
  import opened SearchEngine
  import opened SearchResponse
  import opened Enrollment

  /** `lower(nome) like ?1 or lower(descricao) like ?1` over the stored courses. */
  function Keep(st: Store, q: Option<string>): Id -> bool {
    (id: Id) => id in st.cursos && Matches(q, st.cursos[id].nome, st.cursos[id].descricao)
  }

  function SearchCall(st: Store, listing: SortSpec -> seq<Id>, q: Option<string>, sort: string,
                      direction: string, page: int, size: int): (c: Call<Id>)
    requires size > 0
    ensures |c.items| <= size
    ensures var m := Filter(listing(Resolve(sort, direction, CursoFields)), Keep(st, q));
            c.totalElements == |m| && c.items == Slice(m, PageIndex(page), size)
    ensures forall i :: 0 <= i < |c.items| ==>
              c.items[i] in st.cursos && Matches(q, st.cursos[c.items[i]].nome, st.cursos[c.items[i]].descricao)
    ensures c.q == q && c.sort == ResolveField(sort, CursoFields) && c.direction == direction
    ensures c.page == page && c.size == size && c.totalPages == TotalPages(c.totalElements, size)
  {
    var keep := Keep(st, q);
    var c := Execute(listing, CursoFields, keep, q, sort, direction, page, size);
    assert forall i :: 0 <= i < |c.items| ==> keep(c.items[i]);
    c
  }

  /** `SearchCursoResponse.from`'s mapping: one representation per course, in order. */
  function Render(st: Store, base: string, c: Call<Id>): (r: Call<CursoRep>)
    requires forall i :: 0 <= i < |c.items| ==> c.items[i] in st.cursos
    ensures |r.items| == |c.items|
    ensures forall i :: 0 <= i < |c.items| ==> r.items[i] == CursoFrom(st, base, c.items[i])
    ensures r.q == c.q && r.sort == c.sort && r.direction == c.direction && r.page == c.page
    ensures r.size == c.size && r.totalElements == c.totalElements && r.totalPages == c.totalPages
  {
    var reps := seq(|c.items|, i requires 0 <= i < |c.items| => CursoFrom(st, base, c.items[i]));
    Call(reps, c.q, c.sort, c.direction, c.page, c.size, c.totalElements, c.totalPages)
  }

  function Search(st: Store, listing: SortSpec -> seq<Id>, base: string, q: Option<string>,
                  sort: string, direction: string, page: int, size: int): (r: Page<CursoRep>)
    requires size > 0
    ensures |r.items| <= size
    ensures var m := Filter(listing(Resolve(sort, direction, CursoFields)), Keep(st, q));
            && r.pagination.totalElements == |m|
            && |r.items| == |Slice(m, PageIndex(page), size)|
            && forall i :: 0 <= i < |r.items| ==> r.items[i].id == Slice(m, PageIndex(page), size)[i]
    ensures forall i :: 0 <= i < |r.items| ==>
              var id := r.items[i].id;
              id in st.cursos && r.items[i] == CursoFrom(st, base, id)
              && Matches(q, st.cursos[id].nome, st.cursos[id].descricao)
    ensures r.pagination.page == page && r.pagination.size == size
    ensures r.pagination.totalPages == TotalPages(r.pagination.totalElements, size)
    ensures r.links == SearchLinks(base, Cursos, q, ResolveField(sort, CursoFields), direction,
                                   page, size, r.pagination.totalPages)
  {
    var c := SearchCall(st, listing, q, sort, direction, page, size);
    var rendered := Render(st, base, c);
    From(rendered, base, Cursos)
  }

  /** An unlisted sort field gives the very response `sort=id` gives, links included. */
  lemma UnknownSortIsId(st: Store, listing: SortSpec -> seq<Id>, base: string, q: Option<string>,
                        sort: string, direction: string, page: int, size: int)
    requires size > 0 && sort !in CursoFields
    ensures Search(st, listing, base, q, sort, direction, page, size)
         == Search(st, listing, base, q, "id", direction, page, size)
  {
  }

  /** The course may name this professor as coordinator: no professor at all, or
      an existing one who coordinates no other course. */
  predicate CoordinatorFree(st: Store, professor: Option<Id>, self: Option<Id>) {
    professor.Some? ==>
      && professor.value in st.professores
      && forall other | other in st.cursos && Some(other) != self :: st.cursos[other].professor != professor
  }

  /** The store with `c` written under `id`. */
  function Put(st: Store, id: Id, c: Curso): (r: Store)
    ensures r.cursos == st.cursos[id := c] && r.(cursos := st.cursos) == st
  {
    st.(cursos := st.cursos[id := c])
  }

  /** Writing a course into a consistent store passes the commit exactly when
      its coordinator is free. */
  lemma PutConsistentIff(st: Store, id: Id, c: Curso)
    requires Consistent(st)
    requires forall m | m in st.matriculas :: m.curso != id || id in st.cursos
    ensures Consistent(Put(st, id, c)) <==> CoordinatorFree(st, c.professor, Some(id))
  {
    var after := Put(st, id, c);
    if c.professor.Some? && !CoordinatorFree(st, c.professor, Some(id)) {
      if c.professor.value in st.professores {
        var other :| other in st.cursos && Some(other) != Some(id) && st.cursos[other].professor == c.professor;
        assert other in after.cursos && id in after.cursos && after.cursos[other].professor == after.cursos[id].professor;
        assert !CoordinatorUnique(after);
      } else {
        assert id in after.cursos && after.cursos[id].professor.Some?;
        assert !ForeignKeysHold(after);
      }
    }
  }

  /** `POST /cursos`: validate, draw an identifier, and commit. */
  function Insert(st: Store, base: string, body: CursoBody): (r: (Outcome<CursoRep>, Store))
    ensures !CursoBodyValid(body) ==> r == (Fail(400, ""), st)
    ensures r.0.Created? ==>
              && r.0.body.id == st.nextId
              && r.1 == Put(st, st.nextId, NewCurso(body)).(nextId := st.nextId + 1)
              && r.0.body == CursoFrom(r.1, base, st.nextId)
    ensures !r.0.Created? ==> r.1 == st
  {
    if !CursoBodyValid(body) then (Fail(400, ""), st)
    else
      var id := st.nextId;
      var st' := Put(st, id, NewCurso(body)).(nextId := id + 1);
      Commit(st, st', Created(CursoFrom(st', base, id)))
  }

  /** In a well-formed store, a valid course is created exactly when its
      coordinator is free; otherwise the commit fails and nothing changes. */
  lemma InsertSucceedsIff(st: Store, base: string, isEmail: EmailCheck, body: CursoBody)
    requires Invariant(st, isEmail) && CursoBodyValid(body)
    ensures Insert(st, base, body).0.Created? <==> CoordinatorFree(st, body.professor, None)
    ensures Invariant(Insert(st, base, body).1, isEmail)
  {
    NextIdIsFresh(st, isEmail);
    PutConsistentIff(st, st.nextId, NewCurso(body));
    assert CoordinatorFree(st, body.professor, None) <==> CoordinatorFree(st, body.professor, Some(st.nextId));
  }

  /** `PUT /cursos/{id}`: nome, descricao, cargaHoraria and professor are
      overwritten; the identifier and the enrolled students stay. */
  function Update(st: Store, base: string, id: Id, body: CursoBody): (r: (Outcome<CursoRep>, Store))
    ensures !CursoBodyValid(body) ==> r == (Fail(400, ""), st)
    ensures CursoBodyValid(body) && id !in st.cursos ==> r == (Fail(404, ""), st)
    ensures r.0.Ok? ==>
              && id in st.cursos
              && r.1 == Put(st, id, NewCurso(body))
              && r.0.body == CursoFrom(r.1, base, id)
    ensures !r.0.Ok? ==> r.1 == st
  {
    if !CursoBodyValid(body) then (Fail(400, ""), st)
    else if id !in st.cursos then (Fail(404, ""), st)
    else
      var st' := Put(st, id, NewCurso(body));
      Commit(st, st', Ok(CursoFrom(st', base, id)))
  }

  /** An update of an existing course commits exactly when the new coordinator
      is free; its students are the same before and after. */
  lemma UpdateSucceedsIff(st: Store, base: string, isEmail: EmailCheck, id: Id, body: CursoBody)
    requires Invariant(st, isEmail) && CursoBodyValid(body) && id in st.cursos
    ensures Update(st, base, id, body).0.Ok? <==> CoordinatorFree(st, body.professor, Some(id))
    ensures AlunosDe(Update(st, base, id, body).1, id) == AlunosDe(st, id)
    ensures Invariant(Update(st, base, id, body).1, isEmail)
  {
    PutConsistentIff(st, id, NewCurso(body));
  }

  /** `DELETE /cursos/{id}`: the inverse side does not remove join rows, so a
      course with students fails the commit. */
  function Delete(st: Store, id: Id): (r: (Outcome<CursoRep>, Store))
    ensures id !in st.cursos ==> r == (Fail(404, ""), st)
    ensures r.0 == NoContent ==> id in st.cursos && r.1 == st.(cursos := st.cursos - {id})
    ensures r.0 != NoContent ==> r.1 == st
  {
    if id !in st.cursos then (Fail(404, ""), st)
    else Commit(st, st.(cursos := st.cursos - {id}), NoContent)
  }

  lemma DeleteSucceedsIff(st: Store, isEmail: EmailCheck, id: Id)
    requires Invariant(st, isEmail) && id in st.cursos
    ensures Delete(st, id).0 == NoContent <==> AlunosDe(st, id) == {}
    ensures Invariant(Delete(st, id).1, isEmail)
  {
    if a :| a in AlunosDe(st, id) {
      assert Matricula(a, id) in st.matriculas;
      assert !ForeignKeysHold(st.(cursos := st.cursos - {id}));
    } else {
      forall m | m in st.matriculas
        ensures m.curso != id
      {
        assert m.curso == id ==> m.aluno in AlunosDe(st, id);
      }
      assert Consistent(st.(cursos := st.cursos - {id}));
    }
  }

  /** `POST /cursos/{id}/alunos/{alunoId}`: course checked first, then student. */
  function Matricular(st: Store, base: string, cursoId: Id, alunoId: Id): (r: (Outcome<CursoRep>, Store))
    ensures cursoId !in st.cursos ==> r == (Fail(404, CursoNaoEncontrado), st)
    ensures cursoId in st.cursos && alunoId !in st.alunos ==> r == (Fail(404, AlunoNaoEncontrado), st)
    ensures cursoId in st.cursos && alunoId in st.alunos && Matriculado(st, alunoId, cursoId) ==>
              r == (Fail(409, JaMatriculado), st)
    ensures r.0.Status() == 200 <==>
              cursoId in st.cursos && alunoId in st.alunos && !Matriculado(st, alunoId, cursoId)
    ensures r.0.Status() == 200 ==>
              && r.1 == Enroll(st, alunoId, cursoId)
              && r.0.Ok? && r.0.body == CursoFrom(r.1, base, cursoId)
              && alunoId in r.0.body.alunos
  {
    if cursoId !in st.cursos then (Fail(404, CursoNaoEncontrado), st)
    else if alunoId !in st.alunos then (Fail(404, AlunoNaoEncontrado), st)
    else if alunoId in AlunosDe(st, cursoId) then (Fail(409, JaMatriculado), st)
    else
      var st' := Enroll(st, alunoId, cursoId);
      (Ok(CursoFrom(st', base, cursoId)), st')
  }

  /** The same endpoint with the reply the code actually builds. The duplicate
      check loads the course's student collection before the pair is added on
      the student (owning) side, and the re-fetch hands back that same managed
      course, so the reply lists the students enrolled before the request.
      Status and committed store are those of `Matricular`. */
  function MatricularAsWritten(st: Store, base: string, cursoId: Id, alunoId: Id): (r: (Outcome<CursoRep>, Store))
    ensures r.1 == Matricular(st, base, cursoId, alunoId).1
    ensures r.0.Status() == Matricular(st, base, cursoId, alunoId).0.Status()
    ensures r.0.Ok? ==> cursoId in st.cursos && r.0.body == CursoFrom(st, base, cursoId)
  {
    if cursoId !in st.cursos then (Fail(404, CursoNaoEncontrado), st)
    else if alunoId !in st.alunos then (Fail(404, AlunoNaoEncontrado), st)
    else if alunoId in AlunosDe(st, cursoId) then (Fail(409, JaMatriculado), st)
    else (Ok(CursoFrom(st, base, cursoId)), Enroll(st, alunoId, cursoId))
  }

  /** Whenever the enrollment succeeds, the reply as written leaves out the very
      student just enrolled, although the committed store has the pair. */
  lemma AsWrittenReplyOmitsNewStudent(st: Store, base: string, cursoId: Id, alunoId: Id)
    requires MatricularAsWritten(st, base, cursoId, alunoId).0.Status() == 200
    ensures alunoId !in MatricularAsWritten(st, base, cursoId, alunoId).0.body.alunos
    ensures Matriculado(MatricularAsWritten(st, base, cursoId, alunoId).1, alunoId, cursoId)
    ensures alunoId in Matricular(st, base, cursoId, alunoId).0.body.alunos
  {
  }

  /** `GET /cursos/{id}/alunos`: the course's own representation, student summaries included. */
  function ListarAlunos(st: Store, base: string, cursoId: Id): (r: Outcome<CursoRep>)
    ensures cursoId !in st.cursos ==> r == Fail(404, "")
    ensures cursoId in st.cursos ==> r == Ok(CursoFrom(st, base, cursoId))
    ensures cursoId in st.cursos ==> r.body.alunos.Keys == AlunosDe(st, cursoId) * st.alunos.Keys
  {
    if cursoId !in st.cursos then Fail(404, "") else Ok(CursoFrom(st, base, cursoId))
  }

  /** `DELETE /cursos/{id}/alunos/{alunoId}`: a pair that is not enrolled is a 404 here. */
  function Desmatricular(st: Store, cursoId: Id, alunoId: Id): (r: (Outcome<CursoRep>, Store))
    ensures cursoId !in st.cursos ==> r == (Fail(404, CursoNaoEncontrado), st)
    ensures cursoId in st.cursos && alunoId !in st.alunos ==> r == (Fail(404, AlunoNaoEncontrado), st)
    ensures cursoId in st.cursos && alunoId in st.alunos && !Matriculado(st, alunoId, cursoId) ==>
              r == (Fail(404, NaoMatriculado), st)
    ensures r.0 == NoContent <==>
              cursoId in st.cursos && alunoId in st.alunos && Matriculado(st, alunoId, cursoId)
    ensures r.0 == NoContent ==> r.1 == Unenroll(st, alunoId, cursoId) && alunoId !in AlunosDe(r.1, cursoId)
  {
    if cursoId !in st.cursos then (Fail(404, CursoNaoEncontrado), st)
    else if alunoId !in st.alunos then (Fail(404, AlunoNaoEncontrado), st)
    else if alunoId !in AlunosDe(st, cursoId) then (Fail(404, NaoMatriculado), st)
    else (NoContent, Unenroll(st, alunoId, cursoId))
  }
}
