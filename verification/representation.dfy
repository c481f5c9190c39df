/**
 * What the endpoints send back for one entity: the whitelisted fields, the
 * entity's links and, for students and courses, flat summaries of the other
 * side of the enrollment (never nesting that side's own collection).
 */
module Representation {
  import opened Wrappers
  import opened Entities
  import opened Persistence
  import opened Links

  /** One enrolled course as listed inside a student. */
  datatype CursoSummary = CursoSummary(id: Id, nome: string, descricao: string, cargaHoraria: int, link: string)

  /** One enrolled student as listed inside a course. */
  datatype AlunoSummary = AlunoSummary(id: Id, nome: string, email: string, sexo: Sexo, link: string)

  /** A professor entity as serialised when it is embedded (id, nome, email). */
  datatype ProfessorRecord = ProfessorRecord(id: Id, nome: string, email: string)

  /** Summaries are keyed by the peer's identifier: one per enrolled peer, in no particular order. */
  datatype AlunoRep = AlunoRep(id: Id, nome: string, email: string, sexo: Sexo,
                               links: LinkMap, cursos: map<Id, CursoSummary>)

  datatype CursoRep = CursoRep(id: Id, nome: string, descricao: string, cargaHoraria: int,
                               professor: Option<ProfessorRecord>, links: LinkMap,
                               alunos: map<Id, AlunoSummary>)

  datatype DisciplinaRep = DisciplinaRep(id: Id, nome: string, descricao: string, cargaHoraria: int,
                                         professor: Option<ProfessorRecord>, links: LinkMap)

  datatype ProfessorRep = ProfessorRep(id: Id, nome: string, email: string, links: LinkMap)

  /** The referenced professor row, or null when there is no reference. */
  function ProfessorRecordOf(st: Store, ref: Option<Id>): (r: Option<ProfessorRecord>)
    ensures r.Some? ==> ref == Some(r.value.id) && r.value.id in st.professores
    ensures r.Some? ==> r.value.nome == st.professores[r.value.id].nome
                        && r.value.email == st.professores[r.value.id].email
    ensures ref.Some? && ref.value in st.professores ==> r.Some?
  {
    match ref
    case Some(p) =>
      if p in st.professores then Some(ProfessorRecord(p, st.professores[p].nome, st.professores[p].email))
      else None
    case None => None
  }

  /** Only the course's scalar fields and a link to it: no students, so no recursion. */
  function CursoSummaryOf(base: string, id: Id, c: Curso): (s: CursoSummary)
    ensures s.id == id && s.nome == c.nome && s.descricao == c.descricao && s.cargaHoraria == c.cargaHoraria
    ensures ResolveItem(base, Cursos.Path(), s.link) == Some(id)
  {
    ItemUrlResolves(base, Cursos.Path(), id);
    CursoSummary(id, c.nome, c.descricao, c.cargaHoraria, ItemUrl(base, Cursos.Path(), id))
  }

  /** Only the student's fields and a link to it: no courses, so no recursion. */
  function AlunoSummaryOf(base: string, id: Id, a: Aluno): (s: AlunoSummary)
    ensures s.id == id && s.nome == a.nome && s.email == a.email && s.sexo == a.sexo
    ensures ResolveItem(base, Alunos.Path(), s.link) == Some(id)
  {
    ItemUrlResolves(base, Alunos.Path(), id);
    AlunoSummary(id, a.nome, a.email, a.sexo, ItemUrl(base, Alunos.Path(), id))
  }

  function AlunoFrom(st: Store, base: string, id: Id): (r: AlunoRep)
    requires id in st.alunos
    ensures r.id == id && r.nome == st.alunos[id].nome
    ensures r.email == st.alunos[id].email && r.sexo == st.alunos[id].sexo
    ensures r.links == EntityLinks(base, Alunos, id)
    ensures r.cursos.Keys == CursosDe(st, id) * st.cursos.Keys
    ensures forall c | c in r.cursos ::
              && r.cursos[c].id == c
              && r.cursos[c].nome == st.cursos[c].nome
              && r.cursos[c].descricao == st.cursos[c].descricao
              && r.cursos[c].cargaHoraria == st.cursos[c].cargaHoraria
              && ResolveItem(base, Cursos.Path(), r.cursos[c].link) == Some(c)
  {
    var a := st.alunos[id];
    var cursos := map c | c in CursosDe(st, id) && c in st.cursos :: CursoSummaryOf(base, c, st.cursos[c]);
    AlunoRep(id, a.nome, a.email, a.sexo, EntityLinks(base, Alunos, id), cursos)
  }

  function CursoFrom(st: Store, base: string, id: Id): (r: CursoRep)
    requires id in st.cursos
    ensures r.id == id && r.nome == st.cursos[id].nome
    ensures r.descricao == st.cursos[id].descricao && r.cargaHoraria == st.cursos[id].cargaHoraria
    ensures r.professor == ProfessorRecordOf(st, st.cursos[id].professor)
    ensures r.links == EntityLinks(base, Cursos, id)
    ensures r.alunos.Keys == AlunosDe(st, id) * st.alunos.Keys
    ensures forall a | a in r.alunos ::
              && r.alunos[a].id == a
              && r.alunos[a].nome == st.alunos[a].nome
              && r.alunos[a].email == st.alunos[a].email
              && r.alunos[a].sexo == st.alunos[a].sexo
              && ResolveItem(base, Alunos.Path(), r.alunos[a].link) == Some(a)
  {
    var c := st.cursos[id];
    var alunos := map a | a in AlunosDe(st, id) && a in st.alunos :: AlunoSummaryOf(base, a, st.alunos[a]);
    CursoRep(id, c.nome, c.descricao, c.cargaHoraria, ProfessorRecordOf(st, c.professor),
             EntityLinks(base, Cursos, id), alunos)
  }

  function DisciplinaFrom(st: Store, base: string, id: Id): (r: DisciplinaRep)
    requires id in st.disciplinas
    ensures r.id == id && r.nome == st.disciplinas[id].nome
    ensures r.descricao == st.disciplinas[id].descricao
    ensures r.cargaHoraria == st.disciplinas[id].cargaHoraria
    ensures r.professor == ProfessorRecordOf(st, st.disciplinas[id].professor)
    ensures r.links == EntityLinks(base, Disciplinas, id)
  {
    var d := st.disciplinas[id];
    DisciplinaRep(id, d.nome, d.descricao, d.cargaHoraria, ProfessorRecordOf(st, d.professor),
                  EntityLinks(base, Disciplinas, id))
  }

  function ProfessorFrom(st: Store, base: string, id: Id): (r: ProfessorRep)
    requires id in st.professores
    ensures r.id == id && r.nome == st.professores[id].nome && r.email == st.professores[id].email
    ensures r.links == ProfessorLinks(base, id)
  {
    var p := st.professores[id];
    ProfessorRep(id, p.nome, p.email, ProfessorLinks(base, id))
  }

  /** In a consistent database a student lists exactly the courses it is
      enrolled in, and a course exactly its students. */
  lemma SummariesMatchEnrollment(st: Store, base: string, aluno: Id, curso: Id)
    requires ForeignKeysHold(st)
    requires aluno in st.alunos && curso in st.cursos
    ensures AlunoFrom(st, base, aluno).cursos.Keys == CursosDe(st, aluno)
    ensures CursoFrom(st, base, curso).alunos.Keys == AlunosDe(st, curso)
  {
    forall c | c in CursosDe(st, aluno)
      ensures c in st.cursos
    {
      assert Matricula(aluno, c) in st.matriculas;
    }
    forall a | a in AlunosDe(st, curso)
      ensures a in st.alunos
    {
      assert Matricula(a, curso) in st.matriculas;
    }
  }

  /** The student's and the course's representations agree on the pair: each
      lists the other exactly when the pair is enrolled. */
  lemma RepresentationsAgree(st: Store, base: string, aluno: Id, curso: Id)
    requires aluno in st.alunos && curso in st.cursos
    ensures curso in AlunoFrom(st, base, aluno).cursos <==> Matriculado(st, aluno, curso)
    ensures aluno in CursoFrom(st, base, curso).alunos <==> Matriculado(st, aluno, curso)
  {
  }
}
