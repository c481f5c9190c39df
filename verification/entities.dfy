/**
 * The four persistent entities and the request bodies that create or
 * overwrite them. An entity's identifier is the key it is stored under (see
 * Persistence), so it is not a field here; the student/course enrollment is a
 * relation of its own, so neither side carries a collection.
 */
module Entities {
  import opened Wrappers

  /** Identifiers handed out by the database sequence (a Java `long`). */
  type Id = nat

  /** The only two values of the student's sex. */
  datatype Sexo = Masculino | Feminino

  datatype Aluno = Aluno(nome: string, email: string, sexo: Sexo)

  /** `professor` is the coordinating professor, if any (column `coordenador_id`). */
  datatype Curso = Curso(nome: string, descricao: string, cargaHoraria: int, professor: Option<Id>)

  datatype Professor = Professor(nome: string, email: string)

  /** `professor` is the owning professor, if any; many subjects may share one. */
  datatype Disciplina = Disciplina(nome: string, descricao: string, cargaHoraria: int, professor: Option<Id>)

  /** JSON bodies as bound by the framework: reference fields may be null,
      a missing `cargaHoraria` reads as 0. */
  datatype AlunoBody = AlunoBody(nome: Option<string>, email: Option<string>, sexo: Option<Sexo>)
  datatype CursoBody = CursoBody(nome: Option<string>, descricao: Option<string>, cargaHoraria: int, professor: Option<Id>)
  datatype ProfessorBody = ProfessorBody(nome: Option<string>, email: Option<string>)
  datatype DisciplinaBody = DisciplinaBody(nome: Option<string>, descricao: Option<string>, cargaHoraria: int, professor: Option<Id>)

  /** `@Email` is not modelled: every check takes the address predicate as a parameter. */
  type EmailCheck = string -> bool

  const NomeMin := 2
  const NomeMax := 100
  const DescricaoMin := 2
  const DescricaoMax := 200
  const CursoHorasMin := 2400
  const CursoHorasMax := 7200
  const DisciplinaHorasMin := 30
  const DisciplinaHorasMax := 100

  /** `@NotNull` together with `@Size(min, max)`. */
  predicate PresentWithSize(s: Option<string>, min: nat, max: nat) {
    s.Some? && min <= |s.value| <= max
  }

  /** `@NotNull` together with `@Email`. */
  predicate PresentEmail(s: Option<string>, isEmail: EmailCheck) {
    s.Some? && isEmail(s.value)
  }

  // Bean validation of request bodies.

  predicate AlunoBodyValid(b: AlunoBody, isEmail: EmailCheck) {
    && PresentWithSize(b.nome, NomeMin, NomeMax)
    && PresentEmail(b.email, isEmail)
    && b.sexo.Some?
  }

  predicate CursoBodyValid(b: CursoBody) {
    && PresentWithSize(b.nome, NomeMin, NomeMax)
    && PresentWithSize(b.descricao, DescricaoMin, DescricaoMax)
    && CursoHorasMin <= b.cargaHoraria <= CursoHorasMax
  }

  predicate ProfessorBodyValid(b: ProfessorBody, isEmail: EmailCheck) {
    && PresentWithSize(b.nome, NomeMin, NomeMax)
    && PresentEmail(b.email, isEmail)
  }

  predicate DisciplinaBodyValid(b: DisciplinaBody) {
    && PresentWithSize(b.nome, NomeMin, NomeMax)
    && PresentWithSize(b.descricao, DescricaoMin, DescricaoMax)
    && DisciplinaHorasMin <= b.cargaHoraria <= DisciplinaHorasMax
  }

  // The same constraints, stated of stored entities (whose strings are never null).

  predicate AlunoValid(a: Aluno, isEmail: EmailCheck) {
    NomeMin <= |a.nome| <= NomeMax && isEmail(a.email)
  }

  predicate CursoValid(c: Curso) {
    && NomeMin <= |c.nome| <= NomeMax
    && DescricaoMin <= |c.descricao| <= DescricaoMax
    && CursoHorasMin <= c.cargaHoraria <= CursoHorasMax
  }

  predicate ProfessorValid(p: Professor, isEmail: EmailCheck) {
    NomeMin <= |p.nome| <= NomeMax && isEmail(p.email)
  }

  predicate DisciplinaValid(d: Disciplina) {
    && NomeMin <= |d.nome| <= NomeMax
    && DescricaoMin <= |d.descricao| <= DescricaoMax
    && DisciplinaHorasMin <= d.cargaHoraria <= DisciplinaHorasMax
  }

  // The entity constructors, applied to a validated body.

  function NewAluno(b: AlunoBody, isEmail: EmailCheck): (a: Aluno)
    requires AlunoBodyValid(b, isEmail)
    ensures AlunoValid(a, isEmail)
    ensures Some(a.nome) == b.nome && Some(a.email) == b.email && Some(a.sexo) == b.sexo
  {
    Aluno(b.nome.value, b.email.value, b.sexo.value)
  }

  function NewCurso(b: CursoBody): (c: Curso)
    requires CursoBodyValid(b)
    ensures CursoValid(c)
    ensures Some(c.nome) == b.nome && Some(c.descricao) == b.descricao
    ensures c.cargaHoraria == b.cargaHoraria && c.professor == b.professor
  {
    Curso(b.nome.value, b.descricao.value, b.cargaHoraria, b.professor)
  }

  function NewProfessor(b: ProfessorBody, isEmail: EmailCheck): (p: Professor)
    requires ProfessorBodyValid(b, isEmail)
    ensures ProfessorValid(p, isEmail)
    ensures Some(p.nome) == b.nome && Some(p.email) == b.email
  {
    Professor(b.nome.value, b.email.value)
  }

  function NewDisciplina(b: DisciplinaBody): (d: Disciplina)
    requires DisciplinaBodyValid(b)
    ensures DisciplinaValid(d)
    ensures Some(d.nome) == b.nome && Some(d.descricao) == b.descricao
    ensures d.cargaHoraria == b.cargaHoraria && d.professor == b.professor
  {
    Disciplina(b.nome.value, b.descricao.value, b.cargaHoraria, b.professor)
  }
}
