/**
 * The database as the endpoints see it: one table per entity, the
 * `aluno_curso` join table as a set of pairs, and the identifier sequence.
 * `Aluno.cursos` (the owning side) and `Curso.alunos` (the `mappedBy` side)
 * are both views of the one join table.
 */
module Persistence {
  import opened Wrappers
  import opened Entities
  import opened Outcomes

  /** One row of `aluno_curso`. */
  datatype Matricula = Matricula(aluno: Id, curso: Id)

  datatype Store = Store(
    alunos: map<Id, Aluno>,
    cursos: map<Id, Curso>,
    professores: map<Id, Professor>,
    disciplinas: map<Id, Disciplina>,
    matriculas: set<Matricula>,
    nextId: Id)

  /** A fresh database: every table empty, the sequence at 1. */
  const Empty: Store := Store(map[], map[], map[], map[], {}, 1)

  predicate Matriculado(st: Store, aluno: Id, curso: Id) {
    Matricula(aluno, curso) in st.matriculas
  }

  /** `aluno.cursos`: the courses the student is enrolled in. */
  function CursosDe(st: Store, aluno: Id): (ids: set<Id>)
    ensures forall c :: c in ids <==> Matriculado(st, aluno, c)
  {
    set m | m in st.matriculas && m.aluno == aluno :: m.curso
  }

  /** `curso.alunos`: the students enrolled in the course. */
  function AlunosDe(st: Store, curso: Id): (ids: set<Id>)
    ensures forall a :: a in ids <==> Matriculado(st, a, curso)
  {
    set m | m in st.matriculas && m.curso == curso :: m.aluno
  }

  /** The two views always agree: a course lists a student iff the student lists the course. */
  lemma ViewsAgree(st: Store, aluno: Id, curso: Id)
    ensures curso in CursosDe(st, aluno) <==> aluno in AlunosDe(st, curso)
  {
  }

  /** Every join row and every professor reference points at an existing row. */
  predicate ForeignKeysHold(st: Store) {
    && (forall m | m in st.matriculas :: m.aluno in st.alunos && m.curso in st.cursos)
    && (forall c | c in st.cursos && st.cursos[c].professor.Some? ::
          st.cursos[c].professor.value in st.professores)
    && (forall d | d in st.disciplinas && st.disciplinas[d].professor.Some? ::
          st.disciplinas[d].professor.value in st.professores)
  }

  /** `coordenador_id` is unique: a professor coordinates at most one course. */
  predicate CoordinatorUnique(st: Store) {
    forall c1, c2 | c1 in st.cursos && c2 in st.cursos && c1 != c2 && st.cursos[c1].professor.Some? ::
      st.cursos[c1].professor != st.cursos[c2].professor
  }

  /** What the database enforces when a transaction commits. */
  predicate Consistent(st: Store) {
    ForeignKeysHold(st) && CoordinatorUnique(st)
  }

  /** The sequence has never handed out `nextId` or anything above it. */
  predicate IdsBelowNext(st: Store) {
    && (forall id | id in st.alunos :: id < st.nextId)
    && (forall id | id in st.cursos :: id < st.nextId)
    && (forall id | id in st.professores :: id < st.nextId)
    && (forall id | id in st.disciplinas :: id < st.nextId)
  }

  /** Every stored row passed bean validation. */
  predicate FieldsValid(st: Store, isEmail: EmailCheck) {
    && (forall id | id in st.alunos :: AlunoValid(st.alunos[id], isEmail))
    && (forall id | id in st.cursos :: CursoValid(st.cursos[id]))
    && (forall id | id in st.professores :: ProfessorValid(st.professores[id], isEmail))
    && (forall id | id in st.disciplinas :: DisciplinaValid(st.disciplinas[id]))
  }

  /** The state every request starts from and, as the lemmas show, leaves behind. */
  predicate Invariant(st: Store, isEmail: EmailCheck) {
    Consistent(st) && IdsBelowNext(st) && FieldsValid(st, isEmail)
  }

  /** `@Transactional`: the changes become visible only if the database accepts
      them at commit; otherwise everything is rolled back. */
  function Commit<T>(before: Store, after: Store, reply: Outcome<T>): (r: (Outcome<T>, Store))
    ensures Consistent(after) ==> r == (reply, after)
    ensures !Consistent(after) ==> r.1 == before && r.0.Status() == RolledBack
  {
    if Consistent(after) then (reply, after) else (Fail(RolledBack, ""), before)
  }

  /** A freshly drawn identifier names no row of any table. */
  lemma NextIdIsFresh(st: Store, isEmail: EmailCheck)
    requires Invariant(st, isEmail)
    ensures st.nextId !in st.alunos && st.nextId !in st.cursos
    ensures st.nextId !in st.professores && st.nextId !in st.disciplinas
    ensures CursosDe(st, st.nextId) == {} && AlunosDe(st, st.nextId) == {}
  {
  }

  lemma EmptyHoldsInvariant(isEmail: EmailCheck)
    ensures Invariant(Empty, isEmail)
  {
  }
}
