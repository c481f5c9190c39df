/**
 * The enrollment state machine of one (student, course) pair: enrolled or
 * not. Both resources change it through the student's side
 * (`aluno.cursos.add` / `aluno.cursos.remove`), which here is one insertion
 * into, or removal from, the join table.
 */
module Enrollment {
  import opened Entities
  import opened Persistence

  const AlunoNaoEncontrado: string := "Aluno não encontrado"
  const CursoNaoEncontrado: string := "Curso não encontrado"
  const JaMatriculado: string := "Aluno já está matriculado neste curso"
  const NaoMatriculado: string := "Aluno não está matriculado neste curso"

  /** The store with the pair enrolled; nothing else changes. */
  function Enroll(st: Store, aluno: Id, curso: Id): (r: Store)
    ensures forall a, c :: Matriculado(r, a, c) <==> Matriculado(st, a, c) || (a == aluno && c == curso)
    ensures r.(matriculas := st.matriculas) == st
  {
    st.(matriculas := st.matriculas + {Matricula(aluno, curso)})
  }

  /** The store with the pair no longer enrolled; nothing else changes. */
  function Unenroll(st: Store, aluno: Id, curso: Id): (r: Store)
    ensures forall a, c :: Matriculado(r, a, c) <==> Matriculado(st, a, c) && !(a == aluno && c == curso)
    ensures r.(matriculas := st.matriculas) == st
  {
    st.(matriculas := st.matriculas - {Matricula(aluno, curso)})
  }

  /** Enrolling and then unenrolling a pair that was not enrolled restores the store. */
  lemma UnenrollUndoesEnroll(st: Store, aluno: Id, curso: Id)
    requires !Matriculado(st, aluno, curso)
    ensures Unenroll(Enroll(st, aluno, curso), aluno, curso) == st
  {
    assert Unenroll(Enroll(st, aluno, curso), aluno, curso).matriculas == st.matriculas;
  }

  /** Unenrolling and then re-enrolling an enrolled pair restores the store. */
  lemma EnrollUndoesUnenroll(st: Store, aluno: Id, curso: Id)
    requires Matriculado(st, aluno, curso)
    ensures Enroll(Unenroll(st, aluno, curso), aluno, curso) == st
  {
    assert Enroll(Unenroll(st, aluno, curso), aluno, curso).matriculas == st.matriculas;
  }

  /** Enrolling a pair of existing rows keeps the database consistent, and so
      does any unenrollment. */
  lemma EnrollmentKeepsInvariant(st: Store, isEmail: EmailCheck, aluno: Id, curso: Id)
    requires Invariant(st, isEmail)
    ensures aluno in st.alunos && curso in st.cursos ==> Invariant(Enroll(st, aluno, curso), isEmail)
    ensures Invariant(Unenroll(st, aluno, curso), isEmail)
  {
  }
}
