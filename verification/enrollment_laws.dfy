/**
 * The enrollment relation can be driven from either end: `/alunos/{id}/cursos/{cursoId}`
 * and `/cursos/{id}/alunos/{alunoId}`. These lemmas relate the two ends to each
 * other and each endpoint to its inverse.
 */
module EnrollmentLaws {
  import opened Wrappers
  import opened Entities
  import opened Persistence
  import opened Outcomes
  import opened Enrollment
  import AlunoResource
  import CursoResource

  /** Enrolling from either end gives the same store and the same status. */
  lemma MatricularSidesAgree(st: Store, base: string, aluno: Id, curso: Id)
    ensures AlunoResource.Matricular(st, base, aluno, curso).1 == CursoResource.Matricular(st, base, curso, aluno).1
    ensures AlunoResource.Matricular(st, base, aluno, curso).0.Status()
         == CursoResource.Matricular(st, base, curso, aluno).0.Status()
  {
  }

  /** Unenrolling from either end gives the same store; the statuses differ
      exactly when both rows exist but are not enrolled (400 against 404). */
  lemma DesmatricularSidesAgree(st: Store, aluno: Id, curso: Id)
    ensures AlunoResource.Desmatricular(st, aluno, curso).1 == CursoResource.Desmatricular(st, curso, aluno).1
    ensures var a := AlunoResource.Desmatricular(st, aluno, curso).0.Status();
            var c := CursoResource.Desmatricular(st, curso, aluno).0.Status();
            (a != c <==> aluno in st.alunos && curso in st.cursos && !Matriculado(st, aluno, curso))
            && (a != c ==> a == 400 && c == 404)
  {
  }

  /** A successful enrollment is undone by an unenrollment from either end. */
  lemma DesmatricularUndoesMatricular(st: Store, base: string, aluno: Id, curso: Id)
    requires AlunoResource.Matricular(st, base, aluno, curso).0.Status() == 200
    ensures var st' := AlunoResource.Matricular(st, base, aluno, curso).1;
            && AlunoResource.Desmatricular(st', aluno, curso) == (NoContent, st)
            && CursoResource.Desmatricular(st', curso, aluno) == (NoContent, st)
  {
    UnenrollUndoesEnroll(st, aluno, curso);
  }

  /** A successful unenrollment is undone by an enrollment from either end. */
  lemma MatricularUndoesDesmatricular(st: Store, base: string, aluno: Id, curso: Id)
    requires AlunoResource.Desmatricular(st, aluno, curso).0 == NoContent
    ensures var st' := AlunoResource.Desmatricular(st, aluno, curso).1;
            && AlunoResource.Matricular(st', base, aluno, curso).0.Status() == 200
            && AlunoResource.Matricular(st', base, aluno, curso).1 == st
            && CursoResource.Matricular(st', base, curso, aluno).1 == st
  {
    EnrollUndoesUnenroll(st, aluno, curso);
  }

  /** Enrolling twice: the second request is a 409 and changes nothing. */
  lemma SecondMatricularConflicts(st: Store, base: string, aluno: Id, curso: Id)
    requires AlunoResource.Matricular(st, base, aluno, curso).0.Status() == 200
    ensures var st' := AlunoResource.Matricular(st, base, aluno, curso).1;
            && AlunoResource.Matricular(st', base, aluno, curso) == (Fail(409, JaMatriculado), st')
            && CursoResource.Matricular(st', base, curso, aluno) == (Fail(409, JaMatriculado), st')
  {
  }

  /** Unenrolling twice: the second request fails and changes nothing. */
  lemma SecondDesmatricularFails(st: Store, aluno: Id, curso: Id)
    requires AlunoResource.Desmatricular(st, aluno, curso).0 == NoContent
    ensures var st' := AlunoResource.Desmatricular(st, aluno, curso).1;
            && AlunoResource.Desmatricular(st', aluno, curso) == (Fail(400, NaoMatriculado), st')
            && CursoResource.Desmatricular(st', curso, aluno) == (Fail(404, NaoMatriculado), st')
  {
  }

  /** After an enrollment the pair shows up in both listings: the student's
      courses and the course's students. */
  lemma EnrollmentVisibleFromBothEnds(st: Store, base: string, aluno: Id, curso: Id)
    requires AlunoResource.Matricular(st, base, aluno, curso).0.Status() == 200
    ensures var st' := AlunoResource.Matricular(st, base, aluno, curso).1;
            && curso in AlunoResource.ListarCursos(st', base, aluno).body.cursos
            && aluno in CursoResource.ListarAlunos(st', base, curso).body.alunos
  {
    var st' := AlunoResource.Matricular(st, base, aluno, curso).1;
    assert Matriculado(st', aluno, curso);
  }

  /** Student Ana (id 1) and course Calc (id 2), nobody enrolled. */
  const AnaAndCalc: Store := Store(map[1 := Aluno("Ana", "ana@x.com", Feminino)],
                                   map[2 := Curso("Calc", "...", 2400, None)],
                                   map[], map[], {}, 3)

  /** Creating the student and then the course in an empty database leads to `AnaAndCalc`. */
  lemma ScenarioSetup(base: string, isEmail: EmailCheck)
    requires isEmail("ana@x.com")
    ensures var s1 := AlunoResource.Insert(Empty, base, isEmail,
                                           AlunoBody(Some("Ana"), Some("ana@x.com"), Some(Feminino)));
            var s2 := CursoResource.Insert(s1.1, base, CursoBody(Some("Calc"), Some("..."), 2400, None));
            s1.0.Status() == 201 && s2.0.Status() == 201 && s2.1 == AnaAndCalc
  {
    var s1 := AlunoResource.Insert(Empty, base, isEmail, AlunoBody(Some("Ana"), Some("ana@x.com"), Some(Feminino))).1;
    assert s1 == Store(map[1 := Aluno("Ana", "ana@x.com", Feminino)], map[], map[], map[], {}, 2);
    assert Consistent(AnaAndCalc);
  }

  /** Enrolling Ana through the course as the code builds the reply: the 200
      body lists no student, though Ana is now enrolled. */
  lemma AsWrittenReplyExample(base: string)
    ensures var w := CursoResource.MatricularAsWritten(AnaAndCalc, base, 2, 1);
            && w.0.Status() == 200
            && w.0.body.alunos == map[]
            && Matriculado(w.1, 1, 2)
            && CursoResource.Matricular(AnaAndCalc, base, 2, 1).0.body.alunos.Keys == {1}
  {
    var w := CursoResource.MatricularAsWritten(AnaAndCalc, base, 2, 1);
    assert AlunosDe(AnaAndCalc, 2) == {};
    var m := CursoResource.Matricular(AnaAndCalc, base, 2, 1);
    assert AlunosDe(m.1, 2) == {1};
  }

  /** Enrolling Ana in Calc lists each on the other's side; a second enrollment
      is a conflict; unenrolling empties both sides again. */
  lemma EnrollmentScenario(base: string)
    ensures var m := AlunoResource.Matricular(AnaAndCalc, base, 1, 2);
            var u := AlunoResource.Desmatricular(m.1, 1, 2);
            && m.0.Status() == 200
            && m.0.body.cursos.Keys == {2}
            && CursoResource.ListarAlunos(m.1, base, 2).body.alunos.Keys == {1}
            && AlunoResource.Matricular(m.1, base, 1, 2).0.Status() == 409
            && u.0 == NoContent
            && AlunoResource.ListarCursos(u.1, base, 1).body.cursos == map[]
            && CursoResource.ListarAlunos(u.1, base, 2).body.alunos == map[]
  {
    var m := AlunoResource.Matricular(AnaAndCalc, base, 1, 2);
    assert m.1.matriculas == {Matricula(1, 2)};
    assert CursosDe(m.1, 1) == {2};
    assert AlunosDe(m.1, 2) == {1};
    var u := AlunoResource.Desmatricular(m.1, 1, 2);
    assert u.1.matriculas == {};
    assert CursosDe(u.1, 1) == {};
    assert AlunosDe(u.1, 2) == {};
  }
}
