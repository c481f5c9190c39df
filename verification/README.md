# gerenciador-de-cursos — a Dafny model of the core

`gerenciador-de-cursos` is a REST service for an academic domain. It manages students (`Aluno`), courses (`Curso`), professors (`Professor`) and subjects (`Disciplina`), and a many-to-many enrollment (`matrícula`) between students and courses. This project models the following parts of it:

- **Enrollment.** The enrollment state machine as both ends drive it:
  - `POST/DELETE /alunos/{id}/cursos/{cursoId}`;
  - `POST/DELETE /cursos/{id}/alunos/{alunoId}`;
  - the two listing endpoints.
- **Search and paging.** Search normalisation and paging for all four resources:
  - the sort-field whitelist and the `id` fallback;
  - the case-insensitive `desc`;
  - the null-or-blank query, and the `lower(..) like '%q%'` filter;
  - the page index, `totalPages`, and the page slice.
- **Links.** The navigation links `buildLinks` produces in the three `Search*Response` classes.
- **Representations.** The entity representations:
  - the five per-entity links, including the professor's `delete` link, which is built on the path `preofessores`;
  - the flat peer summaries of students and courses;
  - the embedded professor.
- **Validation and mutation.** Bean validation of request bodies, and the insert/update/delete semantics of every resource, all inside a transaction.

## Layout

| file | module | contents |
|---|---|---|
| `wrappers.dfy` | `Wrappers` | `Option` |
| `text.dfy` | `Text` | Java `isBlank`, ASCII case folding, `equalsIgnoreCase`, SQL `LIKE`, substring reference definition |
| `decimal.dfy` | `Decimal` | how Java prints an `int`/`long`, and a parser that reads it back |
| `entities.dfy` | `Entities` | entities, request bodies, validation constraints |
| `outcomes.dfy` | `Outcomes` | HTTP outcome (status plus body) |
| `persistence.dfy` | `Persistence` | the database: tables, the `aluno_curso` join table, constraints, `@Transactional` commit |
| `paging.dfy` | `Paging` | page index, page count, filter, slice |
| `sorting.dfy` | `Sorting` | sort-field whitelists and direction |
| `search.dfy` | `SearchEngine` | the search pipeline shared by the four resources |
| `links.dfy` | `Links` | item links, search navigation links, and their parsing back |
| `representation.dfy` | `Representation` | `*Representation.from` |
| `search_response.dfy` | `SearchResponse` | `Search*Response.from` |
| `enrollment.dfy` | `Enrollment` | enroll/unenroll on the join table |
| `aluno_resource.dfy`, `curso_resource.dfy`, `disciplina_resource.dfy`, `professor_resource.dfy` | `*Resource` | the endpoints |
| `enrollment_laws.dfy` | `EnrollmentLaws` | the two enrollment ends compared, inverses, a worked scenario |

### Modelling choices

- **The database is a value** (`Persistence.Store`). It holds one map per table, the join table as a set of `Matricula(aluno, curso)` pairs, and the next identifier of the sequence.
  - `Aluno.cursos` is the owning side of the enrollment and `Curso.alunos` the `mappedBy` side. Both are *views* of the one join table (`CursosDe`, `AlunosDe`), so they can never disagree.
- **Every mutating endpoint is a function** from the store to a pair: the reply and the committed store.
  - `@Transactional` is `Persistence.Commit`. If the store after the change violates a database constraint, the change is rolled back and the request fails.
  - The constraints are the foreign keys and the `unique` `coordenador_id` of `Curso`.
  - As a consequence:
    - creating or updating a course whose coordinator already coordinates another course fails and changes nothing;
    - deleting a course that still has students fails, because the inverse side does not remove join rows;
    - deleting a professor that a course or subject still references fails;
    - deleting a student removes its join rows, because it is the owning side.
- **Bean validation happens before the handler runs.** An invalid body is a 400 even when the identifier in the path does not exist. Request bodies have `Option` fields for the values JSON may leave null.
- **The search filter is the query as written:**
  - the bound parameter is `"%" + q.toLowerCase() + "%"`;
  - both `%` and `_` inside `q` act as wildcards;
  - `SearchEngine.MatchesIsSubstring` proves that for a query without wildcard characters this is exactly case-insensitive substring search.
- **Ordering is a parameter.** The order the database returns rows in for a sort spec is `listing: SortSpec -> seq<Id>` (the `ORDER BY` result). Filtering, counting and slicing are modelled on top of it.
- **Peer summaries are maps keyed by identifier.** The source builds them from a `HashSet`, so their order is unspecified.

### Where the code and its description disagree

The model follows the code in each case:

- **Unenrolling a pair that is not enrolled.**
  - The code answers 400 from the student end (`AlunoResource.java:232-234`) and 404 from the course end (`CursoResource.java:409-411`).
  - Both are modelled as written; `EnrollmentLaws.DesmatricularSidesAgree` proves this is the only difference between the two ends.
- **Page number.** `page=0` and `page=1` return the same rows and totals. The echoed `pagination.page` and the `self` link still carry the requested number (`SearchEngine.LowPagesShowFirstPage`).
- **The search is a `LIKE` pattern, not a plain substring test.** See above.
- **Validation is not a precondition of the core.** A body that fails validation is answered with 400 and changes nothing.

## Model

| member | source | states |
|---|---|---|
| Text.LowerKeepsBlankness | src/main/java/org/acme/AlunoResource.java:94-98 | folding a query to lower case never changes whether it is blank, so the null-or-blank test and the folded pattern agree |
| Text.EqualsIgnoreCaseIsFoldedEquality | src/main/java/org/acme/AlunoResource.java:89 | `equalsIgnoreCase` holds exactly when the two strings fold to the same string |
| Text.ContainsPattern | src/main/java/org/acme/AlunoResource.java:94-98 | for text without `%` or `_`, the pattern `%t%` matches a string exactly when `t` occurs in it |
| Text.LeadingAny | src/main/java/org/acme/AlunoResource.java:98 | a leading `%` matches exactly when the rest of the pattern matches some suffix |
| Decimal.ParseNatRoundTrip | src/main/java/org/acme/AlunoRepresentation.java:34 | the decimal text of an identifier parses back to that identifier |
| Decimal.ParseIntRoundTrip | src/main/java/org/acme/SearchAlunoResponse.java:57-72 | the decimal text of a page number, negative ones included, parses back to it |
| Paging.PageIndex | src/main/java/org/acme/AlunoResource.java:92 | the 0-based index is one less than the page, with every page at or below 1 meaning the first |
| Paging.TotalPages | src/main/java/org/acme/AlunoResource.java:101 | the page count covers every row and no page is wholly empty (the ceiling of total/size) |
| Paging.TotalPagesZeroIff | src/main/java/org/acme/AlunoResource.java:101 | there are no pages exactly when there are no rows |
| Paging.Filter | src/main/java/org/acme/AlunoResource.java:94-98 | the result holds only accepted rows and every accepted row of the input |
| Paging.FilterAppend | src/main/java/org/acme/AlunoResource.java:94-98 | filtering commutes with concatenation, so the database order is kept |
| Paging.Slice | src/main/java/org/acme/AlunoResource.java:103 | a page holds the rows from index*size on, at most size of them, empty past the end |
| Paging.SliceNonEmptyIff | src/main/java/org/acme/AlunoResource.java:100-103 | a page is non-empty exactly when its index is below totalPages |
| Paging.PagesCoverAll | src/main/java/org/acme/AlunoResource.java:100-103 | pages 1..totalPages, concatenated, are exactly the filtered rows |
| Sorting.ResolveField | src/main/java/org/acme/AlunoResource.java:82-85 | a whitelisted field is kept, any other becomes `id` |
| Sorting.ResolveFieldAllowed | src/main/java/org/acme/CursoResource.java:119-122 | with `id` whitelisted the resolved field is always whitelisted, and resolving is idempotent |
| Sorting.ResolveDirection | src/main/java/org/acme/AlunoResource.java:87-90 | descending exactly when the text folds to `desc` |
| Sorting.DirectionExamples | src/main/java/org/acme/ProfessorResource.java:86 | `DESC` and `Desc` sort descending; `descending` and `asc` do not |
| SearchEngine.MatchesIsSubstring | src/main/java/org/acme/AlunoResource.java:94-98 | a wildcard-free query matches a row exactly when the folded query occurs in one of its folded fields |
| SearchEngine.MatchesIgnoresCase | src/main/java/org/acme/CursoResource.java:131-135 | folding the query or the fields does not change which rows match |
| SearchEngine.Execute | src/main/java/org/acme/AlunoResource.java:82-103 | the totals count the whole filtered listing and the items are the requested page of it |
| SearchEngine.UnknownSortIsId | src/main/java/org/acme/CursoResource.java:119-122 | an unlisted sort field gives exactly the result of `sort=id` |
| SearchEngine.LowPagesShowFirstPage | src/main/java/org/acme/AlunoResource.java:92 | pages at or below 1 give the result of page 1, except the echoed page number |
| SearchEngine.TotalsIndependentOfPage | src/main/java/org/acme/AlunoResource.java:100-103 | totals do not depend on the page asked for; a page is empty exactly when its index reaches totalPages |
| SearchEngine.PagesEnumerateMatches | src/main/java/org/acme/DisciplinaResource.java:97-100 | walking pages 1..totalPages returns every match once, in order |
| Links.ItemUrlResolves | src/main/java/org/acme/AlunoRepresentation.java:34-37 | an item link read back under its collection's path gives its identifier |
| Links.ItemUrlInjective | src/main/java/org/acme/CursoRepresentation.java:38 | distinct entities have distinct item links |
| Links.EntityLinks | src/main/java/org/acme/AlunoRepresentation.java:31-38 | exactly the five keys; `delete` and `update` equal `self`, which leads back to the entity; `search` is under `all` |
| Links.ProfessorLinks | src/main/java/org/acme/ProfessorRepresentation.java:24-31 | the professor's five keys, with `update` equal to `self`, `self` leading back to the professor, and `delete` the item link under the path `preofessores` |
| Links.ProfessorDeleteLinkMisses | src/main/java/org/acme/ProfessorRepresentation.java:29 | the professor's `delete` link differs from `self` and does not lead to any professor |
| Links.QueryParamsCarryQuery | src/main/java/org/acme/SearchAlunoResponse.java:48-54 | the parameters start with `q=` exactly when the query is present and not blank, and carry it verbatim |
| Links.PageUrlResolves | src/main/java/org/acme/SearchAlunoResponse.java:57-72 | a page link read back gives its page number |
| Links.SearchLinks | src/main/java/org/acme/SearchAlunoResponse.java:40-79 | `self`, `first`, `last` and the collection are always present; `prev` exactly when page > 1; `next` exactly when page < totalPages |
| Links.SearchLinksPages | src/main/java/org/acme/SearchCursoResponse.java:56-73 | each navigation link names the page it promises: the current one, 1, the last, page-1, page+1 |
| SearchResponse.From | src/main/java/org/acme/SearchAlunoResponse.java:19-38 | the page keeps the items, echoes page, size and totals, and carries the navigation links |
| Representation.ProfessorRecordOf | src/main/java/org/acme/CursoRepresentation.java:33 | the embedded professor is the referenced row, or null when there is none |
| Representation.CursoSummaryOf | src/main/java/org/acme/AlunoRepresentation.java:41-50 | a course summary carries the course's scalar fields and a link back to the course |
| Representation.AlunoSummaryOf | src/main/java/org/acme/CursoRepresentation.java:45-52 | a student summary carries the student's fields and a link back to the student |
| Representation.AlunoFrom | src/main/java/org/acme/AlunoRepresentation.java:24-54 | the student's fields and links, and one summary for each course it is enrolled in |
| Representation.CursoFrom | src/main/java/org/acme/CursoRepresentation.java:26-56 | the course's fields, its professor and links, and one summary for each enrolled student |
| Representation.DisciplinaFrom | src/main/java/org/acme/DisciplinaRepresentation.java:22-41 | the subject's fields, its professor and its links |
| Representation.ProfessorFrom | src/main/java/org/acme/ProfessorRepresentation.java:18-34 | the professor's fields and links |
| Representation.SummariesMatchEnrollment | src/main/java/org/acme/AlunoRepresentation.java:40-51 | in a consistent database a student lists exactly its courses and a course exactly its students |
| Representation.RepresentationsAgree | src/main/java/org/acme/CursoRepresentation.java:44-53 | a student lists a course exactly when the course lists the student, exactly when they are enrolled |
| Entities.NewAluno | src/main/java/org/acme/Aluno.java:17-27 | a student built from a valid body has the body's fields and satisfies the constraints |
| Entities.NewCurso | src/main/java/org/acme/Curso.java:19-33 | a course built from a valid body has the body's fields and satisfies the constraints |
| Entities.NewProfessor | src/main/java/org/acme/Professor.java:12-18 | a professor built from a valid body has the body's fields and satisfies the constraints |
| Entities.NewDisciplina | src/main/java/org/acme/Disciplina.java:14-27 | a subject built from a valid body has the body's fields and satisfies the constraints |
| Persistence.CursosDe | src/main/java/org/acme/Aluno.java:29-35 | a student's courses are exactly those it is enrolled in |
| Persistence.AlunosDe | src/main/java/org/acme/Curso.java:35-36 | a course's students are exactly those enrolled in it |
| Persistence.ViewsAgree | src/main/java/org/acme/Curso.java:35-36 | the owning and the `mappedBy` side list the same pairs |
| Persistence.Commit | src/main/java/org/acme/CursoResource.java:177-181 | a change that breaks no constraint is committed with its reply; otherwise the store is unchanged and the status is 500 |
| Persistence.NextIdIsFresh | src/main/java/org/acme/AlunoResource.java:137-138 | the next identifier names no row and has no enrollment |
| Enrollment.Enroll | src/main/java/org/acme/AlunoResource.java:198 | the pair becomes enrolled, every other pair keeps its state, and nothing else changes |
| Enrollment.Unenroll | src/main/java/org/acme/AlunoResource.java:236 | the pair becomes not enrolled, every other pair keeps its state, and nothing else changes |
| Enrollment.UnenrollUndoesEnroll | src/main/java/org/acme/AlunoResource.java:194-198 | unenrolling a pair just enrolled restores the store |
| Enrollment.EnrollUndoesUnenroll | src/main/java/org/acme/AlunoResource.java:232-236 | enrolling a pair just unenrolled restores the store |
| Enrollment.EnrollmentKeepsInvariant | src/main/java/org/acme/AlunoResource.java:184-199 | enrolling two existing rows, or any unenrollment, keeps the database consistent |
| AlunoResource.SearchCall | src/main/java/org/acme/AlunoResource.java:82-103 | the total counts the students of the ordered listing that match on nome or email, and the items are the requested page of them; sort resolved, direction and page verbatim |
| AlunoResource.Render | src/main/java/org/acme/SearchAlunoResponse.java:25-27 | one representation per student, in order, metadata unchanged |
| AlunoResource.Search | src/main/java/org/acme/AlunoResource.java:72-110 | the total is the number of matches in the ordered listing and the items are the representations of exactly the requested page of them; the pagination echoes the request; the links are the navigation links for the resolved sort |
| AlunoResource.BlankQueryListsAll | src/main/java/org/acme/AlunoResource.java:94-95 | without a query every student counts and the page is the listing's own slice |
| AlunoResource.UnknownSortIsId | src/main/java/org/acme/AlunoResource.java:82-85 | an unlisted sort field gives the very response of `sort=id`, links included |
| AlunoResource.LowPageIsFirstPage | src/main/java/org/acme/AlunoResource.java:92 | page 0 or below shows the students and totals of page 1 |
| AlunoResource.Insert | src/main/java/org/acme/AlunoResource.java:136-140 | an invalid body is 400 and changes nothing; a valid one is stored under a fresh identifier and answered 201 with its representation |
| AlunoResource.Update | src/main/java/org/acme/AlunoResource.java:156-173 | 400 before 404; otherwise only nome, email and sexo of that student change |
| AlunoResource.Delete | src/main/java/org/acme/AlunoResource.java:142-154 | 404 for an unknown student; otherwise the student and exactly its join rows go |
| AlunoResource.Matricular | src/main/java/org/acme/AlunoResource.java:177-200 | 404 student, then 404 course, then 409 when enrolled; 200 exactly when both exist and are not enrolled, with the course in the body |
| AlunoResource.ListarCursos | src/main/java/org/acme/AlunoResource.java:202-213 | 404 for an unknown student, otherwise the student's full representation, whose summaries are its courses |
| AlunoResource.Desmatricular | src/main/java/org/acme/AlunoResource.java:215-238 | 404 student, then 404 course, then 400 when not enrolled; 204 exactly when enrolled, after which the pair is not |
| AlunoResource.InsertKeepsInvariant | src/main/java/org/acme/AlunoResource.java:136-140 | inserting keeps the database invariant |
| AlunoResource.UpdateKeepsInvariant | src/main/java/org/acme/AlunoResource.java:156-173 | updating keeps the database invariant |
| AlunoResource.DeleteKeepsInvariant | src/main/java/org/acme/AlunoResource.java:142-154 | deleting keeps the database invariant |
| AlunoResource.EnrollmentEndpointsKeepInvariant | src/main/java/org/acme/AlunoResource.java:177-238 | both enrollment endpoints keep the database invariant |
| AlunoResource.InsertedHasNoCourses | src/main/java/org/acme/Aluno.java:35 | a new student has no courses |
| AlunoResource.UpdateKeepsCoursesAndIsIdempotent | src/main/java/org/acme/AlunoResource.java:168-170 | an update keeps the student's courses, and repeating it changes nothing |
| CursoResource.SearchCall | src/main/java/org/acme/CursoResource.java:119-140 | the total counts the courses of the ordered listing that match on nome or descricao, and the items are the requested page of them |
| CursoResource.Render | src/main/java/org/acme/SearchCursoResponse.java:25-27 | one representation per course, in order, metadata unchanged |
| CursoResource.Search | src/main/java/org/acme/CursoResource.java:109-147 | the total is the number of matching courses and the items are the representations of exactly the requested page of them; pagination and links as requested |
| CursoResource.UnknownSortIsId | src/main/java/org/acme/CursoResource.java:119-122 | an unlisted sort field gives the very response of `sort=id` |
| CursoResource.PutConsistentIff | src/main/java/org/acme/Curso.java:31-33 | writing a course commits exactly when its coordinator exists and coordinates no other course |
| CursoResource.Insert | src/main/java/org/acme/CursoResource.java:177-182 | 400 for an invalid body; 201 stores the course under a fresh identifier and answers its representation; any failure changes nothing |
| CursoResource.InsertSucceedsIff | src/main/java/org/acme/CursoResource.java:178-181 | a valid course is created exactly when its coordinator is free, and the invariant is kept |
| CursoResource.Update | src/main/java/org/acme/CursoResource.java:250-267 | 400 before 404; on 200 the four fields are overwritten and the body is the new representation |
| CursoResource.UpdateSucceedsIff | src/main/java/org/acme/CursoResource.java:256-266 | an update commits exactly when the new coordinator is free; the students stay; the invariant is kept |
| CursoResource.Delete | src/main/java/org/acme/CursoResource.java:201-212 | 404 for an unknown course; 204 removes just the course; any failure changes nothing |
| CursoResource.DeleteSucceedsIff | src/main/java/org/acme/CursoResource.java:206-211 | a course is deleted exactly when it has no students |
| CursoResource.Matricular | src/main/java/org/acme/CursoResource.java:307-333 | 404 course, then 404 student, then 409; 200 exactly when both exist and are not enrolled; the body is the course as committed, listing the new student (the reply the code evidently intends, see Findings) |
| CursoResource.ListarAlunos | src/main/java/org/acme/CursoResource.java:356-366 | 404 for an unknown course, otherwise the course's full representation, whose summaries are its students |
| CursoResource.Desmatricular | src/main/java/org/acme/CursoResource.java:392-415 | 404 course, then 404 student, then 404 when not enrolled; 204 exactly when enrolled |
| DisciplinaResource.SearchCall | src/main/java/org/acme/DisciplinaResource.java:79-100 | the total counts the subjects of the ordered listing that match on nome or descricao, and the items are the requested page of them |
| DisciplinaResource.Render | src/main/java/org/acme/SearchDisciplinaResponse.java:25-27 | one representation per subject, in order, metadata unchanged |
| DisciplinaResource.Search | src/main/java/org/acme/DisciplinaResource.java:69-107 | the total is the number of matching subjects and the items are the representations of exactly the requested page of them; pagination and links as requested |
| DisciplinaResource.TotalsIndependentOfPage | src/main/java/org/acme/DisciplinaResource.java:97-100 | the totals do not depend on the page, and a page is empty exactly when it lies past the last |
| DisciplinaResource.PutConsistentIff | src/main/java/org/acme/Disciplina.java:26-27 | writing a subject commits exactly when its professor is null or exists |
| DisciplinaResource.Insert | src/main/java/org/acme/DisciplinaResource.java:133-138 | 400 for an invalid body; 201 stores the subject under a fresh identifier and answers its representation; any failure changes nothing |
| DisciplinaResource.InsertSucceedsIff | src/main/java/org/acme/DisciplinaResource.java:134-137 | a valid subject is created exactly when its professor exists or is null |
| DisciplinaResource.Update | src/main/java/org/acme/DisciplinaResource.java:154-172 | 400 before 404; on 200 the four fields are overwritten |
| DisciplinaResource.UpdateSucceedsIff | src/main/java/org/acme/DisciplinaResource.java:161-171 | an update commits exactly when the new professor exists or is null |
| DisciplinaResource.Delete | src/main/java/org/acme/DisciplinaResource.java:140-152 | 404 for an unknown subject, otherwise 204 and only that subject goes |
| DisciplinaResource.DeleteKeepsInvariant | src/main/java/org/acme/DisciplinaResource.java:146-151 | deleting a subject keeps the database invariant |
| ProfessorResource.Search | src/main/java/org/acme/ProfessorResource.java:69-107 | the total is the number of matching professors (nome or email) and the items are the representations of exactly the requested page of them; sort resolved |
| ProfessorResource.Insert | src/main/java/org/acme/ProfessorResource.java:133-137 | 400 for an invalid body; otherwise the professor is stored under a fresh identifier and answered 201 with its representation |
| ProfessorResource.Update | src/main/java/org/acme/ProfessorResource.java:153-169 | 400 before 404; otherwise only nome and email of that professor change |
| ProfessorResource.Delete | src/main/java/org/acme/ProfessorResource.java:139-151 | 404 for an unknown professor; 204 removes just the professor; any failure changes nothing |
| ProfessorResource.DeleteSucceedsIff | src/main/java/org/acme/ProfessorResource.java:145-150 | a professor is deleted exactly when no course or subject references it |
| ProfessorResource.InsertUpdateKeepInvariant | src/main/java/org/acme/ProfessorResource.java:134-168 | inserting and updating professors keep the database invariant |
| EnrollmentLaws.MatricularSidesAgree | src/main/java/org/acme/CursoResource.java:313-332 | enrolling from either end gives the same store and the same status |
| EnrollmentLaws.DesmatricularSidesAgree | src/main/java/org/acme/CursoResource.java:399-414 | unenrolling from either end gives the same store; the statuses differ exactly for an unenrolled pair of existing rows (400 against 404) |
| EnrollmentLaws.DesmatricularUndoesMatricular | src/main/java/org/acme/AlunoResource.java:215-238 | a successful enrollment is undone by an unenrollment from either end |
| EnrollmentLaws.MatricularUndoesDesmatricular | src/main/java/org/acme/AlunoResource.java:177-200 | a successful unenrollment is undone by an enrollment from either end |
| EnrollmentLaws.SecondMatricularConflicts | src/main/java/org/acme/AlunoResource.java:194-196 | enrolling a second time is 409 from either end and changes nothing |
| EnrollmentLaws.SecondDesmatricularFails | src/main/java/org/acme/AlunoResource.java:232-234 | unenrolling a second time is 400 from the student end, 404 from the course end, and changes nothing |
| EnrollmentLaws.EnrollmentVisibleFromBothEnds | src/main/java/org/acme/CursoResource.java:327-332 | after an enrollment the student lists the course and the course lists the student |
| CursoResource.MatricularAsWritten | src/main/java/org/acme/CursoResource.java:323-332 | same status and committed store as the corrected endpoint, but the 200 body is the course as it was before the request |
| CursoResource.AsWrittenReplyOmitsNewStudent | src/main/java/org/acme/CursoResource.java:323-332 | on every successful enrollment the as-written reply leaves out the student just enrolled, although the store has the pair |
| EnrollmentLaws.AsWrittenReplyExample | src/main/java/org/acme/CursoResource.java:327-332 | enrolling Ana (id 1) in Calc (id 2) through the course is a 200 whose as-written body lists no student |
| Paging.FilterCountsDistinct | src/main/java/org/acme/AlunoResource.java:100 | over rows without repeats, the number of rows kept is the number of distinct accepted rows |
| AlunoResource.KeptAreMatches | src/main/java/org/acme/AlunoResource.java:94-100 | over a listing of the stored students, the rows kept are as many as the students matching on nome or email |
| AlunoResource.TotalCountsMatches | src/main/java/org/acme/AlunoResource.java:100 | for any query, `totalElements` is the number of stored students matching it |
| AlunoResource.Keep | src/main/java/org/acme/AlunoResource.java:94-98 | the row filter of the student search: a stored student matching on nome or email |
| CursoResource.Keep | src/main/java/org/acme/CursoResource.java:131-135 | the row filter of the course search: a stored course matching on nome or descricao |
| DisciplinaResource.Keep | src/main/java/org/acme/DisciplinaResource.java:91-95 | the row filter of the subject search: a stored subject matching on nome or descricao |
| ProfessorResource.Keep | src/main/java/org/acme/ProfessorResource.java:91-95 | the row filter of the professor search: a stored professor matching on nome or email |
| SearchEngine.NoFilter | src/main/java/org/acme/AlunoResource.java:94 | a null or blank `q` disables the filter |
| SearchEngine.LikePattern | src/main/java/org/acme/AlunoResource.java:98 | the bound parameter: `%`, the query folded to lower case, `%` |
| SearchEngine.Matches | src/main/java/org/acme/AlunoResource.java:94-98 | no filter, or either folded field matches the pattern; MatchesIsSubstring relates it to substring search |
| Text.IsJavaWhitespace | src/main/java/org/acme/AlunoResource.java:94 | the characters `Character.isWhitespace` accepts, which `isBlank` skips |
| Text.IsBlank | src/main/java/org/acme/AlunoResource.java:94 | empty or whitespace only; LowerKeepsBlankness relates it to folding |
| Text.Lower | src/main/java/org/acme/AlunoResource.java:98 | keeps the length and folds each character on its own |
| Text.Like | src/main/java/org/acme/AlunoResource.java:96 | SQL `LIKE` with `%` and `_`; ContainsPattern relates `%t%` to substring search |
| Links.ItemUrl | src/main/java/org/acme/AlunoRepresentation.java:34 | `baseUri + path + "/" + id`; ItemUrlResolves reads the identifier back |
| Links.QueryParams | src/main/java/org/acme/SearchAlunoResponse.java:48-54 | the shared query string of every page link; QueryParamsCarryQuery states its shape |
| Links.PagePrefix | src/main/java/org/acme/SearchAlunoResponse.java:46-57 | everything a page link has before its page number |
| Links.PageUrl | src/main/java/org/acme/SearchAlunoResponse.java:57-72 | a page link; PageUrlResolves reads the page back |
| Decimal.NatToString | src/main/java/org/acme/AlunoRepresentation.java:34 | a non-empty run of digits; ParseNatRoundTrip reads the number back |
| Decimal.IntToString | src/main/java/org/acme/SearchAlunoResponse.java:54-57 | a leading minus exactly for negatives; ParseIntRoundTrip reads the number back |
| Entities.AlunoBodyValid | src/main/java/org/acme/Aluno.java:17-27 | nome present with 2 to 100 characters, email present and well formed, sexo present |
| Entities.CursoBodyValid | src/main/java/org/acme/Curso.java:19-29 | nome 2 to 100 and descricao 2 to 200 characters, both present; cargaHoraria from 2400 to 7200 |
| Entities.ProfessorBodyValid | src/main/java/org/acme/Professor.java:12-18 | nome present with 2 to 100 characters, email present and well formed |
| Entities.DisciplinaBodyValid | src/main/java/org/acme/Disciplina.java:14-24 | nome 2 to 100 and descricao 2 to 200 characters, both present; cargaHoraria from 30 to 100 |
| Persistence.ForeignKeysHold | src/main/java/org/acme/Aluno.java:29-35 | every join row names an existing student and course, and every professor reference an existing professor |
| Persistence.CoordinatorUnique | src/main/java/org/acme/Curso.java:31-33 | no two courses share a coordinating professor |
| Persistence.Consistent | src/main/java/org/acme/Curso.java:31-33 | the constraints the database checks at commit: foreign keys and the unique coordinator |
| EnrollmentLaws.ScenarioSetup | src/main/java/org/acme/AlunoResource.java:136-140 | creating student Ana and course Calc in an empty database gives ids 1 and 2, nobody enrolled |
| EnrollmentLaws.EnrollmentScenario | src/main/java/org/acme/AlunoResource.java:184-237 | enroll gives 200 with one entry on each side, enrolling again gives 409, unenroll gives 204 and empties both sides |

## Findings

| source | as written | input that shows it | evidently intended | confidence | as-written member | corrected member |
|---|---|---|---|---|---|---|
| src/main/java/org/acme/CursoResource.java:323-332 | the duplicate check loads `curso.alunos` before the enrollment; the pair is added only on the student side; `Curso.findById` then returns the same managed course, so the 200 reply lists the students from before the request | student 1 and course 2, not enrolled: `POST /cursos/2/alunos/1` answers 200 with `alunos` empty although the pair is now stored (`EnrollmentLaws.AsWrittenReplyExample`) | the reply shows the course with the student just enrolled, as the comment above the re-fetch says | medium; not executed | CursoResource.MatricularAsWritten | CursoResource.Matricular |

## Left out

- HTTP and framework plumbing is not modelled: routing, JSON binding, the OpenAPI annotations, and `Response` building beyond status and body.
- `getAll` and `getById` are not modelled; they are plain look-ups of the representations modelled here.
- Identifier generation is modelled as a single increasing sequence shared by all tables. The real values come from the database.
- `size <= 0` is excluded by the search functions' precondition (`size > 0`). In the source it is a division by zero in floating point, and then an invalid page request.
- Java's 32-bit `int` and 64-bit `long` arithmetic is not modelled. This covers `(page - 1) * size`, `page + 1` and the identifiers. All integers are unbounded.
- `Paging.TotalPages` is exact integer ceiling division. The source goes through `double` (`Math.ceil`), which is exact below 2^53 rows.
- Case folding covers ASCII letters only. This applies to `toLowerCase`, the database's `lower` and `equalsIgnoreCase`. Non-ASCII letters, for example `É`, and locale-specific folding are left out.
- `String` lengths for `@Size` are counted in characters, not UTF-16 code units.
- The `LIKE` escape character is not interpreted. Its default is database-specific.
- `@Email` is an uninterpreted predicate (`EmailCheck`) passed to every operation that validates.
- Validation error bodies are not modelled. A validation failure is a bare 400.
- The 500 status and empty body of a rolled-back commit come from the container, not from the code. Only the status is modelled.
- A course or subject body refers to its professor by identifier. A professor given with fields of its own, or one not yet persisted, is not modelled.
- CursoResource.Matricular: the 200 body lists the course's students as committed, including the new one. As written, the source answers with the collection loaded before the enrollment, which lacks the new student; CursoResource.MatricularAsWritten models that reply (see Findings).
- CursoResource.Insert: the 201 body embeds the stored professor row; the source embeds whatever `professor` object the client sent, since the new entity is the deserialised body itself.
- CursoResource.Update: the 200 body embeds the stored professor row; the source assigns the client's `professor` object to the entity and echoes it.
- DisciplinaResource.Insert: the 201 body embeds the stored professor row, not the client's `professor` object the source echoes.
- DisciplinaResource.Update: the 200 body embeds the stored professor row, not the client's `professor` object the source echoes.
- Request bodies that carry `cursos` or `alunos` collections are not modelled. The source ignores them on update.
- The links of `SearchProfessorResponse` are not modelled, because that class is not part of this model. `ProfessorResource.Search` stops at the arguments it passes to it.
- The order of peer summaries is unspecified in the source (a `HashSet`). The model keys them by identifier.
- The database's ordering for a sort field is a parameter (`listing`). Tie-breaking and collation are not modelled.
- Concurrency between requests is not modelled. Each request is one atomic transaction on the store.
