/**
 * Normalisation of the `sort` and `direction` query parameters: an unknown
 * sort field silently becomes `id`; only "desc", in any letter case, sorts
 * descending.
 */
module Sorting {
  import Text

  datatype Direction = Ascending | Descending

  /** What the endpoints hand to the database's `ORDER BY`. */
  datatype SortSpec = SortSpec(field: string, direction: Direction)

  const DefaultField: string := "id"

  /** Per-resource whitelists of sortable fields. */
  const AlunoFields: set<string> := {"id", "nome", "email", "sexo"}
  const CursoFields: set<string> := {"id", "nome", "descricao", "cargaHoraria", "professor"}
  const DisciplinaFields: set<string> := {"id", "nome", "descricao", "cargaHoraria", "professor"}
  const ProfessorFields: set<string> := {"id", "nome", "email"}

  function ResolveField(requested: string, allowed: set<string>): (field: string)
    ensures requested in allowed ==> field == requested
    ensures requested !in allowed ==> field == DefaultField
  {
    if requested in allowed then requested else DefaultField
  }

  /** Descending exactly when the text folds to "desc". */
  function ResolveDirection(direction: string): (d: Direction)
    ensures d == Descending <==> Text.Lower(direction) == "desc"
  {
    Text.EqualsIgnoreCaseIsFoldedEquality(direction, "desc");
    assert Text.Lower("desc") == "desc";
    if Text.EqualsIgnoreCase(direction, "desc") then Descending else Ascending
  }

  function Resolve(sort: string, direction: string, allowed: set<string>): SortSpec {
    SortSpec(ResolveField(sort, allowed), ResolveDirection(direction))
  }

  /** With `id` whitelisted, the resolved field is always a whitelisted one, and
      resolving a second time changes nothing. */
  lemma ResolveFieldAllowed(requested: string, allowed: set<string>)
    requires DefaultField in allowed
    ensures ResolveField(requested, allowed) in allowed
    ensures ResolveField(ResolveField(requested, allowed), allowed) == ResolveField(requested, allowed)
  {
  }

  /** "DESC", "Desc" and "desc" all sort descending; "descending" does not. */
  lemma DirectionExamples()
    ensures ResolveDirection("DESC") == Descending && ResolveDirection("Desc") == Descending
    ensures ResolveDirection("descending") == Ascending && ResolveDirection("asc") == Ascending
  {
    assert Text.Lower("DESC") == "desc";
    assert Text.Lower("Desc") == "desc";
    assert |Text.Lower("descending")| == 10;
    assert Text.Lower("asc") != "desc";
  }
}
