/**
 * `POST /api/categories`: check the name by hand, store the trimmed name
 * with a slug derived from it, and turn a unique-constraint violation
 * into a conflict.
 *
 * The route declares its own `slugify`, which chains the same five steps
 * as the shared utility, so the model uses `StringUtils.Slugify`. The
 * database is an input: the error the create throws, if any.
 */
module CategoriesRoute {
  import opened Js
  import opened StringUtils

  /** The `meta.target` of a database error: a list of fields, an index name, or nothing. */
  datatype Target = FieldList(fields: seq<string>) | IndexName(index: string) | NoTarget

  /** The error thrown by the create: its `code`, if any, and its target. */
  datatype DbError = DbError(code: Option<string>, target: Target)

  /** The row handed to the database. `description` is the raw body value, or `None` for `null`. */
  datatype CategoryRow = CategoryRow(name: string, slug: string, description: Option<Json>)

  datatype Response =
    | BadRequest
    | Created(category: CategoryRow)
    | Conflict(message: string)
    | ServerError

  function Status(r: Response): int {
    match r
    case BadRequest => 400
    case Created(_) => 201
    case Conflict(_) => 409
    case ServerError => 500
  }

  /** `s` occurs in `t` as a contiguous piece. */
  predicate Contains(t: string, s: string)
    decreases |t|
  {
    s <= t || (t != [] && Contains(t[1..], s))
  }

  /** `target?.includes(s)`: membership for a list, substring for a string, false when missing. */
  predicate Includes(t: Target, s: string) {
    match t
    case FieldList(fields) => s in fields
    case IndexName(index) => Contains(index, s)
    case NoTarget => false
  }

  /** The field named in the conflict message; a name clash wins over a slug clash. */
  function ConflictLabel(t: Target): (l: string)
    ensures Includes(t, "name") ==> l == "nombre"
    ensures !Includes(t, "name") && Includes(t, "slug") ==> l == "slug (generado por un nombre similar)"
    ensures !Includes(t, "name") && !Includes(t, "slug") ==> l == "desconocido"
  {
    if Includes(t, "name") then "nombre"
    else if Includes(t, "slug") then "slug (generado por un nombre similar)"
    else "desconocido"
  }

  function ConflictMessage(t: Target): string {
    "Ya existe una categoría con ese " + ConflictLabel(t) + "."
  }

  /** The name passes the hand-written check: a string that is not blank once trimmed. */
  predicate NameAccepted(v: Option<Json>) {
    v.Some? && v.value.JString? && Trim(v.value.s) != ""
  }

  /**
   * `POST`. `body` is `None` when the request body is not JSON; a `null`
   * body makes the destructuring throw. Any other non-object destructures
   * to a missing name. `outcome` is the error the create throws, if any.
   */
  function Post(body: Option<Json>, outcome: Option<DbError>): (r: Response)
    ensures body.None? || body == Some(JNull) ==> r == ServerError
    ensures r.BadRequest? <==> body.Some? && body.value != JNull && !NameAccepted(Member(body.value, "name"))
    ensures r.Created? <==> body.Some? && NameAccepted(Member(body.value, "name")) && outcome.None?
    ensures r.Conflict? <==>
      body.Some? && NameAccepted(Member(body.value, "name")) && outcome.Some? && outcome.value.code == Some("P2002")
    ensures r.Conflict? ==> r.message == ConflictMessage(outcome.value.target)
  {
    if body.None? || body.value.JNull? then ServerError
    else
      var j := body.value;
      var name := Member(j, "name");
      if !NameAccepted(name) then BadRequest
      else
        var trimmed := Trim(name.value.s);
        var description := Member(j, "description");
        var row := CategoryRow(trimmed, Slugify(trimmed), if Truthy(description) then description else None);
        match outcome
        case None => Created(row)
        case Some(error) =>
          if error.code == Some("P2002") then Conflict(ConflictMessage(error.target)) else ServerError
  }

  /**
   * A created category: its name is the submitted one trimmed, non-empty
   * and without surrounding whitespace; its slug is a well-formed slug and
   * the slug of the submitted name, trimmed or not; a truthy description is
   * stored as sent and a falsy one as `null`.
   */
  lemma CreatedCategory(body: Json, name: string)
    requires Member(body, "name") == Some(JString(name))
    requires Post(Some(body), None).Created?
    ensures var row := Post(Some(body), None).category;
      && row.name == Trim(name) && row.name != ""
      && !IsSpace(row.name[0]) && !IsSpace(row.name[|row.name| - 1])
      && IsSlug(row.slug)
      && row.slug == Slugify(name)
      && (row.description.None? <==> !Truthy(Member(body, "description")))
      && (Truthy(Member(body, "description")) ==> row.description == Member(body, "description"))
  {
    TrimSpec(name);
    SlugifyOfTrim(name);
  }

  /** A string name that is empty or only white space is refused before the database is reached. */
  lemma BlankNameRefused(body: Json, outcome: Option<DbError>)
    requires body != JNull
    requires Member(body, "name").Some? && Member(body, "name").value.JString?
    requires AllSpace(Member(body, "name").value.s)
    ensures Post(Some(body), outcome) == BadRequest
  {
    TrimEmptyIffAllSpace(Member(body, "name").value.s);
  }

  /** Every error other than a unique-constraint violation is a server error. */
  lemma OtherErrors(body: Json, error: DbError)
    requires error.code != Some("P2002")
    ensures Status(Post(Some(body), Some(error))) in {400, 500}
  {
  }

  /** The label for list targets: the name check comes first, and an unrelated target is unknown. */
  lemma ConflictLabels()
    ensures ConflictLabel(FieldList(["slug", "name"])) == "nombre"
    ensures ConflictLabel(FieldList(["slug"])) == "slug (generado por un nombre similar)"
    ensures ConflictLabel(NoTarget) == "desconocido"
  {
    assert "name" !in ["slug"] by {
      assert "name"[0] != "slug"[0];
    }
  }
}
