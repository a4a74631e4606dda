/**
 * The category schemas: `CreateCategorySchema` and `UpdateCategorySchema`.
 */
module CategoryValidation {
  import opened Js
  import opened Schema

  /** The keys the category schemas declare. */
  datatype Key = Name | Description

  /** A validated create request. */
  datatype CategoryInput = CategoryInput(name: string, description: Option<string>)

  /** A validated update request. */
  datatype CategoryPatch = CategoryPatch(name: Option<string>, description: Nullish<string>)

  const MinNameLength: nat := 2
  const MaxNameLength: nat := 50

  /** A category name: a string of 2 to 50 UTF-16 code units. */
  predicate CategoryNameOk(v: Option<Json>) {
    v.Some? && v.value.JString? && MinNameLength <= Utf16Length(v.value.s) <= MaxNameLength
  }

  function NameText(j: Json): Parsed<string> {
    Text(j, MinNameLength, Some(MaxNameLength))
  }

  /** `CreateCategorySchema`: a required name of 2 to 50 UTF-16 code units and an optional string description. */
  function CreateCategory(body: Json): (r: Validated<Key, CategoryInput>)
    ensures !body.JObject? ==> r == Invalid({})
    ensures body.JObject? ==>
      (r.Valid? <==> (CategoryNameOk(Member(body, "name")) && (Member(body, "description").None? || Member(body, "description").value.JString?)))
    ensures body.JObject? && r.Invalid? ==> r.fields != {}
    ensures r.Valid? ==> Member(body, "name") == Some(JString(r.data.name))
    ensures r.Valid? ==> MinNameLength <= Utf16Length(r.data.name) <= MaxNameLength
    ensures r.Valid? ==> TextAt(Member(body, "description"), r.data.description)
  {
    if !body.JObject? then Invalid({})
    else
      var name := Required(Member(body, "name"), NameText);
      var description := Optional(Member(body, "description"), AnyText);
      if name.Accept? && description.Accept? then Valid(CategoryInput(name.value, description.value))
      else Invalid(Flag(Name, name) + Flag(Description, description))
  }

  /** `UpdateCategorySchema`: both fields optional, the description may also be `null`. */
  function UpdateCategory(body: Json): (r: Validated<Key, CategoryPatch>)
    ensures !body.JObject? ==> r == Invalid({})
    ensures body.JObject? && r.Invalid? ==> r.fields != {}
    ensures body.JObject? ==>
      (r.Valid? <==> ((Member(body, "name").None? || CategoryNameOk(Member(body, "name"))) && NullishTextOk(Member(body, "description"))))
    ensures r.Valid? && r.data.name.Some? ==> MinNameLength <= Utf16Length(r.data.name.value) <= MaxNameLength
    ensures r.Valid? ==> TextAt(Member(body, "name"), r.data.name)
    ensures r.Valid? ==> NullishTextAt(Member(body, "description"), r.data.description)
  {
    if !body.JObject? then Invalid({})
    else
      var name := Optional(Member(body, "name"), NameText);
      var description := OptionalNullable(Member(body, "description"), AnyText);
      if name.Accept? && description.Accept? then Valid(CategoryPatch(name.value, description.value))
      else Invalid(Flag(Name, name) + Flag(Description, description))
  }

  /** Create demands a name of 2 to 50 UTF-16 code units; update checks the same bounds only when a name is present. */
  lemma CategoryNameRule(body: Json)
    requires body.JObject?
    ensures InvalidAt(CreateCategory(body), Name) <==> !CategoryNameOk(Member(body, "name"))
    ensures InvalidAt(UpdateCategory(body), Name) <==> Member(body, "name").Some? && !CategoryNameOk(Member(body, "name"))
  {
  }

  /** A single character outside the Basic Multilingual Plane is two code units, a long enough category name. */
  lemma SurrogatePairCategoryName(c: char)
    requires c as int >= 0x1_0000
    ensures CategoryNameOk(Some(JString([c])))
  {
    assert [c][1..] == [];
  }

  /** A `null` description is accepted by update only. */
  lemma NullDescriptionRule(body: Json)
    requires body.JObject? && Member(body, "description") == Some(JNull)
    ensures CreateCategory(body).Invalid? && Description in CreateCategory(body).fields
    ensures UpdateCategory(body).Valid? <==> Member(body, "name").None? || CategoryNameOk(Member(body, "name"))
    ensures UpdateCategory(body).Valid? ==> UpdateCategory(body).data.description == Null
  {
  }

  /** The empty object fails create because of the name, and passes update with nothing set. */
  lemma EmptyCategoryObject()
    ensures CreateCategory(JObject(map[])) == Invalid({Name})
    ensures UpdateCategory(JObject(map[])) == Valid(CategoryPatch(None, Absent))
  {
    var body := JObject(map[]);
    assert Member(body, "name").None? && Member(body, "description").None?;
  }

  /** Whatever create accepts, update accepts with the same name and description. */
  lemma CreateCategoryImpliesUpdate(body: Json)
    requires CreateCategory(body).Valid?
    ensures UpdateCategory(body).Valid?
    ensures UpdateCategory(body).data.name == Some(CreateCategory(body).data.name)
    ensures CreateCategory(body).data.description.Some?
        ==> UpdateCategory(body).data.description == Present(CreateCategory(body).data.description.value)
  {
  }
}
