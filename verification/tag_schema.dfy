/** Data model of the string-tag snapshot (`src/schema.rs`): a schema is a
    delimiter and categories of plain string tags, each with a requirement
    kind and a bound; a selection state is a salt and, per category, every
    tag marked selected or not. */
module TagSchema {

  datatype Requirement = Exactly | AtLeast | AtMost

  /** The `Display` rendering of a requirement kind. */
  function RequirementText(r: Requirement): string {
    match r
    case Exactly => "exactly"
    case AtLeast => "at least"
    case AtMost => "at most"
  }

  /** Distinct kinds render differently. */
  lemma RequirementTextInjective(a: Requirement, b: Requirement)
    ensures RequirementText(a) == RequirementText(b) ==> a == b
  {
    // "exactly" is the only rendering starting with 'e'; the other two differ at index 3
    assert RequirementText(a)[0] == RequirementText(b)[0] && RequirementText(a)[3] == RequirementText(b)[3]
      ==> a == b;
  }

  datatype Category = Category(name: string, rtype: Requirement, rvalue: nat, values: seq<string>)

  datatype Schema = Schema(delim: string, categories: seq<Category>)

  /** One category of a selection: its name and every tag with its mark. */
  datatype CategoryState = CategoryState(name: string, values: seq<(string, bool)>)

  datatype State = State(salt: string, categories: seq<CategoryState>)
}
