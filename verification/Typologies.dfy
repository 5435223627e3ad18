/** What the models of typologies share (typology.schema.ts of document-service). */
module Typologies {
  import opened Wrappers

  datatype TypologyStatus = Incomplete | Active | Archived | Deleted

  /** Neither null nor empty. */
  predicate Filled(value: Option<string>) { value.Some? && value.value != "" }
}
