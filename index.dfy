/** The values the ingestion code receives from package `index`: documents and suggestions. */
module Index {

  /** A property value; only strings are told apart, because the ingestion code only asks "is it a string". */
  datatype Value = Str(s: string) | Num(x: real) | OtherScalar

  /** `index.Document`: an identifier, a score (a float, modelled as a real) and named properties. */
  datatype Document = Document(id: string, score: real, properties: map<string, Value>)

  /** `index.Suggestion`: an autocomplete term with its score. */
  datatype Suggestion = Suggestion(term: string, score: real)

  /** Go's zero value of `index.Suggestion`, the content of a freshly made slice. */
  const ZeroSuggestion: Suggestion := Suggestion("", 0.0)
}
