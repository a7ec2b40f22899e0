/** The values the extractors store in their result dictionaries: texts,
    parsed numbers (`float`), the line lists of `spans_to_lines`, and nested
    dictionaries (an eye's data, the lenses of an eye, one lens). A nested
    dictionary is kept as its items in insertion order. */
module Records {
  import opened Dicts

  datatype Value =
    | Str(text: string)
    | Num(number: real)
    | Rows(rows: seq<seq<string>>)
    | Record(items: seq<(string, Value)>)

  /** A result dictionary of the parser. */
  type Fields = Dict<string, Value>

  /** A dictionary stored as the value of another. */
  function Nest(d: Fields): (v: Value)
    requires Valid(d)
    ensures v.Record? && |v.items| == |d.order|
    ensures forall i :: 0 <= i < |d.order| ==> v.items[i] == (d.order[i], d.entries[d.order[i]])
  {
    Record(Items(d))
  }
}
