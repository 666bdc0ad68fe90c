/**
 * What a screen's render pass produces for one record entry: a titled,
 * indented section (a Card) for an object, or a labelled multi-line text
 * field for anything else.
 */
module Views {
  import opened Wrappers
  import opened JsValues

  /** The arguments a field's change handler passes on: the entry's key and its container's key. */
  datatype EditCall = EditCall(key: string, parentKey: Option<string>)

  /**
   * A section carries its heading; a field carries the caption the screen
   * prints, followed by a colon, above its text box.
   */
  datatype View =
    | Section(title: string, depth: nat, children: seq<View>)
    | Field(title: string, text: JsValue, rows: nat, onChange: Option<EditCall>)

  /** `rows={value?.length > 100 ? 4 : 2}` */
  function Rows(v: JsValue): (rows: nat)
    ensures rows == 2 || rows == 4
    ensures rows == 4 <==> (v.JStr? && |v.s| > 100) || (v.JArr? && |v.items| > 100)
  {
    if Length(v).Some? && Length(v).value > 100 then 4 else 2
  }

  /** A rendered entry, or nothing: React drops the `null` an entry may render to. */
  function Emit(w: Option<View>): (ws: seq<View>)
    ensures |ws| <= 1
    ensures ws == [] <==> w.None?
    ensures w.Some? ==> ws == [w.value]
  {
    match w
    case None => []
    case Some(x) => [x]
  }

  /** Every section at any level sits at the depth of its nesting, starting from `depth`. */
  predicate DepthsFrom(w: View, depth: nat) {
    match w
    case Section(_, d, children) =>
      d == depth && forall i :: 0 <= i < |children| ==> DepthsFrom(children[i], depth + 1)
    case Field(_, _, _, _) => true
  }

  /** No field anywhere in the view has a change handler. */
  predicate ReadOnly(w: View) {
    match w
    case Section(_, _, children) => forall i :: 0 <= i < |children| ==> ReadOnly(children[i])
    case Field(_, _, _, onChange) => onChange.None?
  }
}
