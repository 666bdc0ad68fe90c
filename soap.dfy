/**
 * The render pass of the read-only SOAP-notes screen (Soap.jsx): blank
 * values and objects whose own values are all blank are suppressed, other
 * objects become titled sections, and everything else becomes a text field
 * with no change handler, captioned with the fixed text "Label Text".
 */
module SoapScreen {
  import opened Wrappers
  import opened JsValues
  import opened Labels
  import opened Views

  /** `value === null || value === undefined || value === ""` */
  predicate IsBlank(v: JsValue) {
    IsNullish(v) || v == JStr("")
  }

  predicate IsNonBlank(v: JsValue) {
    !IsBlank(v)
  }

  /**
   * `isObjectEmpty(obj)`: a non-array object all of whose own values are
   * blank. Only the object's own values are inspected, not their contents.
   */
  predicate IsObjectEmpty(v: JsValue) {
    v.JObj? && forall i :: 0 <= i < |v.entries| ==> IsBlank(v.entries[i].1)
  }

  /**
   * `isObjectEmpty` holds exactly for a non-array object none of whose own
   * values survives a non-blank filter; `{}` is one, and any object with a
   * nested object among its values is not, however empty that object is.
   */
  lemma ObjectEmptyMeaning(v: JsValue)
    ensures IsObjectEmpty(v) <==> v.JObj? && Filter(v.entries, IsNonBlank) == []
  {
    if v.JObj? {
      var es := v.entries;
      var r := Filter(es, IsNonBlank);
      FilterKept(es, IsNonBlank);
      if r != [] {
        var i :| 0 <= i < |es| && es[i] == r[0];
        assert IsNonBlank(es[i].1);
      }
    }
  }

  /** What `renderField` draws something for. */
  predicate IsShown(v: JsValue) {
    !IsBlank(v) && !IsObjectEmpty(v)
  }

  /** The caption every field of this screen carries, whatever its key. */
  const FieldCaption := "Label Text"

  /** `renderField(key, value, depth)` */
  function Render(key: string, v: JsValue, depth: nat): Option<View>
    decreases v, 1
  {
    if IsBlank(v) then None
    else if v.JObj? then
      if IsObjectEmpty(v) then None
      else Some(Section(FormatLabel(key), depth, RenderEntries(v, 0, depth + 1)))
    else
      Some(Field(FieldCaption, OrEmpty(v), Rows(v), None))
  }

  /** `Object.entries(value).map(...)` inside the section of `container`. */
  function RenderEntries(container: JsValue, i: nat, depth: nat): seq<View>
    requires container.JObj? && i <= |container.entries|
    decreases container, 0, |container.entries| - i
  {
    if i == |container.entries| then []
    else
      var (subKey, subValue) := container.entries[i];
      Emit(Render(subKey, subValue, depth)) + RenderEntries(container, i + 1, depth)
  }

  /** `Object.entries(soapData).map(([key, value]) => renderField(key, value))` */
  function RenderTop(es: Entries): seq<View> {
    if es == [] then [] else Emit(Render(es[0].0, es[0].1, 0)) + RenderTop(es[1..])
  }

  /** The card content of the screen; `Object.entries` throws on `null` and `undefined`. */
  function RenderRoot(data: JsValue): seq<View>
    requires !IsNullish(data)
  {
    RenderTop(OwnEntries(data))
  }

  // ---------------------------------------------------------------------
  // Properties of the render pass

  /**
   * Blank values and empty objects render nothing; another object renders a
   * section with its formatted key at `depth`, one of whose own values is
   * not blank; anything else renders an uneditable "Label Text" field
   * showing `value || ""`, four rows high exactly when its length exceeds 100.
   */
  lemma RenderCases(key: string, v: JsValue, depth: nat)
    ensures var r := Render(key, v, depth);
      && (r.None? <==> !IsShown(v))
      && (r.Some? ==> (r.value.Section? <==> v.JObj?))
      && (r.Some? && r.value.Section? ==>
            && r.value.title == FormatLabel(key)
            && r.value.depth == depth
            && exists i :: 0 <= i < |v.entries| && IsNonBlank(v.entries[i].1))
      && (r.Some? && r.value.Field? ==>
            && r.value.title == FieldCaption
            && r.value.text == (if IsFalsy(v) then JStr("") else v)
            && (r.value.rows == 4 <==> Length(v).Some? && Length(v).value > 100)
            && r.value.onChange.None?)
  {
  }

  /** The views of a section's entries are the renderings of its shown entries, in entry order. */
  lemma {:induction false} EntriesRendered(container: JsValue, i: nat, depth: nat)
    requires container.JObj? && i <= |container.entries|
    decreases |container.entries| - i
    ensures var kept := Filter(container.entries[i..], IsShown);
      var ws := RenderEntries(container, i, depth);
      && |ws| == |kept|
      && forall j :: 0 <= j < |kept| ==> Render(kept[j].0, kept[j].1, depth) == Some(ws[j])
  {
    var es := container.entries;
    if i < |es| {
      var (k, v) := es[i];
      assert es[i..][0] == es[i] && es[i..][1..] == es[i + 1..];
      var kept, rest := Filter(es[i..], IsShown), Filter(es[i + 1..], IsShown);
      var ws, wsRest := RenderEntries(container, i, depth), RenderEntries(container, i + 1, depth);
      EntriesRendered(container, i + 1, depth);
      RenderCases(k, v, depth);
      if IsShown(v) {
        var w := Render(k, v, depth);
        assert kept == [es[i]] + rest;
        assert ws == [w.value] + wsRest;
      } else {
        assert kept == rest;
        assert ws == wsRest;
      }
    }
  }

  /**
   * An object renders a section exactly when one of its own values is not
   * blank; the section holds the renderings of its shown entries, in
   * order, one level deeper.
   */
  lemma SectionChildren(key: string, v: JsValue, depth: nat)
    requires v.JObj?
    ensures Render(key, v, depth).Some? <==> exists i :: 0 <= i < |v.entries| && IsNonBlank(v.entries[i].1)
    ensures var r := Render(key, v, depth);
      var kept := Filter(v.entries, IsShown);
      r.Some? ==>
        && r.value.Section?
        && |r.value.children| == |kept|
        && forall j :: 0 <= j < |kept| ==> Render(kept[j].0, kept[j].1, depth + 1) == Some(r.value.children[j])
  {
    assert v.entries[0..] == v.entries;
    EntriesRendered(v, 0, depth + 1);
  }

  /** No field anywhere in a rendered tree can be edited, and sections sit at their nesting depth. */
  lemma {:induction false} RenderShape(key: string, v: JsValue, depth: nat)
    decreases v, 1
    ensures var r := Render(key, v, depth);
      r.Some? ==> ReadOnly(r.value) && DepthsFrom(r.value, depth)
  {
    if IsShown(v) && v.JObj? {
      var children := RenderEntries(v, 0, depth + 1);
      assert Render(key, v, depth) == Some(Section(FormatLabel(key), depth, children));
      EntriesShape(v, 0, depth + 1);
    }
  }

  lemma {:induction false} EntriesShape(container: JsValue, i: nat, depth: nat)
    requires container.JObj? && i <= |container.entries|
    decreases container, 0, |container.entries| - i
    ensures forall w :: w in RenderEntries(container, i, depth) ==> ReadOnly(w) && DepthsFrom(w, depth)
  {
    if i < |container.entries| {
      var (subKey, subValue) := container.entries[i];
      var here := Render(subKey, subValue, depth);
      assert RenderEntries(container, i, depth) == Emit(here) + RenderEntries(container, i + 1, depth);
      RenderShape(subKey, subValue, depth);
      EntriesShape(container, i + 1, depth);
    }
  }

  lemma {:induction false} TopRendered(es: Entries)
    ensures var kept := Filter(es, IsShown);
      var ws := RenderTop(es);
      && |ws| == |kept|
      && forall j :: 0 <= j < |kept| ==> Render(kept[j].0, kept[j].1, 0) == Some(ws[j])
  {
    if es != [] {
      var (k, v) := es[0];
      var kept, rest := Filter(es, IsShown), Filter(es[1..], IsShown);
      var ws, wsRest := RenderTop(es), RenderTop(es[1..]);
      TopRendered(es[1..]);
      RenderCases(k, v, 0);
      if IsShown(v) {
        var w := Render(k, v, 0);
        assert kept == [es[0]] + rest;
        assert ws == [w.value] + wsRest;
      } else {
        assert kept == rest;
        assert ws == wsRest;
      }
    }
  }

  /**
   * The screen renders the record's shown entries in order at depth 0: the
   * same suppression applies at the top level as inside sections, and no
   * field of the whole screen has a change handler.
   */
  lemma RootRendered(data: JsValue)
    requires !IsNullish(data)
    ensures var kept := Filter(OwnEntries(data), IsShown);
      && |RenderRoot(data)| == |kept|
      && forall j :: 0 <= j < |kept| ==> Render(kept[j].0, kept[j].1, 0) == Some(RenderRoot(data)[j])
    ensures forall w :: w in RenderRoot(data) ==> ReadOnly(w) && DepthsFrom(w, 0)
  {
    var es := OwnEntries(data);
    var kept := Filter(es, IsShown);
    TopRendered(es);
    forall w | w in RenderRoot(data) ensures ReadOnly(w) && DepthsFrom(w, 0) {
      var j :| 0 <= j < |RenderRoot(data)| && RenderRoot(data)[j] == w;
      RenderShape(kept[j].0, kept[j].1, 0);
    }
  }

  // ---------------------------------------------------------------------
  // Worked records, built from the one-step unfoldings that open the section

  lemma SectionOf(key: string, v: JsValue, depth: nat, title: string, children: seq<View>)
    requires v.JObj? && !IsObjectEmpty(v)
    requires FormatLabel(key) == title && RenderEntries(v, 0, depth + 1) == children
    ensures Render(key, v, depth) == Some(Section(title, depth, children))
  {
  }

  lemma LeafOf(key: string, v: JsValue, depth: nat)
    requires !IsBlank(v) && !v.JObj?
    ensures Render(key, v, depth) == Some(Field(FieldCaption, OrEmpty(v), Rows(v), None))
  {
  }

  lemma Hidden(key: string, v: JsValue, depth: nat)
    requires IsBlank(v) || IsObjectEmpty(v)
    ensures Render(key, v, depth) == None
  {
  }

  lemma EntriesStep(container: JsValue, i: nat, depth: nat)
    requires container.JObj? && i < |container.entries|
    ensures RenderEntries(container, i, depth) ==
      Emit(Render(container.entries[i].0, container.entries[i].1, depth)) + RenderEntries(container, i + 1, depth)
  {
  }

  /** A one-property object whose value renders nothing. */
  lemma EntriesNone(container: JsValue, k: string, v: JsValue, depth: nat)
    requires container == JObj([(k, v)]) && Render(k, v, depth) == None
    ensures RenderEntries(container, 0, depth) == []
  {
    EntriesStep(container, 0, depth);
  }

  /** A two-property object whose first value renders as `w` and whose second renders nothing. */
  lemma EntriesFirstOfTwo(container: JsValue, k1: string, v1: JsValue, k2: string, v2: JsValue, depth: nat, w: View)
    requires container == JObj([(k1, v1), (k2, v2)])
    requires Render(k1, v1, depth) == Some(w) && Render(k2, v2, depth) == None
    ensures RenderEntries(container, 0, depth) == [w]
  {
    EntriesStep(container, 0, depth);
    EntriesStep(container, 1, depth);
  }

  lemma TopOne(k: string, v: JsValue)
    ensures RenderTop([(k, v)]) == Emit(Render(k, v, 0))
  {
    assert [(k, v)][1..] == [];
  }

  lemma TopTwo(k1: string, v1: JsValue, k2: string, v2: JsValue)
    ensures RenderTop([(k1, v1), (k2, v2)]) == Emit(Render(k1, v1, 0)) + Emit(Render(k2, v2, 0))
  {
    assert [(k1, v1), (k2, v2)][1..] == [(k2, v2)];
    TopOne(k2, v2);
  }

  lemma RootOne(record: JsValue, k: string, v: JsValue, w: View)
    requires record == JObj([(k, v)]) && Render(k, v, 0) == Some(w)
    ensures RenderRoot(record) == [w]
  {
    TopOne(k, v);
  }

  lemma RootFirstOfTwo(record: JsValue, k1: string, v1: JsValue, k2: string, v2: JsValue, w: View)
    requires record == JObj([(k1, v1), (k2, v2)])
    requires Render(k1, v1, 0) == Some(w) && Render(k2, v2, 0) == None
    ensures RenderRoot(record) == [w]
  {
    TopTwo(k1, v1, k2, v2);
  }

  /** A number `0` is shown (it is not blank), as an empty text box. */
  lemma ZeroShownEmpty(key: string, depth: nat)
    ensures Render(key, JNum(0), depth) == Some(Field(FieldCaption, JStr(""), 2, None))
  {
  }

  /** Inside `vitals` only the blood pressure is shown; the `null` temperature is suppressed. */
  lemma VitalsEntries(vitals: JsValue)
    requires vitals == JObj([("bp", JStr("120/80")), ("temp", JNull)])
    ensures RenderEntries(vitals, 0, 1) == [Field(FieldCaption, JStr("120/80"), 2, None)]
  {
    var bp := JStr("120/80");
    LeafOf("bp", bp, 1);
    assert OrEmpty(bp) == bp && Rows(bp) == 2;
    Hidden("temp", JNull, 1);
    EntriesFirstOfTwo(vitals, "bp", bp, "temp", JNull, 1, Field(FieldCaption, bp, 2, None));
  }

  lemma VitalsSection(vitals: JsValue)
    requires vitals == JObj([("bp", JStr("120/80")), ("temp", JNull)])
    ensures Render("vitals", vitals, 0) == Some(Section("Vitals", 0, [Field(FieldCaption, JStr("120/80"), 2, None)]))
  {
    VitalsLabel();
    assert !IsObjectEmpty(vitals) by {
      assert !IsBlank(vitals.entries[0].1);
    }
    VitalsEntries(vitals);
    SectionOf("vitals", vitals, 0, "Vitals", [Field(FieldCaption, JStr("120/80"), 2, None)]);
  }

  /**
   * A worked record, `{vitals: {bp: "120/80", temp: null}, notes: ""}`:
   * a "Vitals" section holding only the blood pressure, while the empty
   * top-level `notes` is suppressed.
   */
  lemma VitalsView(record: JsValue, vitals: JsValue)
    requires vitals == JObj([("bp", JStr("120/80")), ("temp", JNull)])
    requires record == JObj([("vitals", vitals), ("notes", JStr(""))])
    ensures RenderRoot(record) == [Section("Vitals", 0, [Field(FieldCaption, JStr("120/80"), 2, None)])]
  {
    VitalsSection(vitals);
    Hidden("notes", JStr(""), 0);
    RootFirstOfTwo(record, "vitals", vitals, "notes", JStr(""),
      Section("Vitals", 0, [Field(FieldCaption, JStr("120/80"), 2, None)]));
  }

  lemma HollowEntries(x: JsValue, a: JsValue)
    requires a == JObj([("b", JStr(""))]) && x == JObj([("a", a)])
    ensures RenderEntries(x, 0, 1) == []
  {
    assert IsObjectEmpty(a);
    Hidden("a", a, 1);
    EntriesNone(x, "a", a, 1);
  }

  /**
   * Emptiness is judged one level deep: `{x: {a: {b: ""}}}` renders an
   * "X" section with nothing in it, because `x`'s own value `{b: ""}` is
   * not blank although nothing below it is shown.
   */
  lemma HollowSectionShown(record: JsValue, x: JsValue, a: JsValue)
    requires a == JObj([("b", JStr(""))]) && x == JObj([("a", a)]) && record == JObj([("x", x)])
    ensures RenderRoot(record) == [Section("X", 0, [])]
  {
    SingleLetterLabel('x');
    assert !IsObjectEmpty(x) by {
      assert !IsBlank(x.entries[0].1);
    }
    HollowEntries(x, a);
    SectionOf("x", x, 0, "X", []);
    RootOne(record, "x", x, Section("X", 0, []));
  }
}
