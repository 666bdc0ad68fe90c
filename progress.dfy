/**
 * The render pass of the progress-notes screen (Progress.jsx): every
 * non-array object becomes a titled section whose truthy entries are
 * rendered one level deeper, everything else an editable text field.
 */
module ProgressScreen {
  import opened Wrappers
  import opened JsValues
  import opened Labels
  import opened Views
  import Editor

  predicate IsTruthy(v: JsValue) {
    !IsFalsy(v)
  }

  predicate IsPresent(v: JsValue) {
    !IsNullish(v)
  }

  /** `renderField(key, value, depth, parentKey)` */
  function Render(key: string, v: JsValue, depth: nat, parentKey: Option<string>): Option<View>
    decreases v, 1
  {
    if IsNullish(v) then None
    else if v.JObj? then
      Some(Section(FormatLabel(key), depth, RenderEntries(v, 0, depth + 1, key)))
    else
      Some(Field(FormatLabel(key), OrEmpty(v), Rows(v), Some(EditCall(key, parentKey))))
  }

  /**
   * `Object.entries(value).map(...)` inside the section of `container`
   * (whose key is `containerKey`): an entry identical to its container or
   * falsy renders `null`, which React drops.
   */
  function RenderEntries(container: JsValue, i: nat, depth: nat, containerKey: string): seq<View>
    requires container.JObj? && i <= |container.entries|
    decreases container, 0, |container.entries| - i
  {
    if i == |container.entries| then []
    else
      var (subKey, subValue) := container.entries[i];
      var here := if subValue == container || IsFalsy(subValue) then None
                  else Render(subKey, subValue, depth, Some(containerKey));
      Emit(here) + RenderEntries(container, i + 1, depth, containerKey)
  }

  /** `Object.entries(progressData).map(([key, value]) => renderField(key, value))` */
  function RenderTop(es: Entries): seq<View> {
    if es == [] then [] else Emit(Render(es[0].0, es[0].1, 0, None)) + RenderTop(es[1..])
  }

  /** The card content of the screen: `progressData && ...` */
  function RenderRoot(data: JsValue): seq<View> {
    if IsFalsy(data) then [] else RenderTop(OwnEntries(data))
  }

  // ---------------------------------------------------------------------
  // Properties of the render pass

  /**
   * `null` and `undefined` render nothing and every other value exactly one
   * view titled with its formatted key: a section at `depth` for a
   * non-array object, otherwise a field showing `value || ""`, four rows
   * high exactly when its length exceeds 100, whose change handler is
   * bound to the entry's key and the given parent key.
   */
  lemma RenderCases(key: string, v: JsValue, depth: nat, parentKey: Option<string>)
    ensures var r := Render(key, v, depth, parentKey);
      && (r.None? <==> IsNullish(v))
      && (r.Some? ==> r.value.title == FormatLabel(key))
      && (r.Some? ==> (r.value.Section? <==> v.JObj?))
      && (r.Some? && r.value.Section? ==> r.value.depth == depth)
      && (r.Some? && r.value.Field? ==>
            && r.value.text == (if IsFalsy(v) then JStr("") else v)
            && (r.value.rows == 4 <==> Length(v).Some? && Length(v).value > 100)
            && r.value.onChange == Some(EditCall(key, parentKey)))
  {
  }

  /** In a finite record no entry is its own container, so the identity guard never fires. */
  lemma NoSelfReference(v: JsValue)
    requires v.JObj?
    ensures forall i :: 0 <= i < |v.entries| ==> v.entries[i].1 != v
  {
    forall i | 0 <= i < |v.entries| ensures v.entries[i].1 != v {
      assert v.entries[i] in v.entries;
    }
  }

  /** The views of a section's entries are the renderings of its truthy entries, in entry order. */
  lemma {:induction false} EntriesRendered(container: JsValue, i: nat, depth: nat, containerKey: string)
    requires container.JObj? && i <= |container.entries|
    decreases |container.entries| - i
    ensures var kept := Filter(container.entries[i..], IsTruthy);
      var ws := RenderEntries(container, i, depth, containerKey);
      && |ws| == |kept|
      && forall j :: 0 <= j < |kept| ==> Render(kept[j].0, kept[j].1, depth, Some(containerKey)) == Some(ws[j])
  {
    var es := container.entries;
    if i < |es| {
      NoSelfReference(container);
      var (k, v) := es[i];
      assert es[i..][0] == es[i] && es[i..][1..] == es[i + 1..];
      var kept, rest := Filter(es[i..], IsTruthy), Filter(es[i + 1..], IsTruthy);
      var ws, wsRest := RenderEntries(container, i, depth, containerKey), RenderEntries(container, i + 1, depth, containerKey);
      EntriesRendered(container, i + 1, depth, containerKey);
      if IsTruthy(v) {
        var w := Render(k, v, depth, Some(containerKey));
        assert w.Some?;
        assert kept == [es[i]] + rest;
        assert ws == [w.value] + wsRest;
      } else {
        assert kept == rest;
        assert ws == wsRest;
      }
    }
  }

  /**
   * A non-array object renders a section with its formatted key at its own
   * depth, whose children render its truthy entries in order one level
   * deeper, each passing the object's own key as its parent key.
   */
  lemma SectionChildren(key: string, v: JsValue, depth: nat, parentKey: Option<string>)
    requires v.JObj?
    ensures var r := Render(key, v, depth, parentKey);
      var kept := Filter(v.entries, IsTruthy);
      && r.Some? && r.value.Section?
      && r.value.title == FormatLabel(key) && r.value.depth == depth
      && |r.value.children| == |kept|
      && forall j :: 0 <= j < |kept| ==>
           Render(kept[j].0, kept[j].1, depth + 1, Some(key)) == Some(r.value.children[j])
  {
    assert v.entries[0..] == v.entries;
    EntriesRendered(v, 0, depth + 1, key);
  }

  /** Below the top level no field shows a falsy value. */
  predicate NestedFieldsTruthy(w: View) {
    match w
    case Section(_, _, children) =>
      forall i :: 0 <= i < |children| ==>
        (children[i].Field? ==> IsTruthy(children[i].text)) && NestedFieldsTruthy(children[i])
    case Field(_, _, _, _) => true
  }

  /** Every view rendered has its sections at their nesting depth and no falsy field below the top. */
  lemma {:induction false} RenderShape(key: string, v: JsValue, depth: nat, parentKey: Option<string>)
    decreases v, 1
    ensures var r := Render(key, v, depth, parentKey);
      r.Some? ==> DepthsFrom(r.value, depth) && NestedFieldsTruthy(r.value)
  {
    if v.JObj? {
      var children := RenderEntries(v, 0, depth + 1, key);
      assert Render(key, v, depth, parentKey) == Some(Section(FormatLabel(key), depth, children));
      EntriesShape(v, 0, depth + 1, key);
    }
  }

  lemma {:induction false} EntriesShape(container: JsValue, i: nat, depth: nat, containerKey: string)
    requires container.JObj? && i <= |container.entries|
    decreases container, 0, |container.entries| - i
    ensures forall w :: w in RenderEntries(container, i, depth, containerKey) ==>
      DepthsFrom(w, depth) && NestedFieldsTruthy(w) && (w.Field? ==> IsTruthy(w.text))
  {
    if i < |container.entries| {
      var (subKey, subValue) := container.entries[i];
      var here := if subValue == container || IsFalsy(subValue) then None
                  else Render(subKey, subValue, depth, Some(containerKey));
      var rest := RenderEntries(container, i + 1, depth, containerKey);
      assert RenderEntries(container, i, depth, containerKey) == Emit(here) + rest;
      if here.Some? {
        RenderShape(subKey, subValue, depth, Some(containerKey));
        assert DepthsFrom(here.value, depth);
        assert NestedFieldsTruthy(here.value);
        assert here.value.Field? ==> IsTruthy(here.value.text);
      }
      EntriesShape(container, i + 1, depth, containerKey);
    }
  }

  lemma {:induction false} TopRendered(es: Entries)
    ensures var kept := Filter(es, IsPresent);
      var ws := RenderTop(es);
      && |ws| == |kept|
      && forall j :: 0 <= j < |kept| ==> Render(kept[j].0, kept[j].1, 0, None) == Some(ws[j])
  {
    if es != [] {
      var (k, v) := es[0];
      var kept, rest := Filter(es, IsPresent), Filter(es[1..], IsPresent);
      var ws, wsRest := RenderTop(es), RenderTop(es[1..]);
      TopRendered(es[1..]);
      if IsPresent(v) {
        var w := Render(k, v, 0, None);
        assert w.Some?;
        assert kept == [es[0]] + rest;
        assert ws == [w.value] + wsRest;
      } else {
        assert kept == rest;
        assert ws == wsRest;
      }
    }
  }

  /**
   * The screen renders the record's entries in order at depth 0 with no
   * parent key, skipping only `null` and `undefined` (no truthiness filter
   * at the top level); a falsy record renders nothing.
   */
  lemma RootRendered(data: JsValue)
    ensures IsFalsy(data) ==> RenderRoot(data) == []
    ensures !IsFalsy(data) ==>
      var kept := Filter(OwnEntries(data), IsPresent);
      && |RenderRoot(data)| == |kept|
      && forall j :: 0 <= j < |kept| ==> Render(kept[j].0, kept[j].1, 0, None) == Some(RenderRoot(data)[j])
  {
    TopRendered(OwnEntries(data));
  }

  // ---------------------------------------------------------------------
  // Worked records, built from the one-step unfoldings that open the section

  lemma SectionOf(key: string, v: JsValue, depth: nat, parentKey: Option<string>, title: string, children: seq<View>)
    requires v.JObj? && FormatLabel(key) == title && RenderEntries(v, 0, depth + 1, key) == children
    ensures Render(key, v, depth, parentKey) == Some(Section(title, depth, children))
  {
  }

  lemma LeafOf(key: string, v: JsValue, depth: nat, parentKey: Option<string>, title: string)
    requires !IsNullish(v) && !v.JObj? && FormatLabel(key) == title
    ensures Render(key, v, depth, parentKey) == Some(Field(title, OrEmpty(v), Rows(v), Some(EditCall(key, parentKey))))
  {
  }

  lemma EntriesStep(container: JsValue, i: nat, depth: nat, containerKey: string)
    requires container.JObj? && i < |container.entries|
    ensures var (k, v) := container.entries[i];
      RenderEntries(container, i, depth, containerKey) ==
        (if v == container || IsFalsy(v) then [] else Emit(Render(k, v, depth, Some(containerKey))))
        + RenderEntries(container, i + 1, depth, containerKey)
  {
  }

  /** A one-property object whose value is truthy and renders as `w`. */
  lemma EntriesOne(container: JsValue, k: string, v: JsValue, depth: nat, containerKey: string, w: View)
    requires container == JObj([(k, v)])
    requires !IsFalsy(v) && Render(k, v, depth, Some(containerKey)) == Some(w)
    ensures RenderEntries(container, 0, depth, containerKey) == [w]
  {
    NoSelfReference(container);
    EntriesStep(container, 0, depth, containerKey);
  }

  /** A two-property object whose first value renders as `w` and whose second is falsy. */
  lemma EntriesFirstOfTwo(container: JsValue, k1: string, v1: JsValue, k2: string, v2: JsValue,
                          depth: nat, containerKey: string, w: View)
    requires container == JObj([(k1, v1), (k2, v2)])
    requires !IsFalsy(v1) && Render(k1, v1, depth, Some(containerKey)) == Some(w) && IsFalsy(v2)
    ensures RenderEntries(container, 0, depth, containerKey) == [w]
  {
    NoSelfReference(container);
    EntriesStep(container, 0, depth, containerKey);
    EntriesStep(container, 1, depth, containerKey);
  }

  lemma RootOne(record: JsValue, k: string, v: JsValue, w: View)
    requires record == JObj([(k, v)]) && Render(k, v, 0, None) == Some(w)
    ensures RenderRoot(record) == [w]
  {
    TopOne(k, v);
  }

  lemma RootTwo(record: JsValue, k1: string, v1: JsValue, k2: string, v2: JsValue, w1: View, w2: View)
    requires record == JObj([(k1, v1), (k2, v2)])
    requires Render(k1, v1, 0, None) == Some(w1) && Render(k2, v2, 0, None) == Some(w2)
    ensures RenderRoot(record) == [w1, w2]
  {
    TopTwo(k1, v1, k2, v2);
  }

  lemma TopOne(k: string, v: JsValue)
    ensures RenderTop([(k, v)]) == Emit(Render(k, v, 0, None))
  {
    assert [(k, v)][1..] == [];
  }

  lemma TopTwo(k1: string, v1: JsValue, k2: string, v2: JsValue)
    ensures RenderTop([(k1, v1), (k2, v2)]) == Emit(Render(k1, v1, 0, None)) + Emit(Render(k2, v2, 0, None))
  {
    assert [(k1, v1), (k2, v2)][1..] == [(k2, v2)];
    TopOne(k2, v2);
  }

  /** Inside `vitals` only the truthy blood pressure is rendered; the `null` temperature is dropped. */
  lemma VitalsEntries(vitals: JsValue)
    requires vitals == JObj([("bp", JStr("120/80")), ("temp", JNull)])
    ensures RenderEntries(vitals, 0, 1, "vitals") ==
      [Field("Bp", JStr("120/80"), 2, Some(EditCall("bp", Some("vitals"))))]
  {
    var bp := JStr("120/80");
    BpLabel("bp");
    LeafOf("bp", bp, 1, Some("vitals"), "Bp");
    assert OrEmpty(bp) == bp && Rows(bp) == 2;
    EntriesFirstOfTwo(vitals, "bp", bp, "temp", JNull, 1, "vitals",
      Field("Bp", bp, 2, Some(EditCall("bp", Some("vitals")))));
  }

  /** The `vitals` object of the worked record renders as a section holding only the blood pressure. */
  lemma VitalsSection(vitals: JsValue)
    requires vitals == JObj([("bp", JStr("120/80")), ("temp", JNull)])
    ensures Render("vitals", vitals, 0, None) ==
      Some(Section("Vitals", 0, [Field("Bp", JStr("120/80"), 2, Some(EditCall("bp", Some("vitals"))))]))
  {
    VitalsLabel();
    VitalsEntries(vitals);
    SectionOf("vitals", vitals, 0, None, "Vitals",
      [Field("Bp", JStr("120/80"), 2, Some(EditCall("bp", Some("vitals"))))]);
  }

  /** At the top level an empty string is still shown, as an empty field. */
  lemma EmptyNotesField(key: string, v: JsValue)
    requires key == "notes" && v == JStr("")
    ensures Render(key, v, 0, None) == Some(Field("Notes", JStr(""), 2, Some(EditCall("notes", None))))
  {
    NotesLabel();
    LeafOf(key, v, 0, None, "Notes");
    assert OrEmpty(v) == v && Rows(v) == 2;
  }

  /**
   * A worked record, `{vitals: {bp: "120/80", temp: null}, notes: ""}`:
   * `vitals` becomes a section holding only the blood pressure (the `null`
   * temperature is falsy), while the top-level empty `notes` is still
   * shown, as an empty field.
   */
  lemma VitalsView(record: JsValue, vitals: JsValue)
    requires vitals == JObj([("bp", JStr("120/80")), ("temp", JNull)])
    requires record == JObj([("vitals", vitals), ("notes", JStr(""))])
    ensures RenderRoot(record) == [
      Section("Vitals", 0, [Field("Bp", JStr("120/80"), 2, Some(EditCall("bp", Some("vitals"))))]),
      Field("Notes", JStr(""), 2, Some(EditCall("notes", None)))]
  {
    VitalsSection(vitals);
    EmptyNotesField("notes", JStr(""));
    RootTwo(record, "vitals", vitals, "notes", JStr(""),
      Section("Vitals", 0, [Field("Bp", JStr("120/80"), 2, Some(EditCall("bp", Some("vitals"))))]),
      Field("Notes", JStr(""), 2, Some(EditCall("notes", None))));
  }

  /** The innermost object `{c: "x"}` of the deep record, inside the section keyed `b`. */
  lemma DeepInnerEntries(b: JsValue)
    requires b == JObj([("c", JStr("x"))])
    ensures RenderEntries(b, 0, 2, "b") == [Field("C", JStr("x"), 2, Some(EditCall("c", Some("b"))))]
  {
    var c := JStr("x");
    SingleLetterLabel('c');
    LeafOf("c", c, 2, Some("b"), "C");
    assert OrEmpty(c) == c && Rows(c) == 2;
    EntriesOne(b, "c", c, 2, "b", Field("C", c, 2, Some(EditCall("c", Some("b")))));
  }

  lemma DeepMiddleEntries(a: JsValue, b: JsValue)
    requires b == JObj([("c", JStr("x"))]) && a == JObj([("b", b)])
    ensures RenderEntries(a, 0, 1, "a") ==
      [Section("B", 1, [Field("C", JStr("x"), 2, Some(EditCall("c", Some("b"))))])]
  {
    var inner := [Field("C", JStr("x"), 2, Some(EditCall("c", Some("b"))))];
    SingleLetterLabel('b');
    DeepInnerEntries(b);
    SectionOf("b", b, 1, Some("a"), "B", inner);
    EntriesOne(a, "b", b, 1, "a", Section("B", 1, inner));
  }

  /** A leaf two objects deep (`a.b.c`) is bound to its immediate container's key `b` only. */
  lemma DeepLeafView(record: JsValue, a: JsValue, b: JsValue)
    requires b == JObj([("c", JStr("x"))]) && a == JObj([("b", b)]) && record == JObj([("a", a)])
    ensures RenderRoot(record) == [
      Section("A", 0, [Section("B", 1, [Field("C", JStr("x"), 2, Some(EditCall("c", Some("b"))))])])]
  {
    var middle := [Section("B", 1, [Field("C", JStr("x"), 2, Some(EditCall("c", Some("b"))))])];
    SingleLetterLabel('a');
    DeepMiddleEntries(a, b);
    SectionOf("a", a, 0, None, "A", middle);
    RootOne(record, "a", a, Section("A", 0, middle));
  }

  /**
   * Editing that leaf through its binding, as `handleInputChange` would,
   * writes a new root property `b` instead of changing `a.b.c`: the single
   * parent key cannot address a leaf more than one object deep.
   */
  lemma DeepLeafEdit(record: JsValue, a: JsValue, b: JsValue)
    requires b == JObj([("c", JStr("x"))]) && a == JObj([("b", b)]) && record == JObj([("a", a)])
    ensures Editor.HandleInputChange(record, "c", JStr("y"), Some("b")) ==
      JObj([("a", a), ("b", JObj([("c", JStr("y"))]))])
  {
    var top := record.entries;
    assert "b" !in KeysOf(top);
    assert !IsArrayIndex("b") && !IsArrayIndex("c");
    assert Get(top, "b") == JUndefined;
    assert Editor.Put([], "c", JStr("y")) == [("c", JStr("y"))];
  }
}
