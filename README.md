# Clinical note screens: a Dafny model

The source is a React front end with two screens that display a clinical
note record. The record is read from the bare global `location.state`
(`location.state || {}`, `Progress.jsx:38`, `Soap.jsx:35`). In a browser
that global is `window.location`, which has no `state` property, so the
record is `{}` and the screen redirects. The render functions and the
reducer take the record as a parameter. Progress Notes (`src/pages/Progress.jsx`)
shows editable fields and SOAP Notes (`src/pages/Soap.jsx`) shows read-only
ones. Both screens walk the record, a tree of JSON-like JavaScript values,
with a recursive `renderField`:

- an object (not an array) becomes a titled, indented card, a *section*;
- anything else becomes a labelled text box, a *field*.

Each card's title is the record key formatted as a label: underscores become
spaces and each word is capitalised. The editing screen also has a
copy-on-spread state reducer (`handleInputChange`) that sets one property of
the record, or one property of one of its children.

The model is made of pure functions over datatypes, and lemmas about them:

- `JsValues` (`js_value.dfy`) covers the value type and the parts of
  JavaScript object semantics the screens depend on. These are truthiness,
  `v || ""`, `v?.length`, and the entries that `Object.entries` and spread
  see, in JavaScript's own-property order: array-index names first, in
  ascending order, then the other names in creation order.
- `Labels` (`label.dfy`) covers the two chained `replace` calls that turn a
  key into a label, stated as a per-position rule.
- `Views` (`view.dfy`) covers what a render produces: the `View` tree, the
  rows hint and the dropping of `null` children.
- `Editor` (`editor.dfy`) covers the reducer, with JavaScript's placement
  rule for a newly defined property. `Soap.jsx:46-58` (`handleChange`) is
  textually the same reducer as `Progress.jsx:49-61`, so one definition
  models both.
- `ProgressScreen` (`progress.dfy`) and `SoapScreen` (`soap.dfy`) cover the
  two render passes. Each has a contract lemma for one entry, an
  entry-order lemma for a section's children and for the top level, a shape
  lemma for whole trees, and worked records.

A render function's contract is stated in its `RenderCases` lemma rather
than on the function itself. This keeps the recursive function cheap to
unfold.

## Model

| member | source | states |
|---|---|---|
| JsValues.OrEmpty | src/pages/Progress.jsx:105 | a falsy value shows as the empty string and any other value shows as itself, so what is shown is truthy or `""` |
| JsValues.Get | src/pages/Progress.jsx:54 | reading a missing name gives `undefined`; reading a present name gives the value of its first entry |
| JsValues.FilterKept | src/pages/Progress.jsx:89-91 | the filter keeps every entry that passes and only entries of the input, so it is never longer than the input |
| JsValues.NatToStringDigits | src/pages/Progress.jsx:51 | the decimal name of `n` is a non-empty digit string whose value is `n` |
| JsValues.NatToStringInjective | src/pages/Progress.jsx:51 | different numbers have different decimal names |
| JsValues.NatToStringIsIndex | src/pages/Progress.jsx:51 | `String(i)` is an array-index name exactly when `i` is at most 2^32 - 2, and its index value is `i` |
| JsValues.IndexedEntriesValid | src/pages/Progress.jsx:54 | entries named "0", "1", ... in order have unique names in property order |
| JsValues.OwnEntriesWellFormed | src/pages/Progress.jsx:54 | spreading a well-formed value (an object, an array, a string or a primitive) gives a real object whose values are well-formed |
| JsValues.LookupNone | src/pages/Progress.jsx:54 | a lookup fails exactly when no entry has that name |
| JsValues.LookupFound | src/pages/Progress.jsx:54 | a successful lookup returns the value of an entry of that name |
| JsValues.WithoutConcat | src/pages/Progress.jsx:51 | removing a name from a concatenation removes it from each part |
| Labels.FormatLabel | src/pages/Progress.jsx:66-68 | the label has the key's length and no underscore; an underscore becomes a space; a letter or digit at the start or after a non-alphanumeric character is upper-cased; every other character is unchanged |
| Labels.ChiefComplaintLabel | src/pages/Progress.jsx:66-68 | `chief_complaint` becomes `Chief Complaint` |
| Labels.BpLabel | src/pages/Progress.jsx:66-68 | `bp` becomes `Bp` |
| Labels.DigitWordLabel | src/pages/Progress.jsx:66-68 | `bp_2nd_reading` becomes `Bp 2nd Reading`: a digit starts a word, so the letter after it stays lower-case |
| Labels.FormatLabelIdempotent | src/pages/Soap.jsx:74-76 | formatting a label a second time changes nothing |
| Labels.WordStartsUpperCase | src/pages/Soap.jsx:74-76 | no character that starts a word of a label is a lower-case letter |
| Labels.CapitalizedWord | src/pages/Progress.jsx:66-68 | a single lower-case word gets exactly its first letter upper-cased |
| Labels.SnakeCaseWords | src/pages/Progress.jsx:66-68 | two lower-case words joined by `_` become the two capitalised words joined by a space |
| Labels.SingleLetterLabel | src/pages/Progress.jsx:66-68 | a one-letter key becomes that letter upper-cased |
| Labels.NotesLabel | src/pages/Progress.jsx:66-68 | `notes` becomes `Notes` |
| Labels.VitalsLabel | src/pages/Progress.jsx:66-68 | `vitals` becomes `Vitals` |
| Views.Rows | src/pages/Progress.jsx:108 | a text box is 4 rows high exactly when the value is a string or an array longer than 100, otherwise 2 |
| Views.Emit | src/pages/Progress.jsx:89-91 | an entry that renders `null` contributes nothing; an entry that renders a view contributes exactly that view |
| Editor.InsertionPoint | src/pages/Progress.jsx:54 | a new array-index name goes after exactly the leading array indices that are smaller than it |
| Editor.HandleInputChange | src/pages/Progress.jsx:49-61 | the new record is always an object, even when the previous one was not |
| Editor.LookupConcat | src/pages/Progress.jsx:54 | a lookup in a concatenation finds the first part's entry if there is one, otherwise the second part's |
| Editor.LookupReplace | src/pages/Progress.jsx:56 | overwriting `k` in place changes what `k` reads and nothing else |
| Editor.WithoutReplace | src/pages/Progress.jsx:56 | overwriting `k` in place leaves every entry not named `k` as it was |
| Editor.KeysConcat | src/pages/Progress.jsx:54 | the names of a concatenation are the names of its parts |
| Editor.LookupInsert | src/pages/Progress.jsx:54 | inserting a new name makes it read back its value and changes no other read |
| Editor.PutLookup | src/pages/Progress.jsx:54-56 | after setting `k` to `v`, `k` reads `v` and every other name reads what it read before |
| Editor.KeysInsert | src/pages/Progress.jsx:54 | inserting an entry adds exactly its name |
| Editor.PutKeys | src/pages/Progress.jsx:54-56 | setting `k` adds at most the name `k` |
| Editor.PutWithout | src/pages/Progress.jsx:54-56 | apart from `k`, the entries and their order are exactly those before |
| Editor.PutPlacement | src/pages/Progress.jsx:54-56 | an existing name is overwritten in place; a new array index goes after the smaller indices and before the larger ones; any other new name is appended |
| Editor.InsertedIndexBelow | src/pages/Progress.jsx:54 | a new array index is smaller than every array index at or after its insertion point |
| Editor.InsertUnique | src/pages/Progress.jsx:54 | inserting a name that is not present keeps the names unique |
| Editor.InsertOrdered | src/pages/Progress.jsx:54 | inserting a name where JavaScript puts it keeps the property order |
| Editor.PutValid | src/pages/Progress.jsx:54-56 | setting a property of a real object gives a real object: unique names in property order |
| Editor.InsertValues | src/pages/Progress.jsx:54 | inserting a well-formed value among well-formed values leaves all values well-formed |
| Editor.PutValues | src/pages/Progress.jsx:54-56 | after setting a well-formed value, every value of the object is well-formed |
| Editor.RootEdit | src/pages/Progress.jsx:49-61 | with no truthy `parentKey`, the root's `key` becomes exactly `value`; every other name reads as before; the names grow by at most `key`; the other entries keep their order |
| Editor.NestedEdit | src/pages/Progress.jsx:49-61 | with a truthy `parentKey`, only the root's `parentKey` changes; it becomes an object in which `key` is exactly `value`, every other name reads as in the old child, the names grow by at most `key`, and the other entries keep their order |
| Editor.AbsentParentEdit | src/pages/Progress.jsx:54 | a `parentKey` the record lacks spreads `undefined`, so it becomes a new child holding only `key` |
| Editor.EditWellFormed | src/pages/Progress.jsx:49-61 | an edit of a well-formed record with a well-formed value gives a well-formed record |
| Editor.VitalsEdit | src/pages/Progress.jsx:53-54 | editing `bp` under `vitals` changes that one leaf and keeps `temp`, `notes` and the order of everything |
| ProgressScreen.RenderCases | src/pages/Progress.jsx:63-113 | `null` and `undefined` render nothing and every other value renders one view titled with the formatted key; it is a section at the given depth exactly for a non-array object; otherwise it is a field that shows `value \|\| ""`, is 4 rows high exactly when the length exceeds 100, and whose change handler carries the key and parent key |
| ProgressScreen.NoSelfReference | src/pages/Progress.jsx:82-87 | no entry of a finite record is its own container, so the self-reference guard never fires |
| ProgressScreen.EntriesRendered | src/pages/Progress.jsx:81-92 | a section's children are the renderings of exactly its truthy entries, in entry order, with the container's key as parent key |
| ProgressScreen.SectionChildren | src/pages/Progress.jsx:70-92 | an object renders a section with its formatted key at its depth; its children render its truthy entries in order at `depth + 1`, each with the object's own key as parent key |
| ProgressScreen.RenderShape | src/pages/Progress.jsx:63-113 | every section of a rendered tree sits at its nesting depth, and no field below the top level shows a falsy value |
| ProgressScreen.EntriesShape | src/pages/Progress.jsx:81-92 | every child view of a section has its sections at their depths and no falsy field |
| ProgressScreen.TopRendered | src/pages/Progress.jsx:141-143 | the top level renders exactly the entries that are not `null` or `undefined`, in order, at depth 0, with no parent key |
| ProgressScreen.RootRendered | src/pages/Progress.jsx:140-143 | a falsy record renders no views; otherwise the screen renders its non-nullish entries in order at depth 0 with no parent key, and its falsy entries are not filtered |
| ProgressScreen.EntriesOne | src/pages/Progress.jsx:81-92 | a one-entry object with a truthy value has exactly that value's rendering as children |
| ProgressScreen.EntriesFirstOfTwo | src/pages/Progress.jsx:89-91 | a two-entry object whose second value is falsy has only the first value's rendering as children |
| ProgressScreen.TopOne | src/pages/Progress.jsx:141-143 | a one-entry top level renders that entry at depth 0 with no parent key |
| ProgressScreen.TopTwo | src/pages/Progress.jsx:141-143 | a two-entry top level renders both entries in order |
| ProgressScreen.RootOne | src/pages/Progress.jsx:140-143 | a one-entry record renders its one view |
| ProgressScreen.RootTwo | src/pages/Progress.jsx:140-143 | a two-entry record renders its two views in order |
| ProgressScreen.VitalsEntries | src/pages/Progress.jsx:89-91 | inside `vitals` only the blood pressure is rendered; the `null` temperature is dropped |
| ProgressScreen.VitalsSection | src/pages/Progress.jsx:70-92 | the `vitals` object renders as a "Vitals" section that holds only the "Bp" field |
| ProgressScreen.EmptyNotesField | src/pages/Progress.jsx:105 | a top-level empty `notes` is still shown, as an empty two-row field |
| ProgressScreen.VitalsView | src/pages/Progress.jsx:140-143 | the record `{vitals: {bp: "120/80", temp: null}, notes: ""}` renders a "Vitals" section holding "Bp", followed by an empty "Notes" field |
| ProgressScreen.DeepInnerEntries | src/pages/Progress.jsx:90 | the leaf `c` inside `b` is bound to the parent key `b` |
| ProgressScreen.DeepMiddleEntries | src/pages/Progress.jsx:90 | the section `b` inside `a` sits at depth 1 and holds the leaf `c` at depth 2 |
| ProgressScreen.DeepLeafView | src/pages/Progress.jsx:90 | in `{a: {b: {c: "x"}}}` the leaf `c` receives only its immediate container's key `b`, not a path |
| ProgressScreen.DeepLeafEdit | src/pages/Progress.jsx:53-54 | calling `handleInputChange` with that binding's arguments (`c`, a new value, parent key `b`) writes a new root property `b` and leaves `a.b.c` unchanged |
| SoapScreen.ObjectEmptyMeaning | src/pages/Soap.jsx:60-69 | `isObjectEmpty` holds exactly for a non-array object with no own value other than `null`, `undefined` or `""`; `{}` is empty, and a nested object makes it non-empty |
| SoapScreen.RenderCases | src/pages/Soap.jsx:71-113 | a blank value or an empty object renders nothing; another object renders a section with its formatted key at its depth, and it has an own value that is not blank; anything else renders a field captioned "Label Text" that shows `value \|\| ""`, is 4 rows high exactly when the length exceeds 100, and has no change handler |
| SoapScreen.EntriesRendered | src/pages/Soap.jsx:91-93 | a section's children are the renderings of exactly its shown entries, in entry order |
| SoapScreen.SectionChildren | src/pages/Soap.jsx:78-95 | an object renders a section exactly when one of its own values is not blank; its children render its shown entries in order at `depth + 1` |
| SoapScreen.RenderShape | src/pages/Soap.jsx:71-113 | no field of a rendered tree has a change handler, and every section sits at its nesting depth |
| SoapScreen.EntriesShape | src/pages/Soap.jsx:91-93 | every child view of a section is read-only and has its sections at their depths |
| SoapScreen.TopRendered | src/pages/Soap.jsx:140-142 | the top level renders exactly the shown entries, in order, at depth 0 |
| SoapScreen.RootRendered | src/pages/Soap.jsx:140-142 | the screen renders the record's shown entries in order at depth 0, and no view on the screen has a change handler |
| SoapScreen.EntriesNone | src/pages/Soap.jsx:91-93 | a one-entry object whose value renders nothing has no children |
| SoapScreen.EntriesFirstOfTwo | src/pages/Soap.jsx:91-93 | a two-entry object whose second value renders nothing has only the first value's rendering as children |
| SoapScreen.TopOne | src/pages/Soap.jsx:140-142 | a one-entry top level renders that entry at depth 0 |
| SoapScreen.TopTwo | src/pages/Soap.jsx:140-142 | a two-entry top level renders both entries in order |
| SoapScreen.RootOne | src/pages/Soap.jsx:140-142 | a one-entry record renders its one view |
| SoapScreen.RootFirstOfTwo | src/pages/Soap.jsx:140-142 | a two-entry record whose second entry renders nothing renders only the first view |
| SoapScreen.ZeroShownEmpty | src/pages/Soap.jsx:72-106 | the number `0` is not blank, so it is shown, as an empty two-row field |
| SoapScreen.VitalsEntries | src/pages/Soap.jsx:91-93 | inside `vitals` only the blood pressure is shown; the `null` temperature is suppressed |
| SoapScreen.VitalsSection | src/pages/Soap.jsx:78-95 | the `vitals` object renders as a "Vitals" section holding one "Label Text" field |
| SoapScreen.VitalsView | src/pages/Soap.jsx:140-142 | the record `{vitals: {bp: "120/80", temp: null}, notes: ""}` renders only the "Vitals" section; the empty `notes` is suppressed |
| SoapScreen.HollowEntries | src/pages/Soap.jsx:60-69 | inside `{a: {b: ""}}` the object `a` is empty, so nothing is rendered |
| SoapScreen.HollowSectionShown | src/pages/Soap.jsx:60-79 | emptiness is judged one level deep: `{x: {a: {b: ""}}}` renders an "X" section with no children |

## Left out

- React and MUI markup, the theme, card margins and keys are left out. Only the nesting depth, titles, texts, row counts and change bindings are modelled.
- The caption of a field is modelled without the colon the screens print after it (`Progress.jsx:100`, `Soap.jsx:101`).
- The `useEffect` redirect to `/` for an empty record is left out. It is navigation, not logic (`Progress.jsx:40-45`, `Soap.jsx:37-42`).
- Reading `location.state` is left out. It is the bare global `window.location`, not the router's `useLocation()` (imported at `Progress.jsx:17` but never called). `window.location` has no `state` property, so in a browser the record is `{}`. The record is a parameter of the render functions and of the reducer.
- The `useState` cell is left out. The reducer is modelled as a function from the previous record to the next one.
- PDF export is left out. `generatePDF` is an external asynchronous call, and `src/services/PDFGenerator` is not part of this model.
- The Save button is left out. It has no handler.
- The unused `progressResponse` import is left out.
- `console.warn` in the self-reference guard is left out. It is a diagnostic side effect; the guard itself is modelled.
- ProgressScreen.Render: the model shows which key and parent key a field's change handler would receive, but not an edit loop. The handler in `Progress.jsx:106` calls `handleChange`, which that file never defines, so typing into a field would throw rather than reach `handleInputChange`.
- SoapScreen.Render: the `parentKey` argument of `renderField` is left out. Soap fields attach no handler, so it is never read. Soap's `handleChange` is never called from the render tree.
- Editor.HandleInputChange: only one parent level is addressed, as the code does. A leaf two objects deep cannot be reached; see ProgressScreen.DeepLeafEdit.
- ProgressScreen.RootRendered: a falsy record renders no views in the model. For the records `0` and `""`, `progressData && ...` at `Progress.jsx:140` evaluates to that value itself, and React would show `0` as text. This is left out because the record is always an object: `location.state || {}` and the reducer never give anything else.
- SoapScreen.RootRendered: requires the record not to be `null` or `undefined`. `Object.entries` throws on those, and `location.state || {}` never yields them.
- Object cycles and shared references are left out: a finite datatype cannot express a JavaScript object that contains itself. The identity check `subValue === value` is modelled as equality of values, and ProgressScreen.NoSelfReference proves it never fires.
- The special `__proto__` property name is left out. Defining it through spread creates an ordinary own property, but when the new root has no own property of that name, reading or assigning it (`newData[parentKey]` in `Progress.jsx:54`, `newData[key]` in `Progress.jsx:56`) reads or sets the prototype instead. When spread has copied an own `__proto__` property, both expressions act on that property, as `Get` and `Put` model.
- Numbers are modelled as integers. Floating point, `NaN`, `-0` and BigInt are left out; `0` is the only falsy number.
- Strings are sequences of characters. JavaScript's UTF-16 code-unit lengths and non-ASCII case mapping are left out: `toUpperCase` maps `a`-`z` only, and `\w` is ASCII letters, digits and `_`.
- Symbol keys, getters and non-enumerable properties do not occur in records and are left out.
