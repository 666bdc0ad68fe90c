/**
 * The JSON-like JavaScript values that the two note screens walk, and the
 * parts of JavaScript's object semantics the screens rely on: truthiness,
 * the own-property order that `Object.entries` and object spread follow,
 * and the `length` property read by the rows hint.
 */
module JsValues {
  import opened Wrappers

  /** A JavaScript value as it occurs in a clinical record (numbers are integers). */
  datatype JsValue =
    | JNull
    | JUndefined
    | JStr(s: string)
    | JNum(n: int)
    | JBool(b: bool)
    | JArr(items: seq<JsValue>)
    | JObj(entries: seq<(string, JsValue)>)

  /** The own enumerable string-keyed properties of an object, in property order. */
  type Entries = seq<(string, JsValue)>

  /** `v === null || v === undefined` */
  predicate IsNullish(v: JsValue) {
    v.JNull? || v.JUndefined?
  }

  /** JavaScript falsiness: `null`, `undefined`, `false`, `0` and `""`. */
  predicate IsFalsy(v: JsValue) {
    match v
    case JNull => true
    case JUndefined => true
    case JBool(b) => !b
    case JNum(n) => n == 0
    case JStr(s) => s == ""
    case _ => false
  }

  /** `v || ""` */
  function OrEmpty(v: JsValue): (r: JsValue)
    ensures IsFalsy(v) ==> r == JStr("")
    ensures !IsFalsy(v) ==> r == v
    ensures !IsFalsy(r) || r == JStr("")
  {
    if IsFalsy(v) then JStr("") else v
  }

  /** `v?.length`: strings and arrays have one; the other values the screens reach do not. */
  function Length(v: JsValue): Option<nat> {
    match v
    case JStr(s) => Some(|s|)
    case JArr(items) => Some(|items|)
    case _ => None
  }

  function KeysOf(es: Entries): set<string> {
    set i | 0 <= i < |es| :: es[i].0
  }

  /** No property name occurs twice in an object. */
  predicate UniqueKeys(es: Entries) {
    forall i, j :: 0 <= i < j < |es| ==> es[i].0 != es[j].0
  }

  /** Property read `o[k]` on an own property: the first entry named `k`. */
  function Lookup(es: Entries, k: string): Option<JsValue> {
    if es == [] then None
    else if es[0].0 == k then Some(es[0].1)
    else Lookup(es[1..], k)
  }

  /** Property read `o[k]`, giving `undefined` for a missing name. */
  function Get(es: Entries, k: string): (v: JsValue)
    ensures k !in KeysOf(es) ==> v == JUndefined
    ensures k in KeysOf(es) ==> Lookup(es, k) == Some(v)
  {
    LookupNone(es, k);
    match Lookup(es, k)
    case Some(x) => x
    case None => JUndefined
  }

  /** The entries whose name is not `k`, in their order. */
  function Without(es: Entries, k: string): Entries {
    if es == [] then []
    else (if es[0].0 == k then [] else [es[0]]) + Without(es[1..], k)
  }

  /** The entries whose value satisfies `keep`, in their order. */
  function Filter(es: Entries, keep: JsValue -> bool): Entries {
    if es == [] then []
    else (if keep(es[0].1) then [es[0]] else []) + Filter(es[1..], keep)
  }

  /** `Filter` keeps exactly the entries whose value passes, and no others. */
  lemma {:induction false} FilterKept(es: Entries, keep: JsValue -> bool)
    ensures var r := Filter(es, keep);
      && |r| <= |es|
      && (forall j :: 0 <= j < |r| ==> keep(r[j].1) && r[j] in es)
      && (forall i :: 0 <= i < |es| && keep(es[i].1) ==> es[i] in r)
  {
    if es != [] {
      FilterKept(es[1..], keep);
      assert forall i :: 1 <= i < |es| ==> es[i] == es[1..][i - 1];
    }
  }

  // ---------------------------------------------------------------------
  // Array indices: canonical decimal names, which JavaScript orders first

  const MAX_ARRAY_INDEX: nat := 4294967294

  predicate IsDigit(c: char) {
    '0' <= c <= '9'
  }

  predicate AllDigits(k: string) {
    forall i :: 0 <= i < |k| ==> IsDigit(k[i])
  }

  /** The value of a string of decimal digits (0 for the empty string). */
  function DecimalValue(k: string): nat
    requires AllDigits(k)
  {
    if k == [] then 0
    else DecimalValue(k[..|k| - 1]) * 10 + (k[|k| - 1] as int - '0' as int)
  }

  function DigitChar(d: nat): char
    requires d < 10
  {
    ('0' as int + d) as char
  }

  /** The decimal spelling of `n`, as JavaScript's `String(n)` writes it. */
  function NatToString(n: nat): string {
    if n < 10 then [DigitChar(n)] else NatToString(n / 10) + [DigitChar(n % 10)]
  }

  /**
   * A property name is an array index when it is the canonical spelling of
   * a number (`String(Number(k)) === k`) between 0 and 2^32 - 2.
   */
  predicate IsArrayIndex(k: string) {
    && |k| > 0
    && AllDigits(k)
    && NatToString(DecimalValue(k)) == k
    && DecimalValue(k) <= MAX_ARRAY_INDEX
  }

  function IndexValue(k: string): nat
    requires IsArrayIndex(k)
  {
    DecimalValue(k)
  }

  lemma {:induction false} NatToStringDigits(n: nat)
    ensures |NatToString(n)| > 0 && AllDigits(NatToString(n))
    ensures DecimalValue(NatToString(n)) == n
  {
    if n >= 10 {
      NatToStringDigits(n / 10);
      var s := NatToString(n);
      assert s[..|s| - 1] == NatToString(n / 10);
    }
  }

  lemma NatToStringInjective(m: nat, n: nat)
    requires NatToString(m) == NatToString(n)
    ensures m == n
  {
    NatToStringDigits(m);
    NatToStringDigits(n);
  }

  /** The name `String(i)` is an array index exactly when `i` is in range, and its value is `i`. */
  lemma NatToStringIsIndex(i: nat)
    ensures IsArrayIndex(NatToString(i)) <==> i <= MAX_ARRAY_INDEX
    ensures IsArrayIndex(NatToString(i)) ==> IndexValue(NatToString(i)) == i
  {
    NatToStringDigits(i);
  }

  /**
   * JavaScript's own-property order (OrdinaryOwnPropertyKeys in ECMAScript):
   * array-index names come first, in ascending numeric order; every other
   * name follows them in creation order.
   */
  predicate PropertyOrder(es: Entries) {
    forall i, j :: 0 <= i < j < |es| && IsArrayIndex(es[j].0) ==>
      IsArrayIndex(es[i].0) && IndexValue(es[i].0) < IndexValue(es[j].0)
  }

  /** The entries of a real JavaScript object. */
  predicate ValidEntries(es: Entries) {
    UniqueKeys(es) && PropertyOrder(es)
  }

  /** Every object in the value, at any depth, is a real JavaScript object. */
  predicate WellFormed(v: JsValue) {
    match v
    case JArr(items) => forall i :: 0 <= i < |items| ==> WellFormed(items[i])
    case JObj(es) => ValidEntries(es) && forall i :: 0 <= i < |es| ==> WellFormed(es[i].1)
    case _ => true
  }

  /**
   * The entries `Object.entries(v)` and `{ ...v }` see: an object's own
   * entries, an array's elements and a string's characters under the names
   * "0", "1", ..., and none for numbers, booleans, `null` and `undefined`
   * (spread ignores the last two; `Object.entries` would throw on them).
   */
  function OwnEntries(v: JsValue): Entries {
    match v
    case JObj(es) => es
    case JArr(items) => seq(|items|, i requires 0 <= i < |items| => (NatToString(i), items[i]))
    case JStr(s) => seq(|s|, i requires 0 <= i < |s| => (NatToString(i), JStr([s[i]])))
    case _ => []
  }

  /** Entries named `String(0)`, ..., `String(n-1)` in that order form a real object. */
  lemma IndexedEntriesValid(es: Entries)
    requires forall i :: 0 <= i < |es| ==> es[i].0 == NatToString(i)
    ensures ValidEntries(es)
  {
    forall i, j | 0 <= i < j < |es|
      ensures es[i].0 != es[j].0
    {
      if es[i].0 == es[j].0 {
        NatToStringInjective(i, j);
      }
    }
    forall i, j | 0 <= i < j < |es| && IsArrayIndex(es[j].0)
      ensures IsArrayIndex(es[i].0) && IndexValue(es[i].0) < IndexValue(es[j].0)
    {
      NatToStringIsIndex(i);
      NatToStringIsIndex(j);
    }
  }

  /** What spread and `Object.entries` produce from a well-formed value is a well-formed object. */
  lemma OwnEntriesWellFormed(v: JsValue)
    requires WellFormed(v)
    ensures ValidEntries(OwnEntries(v))
    ensures forall i :: 0 <= i < |OwnEntries(v)| ==> WellFormed(OwnEntries(v)[i].1)
  {
    match v
    case JArr(items) => IndexedEntriesValid(OwnEntries(v));
    case JStr(s) => IndexedEntriesValid(OwnEntries(v));
    case _ =>
  }

  // ---------------------------------------------------------------------
  // Facts about lookups by name

  lemma {:induction false} LookupNone(es: Entries, k: string)
    ensures Lookup(es, k).None? <==> k !in KeysOf(es)
  {
    if es != [] {
      LookupNone(es[1..], k);
      assert KeysOf(es) == {es[0].0} + KeysOf(es[1..]) by {
        forall x | x in KeysOf(es) ensures x in {es[0].0} + KeysOf(es[1..]) {
          var i :| 0 <= i < |es| && es[i].0 == x;
          if i > 0 { assert es[1..][i - 1].0 == x; }
        }
      }
    }
  }

  /** A successful lookup returns the value of an entry of that name. */
  lemma {:induction false} LookupFound(es: Entries, k: string)
    requires Lookup(es, k).Some?
    ensures exists i :: 0 <= i < |es| && es[i] == (k, Lookup(es, k).value)
  {
    if es[0].0 != k {
      LookupFound(es[1..], k);
      var i :| 0 <= i < |es[1..]| && es[1..][i] == (k, Lookup(es, k).value);
      assert es[i + 1] == es[1..][i];
    }
  }

  lemma {:induction false} WithoutConcat(a: Entries, b: Entries, k: string)
    ensures Without(a + b, k) == Without(a, k) + Without(b, k)
  {
    if a != [] {
      assert (a + b)[1..] == a[1..] + b;
      WithoutConcat(a[1..], b, k);
    } else {
      assert a + b == b;
    }
  }
}
