/**
 * The edit reducer shared by both screens (`handleInputChange` in
 * Progress.jsx, `handleChange` in Soap.jsx): a copy-on-spread update of the
 * record that sets one property at the root, or one property of one of the
 * root's children.
 */
module Editor {
  import opened Wrappers
  import opened JsValues

  /** Overwrite the value of property `k` where it stands. */
  function Replace(es: Entries, k: string, v: JsValue): Entries {
    seq(|es|, i requires 0 <= i < |es| => if es[i].0 == k then (k, v) else es[i])
  }

  /** Where a new array-index property `k` goes: after the array indices smaller than it. */
  function InsertionPoint(es: Entries, k: string): (p: nat)
    requires IsArrayIndex(k)
    ensures p <= |es|
    ensures forall i :: 0 <= i < p ==> IsArrayIndex(es[i].0) && IndexValue(es[i].0) < IndexValue(k)
    ensures p < |es| ==> !(IsArrayIndex(es[p].0) && IndexValue(es[p].0) < IndexValue(k))
  {
    if es == [] then 0
    else if IsArrayIndex(es[0].0) && IndexValue(es[0].0) < IndexValue(k) then
      1 + InsertionPoint(es[1..], k)
    else 0
  }

  /**
   * Defining property `k` as `v`, as both `o[k] = v` and `{ ...o, [k]: v }`
   * do: an existing property keeps its place, a new array index goes in
   * numeric order among the array indices, any other new name goes last.
   */
  function Put(es: Entries, k: string, v: JsValue): Entries {
    if k in KeysOf(es) then Replace(es, k, v)
    else if IsArrayIndex(k) then
      var p := InsertionPoint(es, k);
      es[..p] + [(k, v)] + es[p..]
    else es + [(k, v)]
  }

  /**
   * `handleInputChange(key, value, parentKey)` as the state updater applies
   * it to the previous record `prev`: the root is copied by spread; with a
   * truthy `parentKey` the root's `parentKey` property becomes a spread copy
   * of that child with `key` set, otherwise the root's `key` is set.
   */
  function HandleInputChange(prev: JsValue, key: string, value: JsValue, parentKey: Option<string>): (next: JsValue)
    ensures next.JObj?
  {
    var copy := OwnEntries(prev);
    if parentKey.Some? && parentKey.value != "" then
      var p := parentKey.value;
      var child := OwnEntries(Get(copy, p));
      JObj(Put(copy, p, JObj(Put(child, key, value))))
    else
      JObj(Put(copy, key, value))
  }

  // ---------------------------------------------------------------------
  // Lookups, names and order after Put

  lemma {:induction false} LookupConcat(a: Entries, b: Entries, k: string)
    ensures Lookup(a + b, k) == if Lookup(a, k).Some? then Lookup(a, k) else Lookup(b, k)
  {
    if a == [] {
      assert a + b == b;
    } else {
      assert (a + b)[1..] == a[1..] + b;
      LookupConcat(a[1..], b, k);
    }
  }

  lemma {:induction false} LookupReplace(es: Entries, k: string, v: JsValue, k': string)
    ensures Lookup(Replace(es, k, v), k') ==
      if k' != k then Lookup(es, k') else if k in KeysOf(es) then Some(v) else None
  {
    LookupNone(es, k);
    if es != [] {
      assert Replace(es, k, v)[1..] == Replace(es[1..], k, v);
      LookupReplace(es[1..], k, v, k');
      LookupNone(es[1..], k);
    }
  }

  lemma {:induction false} WithoutReplace(es: Entries, k: string, v: JsValue)
    ensures Without(Replace(es, k, v), k) == Without(es, k)
  {
    if es != [] {
      assert Replace(es, k, v)[1..] == Replace(es[1..], k, v);
      WithoutReplace(es[1..], k, v);
    }
  }

  lemma KeysConcat(a: Entries, b: Entries)
    ensures KeysOf(a + b) == KeysOf(a) + KeysOf(b)
  {
    forall x | x in KeysOf(a + b) ensures x in KeysOf(a) + KeysOf(b) {
      var i :| 0 <= i < |a + b| && (a + b)[i].0 == x;
      if i >= |a| { assert b[i - |a|].0 == x; }
    }
    forall x | x in KeysOf(a) ensures x in KeysOf(a + b) {
      var i :| 0 <= i < |a| && a[i].0 == x;
      assert (a + b)[i].0 == x;
    }
    forall x | x in KeysOf(b) ensures x in KeysOf(a + b) {
      var i :| 0 <= i < |b| && b[i].0 == x;
      assert (a + b)[|a| + i].0 == x;
    }
  }

  /** Inserting a name that is not yet a property anywhere reads back the new value and no other value changes. */
  lemma LookupInsert(a: Entries, k: string, v: JsValue, b: Entries, k': string)
    requires k !in KeysOf(a)
    ensures Lookup(a + [(k, v)] + b, k') == if k' == k then Some(v) else Lookup(a + b, k')
  {
    assert a + [(k, v)] + b == a + ([(k, v)] + b);
    LookupConcat(a, [(k, v)] + b, k');
    LookupConcat(a, b, k');
    LookupNone(a, k);
  }

  /** Setting a property in an object reads back the new value and no other value changes. */
  lemma PutLookup(es: Entries, k: string, v: JsValue, k': string)
    ensures Lookup(Put(es, k, v), k') == if k' == k then Some(v) else Lookup(es, k')
  {
    if k in KeysOf(es) {
      LookupReplace(es, k, v, k');
    } else {
      var p := if IsArrayIndex(k) then InsertionPoint(es, k) else |es|;
      assert Put(es, k, v) == es[..p] + [(k, v)] + es[p..];
      assert es == es[..p] + es[p..];
      KeysConcat(es[..p], es[p..]);
      LookupInsert(es[..p], k, v, es[p..], k');
    }
  }

  lemma KeysInsert(a: Entries, k: string, v: JsValue, b: Entries)
    ensures KeysOf(a + [(k, v)] + b) == KeysOf(a + b) + {k}
  {
    assert a + [(k, v)] + b == a + ([(k, v)] + b);
    KeysConcat(a, [(k, v)] + b);
    KeysConcat([(k, v)], b);
    KeysConcat(a, b);
    assert [(k, v)][0].0 == k;
    assert KeysOf([(k, v)]) == {k};
  }

  /** Setting a property adds at most its own name. */
  lemma PutKeys(es: Entries, k: string, v: JsValue)
    ensures KeysOf(Put(es, k, v)) == KeysOf(es) + {k}
  {
    if k in KeysOf(es) {
      var r := Replace(es, k, v);
      assert forall i :: 0 <= i < |es| ==> r[i].0 == es[i].0;
      assert KeysOf(r) == KeysOf(es);
    } else {
      var p := if IsArrayIndex(k) then InsertionPoint(es, k) else |es|;
      assert Put(es, k, v) == es[..p] + [(k, v)] + es[p..];
      assert es == es[..p] + es[p..];
      KeysInsert(es[..p], k, v, es[p..]);
    }
  }

  /** Apart from property `k`, the entries and their order are exactly those before. */
  lemma PutWithout(es: Entries, k: string, v: JsValue)
    ensures Without(Put(es, k, v), k) == Without(es, k)
  {
    if k in KeysOf(es) {
      WithoutReplace(es, k, v);
    } else {
      var p := if IsArrayIndex(k) then InsertionPoint(es, k) else |es|;
      assert Put(es, k, v) == es[..p] + ([(k, v)] + es[p..]);
      assert es == es[..p] + es[p..];
      WithoutConcat(es[..p], [(k, v)] + es[p..], k);
      WithoutConcat([(k, v)], es[p..], k);
      WithoutConcat(es[..p], es[p..], k);
    }
  }

  /**
   * Where the property lands: an existing one is overwritten in place, a new
   * array index is inserted after the smaller array indices, any other new
   * name is appended.
   */
  lemma PutPlacement(es: Entries, k: string, v: JsValue)
    requires ValidEntries(es)
    ensures forall i :: 0 <= i < |es| && es[i].0 == k ==>
      |Put(es, k, v)| == |es| && Put(es, k, v)[i] == (k, v)
      && forall j :: 0 <= j < |es| && j != i ==> Put(es, k, v)[j] == es[j]
    ensures k !in KeysOf(es) && !IsArrayIndex(k) ==> Put(es, k, v) == es + [(k, v)]
    ensures k !in KeysOf(es) && IsArrayIndex(k) ==>
      exists p :: (
        && 0 <= p <= |es|
        && Put(es, k, v) == es[..p] + [(k, v)] + es[p..]
        && (forall i :: 0 <= i < p ==> IsArrayIndex(es[i].0) && IndexValue(es[i].0) < IndexValue(k))
        && (forall i :: p <= i < |es| && IsArrayIndex(es[i].0) ==> IndexValue(k) < IndexValue(es[i].0)))
  {
    if k !in KeysOf(es) && IsArrayIndex(k) {
      var p := InsertionPoint(es, k);
      forall i | p <= i < |es| && IsArrayIndex(es[i].0)
        ensures IndexValue(k) < IndexValue(es[i].0)
      {
        InsertedIndexBelow(es, k, p, i);
      }
    }
  }

  /** An array index that is not yet a property is smaller than every array index at or after its insertion point. */
  lemma InsertedIndexBelow(es: Entries, k: string, p: nat, i: nat)
    requires PropertyOrder(es)
    requires IsArrayIndex(k) && k !in KeysOf(es) && p == InsertionPoint(es, k)
    requires p <= i < |es| && IsArrayIndex(es[i].0)
    ensures IndexValue(k) < IndexValue(es[i].0)
  {
    assert IsArrayIndex(es[p].0) && es[p].0 != k;
  }

  /** Inserting a name that is not yet a property keeps the names unique. */
  lemma InsertUnique(es: Entries, p: nat, k: string, v: JsValue)
    requires UniqueKeys(es) && k !in KeysOf(es) && p <= |es|
    ensures UniqueKeys(es[..p] + [(k, v)] + es[p..])
  {
    var r := es[..p] + [(k, v)] + es[p..];
    forall i, j | 0 <= i < j < |r|
      ensures r[i].0 != r[j].0
    {
      var i' := if i < p then i else i - 1;
      var j' := if j < p then j else j - 1;
      if i == p {
        assert r[j] == es[j'] && es[j'].0 in KeysOf(es);
      } else if j == p {
        assert r[i] == es[i'] && es[i'].0 in KeysOf(es);
      } else {
        assert r[i] == es[i'] && r[j] == es[j'] && i' < j';
      }
    }
  }

  /** Inserting a name at the place JavaScript puts it keeps the property order. */
  lemma InsertOrdered(es: Entries, p: nat, k: string, v: JsValue)
    requires PropertyOrder(es) && p <= |es|
    requires IsArrayIndex(k) ==> forall i :: 0 <= i < p ==> IsArrayIndex(es[i].0) && IndexValue(es[i].0) < IndexValue(k)
    requires IsArrayIndex(k) ==> forall i :: p <= i < |es| && IsArrayIndex(es[i].0) ==> IndexValue(k) < IndexValue(es[i].0)
    requires !IsArrayIndex(k) ==> p == |es|
    ensures PropertyOrder(es[..p] + [(k, v)] + es[p..])
  {
    var r := es[..p] + [(k, v)] + es[p..];
    forall i, j | 0 <= i < j < |r| && IsArrayIndex(r[j].0)
      ensures IsArrayIndex(r[i].0) && IndexValue(r[i].0) < IndexValue(r[j].0)
    {
      var i' := if i < p then i else i - 1;
      var j' := if j < p then j else j - 1;
      if i == p {
        assert r[j] == es[j'];
      } else if j == p {
        assert r[i] == es[i'];
      } else {
        assert r[i] == es[i'] && r[j] == es[j'] && i' < j';
      }
    }
  }

  /** Setting a property of a real JavaScript object gives a real JavaScript object. */
  lemma PutValid(es: Entries, k: string, v: JsValue)
    requires ValidEntries(es)
    ensures ValidEntries(Put(es, k, v))
  {
    PutPlacement(es, k, v);
    if k in KeysOf(es) {
      var r := Replace(es, k, v);
      assert forall i :: 0 <= i < |es| ==> r[i].0 == es[i].0;
    } else if IsArrayIndex(k) {
      var p :| && 0 <= p <= |es|
               && Put(es, k, v) == es[..p] + [(k, v)] + es[p..]
               && (forall i :: 0 <= i < p ==> IsArrayIndex(es[i].0) && IndexValue(es[i].0) < IndexValue(k))
               && (forall i :: p <= i < |es| && IsArrayIndex(es[i].0) ==> IndexValue(k) < IndexValue(es[i].0));
      InsertUnique(es, p, k, v);
      InsertOrdered(es, p, k, v);
    } else {
      assert es + [(k, v)] == es[..|es|] + [(k, v)] + es[|es|..];
      InsertUnique(es, |es|, k, v);
      InsertOrdered(es, |es|, k, v);
    }
  }

  /** Inserting an entry between two runs keeps every value well-formed. */
  lemma InsertValues(a: Entries, kv: (string, JsValue), b: Entries)
    requires forall i :: 0 <= i < |a| ==> WellFormed(a[i].1)
    requires forall i :: 0 <= i < |b| ==> WellFormed(b[i].1)
    requires WellFormed(kv.1)
    ensures forall i :: 0 <= i < |a + [kv] + b| ==> WellFormed((a + [kv] + b)[i].1)
  {
    var r := a + [kv] + b;
    forall i | 0 <= i < |r| ensures WellFormed(r[i].1) {
      if i < |a| {
        assert r[i] == a[i];
      } else if i > |a| {
        assert r[i] == b[i - |a| - 1];
      }
    }
  }

  /** Every value of the new object is an old value or the value set. */
  lemma PutValues(es: Entries, k: string, v: JsValue)
    requires forall i :: 0 <= i < |es| ==> WellFormed(es[i].1)
    requires WellFormed(v)
    ensures forall i :: 0 <= i < |Put(es, k, v)| ==> WellFormed(Put(es, k, v)[i].1)
  {
    if k !in KeysOf(es) {
      var p := if IsArrayIndex(k) then InsertionPoint(es, k) else |es|;
      assert Put(es, k, v) == es[..p] + [(k, v)] + es[p..];
      assert forall i :: 0 <= i < |es[p..]| ==> es[p..][i] == es[p + i];
      InsertValues(es[..p], (k, v), es[p..]);
    }
  }

  // ---------------------------------------------------------------------
  // What one edit does to the record

  /** Without a truthy `parentKey`, the root's `key` becomes exactly `value` and nothing else changes. */
  lemma RootEdit(prev: JsValue, key: string, value: JsValue, parentKey: Option<string>)
    requires parentKey.None? || parentKey.value == ""
    ensures var next := HandleInputChange(prev, key, value, parentKey).entries;
      && Lookup(next, key) == Some(value)
      && (forall k :: k != key ==> Lookup(next, k) == Lookup(OwnEntries(prev), k))
      && KeysOf(next) == KeysOf(OwnEntries(prev)) + {key}
      && Without(next, key) == Without(OwnEntries(prev), key)
  {
    var copy := OwnEntries(prev);
    forall k ensures Lookup(Put(copy, key, value), k) == if k == key then Some(value) else Lookup(copy, k) {
      PutLookup(copy, key, value, k);
    }
    PutKeys(copy, key, value);
    PutWithout(copy, key, value);
  }

  /**
   * With a truthy `parentKey`, only the root's `parentKey` property changes:
   * it becomes an object in which only `key` differs from the old child,
   * and `key` is exactly `value`.
   */
  lemma NestedEdit(prev: JsValue, key: string, value: JsValue, parent: string)
    requires parent != ""
    ensures var next := HandleInputChange(prev, key, value, Some(parent)).entries;
      var before := OwnEntries(Get(OwnEntries(prev), parent));
      && (forall k :: k != parent ==> Lookup(next, k) == Lookup(OwnEntries(prev), k))
      && KeysOf(next) == KeysOf(OwnEntries(prev)) + {parent}
      && Without(next, parent) == Without(OwnEntries(prev), parent)
      && Lookup(next, parent).Some? && Lookup(next, parent).value.JObj?
      && var after := Lookup(next, parent).value.entries;
      && Lookup(after, key) == Some(value)
      && (forall k :: k != key ==> Lookup(after, k) == Lookup(before, k))
      && KeysOf(after) == KeysOf(before) + {key}
      && Without(after, key) == Without(before, key)
  {
    var copy := OwnEntries(prev);
    var before := OwnEntries(Get(copy, parent));
    var child := JObj(Put(before, key, value));
    forall k ensures Lookup(Put(copy, parent, child), k) == if k == parent then Some(child) else Lookup(copy, k) {
      PutLookup(copy, parent, child, k);
    }
    PutKeys(copy, parent, child);
    PutWithout(copy, parent, child);
    forall k ensures Lookup(Put(before, key, value), k) == if k == key then Some(value) else Lookup(before, k) {
      PutLookup(before, key, value, k);
    }
    PutKeys(before, key, value);
    PutWithout(before, key, value);
  }

  /** A `parentKey` the root does not have spreads `undefined`, so the new child holds just `key`. */
  lemma AbsentParentEdit(prev: JsValue, key: string, value: JsValue, parent: string)
    requires parent != "" && parent !in KeysOf(OwnEntries(prev))
    ensures Lookup(HandleInputChange(prev, key, value, Some(parent)).entries, parent)
      == Some(JObj([(key, value)]))
  {
    var copy := OwnEntries(prev);
    assert Put([], key, value) == [(key, value)];
    PutLookup(copy, parent, JObj([(key, value)]), parent);
  }

  /** An edit of a real record gives a real record: names stay unique and in JavaScript's order. */
  lemma EditWellFormed(prev: JsValue, key: string, value: JsValue, parentKey: Option<string>)
    requires WellFormed(prev) && WellFormed(value)
    ensures WellFormed(HandleInputChange(prev, key, value, parentKey))
  {
    var copy := OwnEntries(prev);
    OwnEntriesWellFormed(prev);
    if parentKey.Some? && parentKey.value != "" {
      var p := parentKey.value;
      var prevChild := Get(copy, p);
      if Lookup(copy, p).Some? {
        LookupFound(copy, p);
      }
      assert WellFormed(prevChild);
      OwnEntriesWellFormed(prevChild);
      var before := OwnEntries(prevChild);
      PutValid(before, key, value);
      PutValues(before, key, value);
      var child := JObj(Put(before, key, value));
      assert WellFormed(child);
      PutValid(copy, p, child);
      PutValues(copy, p, child);
    } else {
      PutValid(copy, key, value);
      PutValues(copy, key, value);
    }
  }

  /**
   * A worked record: editing the blood pressure inside `vitals` changes
   * that one leaf and keeps `temp`, `notes` and the order of everything.
   */
  lemma VitalsEdit(record: JsValue)
    requires record == JObj([("vitals", JObj([("bp", JStr("120/80")), ("temp", JNull)])), ("notes", JStr(""))])
    ensures HandleInputChange(record, "bp", JStr("118/76"), Some("vitals"))
      == JObj([("vitals", JObj([("bp", JStr("118/76")), ("temp", JNull)])), ("notes", JStr(""))])
  {
    var top := record.entries;
    var vitals := top[0].1.entries;
    assert top[0].0 == "vitals" && vitals[0].0 == "bp";
    assert Get(top, "vitals") == top[0].1;
    var child := Put(vitals, "bp", JStr("118/76"));
    assert child == [("bp", JStr("118/76")), ("temp", JNull)];
  }
}
