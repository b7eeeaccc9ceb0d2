/**
 * The fingerprint of a UI element: a canonical, hashable identity key made of
 * (field name, value) pairs sorted by field name.
 *
 * The live element is modelled as a record of attribute readings, each of which
 * is `None` when reading it raised, plus the element's kind (a UIA object or not).
 * A Python dict is modelled by its `items()` list: distinct keys, in insertion order.
 */
module FingerPrintReader {
  import opened Options

  /** A fingerprint value: the source stores only text and integers. */
  datatype Value = Str(s: string) | Int(i: int)

  /** One (field name, value) pair. */
  type Field = (string, Value)

  /** A fingerprint, or the items of a dict in insertion order. */
  type Fingerprint = seq<Field>

  /** Whether the element is an instance of the UIA object class. */
  datatype ObjectKind = UIAObject | OtherObject

  /** What reading each attribute of a live element yields; `None` when the read raised. */
  datatype Element = Element(
    kind: ObjectKind,
    appName: Option<string>,         // obj.appModule.appName
    role: Option<int>,               // int(obj.role)
    automationId: Option<string>,    // obj.UIAElement.currentAutomationId
    windowClassName: Option<string>, // obj.windowClassName
    windowControlID: Option<int>)    // obj.windowControlID

  // ---------------------------------------------------------------------------
  // Python's ordering of strings: lexicographic by code point, a proper prefix first.

  predicate StrLess(a: string, b: string)
    decreases |a|
  {
    if a == [] then b != []
    else if b == [] then false
    else if a[0] != b[0] then a[0] < b[0]
    else StrLess(a[1..], b[1..])
  }

  lemma {:induction false} StrLessIrreflexive(a: string)
    ensures !StrLess(a, a)
    decreases |a|
  {
    if a != [] {
      StrLessIrreflexive(a[1..]);
    }
  }

  lemma {:induction false} StrLessTransitive(a: string, b: string, c: string)
    requires StrLess(a, b) && StrLess(b, c)
    ensures StrLess(a, c)
    decreases |a|
  {
    if a != [] && b != [] && c != [] && a[0] == b[0] && b[0] == c[0] {
      StrLessTransitive(a[1..], b[1..], c[1..]);
    }
  }

  lemma {:induction false} StrLessTotal(a: string, b: string)
    requires a != b
    ensures StrLess(a, b) || StrLess(b, a)
    decreases |a|
  {
    if a != [] && b != [] && a[0] == b[0] {
      assert a == [a[0]] + a[1..] && b == [b[0]] + b[1..];
      StrLessTotal(a[1..], b[1..]);
    }
  }

  // ---------------------------------------------------------------------------
  // Sortedness, distinct names, and the dict view of a pair sequence.

  /** Each field name is smaller than every later one. */
  ghost predicate StrictlySorted(s: Fingerprint) {
    forall i, j :: 0 <= i < j < |s| ==> StrLess(s[i].0, s[j].0)
  }

  /** No field name occurs twice: what every dict's items() satisfies. */
  ghost predicate DistinctNames(s: Fingerprint) {
    forall i, j :: 0 <= i < j < |s| ==> s[i].0 != s[j].0
  }

  /** The set of field names. */
  function NameSet(s: Fingerprint): set<string> {
    set f | f in s :: f.0
  }

  lemma SortedIsDistinct(s: Fingerprint)
    requires StrictlySorted(s)
    ensures DistinctNames(s)
  {
    forall i, j | 0 <= i < j < |s| ensures s[i].0 != s[j].0 {
      StrLessIrreflexive(s[i].0);
    }
  }

  lemma DistinctTail(s: Fingerprint)
    requires s != [] && DistinctNames(s)
    ensures DistinctNames(s[1..])
    ensures forall f :: f in s[1..] ==> f.0 != s[0].0
  {
    forall f | f in s[1..] ensures f.0 != s[0].0 {
      var m :| 0 <= m < |s[1..]| && s[1..][m] == f;
      assert s[m + 1] == f;
    }
  }

  /** `d[name]` for a dict `d`: the value of the first pair with that name. */
  function Lookup(d: Fingerprint, name: string): Option<Value>
  {
    if d == [] then None
    else if d[0].0 == name then Some(d[0].1)
    else Lookup(d[1..], name)
  }

  lemma {:induction false} LookupFinds(d: Fingerprint, name: string, v: Value)
    requires DistinctNames(d)
    ensures Lookup(d, name) == Some(v) <==> (name, v) in d
  {
    if d != [] {
      DistinctTail(d);
      LookupFinds(d[1..], name, v);
      assert d == [d[0]] + d[1..];
    }
  }

  /** Two dicts with the same pairs answer every lookup alike. */
  lemma LookupAgrees(a: Fingerprint, b: Fingerprint, name: string)
    requires DistinctNames(a) && DistinctNames(b) && multiset(a) == multiset(b)
    ensures Lookup(a, name) == Lookup(b, name)
  {
    if Lookup(a, name).Some? {
      var v := Lookup(a, name).value;
      LookupFinds(a, name, v);
      assert (name, v) in multiset(b);
      LookupFinds(b, name, v);
    } else if Lookup(b, name).Some? {
      var v := Lookup(b, name).value;
      LookupFinds(b, name, v);
      assert (name, v) in multiset(a);
      LookupFinds(a, name, v);
    }
  }

  // ---------------------------------------------------------------------------
  // sorted(items): an insertion sort by field name. With distinct names Python's
  // tuple comparison never looks at the values, and the sorted permutation is unique.

  function Insert(f: Field, s: Fingerprint): Fingerprint
  {
    if s == [] || StrLess(f.0, s[0].0) then [f] + s
    else [s[0]] + Insert(f, s[1..])
  }

  function SortByName(items: Fingerprint): Fingerprint
  {
    if items == [] then [] else Insert(items[0], SortByName(items[1..]))
  }

  lemma {:induction false} InsertSorted(f: Field, s: Fingerprint)
    requires StrictlySorted(s)
    requires forall g :: g in s ==> g.0 != f.0
    ensures StrictlySorted(Insert(f, s))
    ensures multiset(Insert(f, s)) == multiset(s) + multiset{f}
  {
    if s == [] || StrLess(f.0, s[0].0) {
      PrependSorted(f, s);
    } else {
      var tail := s[1..];
      assert s == [s[0]] + tail;
      assert s[0] in s;
      StrLessTotal(f.0, s[0].0);
      InsertSorted(f, tail);
      var t := Insert(f, tail);
      assert t[0] in multiset(t);
      if t[0] != f {
        assert t[0] in multiset(tail);
        var m :| 0 <= m < |tail| && tail[m] == t[0];
        assert s[m + 1] == t[0];
      }
      PrependSorted(s[0], t);
    }
  }

  lemma PrependSorted(f: Field, s: Fingerprint)
    requires StrictlySorted(s)
    requires s == [] || StrLess(f.0, s[0].0)
    ensures StrictlySorted([f] + s)
  {
    var r := [f] + s;
    forall i, j | 0 <= i < j < |r| ensures StrLess(r[i].0, r[j].0) {
      if i == 0 && j > 1 {
        StrLessTransitive(f.0, s[0].0, s[j - 1].0);
      }
    }
  }

  lemma {:induction false} SortSorted(items: Fingerprint)
    requires DistinctNames(items)
    ensures StrictlySorted(SortByName(items))
    ensures multiset(SortByName(items)) == multiset(items)
  {
    if items != [] {
      var rest := items[1..];
      DistinctTail(items);
      SortSorted(rest);
      var sr := SortByName(rest);
      forall g | g in sr ensures g.0 != items[0].0 {
        assert g in multiset(rest);
      }
      InsertSorted(items[0], sr);
      assert items == [items[0]] + rest;
    }
  }

  /** Sorting a sequence that is already strictly sorted changes nothing. */
  lemma {:induction false} SortOfSorted(s: Fingerprint)
    requires StrictlySorted(s)
    ensures SortByName(s) == s
  {
    if s != [] {
      SortOfSorted(s[1..]);
      assert s == [s[0]] + s[1..];
    }
  }

  // ---------------------------------------------------------------------------
  // dict(pairs): a later pair with the same name overwrites the value in place.

  /** `d[name] = v`: replaces the value of an existing key in place, else appends. */
  function Put(d: Fingerprint, name: string, v: Value): Fingerprint
  {
    if d == [] then [(name, v)]
    else if d[0].0 == name then [(name, v)] + d[1..]
    else [d[0]] + Put(d[1..], name, v)
  }

  /** `dict(pairs)`, as its items() list. */
  function DictOf(pairs: Fingerprint): Fingerprint
  {
    if pairs == [] then []
    else
      var last := pairs[|pairs| - 1];
      Put(DictOf(pairs[..|pairs| - 1]), last.0, last.1)
  }

  /** The value of the LAST pair with the given name: the reference meaning of `dict(pairs)[name]`. */
  function LastLookup(pairs: Fingerprint, name: string): Option<Value>
  {
    if pairs == [] then None
    else if pairs[|pairs| - 1].0 == name then Some(pairs[|pairs| - 1].1)
    else LastLookup(pairs[..|pairs| - 1], name)
  }

  /** `d[name] = v` holds the new pair and otherwise only pairs of `d`; for a new name it appends. */
  lemma {:induction false} PutMembers(d: Fingerprint, name: string, v: Value)
    ensures (name, v) in Put(d, name, v)
    ensures forall f :: f in Put(d, name, v) ==> f == (name, v) || f in d
    ensures (forall f :: f in d ==> f.0 != name) ==> Put(d, name, v) == d + [(name, v)]
    decreases |d|
  {
    if d != [] && d[0].0 != name {
      PutMembers(d[1..], name, v);
      assert d == [d[0]] + d[1..];
      assert forall f :: f in d[1..] ==> f in d;
    }
  }

  /** After `d[name] = v`, `name` looks up to `v` and every other name as before. */
  lemma {:induction false} PutLookup(d: Fingerprint, name: string, v: Value, n: string)
    ensures Lookup(Put(d, name, v), n) == if n == name then Some(v) else Lookup(d, n)
    decreases |d|
  {
    if d != [] && d[0].0 != name {
      PutLookup(d[1..], name, v, n);
    }
  }

  /** `d[name] = v` keeps the names distinct. */
  lemma {:induction false} PutDistinct(d: Fingerprint, name: string, v: Value)
    requires DistinctNames(d)
    ensures DistinctNames(Put(d, name, v))
    decreases |d|
  {
    if d != [] {
      DistinctTail(d);
      var r := Put(d, name, v);
      if d[0].0 != name {
        PutDistinct(d[1..], name, v);
        PutMembers(d[1..], name, v);
        forall i, j | 0 <= i < j < |r| ensures r[i].0 != r[j].0 {
          if i == 0 {
            assert r[j] in Put(d[1..], name, v);
          } else {
            assert r[i] == Put(d[1..], name, v)[i - 1] && r[j] == Put(d[1..], name, v)[j - 1];
          }
        }
      } else {
        forall i, j | 0 <= i < j < |r| ensures r[i].0 != r[j].0 {
          assert r[j] == d[j];
          if i > 0 {
            assert r[i] == d[i];
          }
        }
      }
    }
  }

  lemma {:induction false} DictOfLookup(pairs: Fingerprint, name: string)
    ensures Lookup(DictOf(pairs), name) == LastLookup(pairs, name)
    ensures DistinctNames(DictOf(pairs))
    decreases |pairs|
  {
    if pairs != [] {
      var init := pairs[..|pairs| - 1];
      var last := pairs[|pairs| - 1];
      DictOfLookup(init, name);
      PutLookup(DictOf(init), last.0, last.1, name);
      PutDistinct(DictOf(init), last.0, last.1);
    }
  }

  /** The items of `dict(pairs)` are `pairs` itself when no name repeats. */
  lemma {:induction false} DictOfExact(pairs: Fingerprint)
    requires DistinctNames(pairs)
    ensures DictOf(pairs) == pairs
    decreases |pairs|
  {
    if pairs != [] {
      var init := pairs[..|pairs| - 1];
      var last := pairs[|pairs| - 1];
      DictOfExact(init);
      forall f | f in init ensures f.0 != last.0 {
        var m :| 0 <= m < |init| && init[m] == f;
        assert pairs[m] == f;
      }
      PutMembers(init, last.0, last.1);
      assert init + [last] == pairs;
    }
  }

  // ---------------------------------------------------------------------------
  // getObjectFingerprint and fingerprintToDict.

  /** The fields collected for each kind of element. */
  function FieldNames(kind: ObjectKind): set<string>
  {
    match kind
    case UIAObject => {"app", "role", "backend", "automationId", "className"}
    case OtherObject => {"app", "role", "backend", "windowClassName", "windowControlID"}
  }

  /**
   * The dict `fp` that getObjectFingerprint fills field by field, as its items()
   * in insertion order: each failed read gives its default, and `x or ""`,
   * `x or 0` leave a string or integer reading as it is.
   */
  function Items(obj: Element): Fingerprint
  {
    [("app", Str(obj.appName.GetOr("unknown"))), ("role", Int(obj.role.GetOr(0)))] +
    match obj.kind
    case UIAObject =>
      [("backend", Str("UIA")),
       ("automationId", Str(obj.automationId.GetOr(""))),
       ("className", Str(obj.windowClassName.GetOr("")))]
    case OtherObject =>
      [("backend", Str("IA2")),
       ("windowClassName", Str(obj.windowClassName.GetOr(""))),
       ("windowControlID", Int(obj.windowControlID.GetOr(0)))]
  }

  lemma ItemsShape(obj: Element)
    ensures DistinctNames(Items(obj))
    ensures NameSet(Items(obj)) == FieldNames(obj.kind)
  {
    var items := Items(obj);
    assert "windowClassName"[8] != "windowControlID"[8];
    assert |items| == 5;
    assert items[0].0 == "app" && items[1].0 == "role" && items[2].0 == "backend";
    assert items[0] in items && items[1] in items && items[2] in items && items[3] in items && items[4] in items;
    assert forall f :: f in items ==> f == items[0] || f == items[1] || f == items[2] || f == items[3] || f == items[4];
  }

  /**
   * getObjectFingerprint: never fails, and yields the collected fields sorted
   * strictly by name, with exactly the field names of the element's kind.
   * (The source's outer `except: return None` cannot be reached once every
   * attribute read is guarded, so the result is always a fingerprint.)
   */
  function GetObjectFingerprint(obj: Element): (fp: Fingerprint)
    ensures StrictlySorted(fp)
    ensures DistinctNames(fp)
    ensures multiset(fp) == multiset(Items(obj))
    ensures NameSet(fp) == FieldNames(obj.kind)
    ensures |fp| == 5
  {
    ItemsShape(obj);
    SortFacts(Items(obj));
    SortByName(Items(obj))
  }

  /** What sorting a dict's items guarantees, in one place. */
  lemma SortFacts(items: Fingerprint)
    requires DistinctNames(items)
    ensures StrictlySorted(SortByName(items)) && DistinctNames(SortByName(items))
    ensures multiset(SortByName(items)) == multiset(items)
    ensures NameSet(SortByName(items)) == NameSet(items)
    ensures |SortByName(items)| == |items|
  {
    var s := SortByName(items);
    SortSorted(items);
    SortedIsDistinct(s);
    assert |multiset(s)| == |multiset(items)|;
    assert forall f :: f in s <==> f in items by {
      forall f ensures f in s <==> f in items {
        assert f in s <==> f in multiset(s);
        assert f in items <==> f in multiset(items);
      }
    }
  }

  /** fingerprintToDict: the dict of the pairs, or the empty dict for a null or empty fingerprint. */
  function FingerprintToDict(fp: Option<Fingerprint>): (d: Fingerprint)
    ensures DistinctNames(d)
    ensures fp == None || fp == Some([]) ==> d == []
    ensures fp.Some? ==> forall n :: Lookup(d, n) == LastLookup(fp.value, n)
  {
    if fp.Some? && fp.value != [] then
      DictOfAll(fp.value);
      DictOf(fp.value)
    else []
  }

  lemma DictOfAll(pairs: Fingerprint)
    ensures DistinctNames(DictOf(pairs))
    ensures forall n :: Lookup(DictOf(pairs), n) == LastLookup(pairs, n)
  {
    DictOfLookup(pairs, "");
    forall n ensures Lookup(DictOf(pairs), n) == LastLookup(pairs, n) {
      DictOfLookup(pairs, n);
    }
  }

  /** The value each field of the fingerprint holds: the reading, or its default when it failed. */
  lemma FieldValues(obj: Element)
    ensures FieldsHold(GetObjectFingerprint(obj), obj)
  {
    FieldsOfPermutation(GetObjectFingerprint(obj), obj);
  }

  /**
   * The field values of a fingerprint of `obj`: each reading, or its default when
   * the read failed, and a backend tag that is "UIA" exactly for UIA objects.
   */
  ghost predicate FieldsHold(fp: Fingerprint, obj: Element)
  {
    && Lookup(fp, "app") == Some(Str(obj.appName.GetOr("unknown")))
    && Lookup(fp, "role") == Some(Int(obj.role.GetOr(0)))
    && (Lookup(fp, "backend") == Some(Str("UIA")) <==> obj.kind == UIAObject)
    && (Lookup(fp, "backend") == Some(Str("IA2")) <==> obj.kind == OtherObject)
    && (obj.kind == UIAObject ==>
          && Lookup(fp, "automationId") == Some(Str(obj.automationId.GetOr("")))
          && Lookup(fp, "className") == Some(Str(obj.windowClassName.GetOr(""))))
    && (obj.kind == OtherObject ==>
          && Lookup(fp, "windowClassName") == Some(Str(obj.windowClassName.GetOr("")))
          && Lookup(fp, "windowControlID") == Some(Int(obj.windowControlID.GetOr(0))))
  }

  lemma FieldsOfPermutation(fp: Fingerprint, obj: Element)
    requires DistinctNames(fp) && multiset(fp) == multiset(Items(obj))
    ensures FieldsHold(fp, obj)
  {
    var items := Items(obj);
    assert "UIA"[0] != "IA2"[0];
    PairFound(fp, items[0]);
    PairFound(fp, items[1]);
    PairFound(fp, items[2]);
    PairFound(fp, items[3]);
    PairFound(fp, items[4]);
  }

  lemma PairFound(fp: Fingerprint, f: Field)
    requires DistinctNames(fp) && f in multiset(fp)
    ensures Lookup(fp, f.0) == Some(f.1)
  {
    LookupFinds(fp, f.0, f.1);
  }

  /**
   * What identifies an element: its kind and the normalised readings of that
   * kind's fields. An empty reading and a failed one identify alike.
   */
  datatype Identity =
    | UIAIdentity(app: string, role: int, automationId: string, className: string)
    | OtherIdentity(app: string, role: int, windowClassName: string, windowControlID: int)

  function IdentityOf(obj: Element): Identity
  {
    var app := if obj.appName.Some? then obj.appName.value else "unknown";
    var role := if obj.role.Some? then obj.role.value else 0;
    var className := if obj.windowClassName.Some? then obj.windowClassName.value else "";
    if obj.kind == UIAObject then
      UIAIdentity(app, role, if obj.automationId.Some? then obj.automationId.value else "", className)
    else
      OtherIdentity(app, role, className, if obj.windowControlID.Some? then obj.windowControlID.value else 0)
  }

  /**
   * Two elements have equal fingerprints exactly when they have the same identity:
   * re-querying an unchanged control gives the same key, and the key tells
   * different controls apart.
   */
  lemma SameFingerprintIff(a: Element, b: Element)
    ensures GetObjectFingerprint(a) == GetObjectFingerprint(b) <==> IdentityOf(a) == IdentityOf(b)
  {
    if IdentityOf(a) == IdentityOf(b) {
      SameIdentitySameItems(a, b);
    }
    if GetObjectFingerprint(a) == GetObjectFingerprint(b) {
      FieldValues(a);
      FieldValues(b);
      SameFieldsSameIdentity(GetObjectFingerprint(a), a, b);
    }
  }

  lemma SameIdentitySameItems(a: Element, b: Element)
    requires IdentityOf(a) == IdentityOf(b)
    ensures Items(a) == Items(b)
  {
  }

  lemma SameFieldsSameIdentity(fp: Fingerprint, a: Element, b: Element)
    requires FieldsHold(fp, a) && FieldsHold(fp, b)
    ensures IdentityOf(a) == IdentityOf(b)
  {
  }

  /** Round trip: sorting the items of fingerprintToDict(fp) rebuilds any sorted fingerprint. */
  lemma {:induction false} SortedRoundTrip(fp: Fingerprint)
    requires StrictlySorted(fp)
    ensures SortByName(FingerprintToDict(Some(fp))) == fp
  {
    SortedIsDistinct(fp);
    DictOfExact(fp);
    SortOfSorted(fp);
  }

  /** tuple(sorted(fingerprintToDict(fp).items())) == fp for every fingerprint the reader produces. */
  lemma FingerprintRoundTrip(obj: Element)
    ensures SortByName(FingerprintToDict(Some(GetObjectFingerprint(obj)))) == GetObjectFingerprint(obj)
  {
    SortedRoundTrip(GetObjectFingerprint(obj));
  }

  /** The other direction: the dict of the sorted pairs of a dict answers every lookup as the dict does. */
  lemma DictRoundTrip(d: Fingerprint, name: string)
    requires DistinctNames(d)
    ensures Lookup(FingerprintToDict(Some(SortByName(d))), name) == Lookup(d, name)
  {
    var s := SortByName(d);
    SortSorted(d);
    SortedIsDistinct(s);
    if s != [] {
      DictOfExact(s);
    } else {
      assert multiset(d) == multiset{};
    }
    LookupAgrees(s, d, name);
  }
}
