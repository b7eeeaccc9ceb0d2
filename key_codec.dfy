/**
 * _keyToString / _keyFromString: a fingerprint is stored as the JSON array of
 * its [name, value] pairs, in order. JSON text is represented by the JSON value
 * it parses to, so json.loads(json.dumps(v)) == v holds by construction and the
 * model is about what the store does with the parsed value.
 */
module KeyCodec {
  import opened Options
  import opened FingerPrintReader

  /**
   * A JSON value. JOther stands for everything the key decoder cannot turn into a
   * fingerprint: null, booleans, numbers that are not integers, objects, and text
   * that is not JSON at all.
   */
  datatype Json = JStr(str: string) | JInt(num: int) | JArr(elems: seq<Json>) | JOther

  function ValueToJson(v: Value): Json
  {
    match v
    case Str(s) => JStr(s)
    case Int(i) => JInt(i)
  }

  function FieldToJson(f: Field): Json
  {
    JArr([JStr(f.0), ValueToJson(f.1)])
  }

  /** _keyToString: json.dumps(list(key)). */
  function KeyToString(key: Fingerprint): (j: Json)
    ensures j.JArr? && |j.elems| == |key|
  {
    JArr(FieldsToJson(key))
  }

  function FieldsToJson(key: Fingerprint): (items: seq<Json>)
    ensures |items| == |key|
  {
    if key == [] then [] else [FieldToJson(key[0])] + FieldsToJson(key[1..])
  }

  /** tuple(item) for one decoded item: a [text, text-or-integer] pair; None when it raises or is not a field. */
  function FieldFromJson(j: Json): Option<Field>
  {
    match j
    case JArr(pair) =>
      if |pair| == 2 && pair[0].JStr? then
        match pair[1]
        case JStr(s) => Some((pair[0].str, Str(s)))
        case JInt(i) => Some((pair[0].str, Int(i)))
        case _ => None
      else None
    case _ => None
  }

  function FieldsFromJson(items: seq<Json>): (key: Option<Fingerprint>)
    ensures key.Some? ==> |key.value| == |items|
  {
    if items == [] then Some([])
    else
      match (FieldFromJson(items[0]), FieldsFromJson(items[1..]))
      case (Some(f), Some(rest)) => Some([f] + rest)
      case _ => None
  }

  /** _keyFromString: tuple(tuple(item) for item in json.loads(s)); None when decoding raises. */
  function KeyFromString(j: Json): (key: Option<Fingerprint>)
    ensures key.Some? ==> j.JArr? && |key.value| == |j.elems|
  {
    match j
    case JArr(items) => FieldsFromJson(items)
    case _ => None
  }

  /** Decoding an encoded key gives the key back. */
  lemma {:induction false} KeyRoundTrip(key: Fingerprint)
    ensures KeyFromString(KeyToString(key)) == Some(key)
  {
    FieldsRoundTrip(key);
  }

  lemma {:induction false} FieldsRoundTrip(key: Fingerprint)
    ensures FieldsFromJson(FieldsToJson(key)) == Some(key)
  {
    if key != [] {
      FieldsRoundTrip(key[1..]);
      var js := FieldsToJson(key);
      assert js[0] == FieldToJson(key[0]) && js[1..] == FieldsToJson(key[1..]);
      assert FieldFromJson(js[0]) == Some(key[0]) by {
        match key[0].1
        case Str(s) =>
        case Int(i) =>
      }
      assert key == [key[0]] + key[1..];
    }
  }

  /** Every JSON value that decodes is the encoding of what it decodes to: no two distinct values name one key. */
  lemma {:induction false} TextRoundTrip(j: Json)
    requires KeyFromString(j).Some?
    ensures KeyToString(KeyFromString(j).value) == j
  {
    FieldsTextRoundTrip(j.elems);
  }

  lemma {:induction false} FieldsTextRoundTrip(items: seq<Json>)
    requires FieldsFromJson(items).Some?
    ensures FieldsToJson(FieldsFromJson(items).value) == items
  {
    if items != [] {
      FieldsTextRoundTrip(items[1..]);
      var key := FieldsFromJson(items).value;
      assert key[0] == FieldFromJson(items[0]).value;
      assert key[1..] == FieldsFromJson(items[1..]).value;
      assert FieldToJson(key[0]) == items[0];
      assert items == [items[0]] + items[1..];
    }
  }

  lemma KeyToStringInjective(a: Fingerprint, b: Fingerprint)
    requires KeyToString(a) == KeyToString(b)
    ensures a == b
  {
    KeyRoundTrip(a);
    KeyRoundTrip(b);
  }

  lemma KeyFromStringInjective(s: Json, t: Json)
    requires KeyFromString(s).Some? && KeyFromString(s) == KeyFromString(t)
    ensures s == t
  {
    TextRoundTrip(s);
    TextRoundTrip(t);
  }

  // ---------------------------------------------------------------------------
  // The "labels" object of a partition file.

  /** {self._keyToString(k): v for k, v in labels.items()} */
  function EncodeLabels(labels: map<Fingerprint, string>): map<Json, string>
  {
    var encoded := set k | k in labels :: KeyToString(k);
    assert forall t | t in encoded :: KeyFromString(t).Some? && KeyFromString(t).value in labels by {
      forall t | t in encoded ensures KeyFromString(t).Some? && KeyFromString(t).value in labels {
        var k :| k in labels && KeyToString(k) == t;
        KeyRoundTrip(k);
      }
    }
    map t | t in encoded :: labels[KeyFromString(t).value]
  }

  /** Every label is stored under the encoding of its key. */
  lemma EncodeLabelsAt(labels: map<Fingerprint, string>, k: Fingerprint)
    requires k in labels
    ensures KeyToString(k) in EncodeLabels(labels)
    ensures EncodeLabels(labels)[KeyToString(k)] == labels[k]
  {
    KeyRoundTrip(k);
  }

  /** Every stored JSON key is the encoding of a key of the partition. */
  lemma EncodeLabelsKeys(labels: map<Fingerprint, string>, t: Json)
    requires t in EncodeLabels(labels)
    ensures KeyFromString(t).Some? && KeyFromString(t).value in labels
    ensures KeyToString(KeyFromString(t).value) == t
  {
    var k :| k in labels && KeyToString(k) == t;
    KeyRoundTrip(k);
  }

  /** {self._keyFromString(k): v for k, v in labels.items()}: None when any key fails to decode. */
  function DecodeLabels(stored: map<Json, string>): Option<map<Fingerprint, string>>
  {
    if forall t | t in stored :: KeyFromString(t).Some? then
      var keys := set t | t in stored :: KeyFromString(t).value;
      assert forall k | k in keys :: KeyToString(k) in stored by {
        forall k | k in keys ensures KeyToString(k) in stored {
          var t :| t in stored && KeyFromString(t).value == k;
          TextRoundTrip(t);
        }
      }
      Some(map k | k in keys :: stored[KeyToString(k)])
    else None
  }

  /** A labels object decodes exactly when every one of its keys decodes. */
  lemma DecodeLabelsSucceeds(stored: map<Json, string>)
    ensures DecodeLabels(stored).Some? <==> forall t | t in stored :: KeyFromString(t).Some?
  {
  }

  /** Every stored label is decoded under the key its JSON key names. */
  lemma DecodeLabelsAt(stored: map<Json, string>, t: Json)
    requires DecodeLabels(stored).Some? && t in stored
    ensures KeyFromString(t).value in DecodeLabels(stored).value
    ensures DecodeLabels(stored).value[KeyFromString(t).value] == stored[t]
  {
    TextRoundTrip(t);
  }

  /** Every decoded key comes from a stored JSON key. */
  lemma DecodeLabelsKeys(stored: map<Json, string>, k: Fingerprint)
    requires DecodeLabels(stored).Some? && k in DecodeLabels(stored).value
    ensures KeyToString(k) in stored
    ensures KeyFromString(KeyToString(k)) == Some(k)
  {
    var t :| t in stored && KeyFromString(t).value == k;
    TextRoundTrip(t);
  }

  lemma EncodedDecodes(labels: map<Fingerprint, string>)
    ensures DecodeLabels(EncodeLabels(labels)).Some?
  {
    var stored := EncodeLabels(labels);
    forall t | t in stored ensures KeyFromString(t).Some? {
      EncodeLabelsKeys(labels, t);
    }
  }

  lemma RoundTripAt(labels: map<Fingerprint, string>, k: Fingerprint)
    requires k in labels
    ensures DecodeLabels(EncodeLabels(labels)).Some?
    ensures k in DecodeLabels(EncodeLabels(labels)).value
    ensures DecodeLabels(EncodeLabels(labels)).value[k] == labels[k]
  {
    EncodedDecodes(labels);
    EncodeLabelsAt(labels, k);
    DecodeLabelsAt(EncodeLabels(labels), KeyToString(k));
    KeyRoundTrip(k);
  }

  lemma RoundTripKeys(labels: map<Fingerprint, string>, k: Fingerprint)
    requires DecodeLabels(EncodeLabels(labels)).Some?
    requires k in DecodeLabels(EncodeLabels(labels)).value
    ensures k in labels
  {
    DecodeLabelsKeys(EncodeLabels(labels), k);
    EncodeLabelsKeys(labels, KeyToString(k));
  }


  lemma SameMap(labels: map<Fingerprint, string>, r: Option<map<Fingerprint, string>>)
    requires r.Some?
    requires forall k | k in labels :: k in r.value && r.value[k] == labels[k]
    requires forall k | k in r.value :: k in labels
    ensures r == Some(labels)
  {
    assert r.value == labels;
  }

  lemma LabelsRoundTrip(labels: map<Fingerprint, string>)
    ensures DecodeLabels(EncodeLabels(labels)) == Some(labels)
  {
    var r := DecodeLabels(EncodeLabels(labels));
    EncodedDecodes(labels);
    forall k | k in labels ensures k in r.value && r.value[k] == labels[k] {
      RoundTripAt(labels, k);
    }
    forall k | k in r.value ensures k in labels {
      RoundTripKeys(labels, k);
    }
    SameMap(labels, r);
  }

  lemma StoredRoundTripAt(stored: map<Json, string>, t: Json)
    requires DecodeLabels(stored).Some? && t in stored
    ensures t in EncodeLabels(DecodeLabels(stored).value)
    ensures EncodeLabels(DecodeLabels(stored).value)[t] == stored[t]
  {
    DecodeLabelsAt(stored, t);
    EncodeLabelsAt(DecodeLabels(stored).value, KeyFromString(t).value);
    TextRoundTrip(t);
  }

  lemma StoredRoundTripKeys(stored: map<Json, string>, t: Json)
    requires DecodeLabels(stored).Some? && t in EncodeLabels(DecodeLabels(stored).value)
    ensures t in stored
  {
    EncodeLabelsKeys(DecodeLabels(stored).value, t);
    DecodeLabelsKeys(stored, KeyFromString(t).value);
  }

  lemma SameStored(stored: map<Json, string>, again: map<Json, string>)
    requires forall t | t in stored :: t in again && again[t] == stored[t]
    requires forall t | t in again :: t in stored
    ensures again == stored
  {
  }

  /** A labels object that decodes at all decodes entry for entry: encoding the result gives the object back. */
  lemma StoredLabelsRoundTrip(stored: map<Json, string>)
    requires DecodeLabels(stored).Some?
    ensures EncodeLabels(DecodeLabels(stored).value) == stored
  {
    var again := EncodeLabels(DecodeLabels(stored).value);
    forall t | t in stored ensures t in again && again[t] == stored[t] {
      StoredRoundTripAt(stored, t);
    }
    forall t | t in again ensures t in stored {
      StoredRoundTripKeys(stored, t);
    }
    SameStored(stored, again);
  }
}
