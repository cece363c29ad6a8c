/**
 * Redaction of request data before it is logged: `sanitizeValue` and
 * `sanitizeObject` over a JSON-like value.
 *
 * An object is the list of its own enumerable entries in the order
 * `Object.entries` yields them.  `sanitizeObject` copies each entry into a
 * fresh object with `sanitized[key] = …`, which has two consequences the
 * model keeps: an array (also `typeof "object"`) comes back as an object
 * keyed "0", "1", …; and an entry keyed `__proto__` is lost, because that
 * assignment sets the prototype (or is ignored) instead of creating a key.
 */
module RequestLogger {
  import Text

  datatype Json =
    | Undefined
    | JNull
    | JBool(b: bool)
    | JNum(n: real)
    | JStr(s: string)
    | JArr(items: seq<Json>)
    | JObj(entries: seq<Entry>)

  datatype Entry = Entry(key: string, value: Json)

  const SensitiveFields: seq<string> :=
    ["password", "token", "authorization", "cookie", "secret", "apiKey", "api_key", "creditCard", "email"]

  const Redacted: string := "[REDACTED]"

  const ProtoKey: string := "__proto__"

  /** JavaScript falsiness of a value (JSON has no NaN). */
  predicate Falsy(v: Json) {
    v.Undefined? || v.JNull? || v == JBool(false) || v == JNum(0.0) || v == JStr("")
  }

  /** `typeof value === "object" && value !== null`. */
  predicate IsObjectLike(v: Json) {
    v.JArr? || v.JObj?
  }

  /** Some sensitive word occurs in the key, both sides lower-cased. */
  predicate IsSensitiveKey(key: string) {
    exists i :: 0 <= i < |SensitiveFields| && Text.Includes(Text.Lower(key), Text.Lower(SensitiveFields[i]))
  }

  /** `sanitizeValue(key, value)`. */
  function SanitizeValue(key: string, v: Json): (r: Json)
    ensures v.JStr? && IsSensitiveKey(key) ==> r == JStr(Redacted)
    ensures !(v.JStr? && IsSensitiveKey(key)) ==> r == v
  {
    if v.JStr? && IsSensitiveKey(key) then JStr(Redacted) else v
  }

  /** The value stored under `key` in the sanitised copy. */
  function SanitizeChild(key: string, v: Json): Json
    decreases v, 2
  {
    if IsObjectLike(v) then SanitizeObject(v) else SanitizeValue(key, v)
  }

  /** The entries of the copy, in order, before the `__proto__` loss. */
  function SanitizeEntries(es: seq<Entry>): (r: seq<Entry>)
    decreases es, 0
  {
    seq(|es|, i requires 0 <= i < |es| => Entry(es[i].key, SanitizeChild(es[i].key, es[i].value)))
  }

  /** The index-keyed entries of an array. */
  function ArrayEntries(items: seq<Json>): (r: seq<Entry>)
    decreases items, 0
  {
    seq(|items|, i requires 0 <= i < |items| =>
      Entry(Text.NatToDecimal(i), SanitizeChild(Text.NatToDecimal(i), items[i])))
  }

  /** The index-keyed one-character entries of a string. */
  function StringEntries(s: string): (r: seq<Entry>) {
    seq(|s|, i requires 0 <= i < |s| =>
      Entry(Text.NatToDecimal(i), SanitizeValue(Text.NatToDecimal(i), JStr([s[i]]))))
  }

  /** Entries assigned into a fresh object: a `__proto__` key is lost. */
  function WithoutProto(es: seq<Entry>): (r: seq<Entry>)
    ensures forall i :: 0 <= i < |r| ==> r[i].key != ProtoKey
    ensures forall e :: e in r <==> e in es && e.key != ProtoKey
  {
    if es == [] then []
    else if es[0].key == ProtoKey then WithoutProto(es[1..])
    else [es[0]] + WithoutProto(es[1..])
  }

  /** `sanitizeObject(obj)`: a falsy input is returned as it is; any other
      input becomes an object whose entries are those of the input. */
  function SanitizeObject(v: Json): (r: Json)
    ensures Falsy(v) ==> r == v
    ensures !Falsy(v) ==> r.JObj?
    decreases v, 1
  {
    if Falsy(v) then v
    else match v
      case JObj(es) => JObj(WithoutProto(SanitizeEntries(es)))
      case JArr(items) => JObj(ArrayEntries(items))
      case JStr(s) => JObj(StringEntries(s))
      case _ => JObj([])
  }

  // ---------------------------------------------------------------------
  // Properties

  function Keys(es: seq<Entry>): (ks: seq<string>)
    ensures |ks| == |es|
  {
    seq(|es|, i requires 0 <= i < |es| => es[i].key)
  }

  /** No `__proto__` key at any depth. */
  predicate NoProto(v: Json)
    decreases v
  {
    match v
    case JObj(es) => forall i :: 0 <= i < |es| ==> es[i].key != ProtoKey && NoProto(es[i].value)
    case JArr(items) => forall i :: 0 <= i < |items| ==> NoProto(items[i])
    case _ => true
  }

  lemma {:induction false} WithoutProtoKeeps(es: seq<Entry>)
    requires forall i :: 0 <= i < |es| ==> es[i].key != ProtoKey
    ensures WithoutProto(es) == es
  {
    if es != [] {
      WithoutProtoKeeps(es[1..]);
    }
  }

  /** The structure a sanitised value must have: string leaves blanked,
      arrays read as index-keyed objects, every other leaf as it is. */
  function Shape(v: Json): Json
    decreases v
  {
    match v
    case JStr(_) => JStr("")
    case JArr(items) => JObj(seq(|items|, i requires 0 <= i < |items| => Entry(Text.NatToDecimal(i), Shape(items[i]))))
    case JObj(es) => JObj(seq(|es|, i requires 0 <= i < |es| => Entry(es[i].key, Shape(es[i].value))))
    case _ => v
  }

  /** Sanitising an object or array changes nothing but string leaves: the
      key list at every level, nulls, numbers and booleans all survive. */
  lemma {:induction false} SanitizeKeepsShape(v: Json)
    requires IsObjectLike(v) && NoProto(v)
    ensures Shape(SanitizeObject(v)) == Shape(v)
    decreases v, 1
  {
    match v
    case JObj(es) =>
      var out := SanitizeEntries(es);
      forall i | 0 <= i < |es|
        ensures Shape(out[i].value) == Shape(es[i].value)
      {
        ChildKeepsShape(es[i].key, es[i].value);
      }
      WithoutProtoKeeps(out);
    case JArr(items) =>
      var out := ArrayEntries(items);
      forall i | 0 <= i < |items|
        ensures Shape(out[i].value) == Shape(items[i])
      {
        ChildKeepsShape(Text.NatToDecimal(i), items[i]);
      }
  }

  lemma {:induction false} ChildKeepsShape(key: string, v: Json)
    requires NoProto(v)
    ensures Shape(SanitizeChild(key, v)) == Shape(v)
    decreases v, 3
  {
    if IsObjectLike(v) {
      SanitizeKeepsShape(v);
    }
  }

  /** One level of an object: keys and their order are kept, a string under
      a sensitive key is redacted, any other leaf is copied, and a nested
      object or array is sanitised in turn. */
  lemma EntryByEntry(es: seq<Entry>)
    requires forall i :: 0 <= i < |es| ==> es[i].key != ProtoKey
    ensures SanitizeObject(JObj(es)).JObj?
    ensures Keys(SanitizeObject(JObj(es)).entries) == Keys(es)
    ensures forall i :: 0 <= i < |es| ==>
      var r := SanitizeObject(JObj(es)).entries[i].value;
      (es[i].value.JStr? && IsSensitiveKey(es[i].key) ==> r == JStr(Redacted))
      && (!IsObjectLike(es[i].value) && !(es[i].value.JStr? && IsSensitiveKey(es[i].key)) ==> r == es[i].value)
      && (IsObjectLike(es[i].value) ==> r == SanitizeObject(es[i].value))
  {
    var out := SanitizeEntries(es);
    WithoutProtoKeeps(out);
    assert SanitizeObject(JObj(es)).entries == out;
    forall i | 0 <= i < |es|
      ensures out[i].value == SanitizeChild(es[i].key, es[i].value)
    {
    }
  }

  /** An entry keyed `__proto__` never appears in the copy; every other
      entry's key does. */
  lemma ProtoEntryDropped(es: seq<Entry>)
    ensures SanitizeObject(JObj(es)).JObj?
    ensures forall e :: e in SanitizeObject(JObj(es)).entries ==> e.key != ProtoKey
    ensures forall i :: 0 <= i < |es| && es[i].key != ProtoKey ==>
      exists e :: e in SanitizeObject(JObj(es)).entries && e.key == es[i].key
  {
    var out := SanitizeEntries(es);
    forall i | 0 <= i < |es| && es[i].key != ProtoKey
      ensures exists e :: e in WithoutProto(out) && e.key == es[i].key
    {
      assert out[i] in out;
      assert out[i] in WithoutProto(out);
    }
  }

  /** Sanitising twice is sanitising once. */
  lemma {:induction false} SanitizeIdempotent(v: Json)
    ensures SanitizeObject(SanitizeObject(v)) == SanitizeObject(v)
    decreases v, 1
  {
    if !Falsy(v) {
      match v
      case JObj(es) =>
        var out := SanitizeEntries(es);
        forall i | 0 <= i < |out|
          ensures SanitizeChild(out[i].key, out[i].value) == out[i].value
        {
          ChildIdempotent(es[i].key, es[i].value);
        }
        FilteredStable(out);
      case JArr(items) =>
        var out := ArrayEntries(items);
        forall i | 0 <= i < |out|
          ensures SanitizeChild(out[i].key, out[i].value) == out[i].value
        {
          ChildIdempotent(Text.NatToDecimal(i), items[i]);
        }
        NumericKeysNotProto(out);
        FixedEntries(out);
        WithoutProtoKeeps(out);
      case JStr(s) =>
        var out := StringEntries(s);
        NumericKeysNotProto(out);
        FixedEntries(out);
        WithoutProtoKeeps(out);
      case _ =>
    }
  }

  lemma {:induction false} ChildIdempotent(key: string, v: Json)
    ensures SanitizeChild(key, SanitizeChild(key, v)) == SanitizeChild(key, v)
    decreases v, 3
  {
    if IsObjectLike(v) {
      SanitizeIdempotent(v);
    }
  }

  lemma NumericKeysNotProto(es: seq<Entry>)
    requires forall i :: 0 <= i < |es| ==> es[i].key == Text.NatToDecimal(i)
    ensures forall i :: 0 <= i < |es| ==> es[i].key != ProtoKey
  {
    forall i | 0 <= i < |es| ensures es[i].key != ProtoKey {
      assert Text.IsDigit(es[i].key[0]);
    }
  }

  /** Entries that are fixed points of sanitising are left alone. */
  lemma FixedEntries(es: seq<Entry>)
    requires forall i :: 0 <= i < |es| ==> SanitizeChild(es[i].key, es[i].value) == es[i].value
    ensures SanitizeEntries(es) == es
  {
  }

  /** A filtered list of fixed-point entries is a fixed point. */
  lemma FilteredStable(out: seq<Entry>)
    requires forall i :: 0 <= i < |out| ==> SanitizeChild(out[i].key, out[i].value) == out[i].value
    ensures SanitizeEntries(WithoutProto(out)) == WithoutProto(out)
    ensures WithoutProto(WithoutProto(out)) == WithoutProto(out)
  {
    var f := WithoutProto(out);
    forall i | 0 <= i < |f| ensures SanitizeChild(f[i].key, f[i].value) == f[i].value {
      assert f[i] in out;
    }
    FixedEntries(f);
    WithoutProtoKeeps(f);
  }

  // ---------------------------------------------------------------------
  // Case-insensitivity

  /** Matching ignores the case of the key: keys equal up to ASCII case are
      redacted alike. */
  lemma SensitivityIgnoresCase(k1: string, k2: string)
    requires Text.Lower(k1) == Text.Lower(k2)
    ensures IsSensitiveKey(k1) <==> IsSensitiveKey(k2)
  {
  }

  /** "Authorization" and "API_KEY" are redacted, whatever their case. */
  lemma SensitiveExamples()
    ensures IsSensitiveKey("Authorization")
    ensures IsSensitiveKey("API_KEY")
  {
    var a := Text.Lower("Authorization");
    assert a == "authorization" by {
      assert forall i :: 0 <= i < |a| ==> a[i] == "authorization"[i];
    }
    var f2 := Text.Lower(SensitiveFields[2]);
    assert f2 == "authorization" by {
      assert forall i :: 0 <= i < |f2| ==> f2[i] == "authorization"[i];
    }
    Text.IncludesAt(a, f2, 0);
    var k := Text.Lower("API_KEY");
    assert k == "api_key" by {
      assert forall i :: 0 <= i < |k| ==> k[i] == "api_key"[i];
    }
    var f6 := Text.Lower(SensitiveFields[6]);
    assert f6 == "api_key" by {
      assert forall i :: 0 <= i < |f6| ==> f6[i] == "api_key"[i];
    }
    Text.IncludesAt(k, f6, 0);
  }

  /** An ordinary key is left alone: "username" holds none of the words. */
  lemma UsernameNotSensitive()
    ensures !IsSensitiveKey("username")
  {
    var u := Text.Lower("username");
    assert u == "username" by {
      assert forall i :: 0 <= i < |u| ==> u[i] == "username"[i];
    }
    // For each word, a character it has and "username" lacks.
    var marks := ['p', 't', 't', 'c', 'c', 'p', 'p', 'c', 'l'];
    forall i | 0 <= i < |SensitiveFields|
      ensures !Text.Includes(u, Text.Lower(SensitiveFields[i]))
    {
      var t := Text.Lower(SensitiveFields[i]);
      assert marks[i] in t by {
        assert i == 0 ==> t[0] == 'p';
        assert i == 1 ==> t[0] == 't';
        assert i == 2 ==> t[2] == 't';
        assert i == 3 ==> t[0] == 'c';
        assert i == 4 ==> t[2] == 'c';
        assert i == 5 ==> t[1] == 'p';
        assert i == 6 ==> t[1] == 'p';
        assert i == 7 ==> t[0] == 'c';
        assert i == 8 ==> t[4] == 'l';
      }
      assert marks[i] !in u;
      if Text.Includes(u, t) {
        Text.IncludesChars(u, t, marks[i]);
      }
    }
  }
}
