/**
 The request bodies the handlers receive: the value `request.get_json()` decodes,
 with just enough of Python's behaviour on it to follow the handlers' checks
 (truthiness, `key in data`, `data[key]`, `data.get(key, default)`).
 */
module Json {

  /** A decoded JSON value. A number keeps only whether it is non-zero, which is
      all the handlers observe of it. */
  datatype JVal =
    | JNull
    | JBool(b: bool)
    | JNum(nonZero: bool)
    | JStr(s: string)
    | JArr(items: seq<JVal>)
    | JObj(fields: map<string, JVal>)

  /** Python truthiness of the decoded value: `None`, `False`, `0`, `""`, `[]`
      and `{}` are false, everything else is true. */
  predicate Truthy(v: JVal) {
    match v
    case JNull => false
    case JBool(b) => b
    case JNum(nonZero) => nonZero
    case JStr(s) => s != []
    case JArr(items) => items != []
    case JObj(fields) => fields != map[]
  }

  /** The falsy values are exactly Python's: `None`, `False`, zero, the empty
      string, the empty list and the empty dict. */
  lemma FalsyValues(v: JVal)
    ensures !Truthy(v) <==> v in {JNull, JBool(false), JNum(false), JStr([]), JArr([]), JObj(map[])}
  {
  }

  /** `key` occurs as a contiguous piece of `s` (Python's `key in s` on strings). */
  predicate Contains(s: string, key: string)
    decreases |s|
  {
    key <= s || (s != [] && Contains(s[1..], key))
  }

  /** The outcome of `data[key]` guarded by `if key in data`: the member is
      absent, present with a value, or the expression raises. */
  datatype Field = Absent | Present(v: JVal) | Raises

  /** What `if key in data: ... data[key]` does on each kind of body. On a dict it
      is a member lookup; on a list `in` tests the elements and indexing with a
      string raises; on a string `in` is a substring test and indexing raises;
      on `None`, a bool or a number `in` itself raises. */
  function Index(data: JVal, key: string): Field {
    match data
    case JObj(fields) => if key in fields then Present(fields[key]) else Absent
    case JArr(items) => if JStr(key) in items then Raises else Absent
    case JStr(s) => if Contains(s, key) then Raises else Absent
    case _ => Raises
  }

  /** `d.get(key, default)` on a dict. */
  function GetOr(fields: map<string, JVal>, key: string, default: JVal): JVal {
    if key in fields then fields[key] else default
  }

  /** `key` sits in `s` starting at index `i`. */
  predicate OccursAt(s: string, key: string, i: nat) {
    i + |key| <= |s| && s[i..i + |key|] == key
  }

  /** Contains agrees with the slice definition of `key in s`: some window of
      `s` as long as `key` equals `key`. */
  lemma {:induction false} ContainsIffSlice(s: string, key: string)
    ensures Contains(s, key) <==> exists i: nat :: OccursAt(s, key, i)
    decreases |s|
  {
    if key <= s {
      assert OccursAt(s, key, 0);
    }
    if s == [] {
      if key == [] { assert OccursAt(s, key, 0); }
    } else {
      ContainsIffSlice(s[1..], key);
      if Contains(s[1..], key) {
        var i: nat :| OccursAt(s[1..], key, i);
        assert s[i + 1..i + 1 + |key|] == s[1..][i..i + |key|];
        assert OccursAt(s, key, i + 1);
      }
      if exists i: nat :: OccursAt(s, key, i) {
        var i: nat :| OccursAt(s, key, i);
        if i == 0 {
          assert key <= s;
        } else {
          assert s[1..][i - 1..i - 1 + |key|] == s[i..i + |key|];
          assert OccursAt(s[1..], key, i - 1);
        }
      }
    }
  }

  /** On a string body `key in data` is a substring test, and a found key makes
      the following `data[key]` raise. */
  lemma IndexOnString(s: string, key: string)
    ensures Index(JStr(s), key).Raises? <==> exists i: nat :: OccursAt(s, key, i)
    ensures !Index(JStr(s), key).Present?
  {
    ContainsIffSlice(s, key);
  }

  /** On a dict, `data.get(key, default)` gives the member that the guarded
      `data[key]` reads, and the default when `key in data` is false. */
  lemma GetOrAgreesWithIndex(fields: map<string, JVal>, key: string, default: JVal)
    ensures Index(JObj(fields), key).Present? ==> GetOr(fields, key, default) == Index(JObj(fields), key).v
    ensures Index(JObj(fields), key).Absent? ==> GetOr(fields, key, default) == default
    ensures !Index(JObj(fields), key).Raises?
  {
  }
}
