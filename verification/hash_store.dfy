/** The backing store as a map from key to hash (field to value), with the
    hash commands the adapter issues: HGET, HSET and HINCRBY. */
module HashStore {
  import opened Wrappers

  /** A field value: an integer or a text. Redis keeps both as strings; the
      adapter writes numbers as `Int` and addresses as `Str`, so within its
      own writes the distinction matches what HINCRBY accepts. */
  datatype Value = Int(i: int) | Str(s: string)

  /** A hash maps field names (of type `F`) to values; the store maps keys
      to hashes. */
  type Hash<F> = map<F, Value>
  type Store<F> = map<string, Hash<F>>

  /** The hash under `key`; a missing key reads as an empty hash. */
  function HashOf<F>(s: Store<F>, key: string): (h: Hash<F>)
    ensures key !in s ==> h == map[]
  {
    if key in s then s[key] else map[]
  }

  /** HGET: the field's value, or nothing when key or field is missing. */
  function HGet<F>(s: Store<F>, key: string, field: F): (r: Option<Value>)
    ensures r.Some? <==> key in s && field in s[key]
    ensures r.Some? ==> r.value == s[key][field]
  {
    var h := HashOf(s, key);
    if field in h then Some(h[field]) else None
  }

  /** HSET: writes one field, creating the hash when the key is missing. */
  function HSet<F(!new)>(s: Store<F>, key: string, field: F, v: Value): (s': Store<F>)
    ensures HGet(s', key, field) == Some(v)
    ensures forall f :: f != field ==> HGet(s', key, f) == HGet(s, key, f)
    ensures s'.Keys == s.Keys + {key}
    ensures forall k :: k in s && k != key ==> s'[k] == s[k]
  {
    s[key := HashOf(s, key)[field := v]]
  }

  /** The value HINCRBY starts from: a missing field counts as zero, a text
      field cannot be incremented. */
  function IntField<F>(s: Store<F>, key: string, field: F): (r: Option<int>)
    ensures r.None? <==> HGet(s, key, field).Some? && HGet(s, key, field).value.Str?
  {
    match HGet(s, key, field)
    case None => Some(0)
    case Some(Int(n)) => Some(n)
    case Some(Str(_)) => None
  }

  /** HINCRBY: adds `delta` to the field and returns the new value; fails,
      changing nothing, when the field holds text. */
  function HIncrBy<F(!new)>(s: Store<F>, key: string, field: F, delta: int): (r: (Store<F>, Option<int>))
    ensures IntField(s, key, field).None? ==> r == (s, None)
    ensures IntField(s, key, field).Some? ==>
      && r.1 == Some(IntField(s, key, field).value + delta)
      && HGet(r.0, key, field) == Some(Int(r.1.value))
      && (forall f :: f != field ==> HGet(r.0, key, f) == HGet(s, key, f))
      && r.0.Keys == s.Keys + {key}
      && (forall k :: k in s && k != key ==> r.0[k] == s[k])
  {
    match IntField(s, key, field)
    case None => (s, None)
    case Some(n) => (HSet(s, key, field, Int(n + delta)), Some(n + delta))
  }
}
