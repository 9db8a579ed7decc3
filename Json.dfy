/** The generic JSON value the codec converts to and from (serde_json's
    `Value`). Numbers are split into those that hold an integer and those that
    hold a float; no arithmetic is ever done on them. Objects are serde_json's
    default key-ordered map, so the order of keys carries no information and a
    Dafny `map` represents them exactly. */
module Json {
  import opened Wrappers

  const I64_MIN: int := -0x8000_0000_0000_0000
  const I64_MAX: int := 0x7fff_ffff_ffff_ffff

  /** A signed 64-bit integer (Rust's `i64`). */
  type Int64 = x: int | I64_MIN <= x <= I64_MAX

  datatype Json =
    | JNull
    | JBool(b: bool)
    | JInt(i: int)       // a Number holding an integer (an i64 or a u64)
    | JFloat(f: real)    // a Number holding a finite float
    | JStr(s: string)
    | JArr(items: seq<Json>)
    | JObj(fields: map<string, Json>)

  /** `Value::as_i64`: only an integer Number inside the i64 range. */
  function AsI64(v: Json): (r: Option<Int64>)
    ensures r.Some? <==> v.JInt? && I64_MIN <= v.i <= I64_MAX
    ensures r.Some? ==> r.value == v.i
  {
    if v.JInt? && I64_MIN <= v.i <= I64_MAX then Some(v.i) else None
  }

  /** `Value::as_str`. */
  function AsStr(v: Json): (r: Option<string>)
    ensures r.Some? <==> v.JStr?
    ensures r.Some? ==> JStr(r.value) == v
  {
    if v.JStr? then Some(v.s) else None
  }

  /** `Value::as_object`. */
  function AsObject(v: Json): (r: Option<map<string, Json>>)
    ensures r.Some? <==> v.JObj?
    ensures r.Some? ==> JObj(r.value) == v
  {
    if v.JObj? then Some(v.fields) else None
  }

  /** `Map::get`. */
  function Get(m: map<string, Json>, key: string): (r: Option<Json>)
    ensures r.Some? <==> key in m
    ensures r.Some? ==> r.value == m[key]
  {
    if key in m then Some(m[key]) else None
  }

  /** Two objects that hold the same entry, or the same absence, under every
      one of the given keys. */
  ghost predicate AgreeOn(m1: map<string, Json>, m2: map<string, Json>, keys: set<string>) {
    forall k :: k in keys ==> (k in m1 <==> k in m2) && (k in m1 ==> m1[k] == m2[k])
  }
}
