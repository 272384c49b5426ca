/** Parsed JSON values, as `JSON.parse` hands them to the editors, with the JavaScript
    operations the editors apply to them: truthiness, `a || b`, property read, property
    write and `delete` on objects, and conversion to a string. */
module Json {
  import opened Wrappers
  import Text

  /** A JSON value. Numbers are integers in this model. An object keeps its fields in
      enumeration order. */
  datatype Json =
    | JNull
    | JBool(b: bool)
    | JNum(n: int)
    | JStr(s: string)
    | JArr(items: seq<Json>)
    | JObj(fields: seq<(string, Json)>)

  /** JavaScript truthiness of a defined value. */
  predicate Truthy(j: Json) {
    match j
    case JNull => false
    case JBool(b) => b
    case JNum(n) => n != 0
    case JStr(s) => s != ""
    case _ => true
  }

  /** Truthiness of a possibly undefined value. */
  predicate Present(o: Option<Json>) {
    o.Some? && Truthy(o.value)
  }

  /** `a || fallback` with a defined fallback. */
  function OrElse(a: Option<Json>, fallback: Json): (r: Json)
    ensures Present(a) ==> r == a.value
    ensures !Present(a) ==> r == fallback
  {
    if Present(a) then a.value else fallback
  }

  /** `a || b` where `b` may be undefined too. */
  function Either(a: Option<Json>, b: Option<Json>): (r: Option<Json>)
    ensures Present(a) ==> r == a
    ensures !Present(a) ==> r == b
  {
    if Present(a) then a else b
  }

  // ---------------------------------------------------------------- ordered fields

  /** The keys of a field list, in order. */
  function KeySeq<V>(fs: seq<(string, V)>): (ks: seq<string>)
    ensures |ks| == |fs| && forall i :: 0 <= i < |fs| ==> ks[i] == fs[i].0
  {
    if fs == [] then [] else [fs[0].0] + KeySeq(fs[1..])
  }

  /** `obj[k]`: the value of the first field named `k`, or undefined. */
  function Get<V>(fs: seq<(string, V)>, k: string): (r: Option<V>)
  {
    if fs == [] then None else if fs[0].0 == k then Some(fs[0].1) else Get(fs[1..], k)
  }

  /** `obj[k] = v`: an existing field keeps its position and takes the new value; a new key
      goes to the end. */
  function Put<V>(fs: seq<(string, V)>, k: string, v: V): (r: seq<(string, V)>)
    ensures |r| == if k in KeySeq(fs) then |fs| else |fs| + 1
    ensures k !in KeySeq(fs) ==> r == fs + [(k, v)]
  {
    if fs == [] then [(k, v)]
    else if fs[0].0 == k then [(k, v)] + fs[1..]
    else
      assert fs == [fs[0]] + fs[1..];
      [fs[0]] + Put(fs[1..], k, v)
  }

  /** After `obj[k] = v`, reading `k` gives `v` and every other key reads as before. */
  lemma {:induction false} GetPut<V>(fs: seq<(string, V)>, k: string, v: V, k': string)
    ensures Get(Put(fs, k, v), k') == if k' == k then Some(v) else Get(fs, k')
  {
    if fs != [] && fs[0].0 != k {
      GetPut(fs[1..], k, v, k');
    }
  }

  /** The field at position `i` answers for `k` when it is the first one named `k`. */
  lemma {:induction false} GetAt<V>(fs: seq<(string, V)>, i: nat, k: string)
    requires i < |fs| && fs[i].0 == k
    requires forall j :: 0 <= j < i ==> fs[j].0 != k
    ensures Get(fs, k) == Some(fs[i].1)
  {
    if i > 0 {
      GetAt(fs[1..], i - 1, k);
    }
  }

  /** A key no field carries reads as undefined. */
  lemma {:induction false} GetNone<V>(fs: seq<(string, V)>, k: string)
    requires forall j :: 0 <= j < |fs| ==> fs[j].0 != k
    ensures Get(fs, k) == None
  {
    if fs != [] {
      GetNone(fs[1..], k);
    }
  }

  /** Reading a key of a field list made of two parts: the first part wins. */
  lemma {:induction false} GetAppend<V>(a: seq<(string, V)>, b: seq<(string, V)>, k: string)
    ensures Get(a + b, k) == if Get(a, k).Some? then Get(a, k) else Get(b, k)
  {
    if a == [] {
      assert a + b == b;
    } else {
      var c := a + b;
      assert c[0] == a[0];
      assert c[1..] == a[1..] + b;
      if a[0].0 != k {
        GetAppend(a[1..], b, k);
      }
    }
  }

  /** Writing the same key twice leaves only the second write. */
  lemma {:induction false} PutPut<V>(fs: seq<(string, V)>, k: string, v: V, w: V)
    ensures Put(Put(fs, k, v), k, w) == Put(fs, k, w)
  {
    if fs != [] && fs[0].0 != k {
      PutPut(fs[1..], k, v, w);
      var r := Put(fs, k, v);
      assert r[0] == fs[0] && r[1..] == Put(fs[1..], k, v);
    } else if fs != [] {
      var r := Put(fs, k, v);
      assert r[0].0 == k && r[1..] == fs[1..];
    }
  }

  /** Writing back the value a key already reads changes nothing. */
  lemma {:induction false} PutSame<V>(fs: seq<(string, V)>, k: string)
    requires Get(fs, k).Some?
    ensures Put(fs, k, Get(fs, k).value) == fs
  {
    if fs[0].0 != k {
      PutSame(fs[1..], k);
    }
  }

  /** `obj[k] = v` keeps the key order, appending `k` only when it is new. */
  lemma {:induction false} KeysPut<V>(fs: seq<(string, V)>, k: string, v: V)
    ensures KeySeq(Put(fs, k, v)) == if k in KeySeq(fs) then KeySeq(fs) else KeySeq(fs) + [k]
  {
    if fs != [] && fs[0].0 != k {
      KeysPut(fs[1..], k, v);
      assert KeySeq(fs) == [fs[0].0] + KeySeq(fs[1..]);
    }
  }

  /** `delete obj[k]`: the key is gone, every other field stays where it was. */
  function Remove<V>(fs: seq<(string, V)>, k: string): (r: seq<(string, V)>)
    ensures Get(r, k) == None
    ensures forall k' :: k' != k ==> Get(r, k') == Get(fs, k')
    ensures forall i :: 0 <= i < |r| ==> r[i] in fs && r[i].0 != k
  {
    if fs == [] then []
    else if fs[0].0 == k then Remove(fs[1..], k)
    else [fs[0]] + Remove(fs[1..], k)
  }

  // ---------------------------------------------------------------- objects

  /** `j[k]` for a property the editors read: objects answer from their fields, every other
      non-null value has no such property. (Reading a property of `null` throws; callers
      check for `JNull` first.) */
  function Member(j: Json, k: string): (r: Option<Json>)
    ensures j.JObj? ==> r == Get(j.fields, k)
    ensures !j.JObj? ==> r == None
  {
    if j.JObj? then Get(j.fields, k) else None
  }

  /** `j[k] = v` where `j` is an object; any other value is left as it is. */
  function WithMember(j: Json, k: string, v: Json): (r: Json)
    ensures j.JObj? ==> r == JObj(Put(j.fields, k, v))
    ensures !j.JObj? ==> r == j
  {
    if j.JObj? then JObj(Put(j.fields, k, v)) else j
  }

  /** After `j[k] = v` on an object, `k` reads `v` and every other property reads as before. */
  lemma {:induction false} MemberWith(j: Json, k: string, v: Json)
    ensures j.JObj? ==> Member(WithMember(j, k, v), k) == Some(v)
    ensures j.JObj? ==> forall k' :: k' != k ==> Member(WithMember(j, k, v), k') == Member(j, k')
  {
    if j.JObj? {
      GetPut(j.fields, k, v, k);
      forall k' | k' != k ensures Member(WithMember(j, k, v), k') == Member(j, k') {
        GetPut(j.fields, k, v, k');
      }
    }
  }

  /** One property read after one write on an object. */
  lemma {:induction false} MemberWithAt(j: Json, k: string, v: Json, f: string)
    requires j.JObj?
    ensures Member(WithMember(j, k, v), f) == if f == k then Some(v) else Member(j, f)
  {
    GetPut(j.fields, k, v, f);
  }

  /** Two writes of one property: the second wins. */
  lemma {:induction false} WithMemberTwice(j: Json, k: string, v: Json, w: Json)
    ensures WithMember(WithMember(j, k, v), k, w) == WithMember(j, k, w)
  {
    if j.JObj? {
      PutPut(j.fields, k, v, w);
    }
  }

  /** Writing back what a property reads leaves the value as it was. */
  lemma {:induction false} WithMemberSame(j: Json, k: string)
    requires Member(j, k).Some?
    ensures WithMember(j, k, Member(j, k).value) == j
  {
    PutSame(j.fields, k);
  }

  /** `delete j[k]` where `j` is an object; any other value is left as it is. */
  function WithoutMember(j: Json, k: string): (r: Json)
    ensures j.JObj? ==> r == JObj(Remove(j.fields, k))
    ensures !j.JObj? ==> r == j
  {
    if j.JObj? then JObj(Remove(j.fields, k)) else j
  }

  /** The properties every plain object inherits from `Object.prototype`. Reading one that
      the object does not define itself gives a function (or, for `__proto__`, the
      prototype), which is truthy. */
  const InheritedNames: set<string> := {
    "constructor", "hasOwnProperty", "isPrototypeOf", "propertyIsEnumerable",
    "toLocaleString", "toString", "valueOf", "__proto__",
    "__defineGetter__", "__defineSetter__", "__lookupGetter__", "__lookupSetter__"
  }

  /** `!!j[k]` on a defined value: a truthy own property, or, on an object that does not
      define `k` itself, an inherited one. */
  predicate ReadsTruthy(j: Json, k: string) {
    Present(Member(j, k)) || (j.JObj? && Member(j, k).None? && k in InheritedNames)
  }

  /** The values of an object's fields, in order. */
  function FieldValues(fs: seq<(string, Json)>): (vs: seq<Json>)
    ensures |vs| == |fs| && forall i :: 0 <= i < |fs| ==> vs[i] == fs[i].1
  {
    if fs == [] then [] else [fs[0].1] + FieldValues(fs[1..])
  }

  // ---------------------------------------------------------------- strings

  /** `String(j)`: what a template literal or `join` writes for a defined value. */
  function ToStr(j: Json): string
    decreases j
  {
    match j
    case JNull => "null"
    case JBool(b) => if b then "true" else "false"
    case JNum(n) => Text.IntToString(n)
    case JStr(s) => s
    case JArr(items) =>
      Text.Join(seq(|items|, i requires 0 <= i < |items| => if items[i] == JNull then "" else ToStr(items[i])), ",")
    case JObj(_) => "[object Object]"
  }

  /** `String(o)` for a possibly undefined value. */
  function OptToStr(o: Option<Json>): string {
    match o
    case None => "undefined"
    case Some(j) => ToStr(j)
  }

  /** A list of strings as a JSON array's elements. */
  function StrList(lines: seq<string>): (r: seq<Json>)
    ensures |r| == |lines| && forall i :: 0 <= i < |lines| ==> r[i] == JStr(lines[i])
  {
    seq(|lines|, i requires 0 <= i < |lines| => JStr(lines[i]))
  }

  /** A text area read as a JSON list of its lines. */
  function AreaList(text: string): Json {
    JArr(StrList(Text.Lines(text)))
  }
}
