/**
 JSON values as Python's `json` module hands them to the generator, together
 with the few pieces of Python semantics the generator leans on: truthiness,
 `dict.get`, iteration over a value, and the exceptions raised when a value has
 the wrong shape.
 */
module Json {

  datatype Option<+T> = None | Some(value: T) {
    function GetOr(default: T): T {
      match this
      case Some(v) => v
      case None => default
    }
  }

  /** A decoded JSON value. Objects keep their members in insertion order, as a
      Python dict does. A number with a fraction or an exponent decodes to a
      Python float; of a float the model keeps only whether it is zero, which is
      all that truthiness needs. */
  datatype JVal =
    | JNull
    | JBool(b: bool)
    | JInt(i: int)
    | JNum(isZero: bool)
    | JStr(s: string)
    | JArr(elems: seq<JVal>)
    | JObj(fields: seq<(string, JVal)>)

  /** The Python exceptions an ill-shaped input can raise: `.get` on a value that
      is not a dict, iterating or joining something that cannot be, and
      subscripting a dict with an integer. */
  datatype PyError = AttributeError | TypeError | KeyError

  /** The outcome of Python code that may raise. */
  datatype Result<+T> = Ok(value: T) | Raise(error: PyError)

  /** Python's `bool(v)` for a decoded JSON value. */
  predicate Truthy(v: JVal) {
    match v
    case JNull => false
    case JBool(b) => b
    case JInt(i) => i != 0
    case JNum(z) => !z
    case JStr(s) => s != ""
    case JArr(es) => es != []
    case JObj(fs) => fs != []
  }

  predicate HasKey(fields: seq<(string, JVal)>, key: string) {
    exists i :: 0 <= i < |fields| && fields[i].0 == key
  }

  /** The position of the first member named `key`, or `|fields|`. */
  function IndexOf(fields: seq<(string, JVal)>, key: string): (r: nat)
    ensures r <= |fields|
    ensures r < |fields| ==> fields[r].0 == key
    ensures forall j :: 0 <= j < r ==> fields[j].0 != key
  {
    if fields == [] then 0
    else if fields[0].0 == key then 0
    else 1 + IndexOf(fields[1..], key)
  }

  /** `d.get(key)`: the value stored under the first member named `key`. */
  function Get(fields: seq<(string, JVal)>, key: string): (r: Option<JVal>)
    ensures r.Some? <==> HasKey(fields, key)
    ensures r.Some? <==> IndexOf(fields, key) < |fields|
    ensures r.Some? ==> r.value == fields[IndexOf(fields, key)].1
  {
    var i := IndexOf(fields, key);
    if i < |fields| then Some(fields[i].1) else None
  }

  /** A member is found under its key when no earlier member has that key. */
  lemma GetAt(fields: seq<(string, JVal)>, i: nat)
    requires i < |fields|
    requires forall j :: 0 <= j < i ==> fields[j].0 != fields[i].0
    ensures Get(fields, fields[i].0) == Some(fields[i].1)
  {
  }

  /** `d.get(key, default)`. */
  function GetOr(fields: seq<(string, JVal)>, key: string, default: JVal): JVal {
    Get(fields, key).GetOr(default)
  }

  /** Adding a member under a new key makes it visible under that key. */
  lemma {:induction false} GetAppend(fields: seq<(string, JVal)>, key: string, v: JVal)
    requires !HasKey(fields, key)
    ensures Get(fields + [(key, v)], key) == Some(v)
    decreases |fields|
  {
    if fields != [] {
      assert (fields + [(key, v)])[1..] == fields[1..] + [(key, v)];
      GetAppend(fields[1..], key, v);
    }
  }

  /** Adding a member under another key leaves every lookup unchanged. */
  lemma {:induction false} GetAppendOther(fields: seq<(string, JVal)>, key: string, other: string, v: JVal)
    requires key != other
    ensures Get(fields + [(other, v)], key) == Get(fields, key)
    decreases |fields|
  {
    if fields != [] {
      assert (fields + [(other, v)])[1..] == fields[1..] + [(other, v)];
      GetAppendOther(fields[1..], key, other, v);
    }
  }

  /** `for x in v`: a list yields its elements, a string its one-character
      strings, a dict its keys; anything else is not iterable. */
  function Iterate(v: JVal): (r: Result<seq<JVal>>)
    ensures r.Raise? <==> !(v.JArr? || v.JStr? || v.JObj?)
    ensures r.Ok? ==> |r.value| == (match v
                                    case JArr(es) => |es|
                                    case JStr(s) => |s|
                                    case JObj(fs) => |fs|
                                    case _ => 0)
    ensures r.Ok? ==> (r.value == [] <==> !Truthy(v))
  {
    match v
    case JArr(es) => Ok(es)
    case JStr(s) => Ok(seq(|s|, i requires 0 <= i < |s| => JStr([s[i]])))
    case JObj(fs) => Ok(seq(|fs|, i requires 0 <= i < |fs| => JStr(fs[i].0)))
    case _ => Raise(TypeError)
  }

  /** A size measure used only to show that the tree walk terminates. */
  function Size(v: JVal): nat {
    match v
    case JArr(es) => 1 + SizeSeq(es)
    case JObj(fs) => 1 + SizeFields(fs)
    case _ => 1
  }

  function SizeSeq(es: seq<JVal>): nat {
    if es == [] then 0 else 1 + Size(es[0]) + SizeSeq(es[1..])
  }

  function SizeFields(fs: seq<(string, JVal)>): nat {
    if fs == [] then 0
    else
      assert fs[0].1 < fs[0];
      1 + Size(fs[0].1) + SizeFields(fs[1..])
  }

  lemma {:induction false} ElementSmaller(es: seq<JVal>, i: int)
    requires 0 <= i < |es|
    ensures Size(es[i]) < SizeSeq(es)
  {
    if i > 0 {
      ElementSmaller(es[1..], i - 1);
    }
  }

  lemma GetSmaller(fs: seq<(string, JVal)>, key: string)
    requires Get(fs, key).Some?
    ensures Size(Get(fs, key).value) < Size(JObj(fs))
  {
    ElementSmallerFields(fs, IndexOf(fs, key));
  }

  lemma {:induction false} ElementSmallerFields(fs: seq<(string, JVal)>, i: int)
    requires 0 <= i < |fs|
    ensures Size(fs[i].1) < SizeFields(fs)
  {
    if i > 0 {
      ElementSmallerFields(fs[1..], i - 1);
    }
  }

  lemma IterateNoLarger(v: JVal)
    requires Iterate(v).Ok?
    ensures forall e :: e in Iterate(v).value ==> Size(e) <= Size(v)
  {
    if v.JArr? {
      forall e | e in v.elems
        ensures Size(e) <= Size(v)
      {
        var i :| 0 <= i < |v.elems| && v.elems[i] == e;
        ElementSmaller(v.elems, i);
      }
    }
  }
}
