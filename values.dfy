/** The loosely typed values a client submits, as Python sees a decoded JSON
    document, together with the few Python built-ins the normaliser leans on:
    truthiness, `or`, `dict.get`, `in`, `del`, iteration and two-name unpacking. */
module Values {

  datatype Option<T> = None | Some(value: T)

  /** Why assembling or projecting a request gives up. */
  datatype Error =
    | InvalidData    // InterfaceValidationError("Invalid interface data")
    | InvalidMethod  // InterfaceValidationError("Invalid value for 'method'")
    | Malformed      // a TypeError, ValueError or AttributeError that escapes

  datatype Result<T> = Ok(value: T) | Err(error: Error)

  type Byte = bv8

  /** A Python value. A `Dict` keeps its items in insertion order; its keys are
      distinct, as in a Python dict, and every lookup reads the first match. */
  datatype Value =
    | Null
    | Bool(b: bool)
    | Int(i: int)
    | Str(s: string)
    | Bytes(bytes: seq<Byte>)
    | List(items: seq<Value>)
    | Tuple(items: seq<Value>)
    | Dict(entries: seq<(string, Value)>)

  /** Python truthiness: None, False, 0 and every empty container are falsy. */
  predicate Truthy(v: Value)
  {
    match v
    case Null => false
    case Bool(b) => b
    case Int(i) => i != 0
    case Str(s) => s != []
    case Bytes(bs) => bs != []
    case List(xs) => xs != []
    case Tuple(xs) => xs != []
    case Dict(es) => es != []
  }

  /** Python's `a or b`. */
  function Or(a: Value, b: Value): Value
  {
    if Truthy(a) then a else b
  }

  /** `data.get(key)` on the submitted request: a missing key reads as None. */
  function Get(data: map<string, Value>, key: string): Value
  {
    if key in data then data[key] else Null
  }

  /** The value stored under `key`, if any. */
  function Lookup(entries: seq<(string, Value)>, key: string): (r: Option<Value>)
    ensures r.None? <==> forall i :: 0 <= i < |entries| ==> entries[i].0 != key
    ensures r.Some? ==> (key, r.value) in entries
  {
    if entries == [] then None
    else if entries[0].0 == key then Some(entries[0].1)
    else Lookup(entries[1..], key)
  }

  /** `del d[key]`: the item under `key` goes, every other item stays in order. */
  function RemoveKey(entries: seq<(string, Value)>, key: string): (r: seq<(string, Value)>)
    ensures forall e :: e in r <==> e in entries && e.0 != key
    ensures Lookup(r, key).None?
    ensures forall k :: k != key ==> Lookup(r, k) == Lookup(entries, k)
  {
    if entries == [] then []
    else if entries[0].0 == key then RemoveKey(entries[1..], key)
    else [entries[0]] + RemoveKey(entries[1..], key)
  }

  /** Removal works item by item, so the items that stay keep their order. */
  lemma {:induction false} RemoveKeyAppend(a: seq<(string, Value)>, b: seq<(string, Value)>, key: string)
    ensures RemoveKey(a + b, key) == RemoveKey(a, key) + RemoveKey(b, key)
  {
    if a != [] {
      var ab := a + b;
      assert ab[0] == a[0] && ab[1..] == a[1..] + b;
      RemoveKeyAppend(a[1..], b, key);
      var head := if a[0].0 == key then [] else [a[0]];
      var ra, rb := RemoveKey(a[1..], key), RemoveKey(b, key);
      RemoveKeyStep(ab, head, ra + rb, key);
      RemoveKeyStep(a, head, ra, key);
      assert head + (ra + rb) == (head + ra) + rb;
    } else {
      assert a + b == b;
    }
  }

  /** One step of the removal: the first item goes or stays, then the rest. */
  lemma RemoveKeyStep(a: seq<(string, Value)>, head: seq<(string, Value)>, rest: seq<(string, Value)>, key: string)
    requires a != [] && head == (if a[0].0 == key then [] else [a[0]])
    requires rest == RemoveKey(a[1..], key)
    ensures RemoveKey(a, key) == head + rest
  {
  }

  /** The item under `key` is removed and any other single item is kept. */
  lemma RemoveKeyOne(e: (string, Value), key: string)
    ensures RemoveKey([e], key) == if e.0 == key then [] else [e]
  {
    assert [e][1..] == [];
  }

  /** The lookup finds the first item stored under `key`. */
  lemma {:induction false} LookupFirst(entries: seq<(string, Value)>, key: string, i: nat)
    requires i < |entries| && entries[i].0 == key
    requires forall j :: 0 <= j < i ==> entries[j].0 != key
    ensures Lookup(entries, key) == Some(entries[i].1)
  {
    if i > 0 {
      LookupFirst(entries[1..], key, i - 1);
    }
  }

  /** A lookup in two runs of items finds the first run's item first. */
  lemma {:induction false} LookupAppend(a: seq<(string, Value)>, b: seq<(string, Value)>, key: string)
    ensures Lookup(a + b, key) == if Lookup(a, key).Some? then Lookup(a, key) else Lookup(b, key)
  {
    if a != [] {
      assert (a + b)[1..] == a[1..] + b;
      LookupAppend(a[1..], b, key);
    } else {
      assert a + b == b;
    }
  }

  /** The items `for x in v` visits, or None where iterating raises
      TypeError. A dict yields its `(key, value)` items, not its keys: both
      places that iterate a dict here call `.items()` on it first. */
  function Iterate(v: Value): Option<seq<Value>>
  {
    match v
    case List(xs) => Some(xs)
    case Tuple(xs) => Some(xs)
    case Dict(es) => Some(DictItems(es))
    case Str(s) => Some(seq(|s|, i requires 0 <= i < |s| => Str([s[i]])))
    case Bytes(bs) => Some(seq(|bs|, i requires 0 <= i < |bs| => Int(bs[i] as int)))
    case _ => None
  }

  /** `d.items()`: one (key, value) tuple per item, in order. */
  function DictItems(es: seq<(string, Value)>): (r: seq<Value>)
    ensures |r| == |es|
    ensures forall i :: 0 <= i < |es| ==> r[i] == Tuple([Str(es[i].0), es[i].1])
  {
    if es == [] then [] else [Tuple([Str(es[0].0), es[0].1])] + DictItems(es[1..])
  }

  /** `k, v = item`, or None where the unpacking raises. */
  function Unpack2(item: Value): Option<(Value, Value)>
  {
    match item
    case List(xs) => if |xs| == 2 then Some((xs[0], xs[1])) else None
    case Tuple(xs) => if |xs| == 2 then Some((xs[0], xs[1])) else None
    case Str(s) => if |s| == 2 then Some((Str([s[0]]), Str([s[1]]))) else None
    case Bytes(bs) => if |bs| == 2 then Some((Int(bs[0] as int), Int(bs[1] as int))) else None
    case Dict(es) => if |es| == 2 then Some((Str(es[0].0), Str(es[1].0))) else None
    case _ => None
  }

  predicate OccursAt(needle: string, s: string, i: int)
  {
    0 <= i <= |s| - |needle| && s[i..i + |needle|] == needle
  }

  predicate IsSubstring(needle: string, s: string)
  {
    exists i | 0 <= i <= |s| - |needle| :: OccursAt(needle, s, i)
  }

  /** Python's `key in container` for a text key; TypeError where the
      container does not support it. */
  function Contains(container: Value, key: string): (r: Result<bool>)
    ensures container.Dict? ==> r == Ok(Lookup(container.entries, key).Some?)
    ensures r.Err? <==> !(container.Dict? || container.Str? || container.List? || container.Tuple?)
  {
    match container
    case Dict(es) => Ok(Lookup(es, key).Some?)
    case Str(s) => Ok(IsSubstring(key, s))
    case List(xs) => Ok(Str(key) in xs)
    case Tuple(xs) => Ok(Str(key) in xs)
    case _ => Err(Malformed)
  }

  /** A Python list of 2-tuples, `[(k, v), ...]`. */
  function TupleList(pairs: seq<(Value, Value)>): Value
  {
    List(seq(|pairs|, i requires 0 <= i < |pairs| => Tuple([pairs[i].0, pairs[i].1])))
  }

  /** A Python list of 2-tuples of text, `[(k, v), ...]`. */
  function TextTupleList(pairs: seq<(string, string)>): Value
  {
    List(seq(|pairs|, i requires 0 <= i < |pairs| => Tuple([Str(pairs[i].0), Str(pairs[i].1)])))
  }

  /** A Python list of 2-element lists, `[[k, v], ...]`. */
  function ListOfLists(pairs: seq<(string, Value)>): Value
  {
    List(seq(|pairs|, i requires 0 <= i < |pairs| => List([Str(pairs[i].0), pairs[i].1])))
  }
}
