/** Python's ordering of text and `sorted(d.items())` for a dict: items
    ordered by key, code point by code point. */
module Order {
  import opened Values

  /** `a <= b` on Python text: lexicographic by code point, a prefix first. */
  predicate StrLe(a: string, b: string)
  {
    if a == [] then true
    else if b == [] then false
    else if a[0] != b[0] then a[0] < b[0]
    else StrLe(a[1..], b[1..])
  }

  lemma {:induction false} StrLeTotal(a: string, b: string)
    ensures StrLe(a, b) || StrLe(b, a)
  {
    if a != [] && b != [] && a[0] == b[0] {
      StrLeTotal(a[1..], b[1..]);
    }
  }

  lemma {:induction false} StrLeTrans(a: string, b: string, c: string)
    requires StrLe(a, b) && StrLe(b, c)
    ensures StrLe(a, c)
  {
    if a != [] && b != [] && c != [] && a[0] == b[0] == c[0] {
      StrLeTrans(a[1..], b[1..], c[1..]);
    }
  }

  lemma {:induction false} StrLeAntisym(a: string, b: string)
    requires StrLe(a, b) && StrLe(b, a)
    ensures a == b
  {
    if a != [] && b != [] {
      StrLeAntisym(a[1..], b[1..]);
    }
  }

  type Item = (string, Value)

  predicate SortedByKey(s: seq<Item>)
  {
    forall i, j :: 0 <= i < j < |s| ==> StrLe(s[i].0, s[j].0)
  }

  /** Insertion of one item into items already in key order. */
  function Insert(x: Item, s: seq<Item>): seq<Item>
  {
    if s == [] || StrLe(x.0, s[0].0) then [x] + s else [s[0]] + Insert(x, s[1..])
  }

  /** `sorted(d.items())` for a dict: its keys are distinct, so the order
      of the values never decides. */
  function SortByKey(s: seq<Item>): seq<Item>
  {
    if s == [] then [] else Insert(s[0], SortByKey(s[1..]))
  }

  lemma {:induction false} InsertSorted(x: Item, s: seq<Item>)
    requires SortedByKey(s)
    ensures SortedByKey(Insert(x, s))
    ensures multiset(Insert(x, s)) == multiset(s) + multiset{x}
  {
    if s == [] {
    } else if StrLe(x.0, s[0].0) {
      forall j | 0 < j < |s| ensures StrLe(x.0, s[j].0) {
        StrLeTrans(x.0, s[0].0, s[j].0);
      }
    } else {
      StrLeTotal(x.0, s[0].0);
      InsertSorted(x, s[1..]);
      var t := Insert(x, s[1..]);
      assert s == [s[0]] + s[1..];
      forall j | 0 <= j < |t| ensures StrLe(s[0].0, t[j].0) {
        assert t[j] in multiset(s[1..]) + multiset{x};
        if t[j] != x {
          assert t[j] in s[1..];
        }
      }
    }
  }

  /** `sorted(items)` puts the items in key order and loses or adds none. */
  lemma {:induction false} SortByKeyCorrect(s: seq<Item>)
    ensures SortedByKey(SortByKey(s))
    ensures multiset(SortByKey(s)) == multiset(s)
    ensures |SortByKey(s)| == |s|
  {
    if s != [] {
      SortByKeyCorrect(s[1..]);
      InsertSorted(s[0], SortByKey(s[1..]));
      assert s == [s[0]] + s[1..];
    }
    assert |multiset(SortByKey(s))| == |multiset(s)|;
  }
}
