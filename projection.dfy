/** The read-only views of a canonical request record: `to_json` for
    storage, `full_url` for display, and `get_api_context` /
    `get_api_meta` for the API, the latter with its in-place `pop('')`. */
module Projection {
  import opened Values
  import opened Text
  import opened Order
  import opened External
  import opened Request

  // ---------------------------------------------------------------------
  // to_json

  /** prune_empty_keys: the items whose value is None are dropped. */
  function PruneNulls(es: seq<(string, Value)>): (r: seq<(string, Value)>)
    ensures forall e :: e in r <==> e in es && e.1 != Null
  {
    if es == [] then [] else (if es[0].1 == Null then [] else [es[0]]) + PruneNulls(es[1..])
  }

  predicate DistinctKeys(es: seq<(string, Value)>)
  {
    forall i, j :: 0 <= i < j < |es| ==> es[i].0 != es[j].0
  }

  /** Over distinct keys, pruning hides exactly the None values. */
  lemma {:induction false} PruneNullsLookup(es: seq<(string, Value)>, k: string)
    requires DistinctKeys(es)
    ensures Lookup(PruneNulls(es), k) == if Lookup(es, k) == Some(Null) then None else Lookup(es, k)
  {
    if es != [] {
      assert DistinctKeys(es[1..]) by {
        forall i, j | 0 <= i < j < |es[1..]| ensures es[1..][i].0 != es[1..][j].0 {
          assert es[1..][i] == es[i + 1] && es[1..][j] == es[j + 1];
        }
      }
      PruneNullsLookup(es[1..], k);
      var head := if es[0].1 == Null then [] else [es[0]];
      LookupAppend(head, PruneNulls(es[1..]), k);
      if es[0].0 == k {
        forall j | 0 <= j < |es[1..]| ensures es[1..][j].0 != k {
          assert es[1..][j] == es[j + 1];
        }
      }
    }
  }

  /** The nine items of `to_json` before pruning, `or None` applied. */
  function JsonEntries(h: Http): (r: seq<(string, Value)>)
    ensures |r| == 9 && DistinctKeys(r)
    ensures r[1] == ("url", Str(h.url))
  {
    [ ("method", OptText(h.requestMethod)),
      ("url", Str(h.url)),
      ("query_string", Or(h.queryString, Null)),
      ("fragment", Or(h.fragment, Null)),
      ("cookies", Or(h.cookies, Null)),
      ("headers", Or(h.headers, Null)),
      ("data", h.data),
      ("env", Or(h.env, Null)),
      ("inferred_content_type", h.inferredContentType) ]
  }

  /** to_json: a dict that never stores None. */
  function ToJson(h: Http): (r: Value)
    ensures r.Dict?
    ensures forall i :: 0 <= i < |r.entries| ==> r.entries[i].1 != Null
  {
    var es := PruneNulls(JsonEntries(h));
    assert forall i :: 0 <= i < |es| ==> es[i] in es;
    Dict(es)
  }

  /** Key `k` of a to_json result holds `v` when `v` is not None and is
      absent when it is. */
  predicate StoredUnlessNull(es: seq<(string, Value)>, k: string, v: Value)
  {
    Lookup(es, k) == if v == Null then None else Some(v)
  }

  /** Key `k` of a to_json result holds `v` when `v` is truthy and is absent
      otherwise: empty collections and empty text are not stored. */
  predicate StoredIfTruthy(es: seq<(string, Value)>, k: string, v: Value)
  {
    Lookup(es, k) == if Truthy(v) then Some(v) else None
  }

  /** Each of the nine keys of to_json holds its value unless that is None. */
  lemma {:induction false} ToJsonLookup(h: Http, i: nat)
    requires i < 9
    ensures var (k, v) := JsonEntries(h)[i];
      Lookup(ToJson(h).entries, k) == if v == Null then None else Some(v)
  {
    var js := JsonEntries(h);
    LookupFirst(js, js[i].0, i);
    PruneNullsLookup(js, js[i].0);
  }

  lemma ToJsonFields(h: Http)
    ensures var es := ToJson(h).entries;
      && StoredUnlessNull(es, "method", OptText(h.requestMethod))
      && Lookup(es, "url") == Some(Str(h.url))
      && StoredIfTruthy(es, "query_string", h.queryString)
      && StoredIfTruthy(es, "fragment", h.fragment)
      && StoredIfTruthy(es, "cookies", h.cookies)
      && StoredIfTruthy(es, "headers", h.headers)
      && StoredUnlessNull(es, "data", h.data)
      && StoredIfTruthy(es, "env", h.env)
      && StoredUnlessNull(es, "inferred_content_type", h.inferredContentType)
  {
    ToJsonLookup(h, 0);
    ToJsonLookup(h, 1);
    ToJsonLookup(h, 2);
    ToJsonLookup(h, 3);
    ToJsonLookup(h, 4);
    ToJsonLookup(h, 5);
    ToJsonLookup(h, 6);
    ToJsonLookup(h, 7);
    ToJsonLookup(h, 8);
  }

  /** A to_json dict read back as submitted request data. */
  function AsData(es: seq<(string, Value)>): (m: map<string, Value>)
    ensures forall k :: k in m <==> Lookup(es, k).Some?
    ensures forall k :: k in m ==> m[k] == Lookup(es, k).value
  {
    if es == [] then map[] else AsData(es[1..])[es[0].0 := es[0].1]
  }

  /** Feeding a stored record back through to_python decodes the body
      again exactly when no inferred content type was stored and the body
      is not a dict; otherwise the stored body and inferred type come back
      unchanged. */
  lemma ReingestDecodesOnce(h: Http, contentType: Option<string>, c: Collaborators)
    ensures var data := AsData(ToJson(h).entries);
      && (DecodeNeeded(data) <==> h.inferredContentType == Null && !h.data.Dict?)
      && (!DecodeNeeded(data) ==> ResolveBody(data, contentType, c).0 == h.data)
      && (h.inferredContentType != Null ==> ResolveBody(data, contentType, c) == (h.data, h.inferredContentType))
  {
    ToJsonFields(h);
  }

  // ---------------------------------------------------------------------
  // full_url

  /** full_url: the stored url, then `?` and the encoded query when there
      is a query, then `#` and the fragment when there is one; a url that
      is empty stays empty. A fragment that is not text cannot be
      concatenated. */
  function FullUrl(h: Http, c: Collaborators): (r: Result<string>)
    ensures h.url == "" ==> r == Ok("")
    ensures r.Ok? ==> h.url <= r.value
    ensures h.url != "" && !Truthy(h.queryString) && !Truthy(h.fragment) ==> r == Ok(h.url)
    ensures h.url != "" && Truthy(h.fragment) && !h.fragment.Str? ==> r == Err(Malformed)
    ensures r.Err? <==> h.url != "" && Truthy(h.fragment) && !h.fragment.Str?
  {
    if h.url == "" then Ok(h.url)
    else
      var withQuery := if Truthy(h.queryString) then h.url + "?" + c.urlencode(h.queryString) else h.url;
      if !Truthy(h.fragment) then Ok(withQuery)
      else if h.fragment.Str? then Ok(withQuery + "#" + h.fragment.s)
      else Err(Malformed)
  }

  /** Cutting full_url at its first '#' and then at its first '?' gives the
      short url back, and each cut is present exactly when that part was
      added; the rest after '#' is the fragment. */
  lemma FullUrlSplitsBack(h: Http, c: Collaborators)
    requires h.url != "" && '?' !in h.url && '#' !in h.url
    requires '#' !in c.urlencode(h.queryString)
    requires !Truthy(h.fragment) || h.fragment.Str?
    ensures var full := FullUrl(h, c).value;
      var beforeHash := BeforeFirst(full, '#');
      && BeforeFirst(beforeHash, '?') == h.url
      && (|beforeHash| < |full| <==> Truthy(h.fragment))
      && (Truthy(h.fragment) ==> full[|beforeHash| + 1..] == h.fragment.s)
      && (|BeforeFirst(beforeHash, '?')| < |beforeHash| <==> Truthy(h.queryString))
      && (Truthy(h.queryString) ==> beforeHash[|h.url| + 1..] == c.urlencode(h.queryString))
  {
    var enc := c.urlencode(h.queryString);
    var withQuery := if Truthy(h.queryString) then h.url + "?" + enc else h.url;
    assert '#' !in withQuery;
    if Truthy(h.fragment) {
      BeforeFirstJoin(withQuery, '#', h.fragment.s);
      assert FullUrl(h, c).value == withQuery + ['#'] + h.fragment.s;
    } else {
      BeforeFirstAbsent(withQuery, '#');
    }
    if Truthy(h.queryString) {
      BeforeFirstJoin(h.url, '?', enc);
      assert withQuery == h.url + ['?'] + enc;
    } else {
      BeforeFirstAbsent(h.url, '?');
    }
  }

  // ---------------------------------------------------------------------
  // get_api_context

  /** `self.cookies or ()` (the same for headers), with a dict replaced by
      `sorted(d.items())`. */
  function PairList(v: Value): (r: Value)
    ensures !Truthy(v) ==> r == Tuple([])
    ensures Truthy(v) && !v.Dict? ==> r == v
  {
    if !Truthy(v) then Tuple([])
    else if v.Dict? then List(DictItems(SortByKey(v.entries)))
    else v
  }

  /** A dict of pairs comes out as all its items, each once, in key order. */
  lemma PairListOfDict(es: seq<(string, Value)>)
    requires es != []
    ensures var s := SortByKey(es);
      && PairList(Dict(es)) == List(DictItems(s))
      && SortedByKey(s) && multiset(s) == multiset(es)
      && |PairList(Dict(es)).items| == |es|
  {
    SortByKeyCorrect(es);
  }

  function ApiContext(h: Http, isPublic: bool): (r: Value)
    ensures isPublic ==> r == Dict([])
    ensures !isPublic ==> r.Dict? && |r.entries| == 9 && DistinctKeys(r.entries)
  {
    if isPublic then Dict([])
    else
      Dict([ ("method", OptText(h.requestMethod)),
             ("url", Str(h.url)),
             ("query", h.queryString),
             ("fragment", h.fragment),
             ("data", h.data),
             ("headers", PairList(h.headers)),
             ("cookies", PairList(h.cookies)),
             ("env", Or(h.env, Null)),
             ("inferredContentType", h.inferredContentType) ])
  }

  /** The API context shows the query and fragment as stored, the env only
      when non-empty, and headers and cookies as pair lists. */
  lemma ApiContextFields(h: Http)
    ensures var es := ApiContext(h, false).entries;
      && Lookup(es, "method") == Some(OptText(h.requestMethod))
      && Lookup(es, "url") == Some(Str(h.url))
      && Lookup(es, "query") == Some(h.queryString)
      && Lookup(es, "fragment") == Some(h.fragment)
      && Lookup(es, "data") == Some(h.data)
      && Lookup(es, "headers") == Some(PairList(h.headers))
      && Lookup(es, "cookies") == Some(PairList(h.cookies))
      && Lookup(es, "env") == Some(if Truthy(h.env) then h.env else Null)
      && Lookup(es, "inferredContentType") == Some(h.inferredContentType)
  {
    var es := ApiContext(h, false).entries;
    LookupDistinct(es, 1);
    LookupDistinct(es, 2);
    LookupDistinct(es, 3);
    LookupDistinct(es, 4);
    LookupDistinct(es, 5);
    LookupDistinct(es, 6);
    LookupDistinct(es, 7);
    LookupDistinct(es, 8);
  }

  /** Over distinct keys, each key finds its own item. */
  lemma LookupDistinct(es: seq<(string, Value)>, i: nat)
    requires DistinctKeys(es) && i < |es|
    ensures Lookup(es, es[i].0) == Some(es[i].1)
  {
    LookupFirst(es, es[i].0, i);
  }

  // ---------------------------------------------------------------------
  // get_api_meta

  /** `{str(i): {'1': h[1]} for i, h in enumerate(items)}` */
  function Enumerated(items: seq<(string, Value)>): seq<(string, Value)>
  {
    seq(|items|, i requires 0 <= i < |items| => (Dec(i), Dict([("1", items[i].1)])))
  }

  /** The meta of one field after `pop('')`: its entries renumbered in key
      order, then the whole-field entry when it was set. */
  function Reindexed(entries: seq<(string, Value)>): (r: seq<(string, Value)>)
    ensures var whole := Lookup(entries, "");
      && |r| == |RemoveKey(entries, "")| + (if whole.Some? && Truthy(whole.value) then 1 else 0)
      && Lookup(r, "") == if whole.Some? && Truthy(whole.value) then whole else None
  {
    var whole := Lookup(entries, "");
    var s := SortByKey(RemoveKey(entries, ""));
    var tail := if whole.Some? && Truthy(whole.value) then [("", whole.value)] else [];
    SortByKeyCorrect(RemoveKey(entries, ""));
    LookupAppend(Enumerated(s), tail, "");
    Enumerated(s) + tail
  }

  predicate IsIndexKey(k: string, n: nat)
  {
    exists i | 0 <= i < n :: Dec(i) == k
  }

  /** Renumbered entry i is found under `str(i)`, whatever follows. */
  lemma EnumeratedLookup(s: seq<(string, Value)>, tail: seq<(string, Value)>, i: nat)
    requires i < |s|
    ensures Lookup(Enumerated(s) + tail, Dec(i)) == Some(Dict([("1", s[i].1)]))
  {
    var en := Enumerated(s);
    forall j | 0 <= j < i ensures en[j].0 != Dec(i) {
      if Dec(j) == Dec(i) {
        DecInjective(j, i);
      }
    }
    LookupFirst(en, Dec(i), i);
    LookupAppend(en, tail, Dec(i));
  }

  /** Renumbering introduces no key but `str(i)` for i below the count. */
  lemma EnumeratedKeys(s: seq<(string, Value)>, tail: seq<(string, Value)>, k: string)
    requires forall e :: e in tail ==> e.0 == ""
    requires Lookup(Enumerated(s) + tail, k).Some?
    ensures k == "" || IsIndexKey(k, |s|)
  {
    var en := Enumerated(s);
    LookupAppend(en, tail, k);
    if Lookup(en, k).Some? {
      var i :| 0 <= i < |en| && en[i] == (k, Lookup(en, k).value);
      assert Dec(i) == k;
    }
  }

  /** Entry i of the re-indexed meta, stored under `str(i)`, carries the
      value of the i-th smallest key; the whole-field entry survives
      exactly when it was truthy; no other key appears. */
  lemma ReindexedCorrect(entries: seq<(string, Value)>)
    ensures var s := SortByKey(RemoveKey(entries, ""));
      var r := Reindexed(entries);
      && SortedByKey(s) && multiset(s) == multiset(RemoveKey(entries, ""))
      && (forall i :: 0 <= i < |s| ==> Lookup(r, Dec(i)) == Some(Dict([("1", s[i].1)])))
      && (Lookup(r, "").Some? <==> Lookup(entries, "").Some? && Truthy(Lookup(entries, "").value))
      && (Lookup(r, "").Some? ==> Lookup(r, "") == Lookup(entries, ""))
      && (forall k :: Lookup(r, k).Some? ==> k == "" || IsIndexKey(k, |s|))
  {
    var rest := RemoveKey(entries, "");
    var s := SortByKey(rest);
    SortByKeyCorrect(rest);
    var en := Enumerated(s);
    var whole := Lookup(entries, "");
    var tail: seq<(string, Value)> := if whole.Some? && Truthy(whole.value) then [("", whole.value)] else [];
    assert Reindexed(entries) == en + tail;
    forall i | 0 <= i < |s| ensures Lookup(en + tail, Dec(i)) == Some(Dict([("1", s[i].1)])) {
      EnumeratedLookup(s, tail, i);
    }
    assert Lookup(en, "").None?;
    LookupAppend(en, tail, "");
    forall k | Lookup(en + tail, k).Some? ensures k == "" || IsIndexKey(k, |s|) {
      EnumeratedKeys(s, tail, k);
    }
  }

  /** A field's meta may be re-indexed when it is empty or a dict; `pop`
      fails on anything else. */
  predicate MetaFieldOk(v: Value)
  {
    !Truthy(v) || v.Dict?
  }

  /** The projected meta of one field. */
  function MetaField(v: Value): (r: Value)
    ensures !(Truthy(v) && v.Dict?) ==> r == v
    ensures Truthy(v) && v.Dict? ==>
      && r.Dict?
      && |r.entries| == |RemoveKey(v.entries, "")| + (if Lookup(v.entries, "").Some? && Truthy(Lookup(v.entries, "").value) then 1 else 0)
      && (Lookup(r.entries, "").Some? <==> Lookup(v.entries, "").Some? && Truthy(Lookup(v.entries, "").value))
  {
    if Truthy(v) && v.Dict? then Dict(Reindexed(v.entries)) else v
  }

  /** The meta after `meta[key].pop('', None)` where that runs. */
  function Popped(meta: map<string, Value>, key: string): (m: map<string, Value>)
    ensures m.Keys == meta.Keys
    ensures forall k :: k in meta && k != key ==> m[k] == meta[k]
    ensures Truthy(Get(meta, key)) && Get(meta, key).Dict? ==>
      m[key].Dict? && Lookup(m[key].entries, "").None?
      && forall k :: k != "" ==> Lookup(m[key].entries, k) == Lookup(Get(meta, key).entries, k)
    ensures !(Truthy(Get(meta, key)) && Get(meta, key).Dict?) ==> m == meta
  {
    var v := Get(meta, key);
    if Truthy(v) && v.Dict? then meta[key := Dict(RemoveKey(v.entries, ""))] else meta
  }

  /** get_api_meta: None when public; otherwise the meta in the record's
      shape with headers and cookies re-indexed. `metaAfter` is the
      caller's meta afterwards, with `''` popped from the headers and
      cookies meta that were re-indexed. */
  method ApiMeta(meta: map<string, Value>, isPublic: bool) returns (r: Result<Option<Value>>, metaAfter: map<string, Value>)
    ensures isPublic ==> r == Ok(None) && metaAfter == meta
    ensures !isPublic ==> (r.Ok? <==> MetaFieldOk(Get(meta, "headers")) && MetaFieldOk(Get(meta, "cookies")))
    ensures !isPublic && r.Ok? ==> r.value.Some? && r.value.value == Dict([
      ("", Get(meta, "")),
      ("method", Get(meta, "method")),
      ("url", Get(meta, "url")),
      ("query", Get(meta, "query_string")),
      ("data", Get(meta, "data")),
      ("headers", MetaField(Get(meta, "headers"))),
      ("cookies", MetaField(Get(meta, "cookies"))),
      ("env", Get(meta, "env"))])
    ensures !isPublic && r.Ok? ==> metaAfter == Popped(Popped(meta, "headers"), "cookies")
    ensures !isPublic && r.Err? && MetaFieldOk(Get(meta, "headers")) ==> metaAfter == Popped(meta, "headers")
    ensures !isPublic && !MetaFieldOk(Get(meta, "headers")) ==> metaAfter == meta
  {
    metaAfter := meta;
    if isPublic {
      return Ok(None), metaAfter;
    }

    var headers := Get(metaAfter, "headers");
    if Truthy(headers) {
      if !headers.Dict? {
        return Err(Malformed), metaAfter;
      }
      metaAfter := metaAfter["headers" := Dict(RemoveKey(headers.entries, ""))];
      headers := Dict(Reindexed(headers.entries));
    }

    var cookies := Get(metaAfter, "cookies");
    if Truthy(cookies) {
      if !cookies.Dict? {
        return Err(Malformed), metaAfter;
      }
      metaAfter := metaAfter["cookies" := Dict(RemoveKey(cookies.entries, ""))];
      cookies := Dict(Reindexed(cookies.entries));
    }

    r := Ok(Some(Dict([
      ("", Get(meta, "")),
      ("method", Get(meta, "method")),
      ("url", Get(meta, "url")),
      ("query", Get(meta, "query_string")),
      ("data", Get(meta, "data")),
      ("headers", headers),
      ("cookies", cookies),
      ("env", Get(meta, "env"))])));
  }
}
