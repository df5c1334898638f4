/** `Http.to_python`: turns the submitted request data into the canonical
    request record, step by step, in the order the source takes them. */
module Request {
  import opened Values
  import opened Text
  import opened External
  import opened Normalize

  /** The canonical request record (the `kwargs` handed to `Http`). */
  datatype Http = Http(
    requestMethod: Option<string>,
    url: string,
    queryString: Value,
    fragment: Value,
    cookies: Value,
    headers: Value,
    data: Value,
    env: Value,
    inferredContentType: Value)

  // ---------------------------------------------------------------------
  // method

  /** The method: absent or empty gives None; otherwise the upper-cased
      text, accepted when it is GET or POST or a 3 to 32 character token of
      upper-case letters, '-' and '_'. The fast path accepts nothing the
      pattern would not. */
  function ValidateMethod(raw: Value): (r: Result<Option<string>>)
    ensures !Truthy(raw) ==> r == Ok(None)
    ensures Truthy(raw) && !raw.Str? ==> r == Err(Malformed)
    ensures Truthy(raw) && raw.Str? ==> (r.Ok? <==> MethodPattern(Upper(raw.s)))
    ensures Truthy(raw) && raw.Str? && r.Err? ==> r.error == InvalidMethod
    ensures r.Ok? && r.value.Some? ==>
      raw.Str? && r.value.value == Upper(raw.s) && MethodPattern(r.value.value) && '\n' !in r.value.value
  {
    if !Truthy(raw) then Ok(None)
    else if !raw.Str? then Err(Malformed)
    else
      var m := Upper(raw.s);
      assert MethodPattern("GET") && MethodPattern("POST");
      if m != "GET" && m != "POST" && !MethodPattern(m) then Err(InvalidMethod)
      else Ok(Some(m))
  }

  /** GET, POST and PROPFIND are accepted; "g" is too short and "get 1"
      holds a character outside the token alphabet. */
  lemma MethodExamples()
    ensures ValidateMethod(Str("get")) == Ok(Some("GET"))
    ensures ValidateMethod(Str("POST")) == Ok(Some("POST"))
    ensures ValidateMethod(Str("propfind")) == Ok(Some("PROPFIND"))
    ensures ValidateMethod(Str("g")) == Err(InvalidMethod)
    ensures ValidateMethod(Str("get 1")) == Err(InvalidMethod)
  {
    assert Upper("POST") == "POST";
    assert Upper("get") == "GET";
    assert Upper("propfind") == "PROPFIND";
    assert Upper("get 1")[3] == ' ';
  }

  // ---------------------------------------------------------------------
  // url

  /** The split URL, after the trailing-ellipsis repair; None when no URL
      was submitted. */
  function SplitUrl(raw: Value, c: Collaborators): (r: Option<UrlParts>)
    ensures r.None? <==> !Truthy(raw)
    ensures raw.Str? && raw.s != "" && !EndsWithEllipsis(raw.s) ==> r == Some(c.urlSplit(raw.s))
    ensures raw.Str? && EndsWithEllipsis(raw.s) ==> r == Some(c.urlSplit(raw.s[..|raw.s| - 1] + "..."))
  {
    if Truthy(raw) then Some(c.urlSplit(FixEllipsis(AsText(raw, c)))) else None
  }

  /** What `url` is rejoined from: the scheme, host and path of the split
      URL, with an empty query and an empty fragment. */
  function WithoutQuery(parts: Option<UrlParts>): (a: UnsplitArgs)
    ensures a.query == "" && a.fragment == ""
    ensures parts.Some? ==> a.scheme == Some(parts.value.scheme) && a.netloc == Some(parts.value.netloc)
                            && a.path == Some(parts.value.path)
    ensures parts.None? ==> a.scheme.None? && a.netloc.None? && a.path.None?
  {
    match parts
    case Some(p) => UnsplitArgs(Some(p.scheme), Some(p.netloc), Some(p.path), "", "")
    case None => UnsplitArgs(None, None, None, "", "")
  }

  // ---------------------------------------------------------------------
  // query_string

  /** `data.get('query_string') or query_bit`: the submitted field wins over
      the URL's query. */
  function QuerySource(explicit: Value, parts: Option<UrlParts>): (r: Value)
    ensures Truthy(explicit) ==> r == explicit
    ensures !Truthy(explicit) && parts.Some? ==> r == Str(parts.value.query)
    ensures !Truthy(explicit) && parts.None? ==> !Truthy(r)
  {
    Or(explicit, if parts.Some? then Str(parts.value.query) else Null)
  }

  /** `data.get('fragment') or fragment_bit`: the submitted field wins over
      the URL's fragment. */
  function FragmentSource(explicit: Value, parts: Option<UrlParts>): (r: Value)
    ensures Truthy(explicit) ==> r == explicit
    ensures !Truthy(explicit) && parts.Some? ==> r == Str(parts.value.fragment)
    ensures !Truthy(explicit) && parts.None? ==> r == Null
  {
    Or(explicit, if parts.Some? then Str(parts.value.fragment) else Null)
  }

  predicate IsPairShaped(v: Value)
  {
    (v.List? || v.Tuple?) && |v.items| == 2
  }

  /** `[tuple(t) for t in items if isinstance(t, (tuple, list)) and len(t) == 2]` */
  function KeepPairs(items: seq<Value>): (r: seq<(Value, Value)>)
    ensures |r| <= |items|
  {
    if items == [] then []
    else
      var last := items[|items| - 1];
      KeepPairs(items[..|items| - 1]) + (if IsPairShaped(last) then [(last.items[0], last.items[1])] else [])
  }

  /** The pairs kept from two runs of items are those of each run, in order. */
  lemma {:induction false} KeepPairsAppend(a: seq<Value>, b: seq<Value>)
    ensures KeepPairs(a + b) == KeepPairs(a) + KeepPairs(b)
  {
    if b == [] {
      assert a + b == a;
    } else {
      var b' := b[..|b| - 1];
      assert (a + b)[..|a + b| - 1] == a + b';
      assert (a + b)[|a + b| - 1] == b[|b| - 1];
      KeepPairsAppend(a, b');
    }
  }

  /** Every kept pair is the two elements of a 2-element list or tuple of
      the input, and every such element is kept. */
  lemma {:induction false} KeepPairsExact(items: seq<Value>)
    ensures forall p :: p in KeepPairs(items) <==>
      exists v :: v in items && IsPairShaped(v) && p == (v.items[0], v.items[1])
  {
    if items != [] {
      var init := items[..|items| - 1];
      KeepPairsExact(init);
      assert items == init + [items[|items| - 1]];
    }
  }

  /** The text handed to parse_qsl: one leading '?' dropped, then the
      trailing-ellipsis repair. */
  function QueryText(s: string): (r: string)
    requires s != ""
    ensures !EndsWithEllipsis(r)
    ensures s[0] != '?' && !EndsWithEllipsis(s) ==> r == s
    ensures s[0] == '?' && !EndsWithEllipsis(s) ==> r == s[1..]
    ensures var t := if s[0] == '?' then s[1..] else s;
      EndsWithEllipsis(t) ==> |r| == |t| + 2 && r[..|t| - 1] == t[..|t| - 1] && r[|t| - 1..] == "..."
  {
    FixEllipsis(if s[0] == '?' then s[1..] else s)
  }

  /** Parsed text pairs as dict items. */
  function TextItems(ps: seq<(string, string)>): (r: seq<(string, Value)>)
    ensures |r| == |ps| && forall i :: 0 <= i < |ps| ==> r[i] == (ps[i].0, Str(ps[i].1))
  {
    if ps == [] then [] else [(ps[0].0, Str(ps[0].1))] + TextItems(ps[1..])
  }

  /** `[(to_unicode(k), jsonify(v)) for k, v in items]` */
  function JsonifiedPairs(es: seq<(string, Value)>, c: Collaborators): (r: seq<(Value, Value)>)
    ensures |r| == |es| && forall i :: 0 <= i < |es| ==> r[i] == (Str(es[i].0), Str(Jsonify(es[i].1, c)))
  {
    if es == [] then [] else [(Str(AsText(Str(es[0].0), c)), Str(Jsonify(es[0].1, c)))] + JsonifiedPairs(es[1..], c)
  }

  /** The query string as pairs, by the type of what was submitted. */
  function CoerceQuery(q: Value, c: Collaborators): (r: seq<(Value, Value)>)
    ensures !Truthy(q) ==> r == []
    ensures Truthy(q) && q.Str? ==>
      var ps := c.parseQsl(QueryText(q.s));
      |r| == |ps| && forall i :: 0 <= i < |ps| ==> r[i] == (Str(ps[i].0), Str(ps[i].1))
    ensures q.Dict? ==>
      |r| == |q.entries| &&
      forall i :: 0 <= i < |q.entries| ==> r[i] == (Str(q.entries[i].0), Str(Jsonify(q.entries[i].1, c)))
    ensures q.List? ==> r == KeepPairs(q.items)
    ensures !(q.Str? || q.Dict? || q.List?) ==> r == []
  {
    if !Truthy(q) then []
    else
      match q
      case Str(s) =>
        JsonifiedPairs(TextItems(c.parseQsl(QueryText(s))), c)
      case Dict(es) => JsonifiedPairs(es, c)
      case List(xs) => KeepPairs(xs)
      case _ => []
  }

  /** A query mapping `{"a": 1}` gives the single pair ("a", "1") when
      json.dumps renders 1 as "1". */
  lemma QueryMappingExample(c: Collaborators)
    requires c.jsonDumps(Int(1)) == "1"
    ensures CoerceQuery(Dict([("a", Int(1))]), c) == [(Str("a"), Str("1"))]
  {
  }

  /** The stored `query_string`: the coerced pairs trimmed to 4096, or `[]`. */
  function QueryField(q: Value, c: Collaborators): (r: Value)
    ensures !Truthy(q) ==> r == List([])
    ensures Truthy(q) ==> r == c.trim(TupleList(CoerceQuery(q, c)), 4096)
  {
    if Truthy(q) then c.trim(TupleList(CoerceQuery(q, c)), 4096) else List([])
  }

  // ---------------------------------------------------------------------
  // headers and the cookie header

  /** `get_path(data, "headers", filter=True)`: a list loses its None items. */
  function GetPathFiltered(v: Value): (r: Value)
    ensures v.List? || v.Tuple? ==> r == List(DropNulls(v.items))
    ensures !(v.List? || v.Tuple?) ==> r == v
  {
    if v.List? || v.Tuple? then List(DropNulls(v.items)) else v
  }

  function DropNulls(xs: seq<Value>): (r: seq<Value>)
    ensures forall x :: x in r <==> x in xs && x != Null
  {
    if xs == [] then []
    else (if xs[0] == Null then [] else [xs[0]]) + DropNulls(xs[1..])
  }

  /** The filter keeps every item that is not None as often as it occurs. */
  lemma {:induction false} DropNullsCounts(xs: seq<Value>)
    ensures multiset(DropNulls(xs)) == multiset(xs)[Null := 0]
  {
    if xs != [] {
      DropNullsCounts(xs[1..]);
      assert xs == [xs[0]] + xs[1..];
    }
  }

  /** The filter keeps the order of what it keeps: filtering two runs of
      items gives the filtered runs, one after the other. */
  lemma {:induction false} DropNullsAppend(a: seq<Value>, b: seq<Value>)
    ensures DropNulls(a + b) == DropNulls(a) + DropNulls(b)
  {
    if a != [] {
      var head := if a[0] == Null then [] else [a[0]];
      assert (a + b)[0] == a[0] && (a + b)[1..] == a[1..] + b;
      DropNullsAppend(a[1..], b);
      var ra, rb := DropNulls(a[1..]), DropNulls(b);
      calc {
        DropNulls(a + b);
        head + DropNulls(a[1..] + b);
        head + (ra + rb);
        (head + ra) + rb;
        DropNulls(a) + DropNulls(b);
      }
    } else {
      assert a + b == b;
    }
  }

  /** None is dropped and any other single item is kept. */
  lemma DropNullsOne(x: Value)
    ensures DropNulls([x]) == if x == Null then [] else [x]
  {
    assert [x][1..] == [];
  }

  /** `headers, cookie_header = format_headers(...)` as written: the empty
      tuple that format_headers returns for a list of None items cannot be
      unpacked into two names. NoHeaders stands for `headers = ()`. */
  function HeadersStepAsWritten(raw: Value, c: Collaborators): (r: Result<FormattedHeaders>)
    ensures !Truthy(raw) ==> r == Ok(NoHeaders)
    ensures Truthy(raw) ==>
      var f := FormatHeadersSpec(GetPathFiltered(raw), c);
      && (r.Ok? <==> f.Ok? && f.value.Formatted?)
      && (f == Ok(NoHeaders) ==> r == Err(Malformed))
      && (r.Ok? ==> r == f)
  {
    if !Truthy(raw) then Ok(NoHeaders)
    else
      match FormatHeadersSpec(GetPathFiltered(raw), c)
      case Err(e) => Err(e)
      case Ok(NoHeaders) => Err(Malformed)
      case Ok(f) => Ok(f)
  }

  /** The header step with the empty result of format_headers read as no
      headers: it fails only where format_headers itself raises, and never
      keeps a Cookie header. */
  function HeadersStep(raw: Value, c: Collaborators): (r: Result<FormattedHeaders>)
    ensures !Truthy(raw) ==> r == Ok(NoHeaders)
    ensures r.Err? <==> Truthy(raw) && FormatHeadersSpec(GetPathFiltered(raw), c).Err?
    ensures r.Ok? && r.value.Formatted? ==> forall i :: 0 <= i < |r.value.headers| ==> !IsCookieName(r.value.headers[i].0)
    ensures HeadersStepAsWritten(raw, c).Ok? ==> r == HeadersStepAsWritten(raw, c)
  {
    if !Truthy(raw) then Ok(NoHeaders)
    else
      FormatHeadersSpecCorrect(GetPathFiltered(raw), c);
      FormatHeadersSpec(GetPathFiltered(raw), c)
  }

  /** Truthy headers go through format_headers after the null filter. */
  lemma HeadersStepTruthy(raw: Value, c: Collaborators)
    requires Truthy(raw)
    ensures HeadersStep(raw, c) == FormatHeadersSpec(GetPathFiltered(raw), c)
  {
  }

  /** Headers submitted as `[null]` make the source raise, where the
      corrected step reads them as no headers. */
  lemma NullHeadersRejected(c: Collaborators)
    ensures Truthy(List([Null]))
    ensures HeadersStepAsWritten(List([Null]), c) == Err(Malformed)
    ensures HeadersStep(List([Null]), c) == Ok(NoHeaders)
  {
    assert DropNulls([Null]) == [];
    assert GetPathFiltered(List([Null])) == List([]);
  }

  /** The header pairs kept by the step; none for NoHeaders. */
  function HeaderPairs(f: FormattedHeaders): seq<(string, string)>
  {
    if f.Formatted? then f.headers else []
  }

  /** The Cookie header found by the step; None for NoHeaders. */
  function CookieHeader(f: FormattedHeaders): Value
  {
    if f.Formatted? then f.cookieHeader else Null
  }

  /** The headers handed to trim_pairs: `()` or the list of pairs. */
  function StoredHeaders(f: FormattedHeaders): (r: Value)
    ensures f.NoHeaders? ==> r == Tuple([])
    ensures f.Formatted? ==>
      && r.List? && |r.items| == |f.headers|
      && forall i :: 0 <= i < |f.headers| ==> r.items[i] == Tuple([Str(f.headers[i].0), Str(f.headers[i].1)])
  {
    if f.Formatted? then TextTupleList(f.headers) else Tuple([])
  }

  /** What format_cookies returns for cookies `src` that it formats into
      `pairs`: `()` for a falsy value, else the list of [key, value] lists. */
  function StoredCookies(src: Value, pairs: seq<(string, Value)>): (r: Value)
    ensures !Truthy(src) ==> r == Tuple([])
    ensures Truthy(src) ==>
      && r.List? && |r.items| == |pairs|
      && forall i :: 0 <= i < |pairs| ==> r.items[i] == List([Str(pairs[i].0), pairs[i].1])
  {
    if Truthy(src) then ListOfLists(pairs) else Tuple([])
  }

  /** `if not cookies and cookie_header: cookies = cookie_header`: submitted
      cookies win over a Cookie header. */
  function CookieSource(explicit: Value, cookieHeader: Value): (r: Value)
    ensures Truthy(explicit) ==> r == explicit
    ensures !Truthy(explicit) && Truthy(cookieHeader) ==> r == cookieHeader
    ensures !Truthy(explicit) && !Truthy(cookieHeader) ==> r == explicit
  {
    if !Truthy(explicit) && Truthy(cookieHeader) then cookieHeader else explicit
  }

  /** A Cookie header followed by another header: format_headers keeps
      only the other one, title-cased and as text, and hands the Cookie
      value on, which becomes the cookies when none were submitted. */
  lemma CookieHeaderDiverted(ck: string, v: Value, k: string, w: Value, c: Collaborators)
    requires IsCookieName(ck) && !IsCookieName(k) && !v.List? && !w.List?
    ensures var xs := [List([Str(ck), v]), List([Str(k), w])];
      && FormatHeadersSpec(List(xs), c) == Ok(Formatted([(Title(k), AsText(w, c))], v))
      && (Truthy(v) ==> CookieSource(Null, v) == v)
  {
    var xs := [List([Str(ck), v]), List([Str(k), w])];
    TwoHeadersParsed(ck, v, k, w);
    FormatHeadersOfList(xs, [(ck, v), (k, w)], c);
    TwoHeadersKept((ck, v), (k, w), c);
  }

  /** Two header pairs with text names and values that are not lists parse
      into themselves. */
  lemma TwoHeadersParsed(ck: string, v: Value, k: string, w: Value)
    requires !v.List? && !w.List?
    ensures ParseHeaders([List([Str(ck), v]), List([Str(k), w])]) == Some([(ck, v), (k, w)])
  {
    var x1 := List([Str(ck), v]);
    var x2 := List([Str(k), w]);
    ParseHeaderPlain(ck, v);
    ParseHeaderPlain(k, w);
    assert ParseHeaders([x1]) == Some([(ck, v)]) by {
      var xs := [x1];
      assert xs[..|xs| - 1] == [];
      assert ParseHeaders(xs[..|xs| - 1]) == Some([]);
      assert [] + [(ck, v)] == [(ck, v)];
    }
    var xs := [x1, x2];
    assert xs[..|xs| - 1] == [x1];
    assert [(ck, v)] + [(k, w)] == [(ck, v), (k, w)];
  }

  /** Of a Cookie header followed by another header only the other is kept,
      and the Cookie value is remembered. */
  lemma TwoHeadersKept(e1: (string, Value), e2: (string, Value), c: Collaborators)
    requires IsCookieName(e1.0) && !IsCookieName(e2.0)
    ensures KeptHeaders([e1, e2], c) == [(Title(e2.0), AsText(e2.1, c))]
    ensures LastCookie([e1, e2]) == e1.1
  {
    KeptHeadersAppend([e1], [e2], c);
    KeptHeadersOne(e1, c);
    KeptHeadersOne(e2, c);
    assert [e1, e2] == [e1] + [e2];
    assert [e1, e2][..1] == [e1];
  }

  /** With the headers `[["Cookie", "a=1"], ["Content-Type", "text/html"]]`
      only Content-Type is kept and "a=1" is the Cookie header. */
  lemma CookieHeaderExample(c: Collaborators)
    ensures var xs := [List([Str("Cookie"), Str("a=1")]), List([Str("Content-Type"), Str("text/html")])];
      FormatHeadersSpec(List(xs), c) == Ok(Formatted([("Content-Type", "text/html")], Str("a=1")))
  {
    assert IsCookieName("Cookie") && !IsCookieName("Content-Type") by {
      ContentTypeFacts();
      assert Lower("Cookie") == "cookie";
    }
    assert Title("Content-Type") == "Content-Type" by {
      ContentTypeFacts();
      TitledFixed("Content-Type", false);
    }
    CookieHeaderDiverted("Cookie", Str("a=1"), "Content-Type", Str("text/html"), c);
  }

  // ---------------------------------------------------------------------
  // content type and body

  /** The position of the first header called `name`, or the number of
      headers when there is none. */
  function FirstNamed(headers: seq<(string, string)>, name: string): (i: nat)
    ensures i <= |headers|
    ensures forall j :: 0 <= j < i ==> headers[j].0 != name
    ensures i < |headers| ==> headers[i].0 == name
  {
    if headers == [] || headers[0].0 == name then 0 else 1 + FirstNamed(headers[1..], name)
  }

  /** The value of the first header named exactly "Content-Type", cut at
      the first ';' and right-stripped; None when there is no such header. */
  function ContentType(headers: seq<(string, string)>): (r: Option<string>)
    ensures r.None? <==> forall i :: 0 <= i < |headers| ==> headers[i].0 != "Content-Type"
    ensures r.Some? ==>
      var i := FirstNamed(headers, "Content-Type");
      i < |headers| && r.value == RStrip(BeforeFirst(headers[i].1, ';'))
    ensures r.Some? ==> ';' !in r.value && (r.value == [] || !IsSpace(r.value[|r.value| - 1]))
  {
    var i := FirstNamed(headers, "Content-Type");
    if i == |headers| then None
    else
      RStripCorrect(BeforeFirst(headers[i].1, ';'));
      Some(RStrip(BeforeFirst(headers[i].1, ';')))
  }

  /** "content-type" title-cases to "Content-Type". */
  lemma TitleOfContentType()
    ensures Title("content-type") == "Content-Type"
  {
    ContentTypeFacts();
    TitledFixed("Content-Type", false);
    TitleCaseInsensitive("Content-Type", "content-type");
  }

  /** "Content-Type" is already title-cased, and it and "content-type"
      lower-case alike. */
  lemma ContentTypeFacts()
    ensures IsTitled("Content-Type", false)
    ensures Lower("Content-Type") == "content-type"
    ensures Lower("content-type") == "content-type"
  {
  }

  /** A formatted header is named "Content-Type" exactly when its submitted
      name is "content-type" in any letter case. */
  lemma ContentTypeNameMatch(k: string)
    ensures Title(k) == "Content-Type" <==> Lower(k) == "content-type"
  {
    TitleCaseInsensitive(k, "content-type");
    TitleOfContentType();
    ContentTypeFacts();
  }

  const InferredKey: string := "inferred_content_type"

  /** heuristic_decode runs only for a first pass over the data: when no
      inferred content type was stored and the body is not already a dict. */
  predicate DecodeNeeded(data: map<string, Value>)
  {
    InferredKey !in data && !Get(data, "data").Dict?
  }

  function OptText(s: Option<string>): Value
  {
    if s.Some? then Str(s.value) else Null
  }

  /** The body and the inferred content type before trimming. */
  function ResolveBody(data: map<string, Value>, contentType: Option<string>, c: Collaborators): (r: (Value, Value))
    ensures DecodeNeeded(data) ==> r == c.heuristicDecode(Get(data, "data"), contentType)
    ensures !DecodeNeeded(data) ==> r.0 == Get(data, "data")
    ensures InferredKey in data ==> r.1 == data[InferredKey]
    ensures InferredKey !in data && !DecodeNeeded(data) ==> r.1 == OptText(contentType)
  {
    var body := Get(data, "data");
    var inferred := if InferredKey in data then data[InferredKey] else OptText(contentType);
    if InferredKey !in data && !body.Dict? then c.heuristicDecode(body, contentType) else (body, inferred)
  }

  /** Where no decoding is due, what heuristic_decode would do makes no
      difference to the body or the inferred type. */
  lemma DecodeOnce(data: map<string, Value>, contentType: Option<string>, c1: Collaborators, c2: Collaborators)
    requires !DecodeNeeded(data)
    ensures ResolveBody(data, contentType, c1) == ResolveBody(data, contentType, c2)
  {
  }

  /** The stored body: trimmed to the configured size when truthy, then
      its encoding repaired. */
  function BodyField(body: Value, c: Collaborators): (r: Value)
    ensures !r.Bytes?
    ensures !Truthy(body) && !body.Bytes? ==> r == body
    ensures Truthy(body) ==> r == FixBrokenEncoding(c.trim(body, c.maxBodySize), c)
  {
    FixBrokenEncoding(if Truthy(body) then c.trim(body, c.maxBodySize) else body, c)
  }

  // ---------------------------------------------------------------------
  // env

  /** `data.get('env', {})` */
  function EnvOf(data: map<string, Value>): (r: Value)
    ensures "env" in data ==> r == data["env"]
    ensures "env" !in data ==> r == Dict([]) && Contains(r, "REMOTE_ADDR") == Ok(false)
  {
    if "env" in data then data["env"] else Dict([])
  }

  /** The REMOTE_ADDR check: the key is deleted exactly when validate_ip
      raises ValueError, and every other key keeps its value. */
  function ScrubEnv(env: Value, c: Collaborators): (r: Result<Value>)
    ensures Contains(env, "REMOTE_ADDR").Err? ==> r == Err(Malformed)
    ensures Contains(env, "REMOTE_ADDR") == Ok(false) ==> r == Ok(env)
    ensures env.Dict? ==> r.Ok? && r.value.Dict?
    ensures env.Dict? ==>
      var addr := Lookup(env.entries, "REMOTE_ADDR");
      (Lookup(r.value.entries, "REMOTE_ADDR").Some? <==> addr.Some? && c.ipValid(addr.value))
      && (addr.Some? && c.ipValid(addr.value) ==> r.value == env)
    ensures env.Dict? ==>
      forall k :: k != "REMOTE_ADDR" ==> Lookup(r.value.entries, k) == Lookup(env.entries, k)
    ensures (env.Str? || env.List? || env.Tuple?) && Contains(env, "REMOTE_ADDR") == Ok(true) ==> r == Err(Malformed)
    ensures r.Err? ==> r.error == Malformed
  {
    match Contains(env, "REMOTE_ADDR")
    case Err(e) => Err(e)
    case Ok(false) => Ok(env)
    case Ok(true) =>
      if !env.Dict? then Err(Malformed)
      else if c.ipValid(Lookup(env.entries, "REMOTE_ADDR").value) then Ok(env)
      else Ok(Dict(RemoveKey(env.entries, "REMOTE_ADDR")))
  }

  /** "192.168.0.1" stays when validate_ip accepts it; "not-an-ip" goes. */
  lemma RemoteAddrExample(c: Collaborators)
    requires c.ipValid(Str("192.168.0.1")) && !c.ipValid(Str("not-an-ip"))
    ensures ScrubEnv(Dict([("REMOTE_ADDR", Str("192.168.0.1"))]), c) == Ok(Dict([("REMOTE_ADDR", Str("192.168.0.1"))]))
    ensures ScrubEnv(Dict([("REMOTE_ADDR", Str("not-an-ip"))]), c) == Ok(Dict([]))
  {
  }

  // ---------------------------------------------------------------------
  // to_python

  /** to_python: validates, normalises and bounds each field in the source's
      order. `dataAfter` is the submitted data as the caller sees it
      afterwards: `del env['REMOTE_ADDR']` changes the caller's env dict. */
  method ToPython(data: map<string, Value>, c: Collaborators) returns (r: Result<Http>, dataAfter: map<string, Value>)
    ensures !c.validate(data) ==> r == Err(InvalidData)
    ensures c.validate(data) && ValidateMethod(Get(data, "method")).Err? ==>
      r == Err(ValidateMethod(Get(data, "method")).error)
    ensures c.validate(data) && ValidateMethod(Get(data, "method")).Ok? && HeadersStep(Get(data, "headers"), c).Err? ==>
      r == Err(Malformed)
    ensures (&& c.validate(data)
             && ValidateMethod(Get(data, "method")).Ok?
             && HeadersStep(Get(data, "headers"), c).Ok?
             && ScrubEnv(EnvOf(data), c).Ok?
             && FormatCookies(CookieSource(Get(data, "cookies"), CookieHeader(HeadersStep(Get(data, "headers"), c).value)), c).Ok?)
            <==> r.Ok?
    ensures r.Ok? ==>
      var parts := SplitUrl(Get(data, "url"), c);
      && r.value.requestMethod == ValidateMethod(Get(data, "method")).value
      && r.value.url == c.urlUnsplit(WithoutQuery(parts))
      && r.value.queryString == QueryField(QuerySource(Get(data, "query_string"), parts), c)
      && r.value.fragment == c.trim(FragmentSource(Get(data, "fragment"), parts), 1024)
    ensures r.Ok? ==>
      var f := HeadersStep(Get(data, "headers"), c).value;
      var cookies := CookieSource(Get(data, "cookies"), CookieHeader(f));
      var (body, inferred) := ResolveBody(data, ContentType(HeaderPairs(f)), c);
      && r.value.headers == c.trimPairs(StoredHeaders(f))
      && r.value.cookies == c.trimPairs(StoredCookies(cookies, FormatCookies(cookies, c).value))
      && r.value.data == BodyField(body, c)
      && r.value.inferredContentType == inferred
      && r.value.env == c.trimDict(ScrubEnv(EnvOf(data), c).value)
    ensures r.Ok? && "env" in data ==> dataAfter == data["env" := ScrubEnv(data["env"], c).value]
    ensures (&& c.validate(data)
             && ValidateMethod(Get(data, "method")).Ok?
             && HeadersStep(Get(data, "headers"), c).Ok?
             && "env" in data && ScrubEnv(data["env"], c).Ok?)
            ==> dataAfter == data["env" := ScrubEnv(data["env"], c).value]
    ensures r.Err? && c.validate(data) && ValidateMethod(Get(data, "method")).Ok? ==> r.error == Malformed
    ensures dataAfter == data || ("env" in data && ScrubEnv(data["env"], c).Ok? && dataAfter == data["env" := ScrubEnv(data["env"], c).value])
  {
    dataAfter := data;
    if !c.validate(data) {
      return Err(InvalidData), dataAfter;
    }

    var meth := ValidateMethod(Get(data, "method"));
    if meth.Err? {
      return Err(meth.error), dataAfter;
    }

    var parts := SplitUrl(Get(data, "url"), c);

    var queryString := QuerySource(Get(data, "query_string"), parts);
    var storedQuery := QueryField(queryString, c);

    var fragment := FragmentSource(Get(data, "fragment"), parts);

    var cookies := Get(data, "cookies");
    var headers: FormattedHeaders := NoHeaders;
    if Truthy(Get(data, "headers")) {
      var formatted := FormatHeaders(GetPathFiltered(Get(data, "headers")), c);
      if formatted.Err? {
        return Err(formatted.error), dataAfter;
      }
      headers := formatted.value;
      if headers.Formatted? && !Truthy(cookies) && Truthy(headers.cookieHeader) {
        cookies := headers.cookieHeader;
      }
    }

    var contentType := ContentType(HeaderPairs(headers));
    var (body, inferred) := ResolveBody(data, contentType, c);
    if Truthy(body) {
      body := c.trim(body, c.maxBodySize);
    }

    var env := EnvOf(data);
    var scrubbed := ScrubEnv(env, c);
    if scrubbed.Err? {
      return Err(scrubbed.error), dataAfter;
    }
    env := scrubbed.value;
    if "env" in data {
      dataAfter := data["env" := env];
    }

    var formattedCookies := FormatCookies(cookies, c);
    if formattedCookies.Err? {
      return Err(formattedCookies.error), dataAfter;
    }

    r := Ok(Http(
      requestMethod := meth.value,
      url := c.urlUnsplit(WithoutQuery(parts)),
      queryString := storedQuery,
      fragment := c.trim(fragment, 1024),
      cookies := c.trimPairs(StoredCookies(cookies, formattedCookies.value)),
      headers := c.trimPairs(StoredHeaders(headers)),
      data := FixBrokenEncoding(body, c),
      env := c.trimDict(env),
      inferredContentType := inferred));
  }
}
