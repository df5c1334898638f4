/** The module-level helpers of sentry/interfaces/http.py: the method
    pattern, header reshaping, cookie normalisation, encoding repair and
    JSON coercion of query values. */
module Normalize {
  import opened Values
  import opened Text
  import opened External

  // ---------------------------------------------------------------------
  // http_method_re = ^[A-Z\-_]{3,32}$

  predicate IsMethodChar(c: char)
  {
    IsUpperAscii(c) || c == '-' || c == '_'
  }

  /** What the pattern is meant to accept: 3 to 32 characters, each an
      upper-case ASCII letter, '-' or '_'. */
  predicate MethodPattern(m: string)
  {
    3 <= |m| <= 32 && forall i :: 0 <= i < |m| ==> IsMethodChar(m[i])
  }

  /** What `http_method_re.match(m)` accepts: Python's `$` also matches just
      before a newline that ends the string. */
  predicate MethodPatternAsWritten(m: string)
    ensures MethodPattern(m) ==> MethodPatternAsWritten(m)
    ensures MethodPatternAsWritten(m) && '\n' !in m ==> MethodPattern(m)
    ensures MethodPatternAsWritten(m) && !MethodPattern(m) ==> exists t :: MethodPattern(t) && m == t + "\n"
  {
    assert m != [] ==> m == m[..|m| - 1] + [m[|m| - 1]];
    MethodPattern(m) || (m != [] && m[|m| - 1] == '\n' && MethodPattern(m[..|m| - 1]))
  }

  /** A submitted method "put\n" upper-cases to "PUT\n", which the compiled
      pattern accepts although it is not a token. */
  lemma TrailingNewlineAccepted()
    ensures Upper("put\n") == "PUT\n"
    ensures MethodPatternAsWritten("PUT\n") && !MethodPattern("PUT\n")
  {
    assert "PUT\n"[..3] == "PUT";
    assert !IsMethodChar("PUT\n"[3]);
  }

  // ---------------------------------------------------------------------
  // fix_broken_encoding and jsonify

  /** fix_broken_encoding: text round-trips through UTF-8 with replacement,
      bytes are decoded with replacement, anything else is returned as is.
      A Dafny string holds Unicode scalar values only, so the round trip of
      text through the encoder changes nothing. */
  function FixBrokenEncoding(v: Value, c: Collaborators): (r: Value)
    ensures !r.Bytes?
    ensures v.Str? || v.Bytes? <==> r.Str?
    ensures v.Str? ==> r == v
    ensures v.Bytes? ==> r.s == c.decodeUtf8(v.bytes)
    ensures !v.Str? && !v.Bytes? ==> r == v
  {
    match v
    case Str(_) => v
    case Bytes(bs) => Str(c.decodeUtf8(bs))
    case _ => v
  }

  /** Repairing an already repaired value changes nothing. */
  lemma FixBrokenEncodingIdempotent(v: Value, c: Collaborators)
    ensures FixBrokenEncoding(FixBrokenEncoding(v, c), c) == FixBrokenEncoding(v, c)
  {
  }

  /** jsonify: text passes through, anything else is JSON-serialised. */
  function Jsonify(v: Value, c: Collaborators): (r: string)
    ensures v.Str? ==> r == v.s
  {
    if v.Str? then v.s else c.jsonDumps(v)
  }

  // ---------------------------------------------------------------------
  // format_headers

  /** The result of format_headers: the empty tuple for a falsy argument,
      otherwise the kept headers and the last Cookie header's value (None
      when there was none). */
  datatype FormattedHeaders =
    | NoHeaders
    | Formatted(headers: seq<(string, string)>, cookieHeader: Value)

  predicate IsCookieName(k: string)
  {
    Lower(k) == "cookie"
  }

  /** `', '.join(parts)`, or None where a part is not text (TypeError). */
  function Join(parts: seq<Value>, sep: string): (r: Option<string>)
    ensures r.Some? <==> forall i :: 0 <= i < |parts| ==> parts[i].Str?
    ensures parts == [] ==> r == Some("")
    ensures |parts| == 1 && parts[0].Str? ==> r == Some(parts[0].s)
  {
    if parts == [] then Some("")
    else if !parts[|parts| - 1].Str? then None
    else if |parts| == 1 then Some(parts[0].s)
    else
      match Join(parts[..|parts| - 1], sep)
      case None => None
      case Some(init) => Some(init + sep + parts[|parts| - 1].s)
  }

  /** The summed length of the text parts. */
  function TextLength(parts: seq<Value>): nat
  {
    if parts == [] then 0
    else TextLength(parts[..|parts| - 1]) + (if parts[|parts| - 1].Str? then |parts[|parts| - 1].s| else 0)
  }

  /** A joined value holds every part and one separator between each two
      neighbours, and nothing else. */
  lemma {:induction false} JoinLength(parts: seq<Value>, sep: string)
    requires parts != [] && Join(parts, sep).Some?
    ensures |Join(parts, sep).value| == TextLength(parts) + (|parts| - 1) * |sep|
  {
    if |parts| > 1 {
      JoinLength(parts[..|parts| - 1], sep);
    } else {
      assert parts[..0] == [];
    }
  }

  /** `', '.join([a, b])` is `a + ", " + b`. */
  lemma JoinTwo(a: string, b: string)
    ensures Join([Str(a), Str(b)], ", ") == Some(a + ", " + b)
  {
    assert [Str(a), Str(b)][..1] == [Str(a)];
  }

  /** One step of the loop up to the cookie test: unpack `k, v`, join a
      list value with ", " and require a text name (`k.lower()`). */
  function ParseHeader(item: Value): Option<(string, Value)>
  {
    match Unpack2(item)
    case None => None
    case Some((k, v)) =>
      var joined := if v.List? then Join(v.items, ", ") else Some("");
      if joined.None? || !k.Str? then None
      else Some((k.s, if v.List? then Str(joined.value) else v))
  }

  /** A header pair with a text name parses exactly when its value is not
      a list or is a list of text; a list value becomes the joined text,
      any other value is kept. */
  lemma ParseHeaderShape(item: Value)
    requires Unpack2(item).Some? && Unpack2(item).value.0.Str?
    ensures var (k, v) := Unpack2(item).value;
      && (ParseHeader(item).Some? <==> !v.List? || forall i :: 0 <= i < |v.items| ==> v.items[i].Str?)
      && (ParseHeader(item).Some? && v.List? ==> ParseHeader(item).value == (k.s, Str(Join(v.items, ", ").value)))
      && (!v.List? ==> ParseHeader(item) == Some((k.s, v)))
  {
  }

  /** A pair with a text name and a value that is not a list parses into
      itself. */
  lemma ParseHeaderPlain(k: string, v: Value)
    requires !v.List?
    ensures ParseHeader(List([Str(k), v])) == Some((k, v))
  {
    assert Unpack2(List([Str(k), v])) == Some((Str(k), v));
  }

  /** Every item parsed, in order, or None as soon as one does not parse. */
  function ParseHeaders(xs: seq<Value>): Option<seq<(string, Value)>>
  {
    if xs == [] then Some([])
    else
      match ParseHeaders(xs[..|xs| - 1])
      case None => None
      case Some(init) =>
        match ParseHeader(xs[|xs| - 1])
        case None => None
        case Some(e) => Some(init + [e])
  }

  /** The header list parses exactly when every item does, and then gives
      one entry per item, in order. */
  lemma {:induction false} ParseHeadersCorrect(xs: seq<Value>)
    ensures ParseHeaders(xs).Some? <==> forall i :: 0 <= i < |xs| ==> ParseHeader(xs[i]).Some?
    ensures ParseHeaders(xs).Some? ==>
      |ParseHeaders(xs).value| == |xs| &&
      forall i :: 0 <= i < |xs| ==> ParseHeaders(xs).value[i] == ParseHeader(xs[i]).value
  {
    if xs != [] {
      var n := |xs| - 1;
      ParseHeadersCorrect(xs[..n]);
      assert forall i :: 0 <= i < n ==> xs[..n][i] == xs[i];
    }
  }

  /** A value as text, as `to_unicode` and `six.text_type` give it: text is
      kept, anything else goes to the `textOf` collaborator. */
  function AsText(v: Value, c: Collaborators): string
  {
    if v.Str? then v.s else c.textOf(v)
  }

  /** The headers the loop appends for parsed items `es`, in order. */
  function KeptHeaders(es: seq<(string, Value)>, c: Collaborators): seq<(string, string)>
  {
    if es == [] then []
    else
      var last := es[|es| - 1];
      KeptHeaders(es[..|es| - 1], c)
        + (if IsCookieName(last.0) then [] else [(Title(last.0), AsText(last.1, c))])
  }

  /** The value `cookie_header` holds after the loop over parsed items `es`. */
  function LastCookie(es: seq<(string, Value)>): Value
  {
    if es == [] then Null
    else if IsCookieName(es[|es| - 1].0) then es[|es| - 1].1
    else LastCookie(es[..|es| - 1])
  }

  /** What format_headers returns, or raises. */
  function FormatHeadersSpec(value: Value, c: Collaborators): (r: Result<FormattedHeaders>)
    ensures r.Err? ==> r.error == Malformed
  {
    if !Truthy(value) then Ok(NoHeaders)
    else
      match Iterate(value)
      case None => Err(Malformed)
      case Some(items) =>
        match ParseHeaders(items)
        case None => Err(Malformed)
        case Some(es) => Ok(Formatted(KeptHeaders(es, c), LastCookie(es)))
  }

  /** format_headers: a falsy argument gives the empty tuple; otherwise the
      header pairs are walked once. */
  method FormatHeaders(value: Value, c: Collaborators) returns (r: Result<FormattedHeaders>)
    ensures r == FormatHeadersSpec(value, c)
  {
    if !Truthy(value) {
      return Ok(NoHeaders);
    }
    var items := Iterate(value);
    if items.None? {
      return Err(Malformed);
    }
    var walked := WalkHeaders(items.value, c);
    if walked.None? {
      return Err(Malformed);
    }
    return Ok(walked.value);
  }

  /** The loop of format_headers: appends every header that is not a Cookie
      header and remembers the last Cookie value; None where an item does
      not parse. */
  method WalkHeaders(xs: seq<Value>, c: Collaborators) returns (r: Option<FormattedHeaders>)
    ensures r.None? <==> ParseHeaders(xs).None?
    ensures r.Some? ==>
      var es := ParseHeaders(xs).value;
      r.value == Formatted(KeptHeaders(es, c), LastCookie(es))
  {
    var result: seq<(string, string)> := [];
    var cookieHeader := Null;
    ghost var es: seq<(string, Value)> := [];
    var i := 0;
    while i < |xs|
      invariant 0 <= i <= |xs|
      invariant ParseHeaders(xs[..i]) == Some(es)
      invariant result == KeptHeaders(es, c)
      invariant cookieHeader == LastCookie(es)
    {
      var entry := ParseHeader(xs[i]);
      if entry.None? {
        ParseFails(xs, i);
        return None;
      }
      var e := entry.value;
      ParseStep(xs, i, es, c);
      if IsCookieName(e.0) {
        cookieHeader := e.1;
      } else {
        result := result + [(Title(e.0), AsText(e.1, c))];
      }
      es := es + [e];
      i := i + 1;
    }
    assert xs[..i] == xs;
    return Some(Formatted(result, cookieHeader));
  }

  /** One more parsed item extends the parsed prefix, the kept headers and
      the remembered Cookie value as one turn of the loop does. */
  lemma ParseStep(xs: seq<Value>, i: nat, es: seq<(string, Value)>, c: Collaborators)
    requires i < |xs| && ParseHeaders(xs[..i]) == Some(es) && ParseHeader(xs[i]).Some?
    ensures var e := ParseHeader(xs[i]).value;
      && ParseHeaders(xs[..i + 1]) == Some(es + [e])
      && KeptHeaders(es + [e], c) == KeptHeaders(es, c) + (if IsCookieName(e.0) then [] else [(Title(e.0), AsText(e.1, c))])
      && LastCookie(es + [e]) == if IsCookieName(e.0) then e.1 else LastCookie(es)
  {
    var e := ParseHeader(xs[i]).value;
    assert xs[..i + 1][..i] == xs[..i];
    assert (es + [e])[..|es|] == es;
  }

  /** An item that does not parse makes the whole header list fail. */
  lemma ParseFails(xs: seq<Value>, i: nat)
    requires i < |xs| && ParseHeader(xs[i]).None?
    ensures ParseHeaders(xs).None?
  {
    ParseHeadersCorrect(xs);
  }

  /** The kept headers of two runs of items are those of each run, in order. */
  lemma {:induction false} KeptHeadersAppend(a: seq<(string, Value)>, b: seq<(string, Value)>, c: Collaborators)
    ensures KeptHeaders(a + b, c) == KeptHeaders(a, c) + KeptHeaders(b, c)
  {
    if b == [] {
      assert a + b == a;
    } else {
      var b' := b[..|b| - 1];
      assert (a + b)[..|a + b| - 1] == a + b';
      assert (a + b)[|a + b| - 1] == b[|b| - 1];
      KeptHeadersAppend(a, b', c);
    }
  }

  /** One item keeps its place, title-cased and as text, unless it is a
      Cookie header. */
  lemma KeptHeadersOne(e: (string, Value), c: Collaborators)
    ensures KeptHeaders([e], c) == if IsCookieName(e.0) then [] else [(Title(e.0), AsText(e.1, c))]
  {
    assert [e][..0] == [];
  }

  /** No kept header is a Cookie header, however its name was cased. */
  lemma {:induction false} KeptHeadersNoCookie(es: seq<(string, Value)>, c: Collaborators)
    ensures forall i :: 0 <= i < |KeptHeaders(es, c)| ==> !IsCookieName(KeptHeaders(es, c)[i].0)
  {
    if es != [] {
      KeptHeadersNoCookie(es[..|es| - 1], c);
      TitleKeepsLower(es[|es| - 1].0);
    }
  }

  /** How many of the parsed items are Cookie headers. */
  function CookieCount(es: seq<(string, Value)>): nat
  {
    if es == [] then 0
    else CookieCount(es[..|es| - 1]) + (if IsCookieName(es[|es| - 1].0) then 1 else 0)
  }

  /** Exactly one header is kept per item that is not a Cookie header. */
  lemma {:induction false} KeptHeadersCount(es: seq<(string, Value)>, c: Collaborators)
    ensures |KeptHeaders(es, c)| == |es| - CookieCount(es)
  {
    if es != [] {
      KeptHeadersCount(es[..|es| - 1], c);
    }
  }

  /** `cookie_header` ends up holding the value of the last Cookie header. */
  lemma {:induction false} LastCookieIsLast(es: seq<(string, Value)>, j: nat)
    requires j < |es| && IsCookieName(es[j].0)
    requires forall k :: j < k < |es| ==> !IsCookieName(es[k].0)
    ensures LastCookie(es) == es[j].1
  {
    if j < |es| - 1 {
      LastCookieIsLast(es[..|es| - 1], j);
    }
  }

  /** ... and None when there is no Cookie header. */
  lemma {:induction false} LastCookieNone(es: seq<(string, Value)>)
    requires forall k :: 0 <= k < |es| ==> !IsCookieName(es[k].0)
    ensures LastCookie(es) == Null
  {
    if es != [] {
      LastCookieNone(es[..|es| - 1]);
    }
  }

  /** A non-empty list of header pairs that all parse gives the kept
      headers and the last Cookie value of the parsed pairs. */
  lemma FormatHeadersOfList(xs: seq<Value>, es: seq<(string, Value)>, c: Collaborators)
    requires xs != [] && ParseHeaders(xs) == Some(es)
    ensures FormatHeadersSpec(List(xs), c) == Ok(Formatted(KeptHeaders(es, c), LastCookie(es)))
  {
  }

  /** Everything format_headers promises at once: a falsy argument gives the
      empty tuple; otherwise every parsed item but the Cookie headers is kept
      once, in order, and no Cookie header is among them. */
  lemma FormatHeadersSpecCorrect(value: Value, c: Collaborators)
    ensures !Truthy(value) ==> FormatHeadersSpec(value, c) == Ok(NoHeaders)
    ensures FormatHeadersSpec(value, c).Ok? && Truthy(value) ==>
      var hs := FormatHeadersSpec(value, c).value.headers;
      forall i :: 0 <= i < |hs| ==> !IsCookieName(hs[i].0)
  {
    if Truthy(value) && FormatHeadersSpec(value, c).Ok? {
      var es := ParseHeaders(Iterate(value).value).value;
      KeptHeadersNoCookie(es, c);
    }
  }

  // ---------------------------------------------------------------------
  // format_cookies

  /** One step of the comprehension: unpack `k, v`, strip the name and
      repair the encoding of both; None where a step raises. */
  function CookiePair(item: Value, c: Collaborators): Option<(string, Value)>
  {
    match Unpack2(item)
    case None => None
    case Some((k, v)) =>
      if !k.Str? then None
      else Some((FixBrokenEncoding(Str(Strip(k.s)), c).s, FixBrokenEncoding(v, c)))
  }

  /** The whole comprehension over `items`: every pair, or a failure. */
  function CookiePairs(items: seq<Value>, c: Collaborators): Option<seq<(string, Value)>>
  {
    if items == [] then Some([])
    else
      var n := |items| - 1;
      match CookiePairs(items[..n], c)
      case None => None
      case Some(init) =>
        match CookiePair(items[n], c)
        case None => None
        case Some(p) => Some(init + [p])
  }

  /** The comprehension succeeds exactly when every item does. */
  lemma {:induction false} CookiePairsSome(items: seq<Value>, c: Collaborators)
    ensures CookiePairs(items, c).Some? <==> forall i :: 0 <= i < |items| ==> CookiePair(items[i], c).Some?
  {
    if items != [] {
      var n := |items| - 1;
      CookiePairsSome(items[..n], c);
      assert forall i :: 0 <= i < n ==> items[..n][i] == items[i];
    }
  }

  /** When it succeeds it gives one pair per item, in order. */
  lemma {:induction false} CookiePairsValues(items: seq<Value>, c: Collaborators)
    requires CookiePairs(items, c).Some?
    ensures |CookiePairs(items, c).value| == |items|
    ensures forall i :: 0 <= i < |items| ==> CookiePair(items[i], c) == Some(CookiePairs(items, c).value[i])
  {
    if items != [] {
      var n := |items| - 1;
      CookiePairsValues(items[..n], c);
      assert forall i :: 0 <= i < n ==> items[..n][i] == items[i];
    }
  }

  /** Both of the above. */
  lemma CookiePairsCorrect(items: seq<Value>, c: Collaborators)
    ensures CookiePairs(items, c).Some? <==> forall i :: 0 <= i < |items| ==> CookiePair(items[i], c).Some?
    ensures CookiePairs(items, c).Some? ==>
      |CookiePairs(items, c).value| == |items| &&
      forall i :: 0 <= i < |items| ==> CookiePairs(items, c).value[i] == CookiePair(items[i], c).value
  {
    CookiePairsSome(items, c);
    if CookiePairs(items, c).Some? {
      CookiePairsValues(items, c);
    }
  }

  /** The items the comprehension visits: a string is parsed with
      parse_qsl (blank values kept), a dict gives its items. */
  function CookieItems(value: Value, c: Collaborators): Option<seq<Value>>
  {
    if value.Str? then
      var pairs := c.parseQsl(value.s);
      Some(seq(|pairs|, i requires 0 <= i < |pairs| => Tuple([Str(pairs[i].0), Str(pairs[i].1)])))
    else Iterate(value)
  }

  /** Neither end of `k` is whitespace. */
  predicate IsStripped(k: string)
  {
    k == [] || (!IsSpace(k[0]) && !IsSpace(k[|k| - 1]))
  }

  /** format_cookies: [key, value] pairs with stripped, repaired keys and
      repaired values, one per item of the input, in order. */
  function FormatCookies(value: Value, c: Collaborators): (r: Result<seq<(string, Value)>>)
    ensures !Truthy(value) ==> r == Ok([])
    ensures Truthy(value) && (value.Bool? || value.Int?) ==> r == Err(Malformed)
    ensures r.Err? ==> r.error == Malformed
  {
    if !Truthy(value) then Ok([])
    else
      match CookieItems(value, c)
      case None => Err(Malformed)
      case Some(items) =>
        match CookiePairs(items, c)
        case None => Err(Malformed)
        case Some(pairs) => Ok(pairs)
  }

  /** Each parsed pair of a cookie string gives its stripped name and its
      value. */
  lemma TextCookiePairs(s: string, c: Collaborators)
    ensures var pairs := c.parseQsl(s);
      var items := CookieItems(Str(s), c).value;
      && |items| == |pairs|
      && forall i :: 0 <= i < |items| ==> CookiePair(items[i], c) == Some((Strip(pairs[i].0), Str(pairs[i].1)))
  {
    var pairs := c.parseQsl(s);
    var items := CookieItems(Str(s), c).value;
    forall i | 0 <= i < |items|
      ensures CookiePair(items[i], c) == Some((Strip(pairs[i].0), Str(pairs[i].1)))
    {
      assert items[i] == Tuple([Str(pairs[i].0), Str(pairs[i].1)]);
    }
  }

  /** A cookie string is parsed with its blank values kept: one pair per
      parsed pair, the name stripped. */
  lemma FormatCookiesOfText(s: string, c: Collaborators)
    requires s != ""
    ensures var pairs := c.parseQsl(s);
      var r := FormatCookies(Str(s), c);
      r.Ok? && |r.value| == |pairs| &&
      forall i :: 0 <= i < |pairs| ==> r.value[i] == (Strip(pairs[i].0), Str(pairs[i].1))
  {
    TextCookiePairs(s, c);
    CookiePairsCorrect(CookieItems(Str(s), c).value, c);
    var cp := CookiePairs(CookieItems(Str(s), c).value, c);
    assert cp.Some?;
    assert FormatCookies(Str(s), c) == Ok(cp.value);
  }

  /** Each item of a cookie dict gives its stripped name and its repaired
      value. */
  lemma DictCookiePairs(es: seq<(string, Value)>, c: Collaborators)
    ensures var items := CookieItems(Dict(es), c).value;
      && |items| == |es|
      && forall i :: 0 <= i < |items| ==> CookiePair(items[i], c) == Some((Strip(es[i].0), FixBrokenEncoding(es[i].1, c)))
  {
    var items := CookieItems(Dict(es), c).value;
    forall i | 0 <= i < |items|
      ensures CookiePair(items[i], c) == Some((Strip(es[i].0), FixBrokenEncoding(es[i].1, c)))
    {
      assert items[i] == Tuple([Str(es[i].0), es[i].1]);
    }
  }

  /** A cookie dict gives its items, in order, the names stripped and the
      values repaired. */
  lemma FormatCookiesOfDict(es: seq<(string, Value)>, c: Collaborators)
    ensures var r := FormatCookies(Dict(es), c);
      r.Ok? && |r.value| == |es| &&
      forall i :: 0 <= i < |es| ==> r.value[i] == (Strip(es[i].0), FixBrokenEncoding(es[i].1, c))
  {
    if es != [] {
      DictCookiePairs(es, c);
      CookiePairsCorrect(CookieItems(Dict(es), c).value, c);
      var cp := CookiePairs(CookieItems(Dict(es), c).value, c);
      assert cp.Some?;
      assert FormatCookies(Dict(es), c) == Ok(cp.value);
    }
  }

  /** One cookie item succeeds exactly when it unpacks into two values
      with a text name. */
  lemma CookiePairShape(item: Value, c: Collaborators)
    ensures CookiePair(item, c).Some? <==> Unpack2(item).Some? && Unpack2(item).value.0.Str?
    ensures CookiePair(item, c).Some? ==>
      CookiePair(item, c).value == (Strip(Unpack2(item).value.0.s), FixBrokenEncoding(Unpack2(item).value.1, c))
  {
  }

  /** A list of pairs gives one cookie per pair, in order, and fails as a
      whole if one item is not a pair with a text name. */
  lemma FormatCookiesOfList(xs: seq<Value>, c: Collaborators)
    requires xs != []
    ensures var r := FormatCookies(List(xs), c);
      && (r.Ok? <==> forall i :: 0 <= i < |xs| ==> Unpack2(xs[i]).Some? && Unpack2(xs[i]).value.0.Str?)
      && (r.Ok? ==> |r.value| == |xs| && forall i :: 0 <= i < |xs| ==>
            r.value[i] == (Strip(Unpack2(xs[i]).value.0.s), FixBrokenEncoding(Unpack2(xs[i]).value.1, c)))
  {
    forall i | 0 <= i < |xs|
      ensures CookiePair(xs[i], c).Some? <==> Unpack2(xs[i]).Some? && Unpack2(xs[i]).value.0.Str?
      ensures CookiePair(xs[i], c).Some? ==>
        CookiePair(xs[i], c).value == (Strip(Unpack2(xs[i]).value.0.s), FixBrokenEncoding(Unpack2(xs[i]).value.1, c))
    {
      CookiePairShape(xs[i], c);
    }
    CookiePairsCorrect(xs, c);
    var cp := CookiePairs(xs, c);
    assert FormatCookies(List(xs), c) == if cp.Some? then Ok(cp.value) else Err(Malformed);
  }

  /** Every cookie name comes out stripped and no cookie value stays bytes. */
  lemma FormatCookiesClean(value: Value, c: Collaborators)
    ensures var r := FormatCookies(value, c);
      r.Ok? ==> forall i :: 0 <= i < |r.value| ==> IsStripped(r.value[i].0) && !r.value[i].1.Bytes?
  {
    var r := FormatCookies(value, c);
    if r.Ok? && Truthy(value) {
      var items := CookieItems(value, c).value;
      CookiePairsCorrect(items, c);
      forall i | 0 <= i < |r.value| ensures IsStripped(r.value[i].0) && !r.value[i].1.Bytes? {
        CookiePairShape(items[i], c);
        StripCorrect(Unpack2(items[i]).value.0.s);
      }
    }
  }
}
