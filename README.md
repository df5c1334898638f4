# Sentry `Http` interface: request normalisation

A Dafny model of `src/sentry/interfaces/http.py`. This is the code that turns the
loosely typed request data an error-reporting client submits into Sentry's
canonical request record, and projects that record back out for storage and
the API.

The model covers:

- the method pattern and the method check;
- `format_headers`, which title-cases names, joins list values with `", "` and
  diverts the Cookie header;
- `format_cookies` and `fix_broken_encoding`;
- `jsonify`;
- `Http.to_python`: the URL with its ellipsis repair, query-string coercion,
  the fragment fallback, the Cookie fallback, content-type extraction, the
  decode-once guard and `REMOTE_ADDR` scrubbing;
- the projections `to_json`, `full_url`, `get_api_context` and
  `get_api_meta`.

The modules follow the file's structure:

- `Values`: the submitted values, with the Python built-ins they need
  (truthiness, `or`, `dict.get`, `in`, `del`, iteration, unpacking).
- `Text`: the string methods (`lower`, `upper`, `title`, `strip`,
  `partition`, the ellipsis repair, `str(n)`).
- `Order`: Python's text order and `sorted(d.items())`.
- `External`: everything the file calls but does not define. It is a
  record of functions passed in, so each property holds whatever they do.
- `Normalize`: the module-level helpers.
- `Request`: `to_python`.
- `Projection`: the read-only views.

Some source operations work step by step or change their input in place; they
are methods:

- `format_headers`'s loop is the method `Normalize.WalkHeaders`. It is proved
  against `Normalize.FormatHeadersSpec`.
- `to_python` is the method `Request.ToPython`. It also returns the caller's
  data as it stands afterwards, because `del env['REMOTE_ADDR']` changes the
  caller's `env` dict.
- `get_api_meta` is the method `Projection.ApiMeta`. It also returns the
  caller's meta after the two `pop('')` calls.

Every exception the source lets escape becomes an `Err`:

- `InvalidData` for the schema failure;
- `InvalidMethod` for the method check;
- `Malformed` for any `TypeError`, `ValueError` or `AttributeError`.

The model follows the code, except for the two defects listed under
"## Findings": `Request.ToPython` uses the corrected method check and header
step (see "## Left out"). Some consequences of following the code:

- A `query_string` submitted as a list keeps its 2-element lists and tuples
  as they are. Their values are not JSON-stringified, unlike the string and
  dict branches.
- Assembly is not total outside the method and schema checks. Whenever a
  later step raises, the model returns `Malformed`. Examples:
  - truthy headers that cannot be iterated, or header pairs that do not unpack;
  - a list header value holding non-text;
  - header names that are not text (bytes names included; see "## Left out");
  - truthy cookies that cannot be iterated, such as a number;
  - cookie items that do not unpack, or whose name is not text (bytes names
    included; see "## Left out");
  - an `env` that is None or a number, since `in` raises on it;
  - an `env` that is a string or list containing `REMOTE_ADDR`, since the
    item cannot be read or deleted.
- Cookie values need not end up as text. `fix_broken_encoding` returns
  numbers, lists and dicts unchanged.

## Model

| member | source | states |
|---|---|---|
| Normalize.TrailingNewlineAccepted | src/sentry/interfaces/http.py:32 | the compiled method pattern accepts "PUT\n" (from "put\n") although it is not a 3-32 character token |
| Request.ValidateMethod | src/sentry/interfaces/http.py:134-142 | an absent or empty method gives None; a non-text one fails; text is accepted exactly when its upper-cased form is a 3-32 character token of A-Z, '-', '_' (the GET/POST fast path adds nothing); the stored method is that upper-cased text and holds no newline; otherwise InvalidMethod |
| Normalize.MethodPatternAsWritten | src/sentry/interfaces/http.py:32 | the compiled pattern accepts every intended token, and on text without a newline it accepts nothing else; anything more it accepts is a token followed by one "\n" |
| Request.MethodExamples | src/sentry/interfaces/http.py:134-142 | "get", "POST", "propfind" are accepted as GET, POST, PROPFIND; "g" and "get 1" are rejected |
| Normalize.FixBrokenEncoding | src/sentry/interfaces/http.py:74-83 | the result is never bytes; it is text exactly when the input was text or bytes; text is kept, bytes are decoded with replacement, anything else is returned unchanged |
| Normalize.FixBrokenEncodingIdempotent | src/sentry/interfaces/http.py:74-83 | repairing a repaired value changes nothing |
| Normalize.Jsonify | src/sentry/interfaces/http.py:86-87 | text passes through unchanged |
| Normalize.Join | src/sentry/interfaces/http.py:49-50 | joining succeeds exactly when every part is text; no parts give "" and one part gives itself |
| Normalize.JoinLength | src/sentry/interfaces/http.py:49-50 | the joined value is as long as all parts together plus one separator between each two neighbours |
| Normalize.JoinTwo | src/sentry/interfaces/http.py:49-50 | `', '.join([a, b])` is a + ", " + b |
| Normalize.ParseHeaderShape | src/sentry/interfaces/http.py:44-52 | a pair with a text name parses exactly when its value is not a list or is a list of text; a list value becomes the joined text and any other value is kept |
| Normalize.ParseHeaderPlain | src/sentry/interfaces/http.py:44-52 | a [name, value] pair whose value is not a list parses into itself |
| Normalize.ParseHeadersCorrect | src/sentry/interfaces/http.py:44-52 | the header list parses exactly when every item does, giving one entry per item in order |
| Normalize.FormatHeadersSpec | src/sentry/interfaces/http.py:35-58 | every way format_headers raises is a TypeError, ValueError or AttributeError |
| Normalize.FormatHeaders | src/sentry/interfaces/http.py:35-58 | format_headers returns `()` for a falsy argument, raises where iteration or an item fails, and otherwise returns the kept headers and last Cookie value of the parsed items |
| Normalize.WalkHeaders | src/sentry/interfaces/http.py:42-58 | the loop appends exactly the kept headers of the parsed prefix and remembers its last Cookie value; it fails exactly when some item does not parse |
| Normalize.ParseStep | src/sentry/interfaces/http.py:44-57 | one more parsed item appends its title-cased, text-valued header unless it is a Cookie header, in which case it becomes the remembered Cookie value |
| Normalize.ParseFails | src/sentry/interfaces/http.py:44-52 | one item that does not parse makes the whole header list fail |
| Normalize.KeptHeadersAppend | src/sentry/interfaces/http.py:42-57 | the kept headers of two runs of items are those of each run, in order |
| Normalize.KeptHeadersOne | src/sentry/interfaces/http.py:52-57 | a single item is kept, title-cased and as text, unless its name lower-cases to "cookie" |
| Normalize.KeptHeadersNoCookie | src/sentry/interfaces/http.py:52-57 | no kept header's name lower-cases to "cookie", title-casing included |
| Normalize.KeptHeadersCount | src/sentry/interfaces/http.py:52-57 | exactly one header is kept per item that is not a Cookie header |
| Normalize.LastCookieIsLast | src/sentry/interfaces/http.py:52-53 | cookie_header ends as the value of the last Cookie header |
| Normalize.LastCookieNone | src/sentry/interfaces/http.py:43 | with no Cookie header, cookie_header stays None |
| Normalize.FormatHeadersOfList | src/sentry/interfaces/http.py:35-58 | a non-empty list of pairs that all parse gives the kept headers and the last Cookie value of the parsed pairs |
| Normalize.FormatHeadersSpecCorrect | src/sentry/interfaces/http.py:35-58 | a falsy argument gives `()`; a successful result holds no Cookie header |
| Normalize.CookiePairsSome | src/sentry/interfaces/http.py:71 | the cookie comprehension succeeds exactly when every item unpacks with a text name |
| Normalize.CookiePairsValues | src/sentry/interfaces/http.py:71 | a successful comprehension gives one pair per item, in order |
| Normalize.CookiePairsCorrect | src/sentry/interfaces/http.py:71 | both of the above together |
| Normalize.CookiePairShape | src/sentry/interfaces/http.py:71 | one cookie item gives its stripped name and its repaired value, or fails when it does not unpack into a text name and a value |
| Normalize.FormatCookies | src/sentry/interfaces/http.py:61-71 | falsy cookies give no pairs; truthy booleans and numbers cannot be iterated and fail; every failure is a TypeError, ValueError or AttributeError |
| Normalize.TextCookiePairs | src/sentry/interfaces/http.py:65-66 | each parse_qsl pair of a cookie string becomes (stripped name, value) |
| Normalize.FormatCookiesOfText | src/sentry/interfaces/http.py:65-71 | a cookie string gives one pair per parse_qsl pair (blank values kept), in order, the name stripped |
| Normalize.DictCookiePairs | src/sentry/interfaces/http.py:68-71 | each dict item becomes (stripped key, repaired value) |
| Normalize.FormatCookiesOfDict | src/sentry/interfaces/http.py:68-71 | a cookie dict gives all its items in order, keys stripped and values repaired |
| Normalize.FormatCookiesOfList | src/sentry/interfaces/http.py:61-71 | a list of pairs succeeds exactly when every item unpacks with a text name, and then gives one stripped, repaired pair per item in order |
| Normalize.FormatCookiesClean | src/sentry/interfaces/http.py:61-83 | every formatted cookie name has no whitespace at either end and no cookie value is left as bytes |
| Text.StripCorrect | src/sentry/interfaces/http.py:71 | `k.strip()` is a slice of k with only whitespace around it, and neither of its ends is whitespace |
| Text.RStripCorrect | src/sentry/interfaces/http.py:203 | `rstrip()` drops only whitespace, and only at the end, and leaves no whitespace at the end |
| Text.LStripCorrect | src/sentry/interfaces/http.py:71 | `lstrip()` drops only whitespace, and only at the start, and leaves no whitespace at the start |
| Text.TitleKeepsLower | src/sentry/interfaces/http.py:52-57 | title-casing a name never changes what it lower-cases to |
| Text.TitleOfLower | src/sentry/interfaces/http.py:57 | `title()` depends only on the lower-cased name |
| Text.TitleCaseInsensitive | src/sentry/interfaces/http.py:57 | two names title-case alike exactly when they lower-case alike |
| Text.TitledFixed | src/sentry/interfaces/http.py:57 | a name each of whose characters is already title-cased in place is left unchanged |
| Text.FixEllipsis | src/sentry/interfaces/http.py:152-153 | a trailing U+2026 becomes "..." and everything before it is kept (two characters longer); other text is unchanged; the result never ends in U+2026 |
| Text.BeforeFirst | src/sentry/interfaces/http.py:203 | `partition(sep)[0]` is a prefix without sep, followed in the input by sep unless it is the whole input |
| Request.SplitUrl | src/sentry/interfaces/http.py:144-156 | no URL is split exactly when the submitted one is falsy; a text URL is split as is, or with its trailing U+2026 replaced by "..." first |
| Request.WithoutQuery | src/sentry/interfaces/http.py:144-156 | the stored url is rejoined from the split scheme, host and path (None when no URL was given), with an empty query and an empty fragment |
| Request.QuerySource | src/sentry/interfaces/http.py:158 | a truthy submitted query_string wins; otherwise the URL's query; with neither, nothing |
| Request.FragmentSource | src/sentry/interfaces/http.py:182 | a truthy submitted fragment wins; otherwise the URL's fragment; with neither, None |
| Request.QueryText | src/sentry/interfaces/http.py:161-164 | one leading '?' is dropped; a trailing U+2026 after that becomes "..." with everything before it kept (two characters longer); other text is passed on unchanged; the result never ends in U+2026 |
| Request.KeepPairs | src/sentry/interfaces/http.py:171-175 | no more pairs than items are kept |
| Request.KeepPairsExact | src/sentry/interfaces/http.py:171-175 | a pair is kept exactly when it is the two elements of a 2-element list or tuple in the input |
| Request.KeepPairsAppend | src/sentry/interfaces/http.py:171-175 | kept pairs keep the input's order |
| Request.TextItems | src/sentry/interfaces/http.py:165-168 | parsed pairs become items one for one, values as text |
| Request.JsonifiedPairs | src/sentry/interfaces/http.py:165-170 | every item becomes (key, jsonify(value)), one for one, in order |
| Request.CoerceQuery | src/sentry/interfaces/http.py:158-180 | empty gives no pairs; text gives one (name, value) pair per parse_qsl pair of the cleaned text; a dict one jsonified pair per item; a list exactly its 2-element lists and tuples; anything else no pairs |
| Request.QueryField | src/sentry/interfaces/http.py:158-180 | a falsy query gives `[]`; otherwise the coerced pairs, as a list of 2-tuples, trimmed to 4096 |
| Request.QueryMappingExample | src/sentry/interfaces/http.py:169-170 | `{"a": 1}` gives the single pair ("a", "1") |
| Request.GetPathFiltered | src/sentry/interfaces/http.py:188 | a list of headers becomes its None-filtered list, order and repeats kept; anything else is passed on unchanged |
| Request.DropNulls | src/sentry/interfaces/http.py:188 | the filtered header list holds exactly the items that are not None |
| Request.DropNullsCounts | src/sentry/interfaces/http.py:188 | every item that is not None is kept as often as it occurs, and no None is kept |
| Request.DropNullsAppend | src/sentry/interfaces/http.py:188 | the filter keeps the input's order: filtering two runs gives the filtered runs one after the other |
| Request.DropNullsOne | src/sentry/interfaces/http.py:188 | a single None is dropped and any other single item is kept |
| Request.HeadersStepAsWritten | src/sentry/interfaces/http.py:187-192 | falsy headers give none; otherwise the step succeeds exactly when format_headers returns a pair, then with that pair, and raises when format_headers returns `()` |
| Request.HeadersStep | src/sentry/interfaces/http.py:187-192 | falsy headers give none; the step fails exactly when format_headers raises; no Cookie header is kept; it agrees with the code as written wherever that succeeds |
| Request.HeadersStepTruthy | src/sentry/interfaces/http.py:187-188 | truthy headers go through format_headers after the None filter |
| Request.NullHeadersRejected | src/sentry/interfaces/http.py:187-188 | headers `[null]` make the code as written raise, while the corrected step reads them as no headers |
| Request.StoredHeaders | src/sentry/interfaces/http.py:188 | the stored headers are `()` without headers, else one (name, value) 2-tuple of text per kept header, in order |
| Request.StoredCookies | src/sentry/interfaces/http.py:61-71 | the stored cookies are `()` for falsy cookies, else one [name, value] list per formatted pair, in order |
| Request.CookieSource | src/sentry/interfaces/http.py:184-190 | submitted cookies win; the Cookie header is used only when no cookies were submitted and it is truthy |
| Request.CookieHeaderDiverted | src/sentry/interfaces/http.py:187-190 | a Cookie header followed by another header: only the other is kept, title-cased and as text, and the Cookie value is handed on as the cookies |
| Request.TwoHeadersParsed | src/sentry/interfaces/http.py:44-52 | two pairs with values that are not lists parse into themselves |
| Request.TwoHeadersKept | src/sentry/interfaces/http.py:52-57 | of a Cookie header and another header only the other is kept, and the Cookie value is remembered |
| Request.CookieHeaderExample | src/sentry/interfaces/http.py:35-58 | `[["Cookie", "a=1"], ["Content-Type", "text/html"]]` keeps only Content-Type and yields the Cookie header "a=1" |
| Request.FirstNamed | src/sentry/interfaces/http.py:199 | the position of the first header with that exact name, every earlier one named otherwise |
| Request.ContentType | src/sentry/interfaces/http.py:199-203 | None exactly when no header is named exactly "Content-Type"; else the first such value cut at its first ';' and right-stripped, holding no ';' and no trailing whitespace |
| Request.TitleOfContentType | src/sentry/interfaces/http.py:199 | a submitted "content-type" header is found as "Content-Type" |
| Request.ContentTypeFacts | src/sentry/interfaces/http.py:199 | "Content-Type" is already title-cased and lower-cases like "content-type" |
| Request.ContentTypeNameMatch | src/sentry/interfaces/http.py:199 | a header is found as "Content-Type" exactly when its submitted name lower-cases to "content-type" |
| Request.ResolveBody | src/sentry/interfaces/http.py:197-211 | heuristic_decode runs exactly when no inferred_content_type key was submitted and the body is not a dict; otherwise the body is kept, and so is the submitted inferred type, or else the header's content type |
| Request.BodyField | src/sentry/interfaces/http.py:213-214 | the stored body is never bytes; a truthy body is trimmed to the body size setting and then repaired; a falsy body that is not bytes is kept |
| Request.DecodeOnce | src/sentry/interfaces/http.py:205-211 | when decoding is not due, what the decoder would do makes no difference |
| Request.EnvOf | src/sentry/interfaces/http.py:216 | the submitted env, or an empty dict, which has no REMOTE_ADDR, when none was submitted |
| Request.ScrubEnv | src/sentry/interfaces/http.py:216-222 | REMOTE_ADDR stays exactly when it was there and validate_ip accepts it; every other key keeps its value; a container that does not support `in` or item deletion fails, with a TypeError |
| Values.Contains | src/sentry/interfaces/http.py:218 | `'REMOTE_ADDR' in env` on a dict is true exactly when the key is stored; it raises for a container that does not support `in` |
| Values.RemoveKey | src/sentry/interfaces/http.py:222 | `del env['REMOTE_ADDR']` removes that key, and every other key keeps its value |
| Values.RemoveKeyAppend | src/sentry/interfaces/http.py:222 | the removal keeps the order of the items that stay: removing from two runs gives the two results one after the other |
| Values.RemoveKeyOne | src/sentry/interfaces/http.py:222 | a single item under the removed key goes, any other single item stays |
| Request.RemoteAddrExample | src/sentry/interfaces/http.py:216-222 | "192.168.0.1" is kept and "not-an-ip" is removed |
| Request.ToPython | src/sentry/interfaces/http.py:126-232 | fails with InvalidData or InvalidMethod exactly as the two checks say; succeeds exactly when every step succeeds, and any later failure is Malformed; each stored field is its step's result with the source's trim bounds (4096, 1024, the body size setting); once the env step has run the caller's env has lost an invalid REMOTE_ADDR, even when the cookie step then fails |
| Projection.PruneNulls | src/sentry/interfaces/http.py:235 | exactly the items whose value is not None are kept |
| Projection.PruneNullsLookup | src/sentry/interfaces/http.py:235 | over distinct keys, pruning hides exactly the None values |
| Projection.JsonEntries | src/sentry/interfaces/http.py:235-245 | the nine keys of to_json are distinct, and url is always among them (as text; see "## Left out" for the no-URL case) |
| Projection.ToJson | src/sentry/interfaces/http.py:234-245 | to_json is a dict that never stores None |
| Projection.ToJsonLookup | src/sentry/interfaces/http.py:234-245 | each of the nine keys holds its value unless that value is None |
| Projection.ToJsonFields | src/sentry/interfaces/http.py:234-245 | method, data and inferred_content_type are stored unless None; url is always stored (as text; see "## Left out" for the no-URL case); query_string, fragment, cookies, headers and env are stored exactly when truthy |
| Projection.AsData | src/sentry/interfaces/http.py:234-245 | a stored dict read back as request data has exactly the stored keys and values |
| Projection.ReingestDecodesOnce | src/sentry/interfaces/http.py:205-211 | a stored record fed back through to_python is decoded again exactly when it stored no inferred type and its body is not a dict; otherwise its body comes back unchanged, with its inferred type when one was stored |
| Projection.FullUrl | src/sentry/interfaces/http.py:247-255 | an empty url stays empty (the model's stand-in for the no-URL case, see "## Left out"); the url is a prefix of the result; with no query and no fragment it is the url; it fails exactly when a truthy fragment is not text |
| Projection.FullUrlSplitsBack | src/sentry/interfaces/http.py:247-255 | cutting full_url at its first '#' and then its first '?' gives the url back; each cut exists exactly when that part is non-empty, and what follows is the encoded query and the fragment |
| Projection.PairList | src/sentry/interfaces/http.py:276-282 | falsy gives `()` and non-dicts are kept |
| Projection.PairListOfDict | src/sentry/interfaces/http.py:276-282 | a dict gives all its items, each once, sorted by key |
| Order.SortByKeyCorrect | src/sentry/interfaces/http.py:278 | `sorted(d.items())` is ordered by key and is a permutation of the items |
| Projection.ApiContext | src/sentry/interfaces/http.py:272-295 | public gives `{}`; otherwise a dict of nine distinct keys |
| Projection.ApiContextFields | src/sentry/interfaces/http.py:276-295 | method (None when absent) and url are shown as stored; query, fragment, data and inferredContentType are shown as stored; headers and cookies as pair lists; env only when non-empty |
| Projection.Reindexed | src/sentry/interfaces/http.py:303-306 | the re-indexed meta holds one entry per item other than '', plus the '' entry exactly when it was truthy, with its value |
| Projection.MetaField | src/sentry/interfaces/http.py:301-313 | a falsy or non-dict field meta is returned as it is; a dict is re-indexed, keeping one entry per item other than '' and its '' entry exactly when truthy |
| Projection.ReindexedCorrect | src/sentry/interfaces/http.py:303-306 | entry i, under str(i), is `{'1': v}` for the value v of the i-th smallest key other than ''; the '' entry survives exactly when it was truthy; no other key appears |
| Text.DecInjective | src/sentry/interfaces/http.py:304 | different indices get different keys `str(i)` |
| Projection.Popped | src/sentry/interfaces/http.py:303 | `pop('')` removes only the '' entry of that field's dict and changes nothing else |
| Projection.ApiMeta | src/sentry/interfaces/http.py:297-324 | public gives None and leaves meta alone; otherwise it succeeds exactly when headers and cookies meta are empty or dicts, gives the eight keys with headers and cookies re-indexed, and pops '' from the caller's dicts it re-indexed |

## Left out

- Python 2: the model uses Python 3 semantics throughout `six`. Text is `Str` and bytes are `Bytes`.
- Floats are not among the values, because JSON numbers are modelled as integers only.
- Dict keys are text only, since a decoded JSON document has no other keys.
- The schema validator `validate_and_default_interface` is a predicate on the submitted data. The defaults it fills in are not modelled.
- Collaborators are parameters, and their behaviour is left open:
  - `parse_qsl`, `urlsplit`, `urlunsplit`, `urlencode`;
  - `json.dumps`;
  - `to_unicode` and `six.text_type` of non-text values;
  - the UTF-8 decode with replacement;
  - `heuristic_decode`, `validate_ip`;
  - `trim`, `trim_pairs`, `trim_dict`;
  - `SENTRY_MAX_HTTP_BODY_SIZE`.

  Only the bounds the code passes (4096, 1024 and the body setting) are recorded. sentry.utils.safe, sentry.utils.http and sentry.utils.validators are not part of this model.
- Request.ToPython: the collaborators are total functions, so the model never raises where one of them would. For example, `urlsplit` raises ValueError on "http://[::1" at line 154, and the model still succeeds. "Succeeds exactly when every step succeeds" is meant up to that.
- `get_path(data, "headers", filter=True)` is modelled as dropping the None items of a list and keeping anything else.
- Text.Lower: `lower()`, `upper()` and `title()` map ASCII letters only. Python also maps other letters, and some to more than one character.
- Request.ValidateMethod: because `upper()` maps ASCII letters only, a method such as "\uFB01le" is rejected, although Python upper-cases it to "FILE" and accepts it.
- Normalize.FormatHeaders: because `lower()` and `title()` map ASCII letters only, a header named "Coo\u212Aie" (with a Kelvin sign) is kept as a header, although Python lower-cases it to "cookie" and diverts it; other non-ASCII names may also title-case differently.
- Normalize.FormatHeaders: a header name given as bytes makes the model fail. Python 3 would call `.lower()` and `.title()` on the bytes and keep the header, so `[[b"x", "v"]]` gives `([(b"X", "v")], None)`. A decoded JSON document never carries bytes, so the model treats such a name like any other non-text name.
- Normalize.FormatCookies: a cookie name given as bytes makes the model fail. Python 3 would strip the bytes and decode them through `fix_broken_encoding`, so `[[b" x ", "v"]]` gives `[["x", "v"]]`. The reason is the same: decoded JSON never carries bytes.
- Normalize.FixBrokenEncoding: text is returned unchanged. A Dafny string cannot hold the lone surrogates that the UTF-8 round trip would replace.
- Errors: every `TypeError`, `ValueError` and `AttributeError` is one `Malformed` error. The exception message is not kept.
- Projection.ApiMeta: meta whose headers and cookies entries are the same dict object is not modelled. Each entry is a separate value, so the second `pop('')` does not see the first.
- Request.ToPython: it uses the corrected method check `Request.ValidateMethod` and the corrected header step `Request.HeadersStep` (see "## Findings"). So it rejects the method "put\n", which the code stores as "PUT\n". It also succeeds on headers `[null]`, where the code raises ValueError at line 188. The code's behaviour on both is modelled by `Normalize.MethodPatternAsWritten` and `Request.HeadersStepAsWritten`.
- Request.WithoutQuery: when no URL is submitted, the code passes `(None, None, None, '', '')` to `urlunsplit`, which returns `b''` in Python 3 (None parts make it work on bytes). The model types `urlunsplit`'s result and `Http.url` as text, so its `urlUnsplit` collaborator stands for that call and the stored url stays text; the bytes value, and what `to_json` and `full_url` then do with it, are not modelled.
- Request.ToPython: the caller's data afterwards reflects only `del env['REMOTE_ADDR']`. The schema validator's in-place default filling is not modelled.
- Projection.ToJson: `prune_empty_keys` is modelled only as dropping None values.
- `cls(**kwargs)` and the `Interface` base class are not modelled.
- `to_email_html` and `get_title` are left out, because they only render a template and translate a title.

## Findings

| source | as written | input that shows it | evidently intended | confidence | as-written member | corrected member |
|---|---|---|---|---|---|---|
| src/sentry/interfaces/http.py:32 | `$` in `^[A-Z\-_]{3,32}$` also matches just before a final newline, so `re.match` accepts a method ending in "\n" | method "put\n" is stored as "PUT\n" | only 3 to 32 characters from A-Z, '-' and '_' (`\Z`) | high for Python's `re` semantics; not executed | Normalize.MethodPatternAsWritten, Normalize.TrailingNewlineAccepted | Request.ValidateMethod (via Normalize.MethodPattern) |
| src/sentry/interfaces/http.py:187-188 | headers that are truthy but only None survive the filter as `[]`; format_headers returns `()`, and `headers, cookie_header = ()` raises ValueError | `"headers": [null]` | treat them as no headers, like falsy headers | medium: relies on get_path's filtering and on the schema letting `[null]` through; not executed | Request.HeadersStepAsWritten, Request.NullHeadersRejected | Request.HeadersStep |
