/** The code the request normaliser calls but does not define: library
    parsers and encoders, Sentry's own helpers and one setting. Each is a
    parameter, so every property proved here holds whatever they do. */
module External {
  import opened Values

  /** The five parts `urlsplit` returns. */
  datatype UrlParts = UrlParts(scheme: string, netloc: string, path: string, query: string, fragment: string)

  /** The five parts handed to `urlunsplit`; the first three are None when
      no URL was submitted. */
  datatype UnsplitArgs = UnsplitArgs(
    scheme: Option<string>, netloc: Option<string>, path: Option<string>,
    query: string, fragment: string)

  datatype Collaborators = Collaborators(
    /** validate_and_default_interface(data, 'request'): does the schema accept it? */
    validate: map<string, Value> -> bool,
    /** urllib's urlsplit */
    urlSplit: string -> UrlParts,
    /** urllib's urlunsplit */
    urlUnsplit: UnsplitArgs -> string,
    /** urllib's parse_qsl(s, keep_blank_values=True) */
    parseQsl: string -> seq<(string, string)>,
    /** django's urlencode */
    urlencode: Value -> string,
    /** sentry.utils.json.dumps */
    jsonDumps: Value -> string,
    /** to_unicode and six.text_type of a value that is not text */
    textOf: Value -> string,
    /** bytes.decode('utf8', errors='replace') */
    decodeUtf8: seq<Byte> -> string,
    /** sentry.utils.http.heuristic_decode(body, content_type) */
    heuristicDecode: (Value, Option<string>) -> (Value, Value),
    /** validate_ip(value, required=False) returns without raising ValueError */
    ipValid: Value -> bool,
    /** sentry.utils.safe.trim(value, max_size) */
    trim: (Value, nat) -> Value,
    /** sentry.utils.safe.trim_pairs with its default bound */
    trimPairs: Value -> Value,
    /** sentry.utils.safe.trim_dict with its default bound */
    trimDict: Value -> Value,
    /** settings.SENTRY_MAX_HTTP_BODY_SIZE */
    maxBodySize: nat)
}
