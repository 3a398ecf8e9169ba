/** Values that cross the boundary of the modelled code: decoded JSON,
    request parameters, and the library functions the source calls but
    whose implementation lies outside it (PHP's `filter_var`, `parse_url`,
    `inet_pton`, `json_decode`/`json_encode`, `md5`, HMAC-SHA256 and float
    formatting). The library functions are fields of `Externals`, passed to
    every operation that needs them; `Lawful` states the few facts about
    them that the proofs rely on. */
module Externals {
  import opened Wrappers
  import opened Text
  import opened Ordering

  /** A decoded JSON document, as `json_decode($s, true)` returns it: JSON
      objects become associative arrays (`JObject`), JSON arrays become lists. */
  datatype Json =
    | JNull
    | JBool(b: bool)
    | JInt(i: int)
    | JFloat(f: real)
    | JStr(s: string)
    | JList(items: seq<Json>)
    | JObject(fields: map<string, Json>)

  /** PHP `is_array`. */
  predicate IsArray(j: Json) {
    j.JList? || j.JObject?
  }

  /** `isset($j[$k]) ? $j[$k] : null` for a non-numeric key `k`: only an
      associative array with a non-null entry has it. */
  function Get(j: Json, k: string): Option<Json> {
    if j.JObject? && k in j.fields && j.fields[k] != JNull then Some(j.fields[k]) else None
  }

  /** `$j[$k] ?? $default`. */
  function GetOr(j: Json, k: string, default: Json): Json {
    Get(j, k).GetOr(default)
  }

  /** `array_key_exists($k, $j)`, which also sees entries holding null. */
  predicate HasKey(j: Json, k: string) {
    j.JObject? && k in j.fields
  }

  /** PHP `empty($v)`. */
  predicate Empty(j: Json) {
    match j
    case JNull => true
    case JBool(b) => !b
    case JInt(i) => i == 0
    case JFloat(f) => f == 0.0
    case JStr(s) => s == "" || s == "0"
    case JList(items) => items == []
    case JObject(fields) => fields == map[]
  }

  /** The values of a PHP array in iteration order. A list keeps its order;
      the key order of an object is not recorded by `JObject`, so its values
      are taken in key order. */
  function ArrayValues(j: Json): (r: seq<Json>)
    requires IsArray(j)
    ensures j.JList? ==> r == j.items
    ensures j.JObject? ==> |r| == |j.fields| && forall v :: v in r ==> v in j.fields.Values
  {
    if j.JList? then j.items
    else
      var ks := SortedElements(j.fields.Keys);
      seq(|ks|, i requires 0 <= i < |ks| => j.fields[ks[i]])
  }

  /** A byte of a binary string, as its eight bits, most significant first. */
  type Byte = b: seq<bool> | |b| == 8 witness [false, false, false, false, false, false, false, false]

  /** Components of a URL as `parse_url` returns them. */
  datatype UrlParts = UrlParts(scheme: Option<string>, host: Option<string>, path: Option<string>)

  /** The library functions the source calls. */
  datatype Externals = Externals(
    validEmail: string -> bool,        // filter_var(FILTER_VALIDATE_EMAIL)
    validUrl: string -> bool,          // filter_var(FILTER_VALIDATE_URL)
    validIp: string -> bool,           // filter_var(FILTER_VALIDATE_IP)
    publicIp: string -> bool,          // ... with FILTER_FLAG_NO_PRIV_RANGE | FILTER_FLAG_NO_RES_RANGE
    sanitizeUrl: string -> string,     // filter_var(FILTER_SANITIZE_URL)
    parseUrl: string -> UrlParts,      // parse_url; every part None where PHP returns false
    inetPton: string -> Option<seq<Byte>>, // inet_pton; None where PHP returns false
    jsonDecode: string -> Option<Json>,   // json_decode(.., true); None on a syntax error
    jsonEncode: Json -> string,        // json_encode
    md5: string -> string,             // md5 / hashlib.md5(..).hexdigest()
    hmacSha256: (string, string) -> string, // hmac.new(key, msg, sha256).hexdigest()
    floatToString: real -> string,     // PHP (string) of a float
    pow2: real -> real,                // pow(2, $b) for a float $b
    urlDecode: string -> string        // urldecode
  )

  /** PHP's `(string)` cast of a decoded JSON value. */
  function Stringify(x: Externals, j: Json): string {
    match j
    case JNull => ""
    case JBool(b) => if b then "1" else ""
    case JInt(i) => IntToString(i)
    case JFloat(f) => x.floatToString(f)
    case JStr(s) => s
    case JList(_) => "Array"
    case JObject(_) => "Array"
  }

  /** Values that survive a `json_encode` / `json_decode(.., true)` round
      trip unchanged: an empty PHP array encodes as the JSON list `[]`, so
      no associative array in it may be empty. */
  predicate Encodable(v: Json)
    decreases v
  {
    match v
    case JObject(f) => f != map[] && forall k :: k in f ==> Encodable(f[k])
    case JList(items) => forall i :: 0 <= i < |items| ==> Encodable(items[i])
    case _ => true
  }

  /** The facts about the library functions that the proofs rely on. */
  ghost predicate Lawful(x: Externals) {
    && (forall v :: Encodable(v) ==> x.jsonDecode(x.jsonEncode(v)) == Some(v))
    && x.jsonDecode("") == None
    && (forall s :: x.validEmail(s) ==> '@' in s)
    && (forall s :: x.publicIp(s) ==> x.validIp(s))
    && !x.validIp("")
    && (forall s :: x.inetPton(s).Some? ==> |x.inetPton(s).value| in {4, 16})
    && ExactPow(x)
  }

  /** `pow(2, b)` is exact for a whole `b` from 0 to 8. */
  ghost predicate ExactPow(x: Externals) {
    forall b: real :: 0.0 <= b <= 8.0 && b == b.Floor as real ==> x.pow2(b) == Pow2(b.Floor) as real
  }

  /** The exceptions that escape the modelled PHP code: a `TypeError` from a
      built-in called with a value of the wrong type, a `ValueError` from a
      built-in given an out-of-range argument, and the
      `InvalidArgumentException` that `Http::isIpInRange` throws. */
  datatype Exception = TypeError | ValueError | InvalidArgument

  /** The settings read from `config.ini`: `parse_ini_file` yields strings.
      A missing or unreadable file is the empty map. */
  type Settings = map<string, string>

  /** `$settings[$key] ?? ''`, which is also what a missing key reads as
      under `empty()` and string concatenation. */
  function Setting(settings: Settings, key: string): string {
    if key in settings then settings[key] else ""
  }

  /** A request parameter: PHP request values are strings, or arrays when
      the query uses the `name[]=` form. */
  datatype Param = Str(s: string) | Arr

  type Request = map<string, Param>

  /** PHP's `(string)` cast of a request value: an array reads as "Array". */
  function ParamString(p: Param): string {
    if p.Str? then p.s else "Array"
  }

  /** PHP's `(int)` cast of a request value. A request array is never empty
      (`name[]=` yields `[""]`), so it casts to 1. */
  function ParamInt(p: Param): int {
    if p.Str? then PhpIntval(p.s) else 1
  }

  /** PHP's `(float)` cast of a request value; an array casts to 1.0. */
  function ParamFloat(p: Param): real {
    if p.Str? then PhpFloatval(p.s) else 1.0
  }
}
