/**
 * JavaScript values as far as the test engines look at them: what a test body
 * throws, rejects with, returns or passes to its `done` callback. The engines
 * only ask whether a value is truthy, whether it is an object carrying
 * `message` and `stack`, whether it has a `then` property, and how it reads
 * once `JSON.stringify` has turned it into text.
 */
module Values {

  datatype Option<T> = None | Some(value: T)

  datatype Result<T> = Ok(value: T) | Err(message: string)

  /**
   * The `then` property of an object a test body returns. `NoThen` is a
   * `then` that is absent or falsy (`{then: 0}`, say): the checks at
   * lib/eltro.mjs:154 and lib/casette.mjs:92 see no promise and take the
   * return for a synchronous one. `ThenNotCallable` is a truthy `then` that
   * is not a function, and `ThenCallable` a function.
   */
  datatype ThenProperty = NoThen | ThenNotCallable | ThenCallable

  /**
   * What `JSON.stringify` does with an object, which the model leaves opaque:
   * either the text it produces, or the text of `'' + value` together with
   * the message of the exception stringification throws (a cyclic object,
   * say).
   */
  datatype Rendering = Stringified(text: string) | StringifyThrows(asText: string, reason: string)

  /**
   * `Object` is any object not created by the engine: its `message` and
   * `stack` properties (None when null or undefined), its `then` property and
   * its opaque JSON rendering. `Error` is an Error object created with
   * `new Error(message)`, which always has a stack; `originalError` is the
   * auxiliary field the engine attaches to errors it synthesises.
   */
  datatype Value =
    | Undefined
    | Null
    | Bool(b: bool)
    | Number(n: int)
    | Text(s: string)
    | Object(messageProp: Option<string>, stackProp: Option<string>, thenProp: ThenProperty, rendering: Rendering)
    | Error(message: string, originalError: Option<Value>)

  /** JavaScript truthiness (`if (v)`). */
  predicate Truthy(v: Value) {
    match v
    case Undefined => false
    case Null => false
    case Bool(b) => b
    case Number(n) => n != 0
    case Text(s) => s != ""
    case Object(_, _, _, _) => true
    case Error(_, _) => true
  }

  /** The falsy values are exactly `undefined`, `null`, `false`, `0` and `""`. */
  lemma FalsyExactly(v: Value)
    ensures !Truthy(v) <==> v == Undefined || v == Null || v == Bool(false) || v == Number(0) || v == Text("")
  {
  }

  /** `typeof v === 'object' && v.message != null && v.stack != null`, for a truthy `v`. */
  predicate ErrorShaped(v: Value) {
    match v
    case Object(m, s, _, _) => m.Some? && s.Some?
    case Error(_, _) => true
    case _ => false
  }

  /** Only a truthy value is error-shaped, so the falsy branch comes first without loss. */
  lemma ErrorShapedTruthy(v: Value)
    ensures ErrorShaped(v) ==> Truthy(v)
  {
  }

  // ---------------------------------------------------------------------------
  // Decimal text of numbers (`'' + n` for an integer n)

  predicate IsDigit(c: char) {
    '0' <= c <= '9'
  }

  function DigitChar(d: nat): (c: char)
    requires d < 10
    ensures IsDigit(c) && (c as int) - ('0' as int) == d
  {
    ('0' as int + d) as char
  }

  function DigitValue(c: char): nat
    requires IsDigit(c)
  {
    (c as int) - ('0' as int)
  }

  /** The decimal text of `n`, without leading zeros. */
  function NatToDecimal(n: nat): (r: string)
    ensures |r| > 0 && (forall i :: 0 <= i < |r| ==> IsDigit(r[i]))
    ensures |r| > 1 ==> r[0] != '0'
    decreases n
  {
    if n < 10 then [DigitChar(n)] else NatToDecimal(n / 10) + [DigitChar(n % 10)]
  }

  /** The number a string of digits denotes: the inverse of NatToDecimal. */
  function DecimalValue(s: string): nat
    requires forall i :: 0 <= i < |s| ==> IsDigit(s[i])
    decreases |s|
  {
    if s == [] then 0
    else 10 * DecimalValue(s[..|s| - 1]) + DigitValue(s[|s| - 1])
  }

  lemma {:induction false} DecimalRoundTrip(n: nat)
    ensures DecimalValue(NatToDecimal(n)) == n
    decreases n
  {
    var r := NatToDecimal(n);
    if n >= 10 {
      DecimalRoundTrip(n / 10);
      assert r[..|r| - 1] == NatToDecimal(n / 10);
    }
  }

  function IntToDecimal(n: int): string {
    if n < 0 then "-" + NatToDecimal(-n) else NatToDecimal(n)
  }

  // ---------------------------------------------------------------------------
  // JSON.stringify of a string: QuoteJSONString of ECMA-262 (section 25.5.2.3
  // of the 2023 edition). Characters are Unicode scalar values, so the lone
  // surrogate case of that algorithm cannot arise.

  function HexDigit(d: nat): (c: char)
    requires d < 16
  {
    "0123456789abcdef"[d]
  }

  function HexValue(c: char): Option<nat> {
    if '0' <= c <= '9' then Some((c as int) - ('0' as int))
    else if 'a' <= c <= 'f' then Some((c as int) - ('a' as int) + 10)
    else if 'A' <= c <= 'F' then Some((c as int) - ('A' as int) + 10)
    else None
  }

  /** How QuoteJSONString writes one character. */
  function JsonEscapeChar(c: char): string {
    var k := c as int;
    if c == '"' then "\\\""
    else if c == '\\' then "\\\\"
    else if k == 8 then "\\b"
    else if k == 9 then "\\t"
    else if k == 10 then "\\n"
    else if k == 12 then "\\f"
    else if k == 13 then "\\r"
    else if k < 32 then "\\u00" + [HexDigit(k / 16), HexDigit(k % 16)]
    else [c]
  }

  function JsonEscape(s: string): string
    decreases |s|
  {
    if s == [] then [] else JsonEscapeChar(s[0]) + JsonEscape(s[1..])
  }

  /** `JSON.stringify(s)` for a string `s`. */
  function JsonQuote(s: string): string {
    "\"" + JsonEscape(s) + "\""
  }

  /** A character QuoteJSONString writes as itself. */
  predicate PlainJsonChar(c: char) {
    c != '"' && c != '\\' && (c as int) >= 32
  }

  lemma {:induction false} PlainTextEscapesToItself(s: string)
    requires forall i :: 0 <= i < |s| ==> PlainJsonChar(s[i])
    ensures JsonEscape(s) == s
    decreases |s|
  {
    if s != [] {
      PlainTextEscapesToItself(s[1..]);
    }
  }

  /** The JSON string-literal body decoder: the inverse of JsonEscape. */
  function JsonUnescape(s: string): Option<string>
    decreases |s|
  {
    if s == [] then Some([])
    else if s[0] != '\\' then
      if PlainJsonChar(s[0]) then Cons(s[0], JsonUnescape(s[1..])) else None
    else if |s| < 2 then None
    else if s[1] == '"' then Cons('"', JsonUnescape(s[2..]))
    else if s[1] == '\\' then Cons('\\', JsonUnescape(s[2..]))
    else if s[1] == 'b' then Cons(8 as char, JsonUnescape(s[2..]))
    else if s[1] == 't' then Cons(9 as char, JsonUnescape(s[2..]))
    else if s[1] == 'n' then Cons(10 as char, JsonUnescape(s[2..]))
    else if s[1] == 'f' then Cons(12 as char, JsonUnescape(s[2..]))
    else if s[1] == 'r' then Cons(13 as char, JsonUnescape(s[2..]))
    else if s[1] == 'u' && |s| >= 6 then
      match (HexValue(s[2]), HexValue(s[3]), HexValue(s[4]), HexValue(s[5]))
      case (Some(a), Some(b), Some(c), Some(d)) =>
        var k := ((a * 16 + b) * 16 + c) * 16 + d;
        if k < 0xD800 then Cons(k as char, JsonUnescape(s[6..])) else None
      case _ => None
    else None
  }

  function Cons(c: char, rest: Option<string>): Option<string> {
    match rest
    case None => None
    case Some(r) => Some([c] + r)
  }

  lemma HexRoundTrip(d: nat)
    requires d < 16
    ensures HexValue(HexDigit(d)) == Some(d)
  {
  }

  lemma {:induction false} EscapeCharRoundTrip(c: char, rest: string)
    ensures JsonUnescape(JsonEscapeChar(c) + rest) == Cons(c, JsonUnescape(rest))
  {
    var k := c as int;
    var e := JsonEscapeChar(c);
    if c == '"' || c == '\\' || k == 8 || k == 9 || k == 10 || k == 12 || k == 13 {
      assert (e + rest)[2..] == rest;
    } else if k < 32 {
      HexRoundTrip(k / 16);
      HexRoundTrip(k % 16);
      var s := e + rest;
      assert s[1] == 'u' && s[2] == '0' && s[3] == '0';
      assert s[4] == HexDigit(k / 16) && s[5] == HexDigit(k % 16);
      assert ((0 * 16 + 0) * 16 + k / 16) * 16 + k % 16 == k;
      assert s[6..] == rest;
    } else {
      assert (e + rest)[1..] == rest;
    }
  }

  lemma {:induction false} JsonRoundTrip(s: string)
    ensures JsonUnescape(JsonEscape(s)) == Some(s)
    decreases |s|
  {
    if s != [] {
      JsonRoundTrip(s[1..]);
      EscapeCharRoundTrip(s[0], JsonEscape(s[1..]));
      assert [s[0]] + s[1..] == s;
    }
  }

  /**
   * The text `JSON.stringify(v)` contributes when concatenated to a string.
   * Primitives follow the JSON standard (ECMA-404); `undefined` stringifies
   * to undefined, which concatenates as "undefined". The Error case is not
   * reached: every Error is error-shaped, so `Normalize` never stringifies
   * one. Its "{}" is a placeholder; an engine-made error would also show its
   * enumerable `originalError`.
   */
  function Stringify(v: Value): Rendering {
    match v
    case Undefined => Stringified("undefined")
    case Null => Stringified("null")
    case Bool(b) => Stringified(if b then "true" else "false")
    case Number(n) => Stringified(IntToDecimal(n))
    case Text(s) => Stringified(JsonQuote(s))
    case Object(_, _, _, r) => r
    case Error(_, _) => Stringified("{}")
  }
}
