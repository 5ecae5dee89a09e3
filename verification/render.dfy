/**
 * The text Python's `json.dumps(value, sort_keys=True)` produces with its default settings:
 * separators ", " and ": ", no indentation, and `ensure_ascii=True` escaping of strings.
 * `Render` prints a value with its members in the order given; `Serialize` first puts the value
 * in canonical (key-sorted) form, which is what `sort_keys=True` does.
 */
module Render {
  import opened Json
  import Canonical

  const HexDigits: string := "0123456789abcdef"

  /** One of the characters of `HexDigits`. */
  predicate IsHexDigit(c: char) {
    '0' <= c <= '9' || 'a' <= c <= 'f'
  }

  /** The decimal digit for `d`. */
  function DigitChar(d: nat): char
    requires d < 10
  {
    ('0' as int + d) as char
  }

  /** The decimal digits of `n`, most significant first, without leading zeros. */
  function DigitText(n: nat): (r: string)
    ensures |r| > 0
    decreases n
  {
    if n < 10 then [DigitChar(n)] else DigitText(n / 10) + [DigitChar(n % 10)]
  }

  /** Python's `str(i)` for an int, as `json.dumps` writes it. */
  function IntText(i: int): string {
    if i < 0 then "-" + DigitText(-i) else DigitText(i)
  }

  /** Two lower-case hex digits of a byte. */
  function Hex2(n: int): (r: string)
    requires 0 <= n < 0x100
    ensures |r| == 2
  {
    [HexDigits[n / 0x10], HexDigits[n % 0x10]]
  }

  /** Python's `'{0:04x}'.format(n)`: exactly four lower-case hex digits. */
  function Hex4(n: int): (r: string)
    requires 0 <= n < 0x1_0000
    ensures |r| == 4
  {
    Hex2(n / 0x100) + Hex2(n % 0x100)
  }

  /** How `json.dumps` with `ensure_ascii=True` writes one character of a string: the two-character
      escapes for the quote, the backslash and five control characters; printable ASCII as itself;
      any other character below U+10000 as `\uXXXX`; anything above as a UTF-16 surrogate pair. */
  function EscapeChar(c: char): (r: string)
    ensures |r| > 0
  {
    if c == '"' then "\\\""
    else if c == '\\' then "\\\\"
    else if c as int == 0x08 then "\\b"
    else if c as int == 0x0C then "\\f"
    else if c == '\n' then "\\n"
    else if c == '\r' then "\\r"
    else if c == '\t' then "\\t"
    else if ' ' <= c <= '~' then [c]
    else if c as int < 0x1_0000 then "\\u" + Hex4(c as int)
    else
      var n := c as int - 0x1_0000;
      "\\u" + Hex4(0xD800 + n / 0x400) + "\\u" + Hex4(0xDC00 + n % 0x400)
  }

  function Escape(s: string): string {
    if |s| == 0 then "" else EscapeChar(s[0]) + Escape(s[1..])
  }

  function Quote(s: string): string {
    "\"" + Escape(s) + "\""
  }

  /** The text of a value, members in the order given. */
  function Render(v: Json): (r: string)
    ensures |r| > 0
    decreases v
  {
    match v
    case Null => "null"
    case Bool(b) => if b then "true" else "false"
    case Int(i) => IntText(i)
    case Str(s) => Quote(s)
    case Arr(xs) => "[" + RenderItems(xs) + "]"
    case Obj(ms) => "{" + RenderMembers(ms) + "}"
  }

  function RenderItems(xs: seq<Json>): string
    decreases xs
  {
    if |xs| == 0 then ""
    else if |xs| == 1 then Render(xs[0])
    else Render(xs[0]) + ", " + RenderItems(xs[1..])
  }

  function RenderMember(m: Member): string
    decreases m
  {
    Quote(m.key) + ": " + Render(m.value)
  }

  function RenderMembers(ms: seq<Member>): string
    decreases ms
  {
    if |ms| == 0 then ""
    else if |ms| == 1 then RenderMember(ms[0])
    else RenderMember(ms[0]) + ", " + RenderMembers(ms[1..])
  }

  /** `json.dumps(v, sort_keys=True)`. */
  function Serialize(v: Json): string {
    Render(Canonical.Canon(v))
  }

  /** A two-element array (a Python pair) is written as its elements' texts between brackets. */
  lemma SerializePair(a: Json, k: Json)
    ensures Serialize(Arr([a, k])) == "[" + Serialize(a) + ", " + Serialize(k) + "]"
  {
    CanonPair(a, k);
    RenderPair(Canonical.Canon(a), Canonical.Canon(k));
  }

  lemma CanonPair(a: Json, k: Json)
    ensures Canonical.Canon(Arr([a, k])) == Arr([Canonical.Canon(a), Canonical.Canon(k)])
  {
    assert [a, k][1..] == [k];
    assert Canonical.CanonItems([a, k]) == [Canonical.Canon(a), Canonical.Canon(k)];
  }

  lemma RenderPair(x: Json, y: Json)
    ensures Render(Arr([x, y])) == "[" + Render(x) + ", " + Render(y) + "]"
  {
    assert [x, y][1..] == [y];
    assert RenderItems([x, y]) == Render(x) + ", " + Render(y);
  }

  /** Inserting the keys of any dict inside `a` in another order does not change its JSON text. */
  lemma SerializeIgnoresKeyOrder(a: Json, b: Json)
    requires WellFormed(a) && WellFormed(b)
    requires Canonical.SameUpToKeyOrder(a, b)
    ensures Serialize(a) == Serialize(b)
  {
    Canonical.CanonIgnoresKeyOrder(a, b);
  }
}
