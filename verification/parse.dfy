/**
 * A reader for the JSON text `Render` writes, used to show that the text determines the value:
 * reading back what was written gives the value again (`ParseRender`), so two values with the
 * same text are equal (`RenderInjective`). With `Canonical`, the text `json.dumps(v,
 * sort_keys=True)` writes is the same for two values exactly when they differ at most in the key
 * order of their dicts (`SerializeSameIff`).
 */
module Parse {
  import opened Wrappers
  import opened Json
  import Canonical
  import Render

  predicate IsDigit(c: char) {
    '0' <= c <= '9'
  }

  /** What may follow a number without being read as part of it. */
  predicate Delimited(rest: string) {
    |rest| == 0 || !IsDigit(rest[0])
  }

  /** The number of digits at the start of `s`. */
  function DigitRun(s: string): (n: nat)
    ensures n <= |s|
    decreases |s|
  {
    if |s| > 0 && IsDigit(s[0]) then 1 + DigitRun(s[1..]) else 0
  }

  /** The decimal value of a digit string. */
  function DigitsValue(ds: string): nat
    decreases |ds|
  {
    if |ds| == 0 then 0
    else
      var last := ds[|ds| - 1];
      DigitsValue(ds[..|ds| - 1]) * 10 + (if IsDigit(last) then last as int - '0' as int else 0)
  }

  function ParseNat(s: string): (r: Option<(int, string)>)
    ensures r.Some? ==> |r.value.1| < |s|
  {
    var n := DigitRun(s);
    if n == 0 then None else Some((DigitsValue(s[..n]), s[n..]))
  }

  function ParseInt(s: string): (r: Option<(int, string)>)
    ensures r.Some? ==> |r.value.1| < |s|
  {
    if |s| > 0 && s[0] == '-' then
      match ParseNat(s[1..])
      case None => None
      case Some((n, rest)) => Some((-n, rest))
    else ParseNat(s)
  }

  function HexValue(c: char): int
    requires Render.IsHexDigit(c)
  {
    if c <= '9' then c as int - '0' as int else c as int - 'a' as int + 10
  }

  function Hex2Value(s: string): Option<int>
    requires |s| == 2
  {
    if Render.IsHexDigit(s[0]) && Render.IsHexDigit(s[1]) then Some(HexValue(s[0]) * 0x10 + HexValue(s[1])) else None
  }

  function Hex4Value(s: string): (r: Option<int>)
    requires |s| == 4
    ensures r.Some? ==> 0 <= r.value < 0x1_0000
  {
    match (Hex2Value(s[..2]), Hex2Value(s[2..]))
    case (Some(hi), Some(lo)) => Some(hi * 0x100 + lo)
    case _ => None
  }

  /** Reads a `\uXXXX` escape, or a surrogate pair of two, at the start of `s`. */
  function DecodeUnicode(s: string): (r: Option<(char, string)>)
    requires |s| >= 6
    ensures r.Some? ==> |r.value.1| < |s|
  {
    match Hex4Value(s[2..6])
    case None => None
    case Some(n) =>
      if n < 0xD800 || 0xE000 <= n then Some((n as char, s[6..]))
      else if n < 0xDC00 && |s| >= 12 && s[6] == '\\' && s[7] == 'u' then
        match Hex4Value(s[8..12])
        case None => None
        case Some(m) =>
          if 0xDC00 <= m < 0xE000 then
            Some(((0x1_0000 + (n - 0xD800) * 0x400 + (m - 0xDC00)) as char, s[12..]))
          else None
      else None
  }

  /** Reads one character of a string body: an escape or a printable ASCII character. */
  function DecodeUnit(s: string): (r: Option<(char, string)>)
    requires |s| > 0
    ensures r.Some? ==> |r.value.1| < |s|
  {
    if s[0] == '\\' then
      if |s| < 2 then None
      else if s[1] == '"' then Some(('"', s[2..]))
      else if s[1] == '\\' then Some(('\\', s[2..]))
      else if s[1] == 'b' then Some((0x08 as char, s[2..]))
      else if s[1] == 'f' then Some((0x0C as char, s[2..]))
      else if s[1] == 'n' then Some(('\n', s[2..]))
      else if s[1] == 'r' then Some(('\r', s[2..]))
      else if s[1] == 't' then Some(('\t', s[2..]))
      else if s[1] == 'u' && |s| >= 6 then DecodeUnicode(s)
      else None
    else if ' ' <= s[0] <= '~' && s[0] != '"' then Some((s[0], s[1..]))
    else None
  }

  /** Reads a string body up to and including its closing quote. */
  function ParseChars(s: string): (r: Option<(string, string)>)
    ensures r.Some? ==> |r.value.1| < |s|
    decreases |s|
  {
    if |s| == 0 then None
    else if s[0] == '"' then Some(("", s[1..]))
    else
      match DecodeUnit(s)
      case None => None
      case Some((c, rest)) =>
        match ParseChars(rest)
        case None => None
        case Some((t, after)) => Some(([c] + t, after))
  }

  /** Reads one value at the start of `s`, choosing the reader by its first character. */
  function ParseValue(s: string): (r: Option<(Json, string)>)
    ensures r.Some? ==> |r.value.1| < |s|
    decreases |s|, 2
  {
    if |s| == 0 then None
    else if s[0] == '"' then ParseString(s)
    else if s[0] == '[' then ParseArray(s)
    else if s[0] == '{' then ParseObject(s)
    else if s[0] == '-' || IsDigit(s[0]) then ParseNumber(s)
    else ParseLiteral(s)
  }

  /** Reads `null`, `true` or `false`. */
  function ParseLiteral(s: string): (r: Option<(Json, string)>)
    ensures r.Some? ==> |r.value.1| < |s|
  {
    if |s| >= 4 && s[..4] == "null" then Some((Null, s[4..]))
    else if |s| >= 4 && s[..4] == "true" then Some((Bool(true), s[4..]))
    else if |s| >= 5 && s[..5] == "false" then Some((Bool(false), s[5..]))
    else None
  }

  function ParseNumber(s: string): (r: Option<(Json, string)>)
    ensures r.Some? ==> |r.value.1| < |s|
  {
    match ParseInt(s)
    case None => None
    case Some((i, rest)) => Some((Int(i), rest))
  }

  function ParseString(s: string): (r: Option<(Json, string)>)
    requires |s| > 0
    ensures r.Some? ==> |r.value.1| < |s|
  {
    match ParseChars(s[1..])
    case None => None
    case Some((t, rest)) => Some((Str(t), rest))
  }

  function ParseArray(s: string): (r: Option<(Json, string)>)
    requires |s| > 0
    ensures r.Some? ==> |r.value.1| < |s|
    decreases |s|, 1
  {
    if |s| >= 2 && s[1] == ']' then Some((Arr([]), s[2..]))
    else
      match ParseItems(s[1..])
      case None => None
      case Some((xs, rest)) => Some((Arr(xs), rest))
  }

  function ParseObject(s: string): (r: Option<(Json, string)>)
    requires |s| > 0
    ensures r.Some? ==> |r.value.1| < |s|
    decreases |s|, 1
  {
    if |s| >= 2 && s[1] == '}' then Some((Obj([]), s[2..]))
    else
      match ParseMembers(s[1..])
      case None => None
      case Some((ms, rest)) => Some((Obj(ms), rest))
  }

  /** Reads `v, v, ..., v]`. */
  function ParseItems(s: string): (r: Option<(seq<Json>, string)>)
    ensures r.Some? ==> |r.value.1| < |s|
    decreases |s|, 3
  {
    match ParseValue(s)
    case None => None
    case Some((v, rest)) =>
      if |rest| >= 1 && rest[0] == ']' then Some(([v], rest[1..]))
      else if |rest| >= 2 && rest[..2] == ", " then
        match ParseItems(rest[2..])
        case None => None
        case Some((vs, after)) => Some(([v] + vs, after))
      else None
  }

  /** Reads `"k": v, ..., "k": v}`. */
  function ParseMembers(s: string): (r: Option<(seq<Member>, string)>)
    ensures r.Some? ==> |r.value.1| < |s|
    decreases |s|, 3
  {
    if |s| == 0 || s[0] != '"' then None
    else
      match ParseChars(s[1..])
      case None => None
      case Some((k, rest)) =>
        if |rest| >= 2 && rest[..2] == ": " then
          match ParseValue(rest[2..])
          case None => None
          case Some((v, after)) =>
            if |after| >= 1 && after[0] == '}' then Some(([Member(k, v)], after[1..]))
            else if |after| >= 2 && after[..2] == ", " then
              match ParseMembers(after[2..])
              case None => None
              case Some((ms, end)) => Some(([Member(k, v)] + ms, end))
            else None
        else None
  }

  // ---------------------------------------------------------------------------------------------
  // Reading back what was written

  lemma DigitCharValue(d: int)
    requires 0 <= d < 10
    ensures IsDigit(Render.DigitChar(d)) && Render.DigitChar(d) as int - '0' as int == d
  {
  }

  lemma {:induction false} DigitTextRoundTrip(n: nat)
    ensures forall i :: 0 <= i < |Render.DigitText(n)| ==> IsDigit(Render.DigitText(n)[i])
    ensures DigitsValue(Render.DigitText(n)) == n
    decreases n
  {
    if n >= 10 {
      DigitTextRoundTrip(n / 10);
      DigitCharValue(n % 10);
      var t := Render.DigitText(n);
      assert t[..|t| - 1] == Render.DigitText(n / 10);
    } else {
      DigitCharValue(n);
    }
  }

  lemma {:induction false} DigitRunOf(ds: string, rest: string)
    requires forall i :: 0 <= i < |ds| ==> IsDigit(ds[i])
    requires Delimited(rest)
    ensures DigitRun(ds + rest) == |ds|
    decreases |ds|
  {
    if |ds| > 0 {
      assert (ds + rest)[1..] == ds[1..] + rest;
      DigitRunOf(ds[1..], rest);
    } else {
      assert ds + rest == rest;
    }
  }

  lemma ParseNatText(n: nat, rest: string)
    requires Delimited(rest)
    ensures ParseNat(Render.DigitText(n) + rest) == Some((n, rest))
  {
    var t := Render.DigitText(n);
    DigitTextRoundTrip(n);
    DigitRunOf(t, rest);
    assert (t + rest)[..|t|] == t;
    assert (t + rest)[|t|..] == rest;
  }

  lemma ParseIntText(i: int, rest: string)
    requires Delimited(rest)
    ensures ParseInt(Render.IntText(i) + rest) == Some((i, rest))
  {
    if i < 0 {
      ParseNegativeText(i, rest);
    } else {
      ParseNonNegativeText(i, rest);
    }
  }

  lemma ParseNegativeText(i: int, rest: string)
    requires Delimited(rest) && i < 0
    ensures ParseInt(Render.IntText(i) + rest) == Some((i, rest))
  {
    var t := Render.DigitText(-i);
    NegativeIntText(i);
    ParseNatText(-i, rest);
    ParseIntMinus(t + rest);
    assert Render.IntText(i) + rest == "-" + (t + rest);
  }

  /** One unfolding of `IntText`, kept as a lemma so that `ParseNegativeText` stays a small proof
      obligation. */
  lemma NegativeIntText(i: int)
    requires i < 0
    ensures Render.IntText(i) == "-" + Render.DigitText(-i)
  {
  }

  /** A minus sign negates the natural number read after it. */
  lemma ParseIntMinus(s: string)
    ensures ParseNat(s).Some? ==>
      ParseInt("-" + s) == Some((-ParseNat(s).value.0, ParseNat(s).value.1))
  {
    assert ("-" + s)[1..] == s;
  }

  lemma ParseNonNegativeText(i: int, rest: string)
    requires Delimited(rest) && i >= 0
    ensures ParseInt(Render.IntText(i) + rest) == Some((i, rest))
  {
    var s := Render.IntText(i) + rest;
    ParseNatText(i, rest);
    DigitTextStartsWithDigit(i);
    assert s[0] == Render.DigitText(i)[0];
  }

  lemma DigitTextStartsWithDigit(n: nat)
    ensures IsDigit(Render.DigitText(n)[0])
  {
    DigitTextRoundTrip(n);
  }

  lemma HexChar(d: int)
    requires 0 <= d < 16
    ensures Render.IsHexDigit(Render.HexDigits[d]) && HexValue(Render.HexDigits[d]) == d
  {
  }

  lemma Hex4RoundTrip(n: int)
    requires 0 <= n < 0x1_0000
    ensures Hex4Value(Render.Hex4(n)) == Some(n)
  {
    var hi, lo := n / 0x100, n % 0x100;
    HexChar(hi / 0x10);
    HexChar(hi % 0x10);
    HexChar(lo / 0x10);
    HexChar(lo % 0x10);
    var t := Render.Hex4(n);
    assert t[..2] == Render.Hex2(hi) && t[2..] == Render.Hex2(lo);
  }

  /** Reading back the escape of one character gives the character. */
  lemma DecodeEscapeChar(c: char, rest: string)
    ensures Render.EscapeChar(c)[0] != '"'
    ensures DecodeUnit(Render.EscapeChar(c) + rest) == Some((c, rest))
  {
    if c == '"' || c == '\\' || c as int == 0x08 || c as int == 0x0C || c == '\n' || c == '\r' || c == '\t' {
      DecodeShortEscape(c, rest);
    } else if ' ' <= c <= '~' {
      var s := Render.EscapeChar(c) + rest;
      assert s[1..] == rest;
    } else if c as int < 0x1_0000 {
      DecodeBmpEscape(c, rest);
    } else {
      DecodeSurrogatePair(c, rest);
    }
  }

  lemma DecodeShortEscape(c: char, rest: string)
    requires c == '"' || c == '\\' || c as int == 0x08 || c as int == 0x0C || c == '\n' || c == '\r' || c == '\t'
    ensures Render.EscapeChar(c)[0] == '\\'
    ensures DecodeUnit(Render.EscapeChar(c) + rest) == Some((c, rest))
  {
    var s := Render.EscapeChar(c) + rest;
    assert |Render.EscapeChar(c)| == 2;
    assert s[2..] == rest;
  }

  lemma DecodeBmpEscape(c: char, rest: string)
    requires !(' ' <= c <= '~') && c as int < 0x1_0000
    requires !(c as int == 0x08 || c as int == 0x0C || c == '\n' || c == '\r' || c == '\t')
    ensures Render.EscapeChar(c)[0] == '\\'
    ensures DecodeUnit(Render.EscapeChar(c) + rest) == Some((c, rest))
  {
    var s := Render.EscapeChar(c) + rest;
    assert Render.EscapeChar(c) == "\\u" + Render.Hex4(c as int);
    Hex4RoundTrip(c as int);
    assert s[2..6] == Render.Hex4(c as int);
    assert s[6..] == rest;
    assert DecodeUnicode(s) == Some((c, rest));
  }

  lemma DecodeSurrogatePair(c: char, rest: string)
    requires c as int >= 0x1_0000
    ensures Render.EscapeChar(c)[0] == '\\'
    ensures DecodeUnit(Render.EscapeChar(c) + rest) == Some((c, rest))
  {
    var n := c as int - 0x1_0000;
    var hi, lo := 0xD800 + n / 0x400, 0xDC00 + n % 0x400;
    SurrogateHalves(c);
    EscapeAstral(c);
    DecodePairText(hi, lo, rest);
  }

  lemma EscapeAstral(c: char)
    requires c as int >= 0x1_0000
    ensures var n := c as int - 0x1_0000;
      Render.EscapeChar(c) == "\\u" + Render.Hex4(0xD800 + n / 0x400) + "\\u" + Render.Hex4(0xDC00 + n % 0x400)
  {
    SurrogateHalves(c);
  }

  /** The two halves of the surrogate pair of `c` are a high and a low surrogate that add back to `c`. */
  lemma SurrogateHalves(c: char)
    requires c as int >= 0x1_0000
    ensures var n := c as int - 0x1_0000;
      0xD800 <= 0xD800 + n / 0x400 < 0xDC00 && 0xDC00 <= 0xDC00 + n % 0x400 < 0xE000 &&
      0x1_0000 + (n / 0x400) * 0x400 + n % 0x400 == c as int
  {
    var n := c as int - 0x1_0000;
    assert n < 0x10_0000;
  }

  lemma DecodePairText(hi: int, lo: int, rest: string)
    requires 0xD800 <= hi < 0xDC00 && 0xDC00 <= lo < 0xE000
    ensures var s := "\\u" + Render.Hex4(hi) + "\\u" + Render.Hex4(lo) + rest;
      DecodeUnit(s) == Some(((0x1_0000 + (hi - 0xD800) * 0x400 + (lo - 0xDC00)) as char, rest))
  {
    var s := "\\u" + Render.Hex4(hi) + "\\u" + Render.Hex4(lo) + rest;
    Hex4RoundTrip(hi);
    Hex4RoundTrip(lo);
    assert s[2..6] == Render.Hex4(hi);
    assert s[6] == '\\' && s[7] == 'u';
    assert s[8..12] == Render.Hex4(lo);
    assert s[12..] == rest;
  }

  /** Reading an escaped string body followed by its closing quote gives back the string. */
  lemma {:induction false} ParseCharsEscape(t: string, rest: string)
    ensures ParseChars(Render.Escape(t) + "\"" + rest) == Some((t, rest))
    decreases |t|
  {
    if |t| == 0 {
      assert Render.Escape(t) + "\"" + rest == "\"" + rest;
    } else {
      ParseCharsEscape(t[1..], rest);
      ParseCharsEscapeStep(t, rest);
    }
  }

  /** One step of `ParseCharsEscape`: the first character's escape, then the rest of the body. */
  lemma ParseCharsEscapeStep(t: string, rest: string)
    requires |t| > 0
    requires ParseChars(Render.Escape(t[1..]) + "\"" + rest) == Some((t[1..], rest))
    ensures ParseChars(Render.Escape(t) + "\"" + rest) == Some((t, rest))
  {
    var tail := Render.Escape(t[1..]) + "\"" + rest;
    EscapeCons(t, rest);
    DecodeEscapeChar(t[0], tail);
    ParseCharsStep(Render.EscapeChar(t[0]) + tail, t[0], tail, t[1..], rest);
    assert t == [t[0]] + t[1..];
  }

  lemma EscapeCons(t: string, rest: string)
    requires |t| > 0
    ensures Render.Escape(t) + "\"" + rest == Render.EscapeChar(t[0]) + (Render.Escape(t[1..]) + "\"" + rest)
  {
    EscapeUnfold(t);
    QuoteAssoc(Render.EscapeChar(t[0]), Render.Escape(t[1..]), rest);
  }

  /** One unfolding of `Escape`; this and `QuoteAssoc` are kept as lemmas, not inline asserts, so
      that `EscapeCons` stays a small proof obligation. */
  lemma EscapeUnfold(t: string)
    requires |t| > 0
    ensures Render.Escape(t) == Render.EscapeChar(t[0]) + Render.Escape(t[1..])
  {
  }

  lemma QuoteAssoc(e: string, tail: string, rest: string)
    ensures e + tail + "\"" + rest == e + (tail + "\"" + rest)
  {
  }

  /** Reading a string body: one decoded character, then the rest of the body. */
  lemma ParseCharsStep(s: string, c: char, more: string, t: string, after: string)
    requires |s| > 0 && s[0] != '"'
    requires DecodeUnit(s) == Some((c, more))
    requires ParseChars(more) == Some((t, after))
    ensures ParseChars(s) == Some(([c] + t, after))
  {
  }

  lemma RenderStart(v: Json)
    ensures Render.Render(v)[0] != ']' && Render.Render(v)[0] != '}'
  {
    if v.Int? {
      DigitTextRoundTrip(if v.i < 0 then -v.i else v.i);
    }
  }

  /** Reading back the text of a value gives the value and leaves the input after it. */
  lemma {:induction false} ParseRender(v: Json, rest: string)
    requires Delimited(rest)
    ensures ParseValue(Render.Render(v) + rest) == Some((v, rest))
    decreases v, 1
  {
    match v
    case Null => ParseRenderLiteral(v, rest);
    case Bool(_) => ParseRenderLiteral(v, rest);
    case Int(i) => ParseRenderInt(i, rest);
    case Str(t) => ParseRenderStr(t, rest);
    case Arr(xs) => ParseRenderArr(v, rest);
    case Obj(ms) => ParseRenderObj(v, rest);
  }

  lemma ParseRenderLiteral(v: Json, rest: string)
    requires v.Null? || v.Bool?
    ensures ParseValue(Render.Render(v) + rest) == Some((v, rest))
  {
    var s := Render.Render(v) + rest;
    if v.Null? {
      assert s[..4] == "null" && s[4..] == rest;
    } else if v.b {
      assert s[..4] == "true" && s[4..] == rest;
    } else {
      assert s[..5] == "false" && s[5..] == rest;
    }
  }

  lemma ParseRenderInt(i: int, rest: string)
    requires Delimited(rest)
    ensures ParseValue(Render.Render(Int(i)) + rest) == Some((Int(i), rest))
  {
    var s := Render.IntText(i) + rest;
    ParseIntText(i, rest);
    if i >= 0 {
      DigitTextStartsWithDigit(i);
      assert s[0] == Render.DigitText(i)[0];
    }
    assert ParseNumber(s) == Some((Int(i), rest));
  }

  lemma ParseRenderStr(t: string, rest: string)
    ensures ParseValue(Render.Render(Str(t)) + rest) == Some((Str(t), rest))
  {
    var s := Render.Quote(t) + rest;
    assert s[1..] == Render.Escape(t) + "\"" + rest;
    ParseCharsEscape(t, rest);
    assert ParseString(s) == Some((Str(t), rest));
  }

  lemma {:induction false} ParseRenderArr(v: Json, rest: string)
    requires v.Arr? && Delimited(rest)
    ensures ParseValue(Render.Render(v) + rest) == Some((v, rest))
    decreases v, 0
  {
    var s := Render.Render(v) + rest;
    var xs := v.items;
    if |xs| == 0 {
      assert v == Arr([]);
      assert Render.Render(v) == "[]";
      assert s == "[]" + rest;
      assert s[2..] == rest;
      assert ParseArray(s) == Some((v, rest));
    } else {
      assert Render.Render(v) == "[" + Render.RenderItems(xs) + "]";
      assert s[1..] == Render.RenderItems(xs) + "]" + rest;
      ParseRenderItems(xs, rest);
      RenderStart(xs[0]);
      assert s[1] == Render.Render(xs[0])[0];
      ParseArrayStep(s, xs, rest);
    }
  }

  lemma {:induction false} ParseRenderObj(v: Json, rest: string)
    requires v.Obj? && Delimited(rest)
    ensures ParseValue(Render.Render(v) + rest) == Some((v, rest))
    decreases v, 0
  {
    var s := Render.Render(v) + rest;
    var ms := v.members;
    if |ms| == 0 {
      ParseEmptyObj(rest);
    } else {
      assert Render.Render(v) == "{" + Render.RenderMembers(ms) + "}";
      assert s[1..] == Render.RenderMembers(ms) + "}" + rest;
      ParseRenderMembers(ms, rest);
      assert s[0] == '{' && s[1] == '"';
      assert ParseObject(s) == Some((v, rest));
    }
  }

  /** A non-empty array: `[` followed by its items and the closing bracket. */
  lemma ParseArrayStep(s: string, xs: seq<Json>, rest: string)
    requires |s| >= 2 && s[0] == '[' && s[1] != ']'
    requires ParseItems(s[1..]) == Some((xs, rest))
    ensures ParseValue(s) == Some((Arr(xs), rest))
  {
  }

  lemma ParseEmptyObj(rest: string)
    ensures ParseValue(Render.Render(Obj([])) + rest) == Some((Obj([]), rest))
  {
    var s := Render.Render(Obj([])) + rest;
    assert Render.Render(Obj([])) == "{}";
    assert s[2..] == rest;
  }

  lemma {:induction false} ParseRenderItems(xs: seq<Json>, rest: string)
    requires |xs| > 0
    ensures ParseItems(Render.RenderItems(xs) + "]" + rest) == Some((xs, rest))
    decreases xs
  {
    var s := Render.RenderItems(xs) + "]" + rest;
    if |xs| == 1 {
      var after := "]" + rest;
      assert s == Render.Render(xs[0]) + after;
      ParseRender(xs[0], after);
      assert after[0] == ']' && after[1..] == rest;
      assert xs == [xs[0]];
    } else {
      var more := Render.RenderItems(xs[1..]) + "]" + rest;
      var after := ", " + more;
      assert s == Render.Render(xs[0]) + after;
      ParseRender(xs[0], after);
      assert after[..2] == ", " && after[2..] == more;
      ParseRenderItems(xs[1..], rest);
      assert xs == [xs[0]] + xs[1..];
    }
  }

  lemma {:induction false} ParseRenderMembers(ms: seq<Member>, rest: string)
    requires |ms| > 0
    ensures ParseMembers(Render.RenderMembers(ms) + "}" + rest) == Some((ms, rest))
    decreases ms, 1
  {
    if |ms| == 1 {
      ParseRenderLastMember(ms, rest);
    } else {
      ParseRenderMoreMembers(ms, rest);
    }
  }

  lemma {:induction false} ParseRenderLastMember(ms: seq<Member>, rest: string)
    requires |ms| == 1
    ensures ParseMembers(Render.RenderMembers(ms) + "}" + rest) == Some((ms, rest))
    decreases ms, 0
  {
    var m := ms[0];
    var s := Render.RenderMembers(ms) + "}" + rest;
    var after := "}" + rest;
    assert s == Render.RenderMember(m) + after;
    ParseMemberHead(m, after);
    ParseMembersLast(s, m.key, Render.Render(m.value) + after, m.value, after);
    assert after[1..] == rest;
    assert ms == [Member(m.key, m.value)];
  }

  lemma {:induction false} ParseRenderMoreMembers(ms: seq<Member>, rest: string)
    requires |ms| > 1
    ensures ParseMembers(Render.RenderMembers(ms) + "}" + rest) == Some((ms, rest))
    decreases ms, 0
  {
    var m := ms[0];
    var s := Render.RenderMembers(ms) + "}" + rest;
    var more := Render.RenderMembers(ms[1..]) + "}" + rest;
    var after := ", " + more;
    assert s == Render.RenderMember(m) + after;
    ParseMemberHead(m, after);
    ParseRenderMembers(ms[1..], rest);
    ParseMembersNext(s, m.key, Render.Render(m.value) + after, m.value, more, ms[1..], rest);
    assert ms == [Member(m.key, m.value)] + ms[1..];
  }

  lemma ParseMembersLast(s: string, k: string, valueText: string, v: Json, after: string)
    requires |s| > 0 && s[0] == '"'
    requires ParseChars(s[1..]) == Some((k, ": " + valueText))
    requires ParseValue(valueText) == Some((v, after))
    requires |after| > 0 && after[0] == '}'
    ensures ParseMembers(s) == Some(([Member(k, v)], after[1..]))
  {
    assert (": " + valueText)[..2] == ": " && (": " + valueText)[2..] == valueText;
  }

  lemma ParseMembersNext(s: string, k: string, valueText: string, v: Json, more: string, ns: seq<Member>, end: string)
    requires |s| > 0 && s[0] == '"'
    requires ParseChars(s[1..]) == Some((k, ": " + valueText))
    requires ParseValue(valueText) == Some((v, ", " + more))
    requires ParseMembers(more) == Some((ns, end))
    ensures ParseMembers(s) == Some(([Member(k, v)] + ns, end))
  {
    assert (": " + valueText)[..2] == ": " && (": " + valueText)[2..] == valueText;
    assert (", " + more)[..2] == ", " && (", " + more)[2..] == more;
  }

  /** The key and value of one member are read back, up to what follows the value. */
  lemma {:induction false} ParseMemberHead(m: Member, after: string)
    requires Delimited(after)
    ensures var s := Render.RenderMember(m) + after;
      |s| > 0 && s[0] == '"' &&
      ParseChars(s[1..]) == Some((m.key, ": " + (Render.Render(m.value) + after))) &&
      ParseValue(Render.Render(m.value) + after) == Some((m.value, after))
    decreases m, 0
  {
    var valueAndAfter := Render.Render(m.value) + after;
    var s := Render.RenderMember(m) + after;
    assert s == "\"" + (Render.Escape(m.key) + "\"" + (": " + valueAndAfter));
    assert s[1..] == Render.Escape(m.key) + "\"" + (": " + valueAndAfter);
    ParseCharsEscape(m.key, ": " + valueAndAfter);
    ParseRender(m.value, after);
  }

  /** Different values have different texts. */
  lemma RenderInjective(a: Json, b: Json)
    requires Render.Render(a) == Render.Render(b)
    ensures a == b
  {
    ParseRender(a, "");
    ParseRender(b, "");
    assert Render.Render(a) + "" == Render.Render(a);
    assert Render.Render(b) + "" == Render.Render(b);
  }

  /** `json.dumps(v, sort_keys=True)` gives two well-formed values the same text exactly when they
      differ at most in the insertion order of dict keys. */
  lemma SerializeSameIff(a: Json, b: Json)
    requires WellFormed(a) && WellFormed(b)
    ensures Render.Serialize(a) == Render.Serialize(b) <==> Canonical.SameUpToKeyOrder(a, b)
  {
    if Render.Serialize(a) == Render.Serialize(b) {
      RenderInjective(Canonical.Canon(a), Canonical.Canon(b));
      Canonical.SameCanonIsSameUpToKeyOrder(a, b);
    }
    if Canonical.SameUpToKeyOrder(a, b) {
      Canonical.CanonIgnoresKeyOrder(a, b);
    }
  }
}
