/** UTF-8 (RFC 3629, section 3) over Unicode scalar values. */
module Utf8 {
  import opened Wrappers
  import opened Bytes

  function EncodeChar(c: char): (b: seq<byte>)
    ensures 1 <= |b| <= 4
  {
    var n := c as int;
    var low, mid, high := n % 64, n / 64 % 64, n / 64 / 64 % 64;
    if n < 0x80 then [n]
    else if n < 0x800 then [0xC0 + n / 64, 0x80 + low]
    else if n < 0x1_0000 then [0xE0 + n / 64 / 64, 0x80 + mid, 0x80 + low]
    else [0xF0 + n / 64 / 64 / 64, 0x80 + high, 0x80 + mid, 0x80 + low]
  }

  function Encode(s: string): seq<byte> {
    if s == [] then [] else EncodeChar(s[0]) + Encode(s[1..])
  }

  predicate Tail(b: byte) {
    0x80 <= b < 0xC0
  }

  /** A value with six more bits from a continuation byte. */
  function Shift(value: int, tail: int): int {
    value * 64 + (tail - 0x80)
  }

  /** The first character of `b` and its length, in the shortest form only. */
  function DecodeChar(b: seq<byte>): (r: Option<(char, nat)>)
    ensures r.Some? ==> 1 <= r.value.1 <= |b|
  {
    if b == [] then None
    else
      var lead: int := b[0];
      if lead < 0x80 then Some((lead as char, 1))
      else if 0xC2 <= lead < 0xE0 then
        if |b| >= 2 && Tail(b[1]) then Some((Shift(lead - 0xC0, b[1]) as char, 2)) else None
      else if 0xE0 <= lead < 0xF0 then
        if |b| >= 3 && Tail(b[1]) && Tail(b[2]) && (lead == 0xE0 ==> b[1] >= 0xA0) && (lead == 0xED ==> b[1] < 0xA0)
        then Some((Shift(Shift(lead - 0xE0, b[1]), b[2]) as char, 3)) else None
      else if 0xF0 <= lead < 0xF5 then
        if |b| >= 4 && Tail(b[1]) && Tail(b[2]) && Tail(b[3])
           && (lead == 0xF0 ==> b[1] >= 0x90) && (lead == 0xF4 ==> b[1] < 0x90)
        then Some((Shift(Shift(Shift(lead - 0xF0, b[1]), b[2]), b[3]) as char, 4)) else None
      else None
  }

  function Decode(b: seq<byte>): Option<string>
    decreases |b|
  {
    if b == [] then Some([])
    else
      match DecodeChar(b)
      case None => None
      case Some((c, length)) =>
        match Decode(b[length..])
        case None => None
        case Some(rest) => Some([c] + rest)
  }

  lemma Unshift(value: int, tail: int)
    requires 0x80 <= tail < 0xC0
    ensures Shift(value, tail) / 64 == value && Shift(value, tail) % 64 == tail - 0x80
  {
  }

  lemma DecodeEncodedChar(c: char, rest: seq<byte>)
    ensures DecodeChar(EncodeChar(c) + rest) == Some((c, |EncodeChar(c)|))
  {
    var n := c as int;
    assert Shift(n / 64, 0x80 + n % 64) == n;
    assert Shift(n / 64 / 64, 0x80 + n / 64 % 64) == n / 64;
    assert Shift(n / 64 / 64 / 64, 0x80 + n / 64 / 64 % 64) == n / 64 / 64;
  }

  lemma EncodeDecodedChar(b: seq<byte>)
    requires DecodeChar(b).Some?
    ensures b[..DecodeChar(b).value.1] == EncodeChar(DecodeChar(b).value.0)
  {
    var (c, length) := DecodeChar(b).value;
    hide Shift;
    if length == 2 {
      Unshift(b[0] - 0xC0, b[1]);
    } else if length == 3 {
      var two := Shift(b[0] - 0xE0, b[1]);
      Unshift(b[0] - 0xE0, b[1]);
      Unshift(two, b[2]);
    } else if length == 4 {
      var two := Shift(b[0] - 0xF0, b[1]);
      var three := Shift(two, b[2]);
      Unshift(b[0] - 0xF0, b[1]);
      Unshift(two, b[2]);
      Unshift(three, b[3]);
    }
  }

  lemma {:induction false} DecodeEncode(s: string)
    ensures Decode(Encode(s)) == Some(s)
  {
    hide EncodeChar, DecodeChar;
    if s != [] {
      var rest := Encode(s[1..]);
      var b := EncodeChar(s[0]) + rest;
      DecodeEncodedChar(s[0], rest);
      DecodeEncode(s[1..]);
      assert b[|EncodeChar(s[0])|..] == rest;
      assert s == [s[0]] + s[1..];
    }
  }

  lemma {:induction false} EncodeDecode(b: seq<byte>)
    requires Decode(b).Some?
    ensures Encode(Decode(b).value) == b
    decreases |b|
  {
    hide EncodeChar, DecodeChar;
    if b != [] {
      var (c, length) := DecodeChar(b).value;
      EncodeDecodedChar(b);
      EncodeDecode(b[length..]);
      assert b == b[..length] + b[length..];
      assert Decode(b).value[1..] == Decode(b[length..]).value;
    }
  }

  lemma {:induction false} EncodeAppend(s: string, t: string)
    ensures Encode(s + t) == Encode(s) + Encode(t)
  {
    hide EncodeChar;
    if s == [] {
      assert s + t == t;
    } else {
      EncodeAppend(s[1..], t);
      assert (s + t)[1..] == s[1..] + t;
    }
  }

  lemma {:induction false} AsciiLength(s: string)
    requires forall i | 0 <= i < |s| :: s[i] as int < 0x80
    ensures |Encode(s)| == |s|
  {
    if s != [] {
      AsciiLength(s[1..]);
    }
  }
}

/** The compact JSON form of an array of strings, and a reader of any JSON array of strings (RFC 8259). */
module JsonStrings {
  import opened Wrappers

  const HEX: string := "0123456789abcdef"

  // ---- Writing -------------------------------------------------------------

  function Escape(c: char): (e: string)
    ensures e != []
  {
    var n := c as int;
    if c == '"' then "\\\""
    else if c == '\\' then "\\\\"
    else if n == 8 then "\\b"
    else if n == 9 then "\\t"
    else if n == 10 then "\\n"
    else if n == 12 then "\\f"
    else if n == 13 then "\\r"
    else if n < 0x20 then ['\\', 'u', '0', '0', HEX[n / 16], HEX[n % 16]]
    else [c]
  }

  function EscapeAll(s: string): string {
    if s == [] then [] else Escape(s[0]) + EscapeAll(s[1..])
  }

  function Quote(s: string): string {
    "\"" + EscapeAll(s) + "\""
  }

  function Items(xs: seq<string>): string
    requires xs != []
  {
    if |xs| == 1 then Quote(xs[0]) else Quote(xs[0]) + "," + Items(xs[1..])
  }

  function Print(xs: seq<string>): string {
    if xs == [] then "[]" else "[" + Items(xs) + "]"
  }

  // ---- Reading -------------------------------------------------------------

  predicate Whitespace(c: char) {
    c == ' ' || c == '\n' || c == '\t' || c == '\r'
  }

  function SkipSpace(s: string): (r: string)
    ensures |r| <= |s| && (|r| == |s| ==> r == s)
  {
    if s != [] && Whitespace(s[0]) then SkipSpace(s[1..]) else s
  }

  function HexDigit(c: char): (r: Option<nat>)
    ensures r.Some? ==> r.value < 16
  {
    if '0' <= c <= '9' then Some(c as int - '0' as int)
    else if 'a' <= c <= 'f' then Some(10 + (c as int - 'a' as int))
    else if 'A' <= c <= 'F' then Some(10 + (c as int - 'A' as int))
    else None
  }

  function Hex4(s: string): (r: Option<nat>)
    ensures r.Some? ==> |s| >= 4 && r.value < 0x1_0000
  {
    if |s| < 4 then None
    else
      match (HexDigit(s[0]), HexDigit(s[1]), HexDigit(s[2]), HexDigit(s[3]))
      case (Some(a), Some(b), Some(c), Some(d)) =>
        Some(a * 4096 + b * 256 + c * 16 + d)
      case _ => None
  }

  /** The character an escape stands for and what follows it; `s` starts after the backslash. */
  function ReadEscape(s: string): (r: Option<(char, string)>)
    ensures r.Some? ==> |r.value.1| < |s|
  {
    if s == [] then None
    else if s[0] == '"' || s[0] == '\\' || s[0] == '/' then Some((s[0], s[1..]))
    else if s[0] == 'b' then Some((8 as char, s[1..]))
    else if s[0] == 't' then Some((9 as char, s[1..]))
    else if s[0] == 'n' then Some((10 as char, s[1..]))
    else if s[0] == 'f' then Some((12 as char, s[1..]))
    else if s[0] == 'r' then Some((13 as char, s[1..]))
    else if s[0] == 'u' then
      match Hex4(s[1..])
      case None => None
      case Some(high) =>
        if 0xDC00 <= high < 0xE000 then None
        else if 0xD800 <= high < 0xDC00 then
          if |s| < 7 || s[5] != '\\' || s[6] != 'u' then None
          else
            match Hex4(s[7..])
            case Some(low) =>
              if 0xDC00 <= low < 0xE000
              then Some(((0x1_0000 + (high - 0xD800) * 0x400 + (low - 0xDC00)) as char, s[11..]))
              else None
            case None => None
        else Some((high as char, s[5..]))
    else None
  }

  /** The rest of a string after its opening quote, and what follows its closing one. */
  function ReadChars(s: string): (r: Option<(string, string)>)
    ensures r.Some? ==> |r.value.1| < |s|
    decreases |s|
  {
    if s == [] then None
    else if s[0] == '"' then Some(([], s[1..]))
    else if s[0] == '\\' then
      match ReadEscape(s[1..])
      case None => None
      case Some((c, after)) =>
        match ReadChars(after)
        case None => None
        case Some((more, rest)) => Some(([c] + more, rest))
    else if s[0] as int < 0x20 then None
    else
      match ReadChars(s[1..])
      case None => None
      case Some((more, rest)) => Some(([s[0]] + more, rest))
  }

  /** One or more comma-separated strings and the closing bracket. */
  function ReadItems(s: string): (r: Option<(seq<string>, string)>)
    decreases |s|
  {
    if s == [] || s[0] != '"' then None
    else
      match ReadChars(s[1..])
      case None => None
      case Some((x, after)) =>
        var next := SkipSpace(after);
        if next == [] then None
        else if next[0] == ']' then Some(([x], next[1..]))
        else if next[0] == ',' then
          match ReadItems(SkipSpace(next[1..]))
          case None => None
          case Some((xs, rest)) => Some(([x] + xs, rest))
        else None
  }

  function Parse(s: string): Option<seq<string>> {
    var open := SkipSpace(s);
    if open == [] || open[0] != '[' then None
    else
      var first := SkipSpace(open[1..]);
      var read: Option<(seq<string>, string)> :=
        if first != [] && first[0] == ']' then Some(([], first[1..])) else ReadItems(first);
      match read
      case None => None
      case Some((xs, rest)) => if SkipSpace(rest) == [] then Some(xs) else None
  }

  // ---- Reading what was written --------------------------------------------

  lemma EscapeRead(c: char, rest: string)
    ensures var s := Escape(c) + rest;
            if s[0] == '\\' then ReadEscape(s[1..]) == Some((c, rest))
            else s[0] == c && c != '"' && c as int >= 0x20 && s[1..] == rest
  {
    var n := c as int;
    var s := Escape(c) + rest;
    if n < 0x20 && n != 8 && n != 9 && n != 10 && n != 12 && n != 13 {
      assert s[1..] == ['u', '0', '0', HEX[n / 16], HEX[n % 16]] + rest;
      assert s[1..][1..] == ['0', '0', HEX[n / 16], HEX[n % 16]] + rest;
      HexDigits(n / 16);
      HexDigits(n % 16);
      assert Hex4(s[1..][1..]) == Some(n);
      assert s[1..][5..] == rest;
    } else {
      assert s[|Escape(c)|..] == rest;
    }
  }

  lemma HexDigits(d: nat)
    requires d < 16
    ensures HexDigit(HEX[d]) == Some(d)
  {
  }

  lemma {:induction false} CharsRead(x: string, rest: string)
    ensures ReadChars(EscapeAll(x) + ("\"" + rest)) == Some((x, rest))
  {
    hide Escape, ReadEscape;
    var tail := "\"" + rest;
    if x == [] {
      assert EscapeAll(x) + tail == tail && tail[1..] == rest;
    } else {
      var more := EscapeAll(x[1..]) + tail;
      var s := EscapeAll(x) + tail;
      assert s == Escape(x[0]) + more;
      EscapeRead(x[0], more);
      CharsRead(x[1..], rest);
      assert x == [x[0]] + x[1..];
    }
  }

  lemma QuoteRead(x: string, rest: string)
    ensures var s := Quote(x) + rest; s[0] == '"' && ReadChars(s[1..]) == Some((x, rest))
  {
    var s := Quote(x) + rest;
    assert s[1..] == EscapeAll(x) + ("\"" + rest);
    CharsRead(x, rest);
  }

  lemma {:induction false} ItemsRead(xs: seq<string>, rest: string)
    requires xs != []
    ensures ReadItems(Items(xs) + ("]" + rest)) == Some((xs, rest))
  {
    hide EscapeAll, ReadChars, Quote;
    var tail := "]" + rest;
    if |xs| == 1 {
      QuoteRead(xs[0], tail);
      assert tail[1..] == rest && xs == [xs[0]];
    } else {
      var more := Items(xs[1..]) + tail;
      assert Items(xs) + tail == Quote(xs[0]) + ("," + more);
      QuoteRead(xs[0], "," + more);
      assert ("," + more)[1..] == more;
      ItemsStartQuoted(xs[1..], tail);
      ItemsRead(xs[1..], rest);
      assert xs == [xs[0]] + xs[1..];
    }
  }

  lemma ItemsStartQuoted(xs: seq<string>, tail: string)
    requires xs != []
    ensures (Items(xs) + tail) != [] && (Items(xs) + tail)[0] == '"'
  {
  }

  /** Printing is inverted by parsing, for every list of strings. */
  lemma ParsePrint(xs: seq<string>)
    ensures Parse(Print(xs)) == Some(xs)
  {
    if xs == [] {
      assert "[]"[1..] == "]" && "]"[1..] == "";
    } else {
      hide Items, ReadItems, Parse;
      ItemsStartQuoted(xs, "]" + "");
      ItemsRead(xs, "");
      ParseBracketed(Print(xs), Items(xs) + ("]" + ""), xs);
    }
  }

  lemma ParseBracketed(s: string, body: string, xs: seq<string>)
    requires s == "[" + body && body != [] && body[0] == '"' && ReadItems(body) == Some((xs, ""))
    ensures Parse(s) == Some(xs)
  {
    hide ReadItems;
    assert s[1..] == body;
  }

  // ---- Other spellings -----------------------------------------------------

  /** Four hexadecimal digits, each in either case. */
  ghost predicate Spells(digits: string, n: nat) {
    && |digits| == 4 && n < 0x1_0000
    && Digit(digits[0], n / 4096) && Digit(digits[1], n / 256 % 16) && Digit(digits[2], n / 16 % 16)
    && Digit(digits[3], n % 16)
  }

  ghost predicate Digit(c: char, d: nat) {
    d < 16 && (c == "0123456789abcdef"[d] || c == "0123456789ABCDEF"[d])
  }

  lemma DigitReads(c: char, d: nat)
    requires Digit(c, d)
    ensures HexDigit(c) == Some(d)
  {
  }

  lemma DigitsRead(digits: string, n: nat, rest: string)
    requires Spells(digits, n)
    ensures Hex4(digits + rest) == Some(n) && (digits + rest)[4..] == rest
  {
    hide HexDigit, Digit;
    DigitReads(digits[0], n / 4096);
    DigitReads(digits[1], n / 256 % 16);
    DigitReads(digits[2], n / 16 % 16);
    DigitReads(digits[3], n % 16);
    FourDigits(n);
  }

  lemma FourDigits(n: nat)
    ensures n / 4096 * 4096 + n / 256 % 16 * 256 + n / 16 % 16 * 16 + n % 16 == n
  {
    var a := n / 16;
    var b := a / 16;
    assert n == a * 16 + n % 16 && a == b * 16 + a % 16 && b == b / 16 * 16 + b % 16;
    assert b == n / 256 && b / 16 == n / 4096;
  }

  /** Any character may be spelled by its code, or by the codes of its surrogates (RFC 8259, section 7). */
  lemma CodeIsRead(c: char, digits: string, low: string, rest: string)
    ensures Spells(digits, c as nat) ==> ReadEscape("u" + (digits + rest)) == Some((c, rest))
    ensures c as nat >= 0x1_0000 && Spells(digits, 0xD800 + (c as nat - 0x1_0000) / 0x400)
            && Spells(low, 0xDC00 + (c as nat - 0x1_0000) % 0x400) ==>
              ReadEscape("u" + (digits + ("\\u" + (low + rest)))) == Some((c, rest))
  {
    hide Hex4, Spells;
    var n := c as nat;
    if Spells(digits, n) {
      DigitsRead(digits, n, rest);
      CodeAlone(c, digits, rest);
    }
    if n >= 0x1_0000 && Spells(digits, 0xD800 + (n - 0x1_0000) / 0x400) && Spells(low, 0xDC00 + (n - 0x1_0000) % 0x400) {
      DigitsRead(digits, 0xD800 + (n - 0x1_0000) / 0x400, "\\u" + (low + rest));
      DigitsRead(low, 0xDC00 + (n - 0x1_0000) % 0x400, rest);
      PairOfCodes(c, digits, low, rest);
    }
  }

  lemma CodeAlone(c: char, digits: string, rest: string)
    requires |digits| == 4 && Hex4(digits + rest) == Some(c as nat) && (digits + rest)[4..] == rest
    ensures ReadEscape("u" + (digits + rest)) == Some((c, rest))
  {
    hide Hex4;
    var s := "u" + (digits + rest);
    assert s[1..] == digits + rest && s[5..] == rest;
  }

  lemma PairOfCodes(c: char, digits: string, low: string, rest: string)
    requires c as nat >= 0x1_0000 && |digits| == 4 && |low| == 4
    requires Hex4(digits + ("\\u" + (low + rest))) == Some(0xD800 + (c as nat - 0x1_0000) / 0x400)
    requires Hex4(low + rest) == Some(0xDC00 + (c as nat - 0x1_0000) % 0x400)
    ensures ReadEscape("u" + (digits + ("\\u" + (low + rest)))) == Some((c, rest))
  {
    hide Hex4;
    var tail := low + rest;
    var s := "u" + (digits + ("\\u" + tail));
    assert s[1..] == digits + ("\\u" + tail);
    assert s[5] == '\\' && s[6] == 'u' && s[7..] == tail && s[11..] == rest;
  }

  /** Space before a token is skipped. */
  lemma {:induction false} SpaceIsSkipped(space: string, s: string)
    requires forall c | c in space :: c in " \t\n\r"
    ensures SkipSpace(space + s) == SkipSpace(s)
  {
    if space == "" {
      assert space + s == s;
    } else {
      assert space[0] in space && forall c | c in space[1..] :: c in space;
      assert (space + s)[1..] == space[1..] + s;
      SpaceIsSkipped(space[1..], s);
    }
  }

  // ---- The compact form ----------------------------------------------------

  /** A character that is written as itself: no quote, no backslash, no control character. */
  predicate Plain(c: char) {
    c != '"' && c != '\\' && c as int >= 0x20
  }

  /** Plain text is written as it is. */
  lemma {:induction false} PlainTextIsItself(s: string)
    requires forall c | c in s :: Plain(c)
    ensures EscapeAll(s) == s
  {
    if s != [] {
      assert s[0] in s && forall c | c in s[1..] :: c in s;
      PlainTextIsItself(s[1..]);
      assert s == [s[0]] + s[1..];
    }
  }

  /** Any other character is written with a backslash: a short escape if there is one, else its code in lower case. */
  lemma EscapesAreCompact(c: char)
    ensures Plain(c) <==> Escape(c) == [c]
    ensures !Plain(c) ==> (ShortEscape(c) && |Escape(c)| == 2) || (!ShortEscape(c) && |Escape(c)| == 6)
    ensures !Plain(c) && !ShortEscape(c) ==>
              && Escape(c)[..4] == "\\u00"
              && forall d | d in Escape(c)[4..] :: '0' <= d <= '9' || 'a' <= d <= 'f'
  {
    var n := c as int;
    if !Plain(c) && !ShortEscape(c) {
      assert Escape(c)[4..] == [HEX[n / 16], HEX[n % 16]];
    }
  }

  predicate ShortEscape(c: char) {
    c == '"' || c == '\\' || c as int in {8, 9, 10, 12, 13}
  }

  /** Every character is plain or has a short escape. */
  predicate Unhexed(s: string) {
    forall c | c in s :: Plain(c) || ShortEscape(c)
  }

  lemma EscapeIsShortest(s: string)
    requires ReadEscape(s).Some?
    ensures var (c, after) := ReadEscape(s).value;
            && |Escape(c)| <= 1 + |s| - |after|
            && (|Escape(c)| == 1 + |s| - |after| && (Plain(c) || ShortEscape(c)) ==> ['\\'] + s == Escape(c) + after)
  {
    var (c, after) := ReadEscape(s).value;
    if s[0] != 'u' {
      assert after == s[1..] && s == [s[0]] + after;
    }
  }

  lemma {:induction false} CharsAreShortest(s: string)
    requires ReadChars(s).Some?
    ensures var (x, rest) := ReadChars(s).value;
            && |EscapeAll(x)| + 1 <= |s| - |rest|
            && (|EscapeAll(x)| + 1 == |s| - |rest| && Unhexed(x) ==> s == EscapeAll(x) + ("\"" + rest))
    decreases |s|
  {
    hide Escape, ReadEscape;
    var (x, rest) := ReadChars(s).value;
    if s[0] == '"' {
      assert s == EscapeAll(x) + ("\"" + rest);
    } else if s[0] == '\\' {
      EscapeIsShortest(s[1..]);
      var (c, after) := ReadEscape(s[1..]).value;
      CharsAreShortest(after);
      StringIsShortest(s, c, after, x[1..], rest);
    } else {
      EscapesAreCompact(s[0]);
      assert s == [s[0]] + s[1..];
      CharsAreShortest(s[1..]);
      StringIsShortest(s, s[0], s[1..], x[1..], rest);
    }
  }

  lemma StringIsShortest(s: string, c: char, after: string, more: string, rest: string)
    requires |Escape(c)| <= |s| - |after| && |EscapeAll(more)| + 1 <= |after| - |rest|
    requires |Escape(c)| == |s| - |after| && (Plain(c) || ShortEscape(c)) ==> s == Escape(c) + after
    requires |EscapeAll(more)| + 1 == |after| - |rest| && Unhexed(more) ==> after == EscapeAll(more) + ("\"" + rest)
    ensures |EscapeAll([c] + more)| + 1 <= |s| - |rest|
    ensures |EscapeAll([c] + more)| + 1 == |s| - |rest| && Unhexed([c] + more) ==>
              s == EscapeAll([c] + more) + ("\"" + rest)
  {
    hide Escape, Plain, ShortEscape;
    assert ([c] + more)[1..] == more;
    assert EscapeAll([c] + more) == Escape(c) + EscapeAll(more);
    if Unhexed([c] + more) {
      assert c in [c] + more;
      assert forall d | d in more :: d in [c] + more;
    }
  }

  lemma QuoteIsShortest(s: string)
    requires s != [] && s[0] == '"' && ReadChars(s[1..]).Some?
    ensures var (x, after) := ReadChars(s[1..]).value;
            && |Quote(x)| <= |s| - |after|
            && (|Quote(x)| == |s| - |after| && Unhexed(x) ==> s == Quote(x) + after)
  {
    hide EscapeAll, ReadChars, Unhexed;
    CharsAreShortest(s[1..]);
    var (x, after) := ReadChars(s[1..]).value;
    assert s == "\"" + s[1..];
    QuoteJoins(EscapeAll(x), after);
  }

  lemma QuoteJoins(escaped: string, after: string)
    ensures "\"" + (escaped + ("\"" + after)) == ("\"" + escaped + "\"") + after
  {
  }

  ghost predicate AllUnhexed(xs: seq<string>) {
    forall x | x in xs :: Unhexed(x)
  }

  lemma {:induction false} ItemsAreShortest(s: string)
    requires ReadItems(s).Some?
    ensures var (xs, rest) := ReadItems(s).value;
            && xs != [] && |Items(xs)| + 1 <= |s| - |rest|
            && (|Items(xs)| + 1 == |s| - |rest| && AllUnhexed(xs) ==> s == Items(xs) + ("]" + rest))
    decreases |s|
  {
    hide EscapeAll, ReadChars, Unhexed, Quote;
    QuoteIsShortest(s);
    var (x, after) := ReadChars(s[1..]).value;
    var next := SkipSpace(after);
    if next[0] == ']' {
      assert next == "]" + next[1..];
      assert x in [x];
    } else {
      ItemsAreShortest(SkipSpace(next[1..]));
      var (more, rest) := ReadItems(SkipSpace(next[1..])).value;
      MoreItemsAreShortest(s, x, after, more, rest);
    }
  }

  lemma MoreItemsAreShortest(s: string, x: string, after: string, more: seq<string>, rest: string)
    requires more != [] && SkipSpace(after) != [] && SkipSpace(after)[0] == ','
    requires |Quote(x)| <= |s| - |after| && (|Quote(x)| == |s| - |after| && Unhexed(x) ==> s == Quote(x) + after)
    requires var tail := SkipSpace(SkipSpace(after)[1..]);
             && |Items(more)| + 1 <= |tail| - |rest|
             && (|Items(more)| + 1 == |tail| - |rest| && AllUnhexed(more) ==> tail == Items(more) + ("]" + rest))
    ensures |Items([x] + more)| + 1 <= |s| - |rest|
    ensures |Items([x] + more)| + 1 == |s| - |rest| && AllUnhexed([x] + more) ==>
              s == Items([x] + more) + ("]" + rest)
  {
    hide Quote, Unhexed, SkipSpace;
    var next := SkipSpace(after);
    var tail := SkipSpace(next[1..]);
    assert ([x] + more)[1..] == more;
    assert Items([x] + more) == Quote(x) + "," + Items(more);
    if |Items([x] + more)| + 1 == |s| - |rest| && AllUnhexed([x] + more) {
      assert next == after && tail == next[1..] && next == "," + tail;
      assert x in [x] + more && forall y | y in more :: y in [x] + more;
      assert Quote(x) + ("," + (Items(more) + ("]" + rest))) == (Quote(x) + "," + Items(more)) + ("]" + rest);
    }
  }

  /**
   * The printed form is the shortest text that is read as the list, and the only text of its
   * length unless a character needs its code in hexadecimal, whose digits may be of either case.
   */
  lemma PrintIsShortest(text: string, xs: seq<string>)
    requires Parse(text) == Some(xs)
    ensures |Print(xs)| <= |text|
    ensures |Print(xs)| == |text| && AllUnhexed(xs) ==> text == Print(xs)
  {
    hide Items, ReadItems, AllUnhexed;
    var open := SkipSpace(text);
    var first := SkipSpace(open[1..]);
    assert open == "[" + open[1..];
    if first != [] && first[0] == ']' {
      assert first == "]" + first[1..];
    } else {
      ItemsAreShortest(first);
      var (_, rest) := ReadItems(first).value;
      if |Print(xs)| == |text| {
        assert rest == [];
        assert "[" + (Items(xs) + ("]" + rest)) == "[" + Items(xs) + "]";
      }
    }
  }
}
