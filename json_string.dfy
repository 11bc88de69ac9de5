/**
 * A reference reader for JSON string literals as section 7 of RFC 8259
 * defines them: a quotation mark, then unescaped characters (anything but
 * the quotation mark, the reverse solidus and the control characters
 * U+0000..U+001F) or escapes (`\"`, `\\`, `\/`, `\b`, `\f`, `\n`, `\r`, `\t`,
 * `\uXXXX` with a surrogate pair written as two such escapes), then a
 * closing quotation mark. It is the partner against which the escaping of
 * the webhook body is proved.
 */
module JsonString {
  import opened Wrappers

  /** The value of one hexadecimal digit, either case. */
  function HexDigitValue(c: char): Option<nat>
  {
    if '0' <= c <= '9' then Some(c as int - '0' as int)
    else if 'a' <= c <= 'f' then Some(c as int - 'a' as int + 10)
    else if 'A' <= c <= 'F' then Some(c as int - 'A' as int + 10)
    else None
  }

  /** The value of exactly four hexadecimal digits. */
  function Hex4Value(s: string): (r: Option<nat>)
    requires |s| == 4
    ensures r.Some? ==> r.value < 0x10000
  {
    match (HexDigitValue(s[0]), HexDigitValue(s[1]), HexDigitValue(s[2]), HexDigitValue(s[3]))
    case (Some(a), Some(b), Some(c), Some(d)) =>
      if a < 16 && b < 16 && c < 16 && d < 16 then Some(((a * 16 + b) * 16 + c) * 16 + d) else None
    case _ => None
  }

  function Prepend(c: char, r: Option<string>): Option<string>
  {
    match r
    case None => None
    case Some(t) => Some([c] + t)
  }

  predicate IsHighSurrogate(v: nat) { 0xD800 <= v < 0xDC00 }

  predicate IsLowSurrogate(v: nat) { 0xDC00 <= v < 0xE000 }

  /**
   * The characters of a string literal's body (the text between its
   * quotation marks), or None when the body is not well formed.
   */
  function Unescape(s: string): Option<string>
    decreases |s|
  {
    if s == [] then Some([])
    else if s[0] == '"' || s[0] < ' ' then None
    else if s[0] != '\\' then Prepend(s[0], Unescape(s[1..]))
    else if |s| < 2 then None
    else if s[1] == '"' then Prepend('"', Unescape(s[2..]))
    else if s[1] == '\\' then Prepend('\\', Unescape(s[2..]))
    else if s[1] == '/' then Prepend('/', Unescape(s[2..]))
    else if s[1] == 'b' then Prepend('\U{0008}', Unescape(s[2..]))
    else if s[1] == 'f' then Prepend('\U{000C}', Unescape(s[2..]))
    else if s[1] == 'n' then Prepend('\n', Unescape(s[2..]))
    else if s[1] == 'r' then Prepend('\r', Unescape(s[2..]))
    else if s[1] == 't' then Prepend('\t', Unescape(s[2..]))
    else if s[1] != 'u' || |s| < 6 then None
    else
      match Hex4Value(s[2..6])
      case None => None
      case Some(v) =>
        if IsLowSurrogate(v) then None
        else if !IsHighSurrogate(v) then Prepend(v as char, Unescape(s[6..]))
        else if |s| < 12 || s[6] != '\\' || s[7] != 'u' then None
        else
          match Hex4Value(s[8..12])
          case None => None
          case Some(w) =>
            if IsLowSurrogate(w) then
              Prepend((0x10000 + (v - 0xD800) * 0x400 + (w - 0xDC00)) as char, Unescape(s[12..]))
            else None
  }

  /** The string a JSON string literal denotes, or None when `t` is not one. */
  function Parse(t: string): Option<string>
  {
    if |t| >= 2 && t[0] == '"' && t[|t| - 1] == '"' then Unescape(t[1..|t| - 1]) else None
  }
}
