/**
 * Checking the signature of a Postal webhook (apps/mailtools/src/lib/postal/
 * validateSignature.ts): each configured public key is wrapped as a PEM
 * block (section 2 of RFC 7468) by `chunkSplit`, the body is re-encoded the
 * way Ruby's JSON library writes it by `jsonToRubyString`, and the keys are
 * tried in order until one verifies.
 */
module PostalSignature {
  import opened Wrappers
  import JsonString

  // ---------------------------------------------------------------------
  // chunkSplit (lines 31-41)
  // ---------------------------------------------------------------------

  /** What `chunkSplit` returns: the joined string, or the literal `false`. */
  datatype ChunkResult = Chunked(text: string) | NotChunked

  /** The result as JavaScript's `+` writes it into a string: `false` becomes "false". */
  function ToJsString(r: ChunkResult): string
  {
    match r
    case Chunked(t) => t
    case NotChunked => "false"
  }

  /** The characters the regular-expression `.` does not match. */
  predicate IsLineTerminator(c: char)
  {
    c == '\n' || c == '\r' || c == '\U{2028}' || c == '\U{2029}'
  }

  predicate NoLineTerminator(s: string)
  {
    forall k :: 0 <= k < |s| ==> !IsLineTerminator(s[k])
  }

  /**
   * The length of the greedy match of `.{0,n}` at the front of `t`: as many
   * characters as possible, at most `n`, stopping before a line terminator.
   */
  function DotRun(t: string, n: nat): (k: nat)
    ensures k <= n && k <= |t|
    ensures NoLineTerminator(t[..k])
    ensures k < n && k < |t| ==> IsLineTerminator(t[k])
    decreases n
  {
    if n == 0 || t == [] || IsLineTerminator(t[0]) then 0
    else
      var k := 1 + DotRun(t[1..], n - 1);
      assert t[..k] == [t[0]] + t[1..][..k - 1];
      k
  }

  /**
   * `t.match(/.{0,n}/g)`, `t` being what is left of the key after the last
   * match (the pattern looks only forward, so a match at `lastIndex` is a
   * match at the front of the rest): the pattern always matches; an empty
   * match moves on by one character, and the search ends only after an
   * (empty) match at the very end of the string. The last piece is empty.
   */
  function GlobalMatches(t: string, n: nat): (r: seq<string>)
    ensures |r| >= 1 && r[|r| - 1] == ""
    decreases |t|
  {
    if t == [] then [""]
    else
      var k := DotRun(t, n);
      if k == 0 then [""] + GlobalMatches(t[1..], n)
      else [t[..k]] + GlobalMatches(t[k..], n)
  }

  /** Every piece of the global match has at most `n` characters and no line terminator. */
  lemma {:induction false} GlobalMatchesPieces(t: string, n: nat)
    ensures var r := GlobalMatches(t, n);
            forall j :: 0 <= j < |r| ==> |r[j]| <= n && NoLineTerminator(r[j])
    decreases |t|
  {
    if t != [] {
      var head, rest := MatchStep(t, n);
      GlobalMatchesPieces(rest, n);
    }
  }

  /** `Array.prototype.join`. */
  function Join(pieces: seq<string>, sep: string): string
  {
    if pieces == [] then ""
    else if |pieces| == 1 then pieces[0]
    else pieces[0] + sep + Join(pieces[1..], sep)
  }

  /**
   * `chunkSplit(key, chunkSize, newLineReturn)`: `false` for an empty key or a
   * size below 1, otherwise the pieces of the global match joined by the
   * separator, "\r\n" standing in for an empty one.
   */
  function ChunkSplit(key: string, chunkSize: int, newLineReturn: string): (r: ChunkResult)
    ensures r.NotChunked? <==> key == [] || chunkSize < 1
  {
    if key == [] then NotChunked
    else
      var sep := if newLineReturn == [] then "\r\n" else newLineReturn;
      if chunkSize < 1 then NotChunked
      else Chunked(Join(GlobalMatches(key, chunkSize), sep))
  }

  /** Concatenation of a list of strings. */
  function Concat(pieces: seq<string>): string
  {
    if pieces == [] then "" else pieces[0] + Concat(pieces[1..])
  }

  /**
   * The reference cut: `t` in consecutive pieces of `n` characters, the last
   * one possibly shorter but never empty.
   */
  function Chunks(t: string, n: nat): (r: seq<string>)
    requires n >= 1
    ensures Concat(r) == t
    ensures forall j :: 0 <= j < |r| - 1 ==> |r[j]| == n
    ensures r != [] ==> 1 <= |r[|r| - 1]| <= n
    ensures r == [] <==> t == []
    decreases |t|
  {
    if t == [] then []
    else if |t| <= n then [t]
    else [t[..n]] + Chunks(t[n..], n)
  }

  /** Every piece followed by the separator. */
  function Lines(pieces: seq<string>, sep: string): string
  {
    if pieces == [] then "" else pieces[0] + sep + Lines(pieces[1..], sep)
  }

  /** `s` with its line terminators deleted. */
  function DropLineTerminators(s: string): string
  {
    if s == [] then ""
    else (if IsLineTerminator(s[0]) then "" else [s[0]]) + DropLineTerminators(s[1..])
  }

  /** Over text without line terminators, the match takes a full piece of `n`, or all that is left. */
  lemma DotRunOfPlainText(t: string, n: nat)
    requires n >= 1 && t != [] && NoLineTerminator(t)
    ensures DotRun(t, n) == if |t| <= n then |t| else n
  {
    var k := DotRun(t, n);
    if k < |t| {
      assert !IsLineTerminator(t[k]);
    }
  }

  lemma NoLineTerminatorSuffix(t: string, n: nat)
    requires n <= |t| && NoLineTerminator(t)
    ensures NoLineTerminator(t[n..])
  {
    forall j | 0 <= j < |t| - n ensures !IsLineTerminator(t[n..][j]) {
      assert t[n..][j] == t[n + j];
    }
  }

  lemma {:induction false} GlobalMatchesOfPlainText(t: string, n: nat)
    requires n >= 1 && NoLineTerminator(t)
    ensures GlobalMatches(t, n) == Chunks(t, n) + [""]
    decreases |t|
  {
    if t != [] {
      DotRunOfPlainText(t, n);
      if |t| <= n {
        assert t[..|t|] == t && t[|t|..] == [];
        assert GlobalMatches(t, n) == [t] + GlobalMatches([], n);
      } else {
        var rest := t[n..];
        NoLineTerminatorSuffix(t, n);
        GlobalMatchesOfPlainText(rest, n);
        assert GlobalMatches(t, n) == [t[..n]] + GlobalMatches(rest, n);
        assert Chunks(t, n) == [t[..n]] + Chunks(rest, n);
        assert GlobalMatches(t, n) == [t[..n]] + (Chunks(rest, n) + [""]);
      }
    }
  }

  lemma {:induction false} JoinTerminated(pieces: seq<string>, sep: string)
    ensures Join(pieces + [""], sep) == Lines(pieces, sep)
  {
    if pieces != [] {
      JoinTerminated(pieces[1..], sep);
      assert (pieces + [""])[1..] == pieces[1..] + [""];
    }
  }

  /**
   * For a non-empty key without line terminators, `chunkSplit` is the key
   * cut into `chunkSize`-wide pieces, each followed by the separator (the
   * final empty match yields the trailing separator); the pieces put back
   * together are the key.
   */
  lemma ChunkSplitOfPlainKey(key: string, chunkSize: int, newLineReturn: string)
    requires key != [] && chunkSize >= 1 && NoLineTerminator(key)
    ensures var sep := if newLineReturn == [] then "\r\n" else newLineReturn;
            ChunkSplit(key, chunkSize, newLineReturn) == Chunked(Lines(Chunks(key, chunkSize), sep))
    ensures Concat(Chunks(key, chunkSize)) == key
  {
    var sep := if newLineReturn == [] then "\r\n" else newLineReturn;
    GlobalMatchesOfPlainText(key, chunkSize);
    JoinTerminated(Chunks(key, chunkSize), sep);
  }

  lemma {:induction false} DropLineTerminatorsAppend(a: string, b: string)
    ensures DropLineTerminators(a + b) == DropLineTerminators(a) + DropLineTerminators(b)
  {
    if a == [] {
      assert a + b == b;
    } else {
      assert (a + b)[1..] == a[1..] + b;
      DropLineTerminatorsAppend(a[1..], b);
    }
  }

  lemma {:induction false} DropLineTerminatorsOfPlain(s: string)
    requires NoLineTerminator(s)
    ensures DropLineTerminators(s) == s
  {
    if s != [] {
      DropLineTerminatorsOfPlain(s[1..]);
    }
  }

  /**
   * For any key, the pieces of the global match put back together are the
   * key without its line terminators: `.` never consumes one, and each is
   * stepped over by an empty match.
   */
  lemma {:induction false} GlobalMatchesDropLineTerminators(t: string, n: nat)
    requires n >= 1
    ensures Concat(GlobalMatches(t, n)) == DropLineTerminators(t)
    decreases |t|
  {
    if t != [] {
      var head, rest := MatchStep(t, n);
      GlobalMatchesDropLineTerminators(rest, n);
      ConcatCons(head, GlobalMatches(rest, n));
    }
  }

  lemma ConcatCons(head: string, rest: seq<string>)
    ensures Concat([head] + rest) == head + Concat(rest)
  {
    assert ([head] + rest)[0] == head && ([head] + rest)[1..] == rest;
  }

  /**
   * One match of `.{0,n}` at the front of `t` yields `head`, and the search
   * goes on over `rest`; what it steps over survives the deletion of line
   * terminators as `head`.
   */
  lemma MatchStep(t: string, n: nat) returns (head: string, rest: string)
    requires t != []
    ensures |rest| < |t|
    ensures GlobalMatches(t, n) == [head] + GlobalMatches(rest, n)
    ensures |head| <= n && NoLineTerminator(head)
    ensures n >= 1 ==> DropLineTerminators(t) == head + DropLineTerminators(rest)
  {
    var k := DotRun(t, n);
    if k == 0 {
      head, rest := "", t[1..];
      assert n >= 1 ==> IsLineTerminator(t[0]);
    } else {
      head, rest := t[..k], t[k..];
      assert t == head + rest;
      DropLineTerminatorsAppend(head, rest);
      DropLineTerminatorsOfPlain(head);
    }
  }

  // ---------------------------------------------------------------------
  // The PEM wrapping (lines 14-17)
  // ---------------------------------------------------------------------

  const PemBegin := "-----BEGIN PUBLIC KEY-----\r\n"
  const PemEnd := "-----END PUBLIC KEY-----"

  /** The public key handed to the verifier for one configured key. */
  function Pem(key: string): string
  {
    PemBegin + ToJsString(ChunkSplit(key, 64, "\r\n")) + PemEnd
  }

  /**
   * A non-empty key without line breaks becomes a PEM block whose base64
   * lines are 64 characters wide (the last one shorter or equal), each
   * ended by CRLF; an empty key becomes the text "false" between the
   * delimiters.
   */
  lemma PemShape(key: string)
    ensures key != [] && NoLineTerminator(key) ==>
      Pem(key) == PemBegin + Lines(Chunks(key, 64), "\r\n") + PemEnd
    ensures key == [] ==> Pem(key) == PemBegin + "false" + PemEnd
  {
    if key != [] && NoLineTerminator(key) {
      ChunkSplitOfPlainKey(key, 64, "\r\n");
    }
  }

  // ---------------------------------------------------------------------
  // jsonToRubyString (lines 43-49)
  // ---------------------------------------------------------------------

  /** A lowercase hexadecimal digit. */
  function HexDigit(d: nat): (c: char)
    requires d < 16
    ensures JsonString.HexDigitValue(c) == Some(d)
    ensures '0' <= c <= '9' || 'a' <= c <= 'f'
  {
    if d < 10 then ('0' as int + d) as char else ('a' as int + d - 10) as char
  }

  predicate IsLowerHex(s: string)
  {
    forall k :: 0 <= k < |s| ==> '0' <= s[k] <= '9' || 'a' <= s[k] <= 'f'
  }

  /** `v.toString(16)`: lowercase, without leading zeros. */
  function HexString(v: nat): (r: string)
    ensures |r| >= 1 && IsLowerHex(r)
    decreases v
  {
    if v < 16 then [HexDigit(v)] else HexString(v / 16) + [HexDigit(v % 16)]
  }

  /** A code unit as exactly four lowercase hexadecimal digits. */
  function Hex4(v: nat): (r: string)
    requires v < 0x10000
    ensures |r| == 4
  {
    var q := v / 16 / 16;
    [HexDigit(q / 16), HexDigit(q % 16), HexDigit(v / 16 % 16), HexDigit(v % 16)]
  }

  lemma Hex4RoundTrip(v: nat)
    requires v < 0x10000
    ensures JsonString.Hex4Value(Hex4(v)) == Some(v)
  {
    var q := v / 16 / 16;
    assert v == (v / 16) * 16 + v % 16;
    assert v / 16 == q * 16 + v / 16 % 16;
    assert q == (q / 16) * 16 + q % 16;
  }

  /** The escape `JSON.stringify` writes for one character (a string is never a lone surrogate here). */
  function JsonEscape(c: char): string
  {
    if c == '\U{0008}' then "\\b"
    else if c == '\t' then "\\t"
    else if c == '\n' then "\\n"
    else if c == '\U{000C}' then "\\f"
    else if c == '\r' then "\\r"
    else if c == '"' then "\\\""
    else if c == '\\' then "\\\\"
    else if c < ' ' then "\\u" + Hex4(c as int)
    else [c]
  }

  function JsonEscapeAll(s: string): string
  {
    if s == [] then "" else JsonEscape(s[0]) + JsonEscapeAll(s[1..])
  }

  /** `JSON.stringify` applied to a string. */
  function JsonStringify(s: string): string
  {
    "\"" + JsonEscapeAll(s) + "\""
  }

  /** The characters the pattern `/[  &><]/gu` matches. */
  predicate IsRubyUnsafe(c: char)
  {
    c == '&' || c == '<' || c == '>' || c == '\U{2028}' || c == '\U{2029}'
  }

  /** `('0000' + c.charCodeAt(0).toString(16)).slice(-4)`. */
  function PaddedCode(c: char): (r: string)
    ensures |r| == 4 && IsLowerHex(r)
  {
    var t := "0000" + HexString(c as int);
    t[|t| - 4..]
  }

  /** The replacement for one character: unsafe ones become `\u` and four hex digits. */
  function RubySafe(c: char): string
  {
    if IsRubyUnsafe(c) then "\\u" + PaddedCode(c) else [c]
  }

  function CountUnsafe(t: string): nat
  {
    if t == [] then 0 else (if IsRubyUnsafe(t[0]) then 1 else 0) + CountUnsafe(t[1..])
  }

  /**
   * The global replace: no unsafe character is left, and each one found
   * grew from one character to six.
   */
  function RubyReplace(t: string): (r: string)
    ensures forall k :: 0 <= k < |r| ==> !IsRubyUnsafe(r[k])
    ensures |r| == |t| + 5 * CountUnsafe(t)
  {
    if t == [] then ""
    else
      var head := RubySafe(t[0]);
      assert forall k :: 0 <= k < |head| ==> !IsRubyUnsafe(head[k]) by {
        if IsRubyUnsafe(t[0]) {
          var p := PaddedCode(t[0]);
          assert head == ['\\', 'u'] + p;
          assert forall k :: 0 <= k < |p| ==> !IsRubyUnsafe(p[k]);
        }
      }
      head + RubyReplace(t[1..])
  }

  /** `jsonToRubyString(jsonString)`. */
  function JsonToRubyString(s: string): string
  {
    RubyReplace(JsonStringify(s))
  }

  lemma PaddedCodeOfByte(c: char)
    requires 16 <= c as int < 0x100
    ensures PaddedCode(c) == Hex4(c as int)
  {
    var v := c as int;
    assert v / 16 < 16 && v / 16 / 16 == 0;
    assert HexString(v) == [HexDigit(v / 16), HexDigit(v % 16)];
    var t := "0000" + HexString(v);
    assert |t| == 6 && t[|t| - 4..] == "00" + HexString(v);
  }

  lemma PaddedCodeOfWide(c: char)
    requires 0x1000 <= c as int < 0x10000
    ensures PaddedCode(c) == Hex4(c as int)
  {
    var v := c as int;
    var q := v / 16 / 16;
    assert 16 <= q < 0x100 && q / 16 < 16;
    assert HexString(q) == [HexDigit(q / 16), HexDigit(q % 16)];
    assert HexString(v / 16) == HexString(q) + [HexDigit(v / 16 % 16)];
    var t := "0000" + HexString(v);
    assert |t| == 8 && t[|t| - 4..] == HexString(v);
  }

  lemma PaddedCodeIsHex4(c: char)
    requires IsRubyUnsafe(c)
    ensures c as int < 0x10000 && PaddedCode(c) == Hex4(c as int)
  {
    if c as int < 0x100 {
      PaddedCodeOfByte(c);
    } else {
      PaddedCodeOfWide(c);
    }
  }

  lemma {:induction false} RubyReplaceAppend(a: string, b: string)
    ensures RubyReplace(a + b) == RubyReplace(a) + RubyReplace(b)
  {
    if a == [] {
      assert a + b == b;
    } else {
      assert (a + b)[1..] == a[1..] + b;
      RubyReplaceAppend(a[1..], b);
    }
  }

  /** What one input character finally becomes inside the quotes. */
  function Escape(c: char): string
  {
    if IsRubyUnsafe(c) then "\\u" + Hex4(c as int) else JsonEscape(c)
  }

  function EscapeAll(s: string): string
  {
    if s == [] then "" else Escape(s[0]) + EscapeAll(s[1..])
  }

  lemma RubyReplaceOfJsonEscape(c: char)
    ensures RubyReplace(JsonEscape(c)) == Escape(c)
  {
    if IsRubyUnsafe(c) {
      PaddedCodeIsHex4(c);
      assert JsonEscape(c) == [c];
      assert RubyReplace([c]) == RubySafe(c) + RubyReplace([]);
    } else {
      JsonEscapeSafe(c);
      RubyReplaceOfSafe(JsonEscape(c));
    }
  }

  /** The escape of a character the pattern does not match holds no character it matches. */
  lemma JsonEscapeSafe(c: char)
    requires !IsRubyUnsafe(c)
    ensures forall k :: 0 <= k < |JsonEscape(c)| ==> !IsRubyUnsafe(JsonEscape(c)[k])
  {
    if ' ' <= c && c != '"' && c != '\\' {
      assert JsonEscape(c) == [c];
    } else if c < ' ' && c !in "\U{0008}\t\n\U{000C}\r" {
      var h := Hex4(c as int);
      assert JsonEscape(c) == ['\\', 'u'] + h;
      assert forall k :: 0 <= k < 4 ==> !IsRubyUnsafe(h[k]);
    }
  }

  lemma {:induction false} RubyReplaceOfSafe(t: string)
    requires forall k :: 0 <= k < |t| ==> !IsRubyUnsafe(t[k])
    ensures RubyReplace(t) == t
  {
    if t != [] {
      RubyReplaceOfSafe(t[1..]);
    }
  }

  lemma {:induction false} RubyReplaceOfJsonEscapeAll(s: string)
    ensures RubyReplace(JsonEscapeAll(s)) == EscapeAll(s)
  {
    if s != [] {
      RubyReplaceAppend(JsonEscape(s[0]), JsonEscapeAll(s[1..]));
      RubyReplaceOfJsonEscape(s[0]);
      RubyReplaceOfJsonEscapeAll(s[1..]);
    }
  }

  /**
   * An unsafe character becomes `\u` and its code in four lowercase hex
   * digits, six characters in all; every other character is escaped exactly
   * as `JSON.stringify` does.
   */
  lemma EscapeShape(c: char)
    ensures IsRubyUnsafe(c) ==> |Escape(c)| == 6 && Escape(c) == "\\u" + Hex4(c as int)
    ensures !IsRubyUnsafe(c) ==> Escape(c) == JsonEscape(c)
    ensures RubyReplace(JsonEscape(c)) == Escape(c)
  {
    RubyReplaceOfJsonEscape(c);
  }

  /**
   * The body as the verifier sees it: a quotation mark, each character's
   * escape in order, a quotation mark; no raw unsafe character remains.
   */
  lemma JsonToRubyStringShape(s: string)
    ensures JsonToRubyString(s) == "\"" + EscapeAll(s) + "\""
    ensures var r := JsonToRubyString(s);
            |r| >= 2 && r[0] == '"' && r[|r| - 1] == '"' && forall k :: 0 <= k < |r| ==> !IsRubyUnsafe(r[k])
  {
    JsonToRubyStringQuoted(s);
    var r := JsonToRubyString(s);
    assert r[0] == '"';
    assert r[|r| - 1] == '"';
  }

  lemma JsonToRubyStringQuoted(s: string)
    ensures JsonToRubyString(s) == "\"" + EscapeAll(s) + "\""
  {
    var q := "\"";
    var body := JsonEscapeAll(s);
    assert JsonStringify(s) == q + (body + q);
    RubyReplaceAppend(q, body + q);
    RubyReplaceAppend(body, q);
    RubyReplaceOfJsonEscapeAll(s);
    RubyReplaceOfSafe(q);
  }

  lemma EscapeReadsUnicode(c: char, rest: string)
    requires c as int < 0x10000 && Escape(c) == "\\u" + Hex4(c as int) && !JsonString.IsHighSurrogate(c as int) && !JsonString.IsLowSurrogate(c as int)
    ensures JsonString.Unescape(Escape(c) + rest) == JsonString.Prepend(c, JsonString.Unescape(rest))
  {
    var t := Escape(c) + rest;
    Hex4RoundTrip(c as int);
    assert t[2..6] == Hex4(c as int);
    assert t[6..] == rest;
    assert t[0] == '\\' && t[1] == 'u';
  }

  lemma EscapeReadsShort(c: char, rest: string)
    requires |Escape(c)| == 2 && Escape(c)[0] == '\\'
    ensures JsonString.Unescape(Escape(c) + rest) == JsonString.Prepend(c, JsonString.Unescape(rest))
  {
    var t := Escape(c) + rest;
    assert t[2..] == rest;
    assert t[0] == '\\' && t[1] == Escape(c)[1];
  }

  lemma EscapeReads(c: char, rest: string)
    ensures JsonString.Unescape(Escape(c) + rest) == JsonString.Prepend(c, JsonString.Unescape(rest))
  {
    var t := Escape(c) + rest;
    if IsRubyUnsafe(c) {
      EscapeReadsUnicode(c, rest);
    } else if JsonEscape(c) == [c] {
      assert t[1..] == rest;
    } else if c < ' ' && c != '\U{0008}' && c != '\t' && c != '\n' && c != '\U{000C}' && c != '\r' {
      EscapeReadsUnicode(c, rest);
    } else {
      EscapeReadsShort(c, rest);
    }
  }

  lemma {:induction false} EscapeAllReads(s: string)
    ensures JsonString.Unescape(EscapeAll(s)) == Some(s)
  {
    if s != [] {
      EscapeAllReads(s[1..]);
      EscapeReads(s[0], EscapeAll(s[1..]));
      assert [s[0]] + s[1..] == s;
    }
  }

  /**
   * The re-encoded body is a JSON string literal (section 7 of RFC 8259)
   * that reads back as the original body: the escaping loses nothing.
   */
  lemma JsonToRubyStringRoundTrip(s: string)
    ensures JsonString.Parse(JsonToRubyString(s)) == Some(s)
  {
    JsonToRubyStringShape(s);
    EscapeAllReads(s);
    var r := JsonToRubyString(s);
    assert r[1..|r| - 1] == EscapeAll(s);
  }

  // ---------------------------------------------------------------------
  // validatePostalWebhookSignature (lines 7-29)
  // ---------------------------------------------------------------------

  /** What `verifier.verify(...)` does: return whether the signature checks, or throw (an unreadable key, say). */
  datatype VerifyOutcome = Returned(ok: bool) | Threw

  /** How the `Promise<boolean>` the function returns settles. */
  datatype Answer = Resolved(value: bool) | Rejected

  /**
   * The verifier's outcome for this key: `verify` stands for
   * `crypto.createVerify('SHA1')` fed with the re-encoded body, checked
   * against the key's PEM block and the base64 signature.
   */
  function KeyOutcome(verify: (string, string, string) -> VerifyOutcome, key: string, body: string, postalSignature: string): VerifyOutcome
  {
    verify(Pem(key), JsonToRubyString(body), postalSignature)
  }

  /**
   * The loop of lines 12-28 over any per-key test: keys are tried in order;
   * the first that verifies resolves the promise with true, the first that
   * throws rejects it, and when every key returns false it resolves with
   * false (so an empty list yields false). `stop` is the key that decided.
   */
  method FirstDecisive(keys: seq<string>, test: string -> VerifyOutcome) returns (r: Answer, ghost stop: nat)
    ensures r == Resolved(true) <==>
      exists i :: 0 <= i < |keys| && test(keys[i]) == Returned(true) && forall j :: 0 <= j < i ==> test(keys[j]) == Returned(false)
    ensures r == Rejected <==>
      exists i :: 0 <= i < |keys| && test(keys[i]) == Threw && forall j :: 0 <= j < i ==> test(keys[j]) == Returned(false)
    ensures r == Resolved(false) <==> forall i :: 0 <= i < |keys| ==> test(keys[i]) == Returned(false)
    ensures (forall i :: 0 <= i < |keys| ==> test(keys[i]).Returned?) ==>
      (r == Resolved(true) <==> exists i :: 0 <= i < |keys| && test(keys[i]) == Returned(true))
    ensures stop <= |keys| && forall j :: 0 <= j < stop ==> test(keys[j]) == Returned(false)
    ensures r != Resolved(false) ==> stop < |keys|
  {
    stop := 0;
    for i := 0 to |keys|
      invariant stop == i
      invariant forall j :: 0 <= j < i ==> test(keys[j]) == Returned(false)
    {
      var outcome := test(keys[i]);
      if outcome == Threw {
        return Rejected, i;
      }
      if outcome.ok {
        return Resolved(true), i;
      }
      stop := stop + 1;
    }
    return Resolved(false), stop;
  }

  /**
   * Lines 7-29: the first key whose PEM block verifies the re-encoded body
   * resolves with true; a verifier that throws on a key before that rejects
   * the promise; no verifying key resolves with false.
   */
  method ValidatePostalWebhookSignature(body: string, postalSignature: string, postalWebhookPKs: seq<string>,
                                        verify: (string, string, string) -> VerifyOutcome)
    returns (r: Answer, ghost stop: nat)
    ensures r == Resolved(true) <==>
      exists i :: 0 <= i < |postalWebhookPKs| && KeyOutcome(verify, postalWebhookPKs[i], body, postalSignature) == Returned(true)
        && forall j :: 0 <= j < i ==> KeyOutcome(verify, postalWebhookPKs[j], body, postalSignature) == Returned(false)
    ensures r == Rejected <==>
      exists i :: 0 <= i < |postalWebhookPKs| && KeyOutcome(verify, postalWebhookPKs[i], body, postalSignature) == Threw
        && forall j :: 0 <= j < i ==> KeyOutcome(verify, postalWebhookPKs[j], body, postalSignature) == Returned(false)
    ensures r == Resolved(false) <==>
      forall i :: 0 <= i < |postalWebhookPKs| ==> KeyOutcome(verify, postalWebhookPKs[i], body, postalSignature) == Returned(false)
    ensures (forall i :: 0 <= i < |postalWebhookPKs| ==> KeyOutcome(verify, postalWebhookPKs[i], body, postalSignature).Returned?) ==>
      (r == Resolved(true) <==> exists i :: 0 <= i < |postalWebhookPKs| && KeyOutcome(verify, postalWebhookPKs[i], body, postalSignature) == Returned(true))
  {
    r, stop := FirstDecisive(postalWebhookPKs, key => KeyOutcome(verify, key, body, postalSignature));
  }
}
