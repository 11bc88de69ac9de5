/**
 * The last step of the plain-text signature (removeSignatures.ts lines 62-66):
 * the concatenated text is trimmed, then every run of "optional whitespace
 * character followed by a newline" is replaced by one newline, as
 * `text.trim().replace(/(\s?\n)+/g, '\n')` does.
 */
module SignatureText {
  import opened JsStrings

  /** Every character of `s` is JavaScript whitespace. */
  predicate AllWhitespace(s: string)
  {
    forall k :: 0 <= k < |s| ==> IsJsWhitespace(s[k])
  }

  /** The non-whitespace characters of `s`, in order. */
  function NonWhitespace(s: string): string
  {
    if s == [] then []
    else (if IsJsWhitespace(s[0]) then [] else [s[0]]) + NonWhitespace(s[1..])
  }

  lemma {:induction false} NonWhitespaceAppend(a: string, b: string)
    ensures NonWhitespace(a + b) == NonWhitespace(a) + NonWhitespace(b)
  {
    if a == [] {
      assert a + b == b;
    } else {
      assert (a + b)[1..] == a[1..] + b;
      NonWhitespaceAppend(a[1..], b);
    }
  }

  lemma {:induction false} NonWhitespaceOfWhitespace(s: string)
    requires AllWhitespace(s)
    ensures NonWhitespace(s) == []
  {
    if s != [] {
      NonWhitespaceOfWhitespace(s[1..]);
    }
  }

  /** `String.prototype.trimStart`. */
  function TrimStart(s: string): (r: string)
    ensures |r| <= |s|
    ensures r == [] || !IsJsWhitespace(r[0])
  {
    if s != [] && IsJsWhitespace(s[0]) then TrimStart(s[1..]) else s
  }

  /** `trimStart` keeps a suffix of `s` and what it cuts off is whitespace. */
  lemma {:induction false} TrimStartCut(s: string)
    ensures TrimStart(s) == s[|s| - |TrimStart(s)|..]
    ensures AllWhitespace(s[..|s| - |TrimStart(s)|])
  {
    if s != [] && IsJsWhitespace(s[0]) {
      TrimStartCut(s[1..]);
      var k := |s| - |TrimStart(s)|;
      forall j | 0 <= j < k ensures IsJsWhitespace(s[..k][j]) {
        if j > 0 {
          assert s[..k][j] == s[1..][..k - 1][j - 1];
        }
      }
    }
  }

  /** `String.prototype.trimEnd`. */
  function TrimEnd(s: string): (r: string)
    ensures |r| <= |s|
    ensures r == [] || !IsJsWhitespace(r[|r| - 1])
  {
    if s != [] && IsJsWhitespace(s[|s| - 1]) then TrimEnd(s[..|s| - 1]) else s
  }

  /** `trimEnd` keeps a prefix of `s` and what it cuts off is whitespace. */
  lemma {:induction false} TrimEndCut(s: string)
    ensures TrimEnd(s) == s[..|TrimEnd(s)|]
    ensures AllWhitespace(s[|TrimEnd(s)|..])
  {
    if s != [] && IsJsWhitespace(s[|s| - 1]) {
      var p := s[..|s| - 1];
      TrimEndCut(p);
      var k := |TrimEnd(s)|;
      forall j | 0 <= j < |s| - k ensures IsJsWhitespace(s[k..][j]) {
        if k + j < |s| - 1 {
          assert s[k..][j] == p[k..][j];
        }
      }
    }
  }

  /**
   * `String.prototype.trim`: the longest slice of `s` that neither starts nor
   * ends with whitespace, everything cut off on both sides being whitespace.
   */
  function Trim(s: string): string
  {
    TrimEnd(TrimStart(s))
  }

  /** What `trim` returns neither starts nor ends with whitespace. */
  lemma TrimEnds(s: string)
    ensures var r := Trim(s);
            r == [] || (!IsJsWhitespace(r[0]) && !IsJsWhitespace(r[|r| - 1]))
  {
    TrimEndCut(TrimStart(s));
  }

  /**
   * `String.prototype.trim` keeps a slice of `s`, and everything it cuts off
   * on either side is whitespace.
   */
  lemma TrimSlice(s: string)
    ensures var r := Trim(s);
            exists a :: 0 <= a <= |s| - |r| && r == s[a..a + |r|]
                        && AllWhitespace(s[..a]) && AllWhitespace(s[a + |r|..])
  {
    var t := TrimStart(s);
    var r := TrimEnd(t);
    var a := |s| - |t|;
    TrimStartCut(s);
    TrimEndCut(t);
    assert r == s[a..a + |r|];
    assert s[a + |r|..] == t[|r|..];
  }

  lemma {:induction false} TrimStartKeepsNonWhitespace(s: string)
    ensures NonWhitespace(TrimStart(s)) == NonWhitespace(s)
  {
    if s != [] && IsJsWhitespace(s[0]) {
      TrimStartKeepsNonWhitespace(s[1..]);
    }
  }

  lemma {:induction false} TrimEndKeepsNonWhitespace(s: string)
    ensures NonWhitespace(TrimEnd(s)) == NonWhitespace(s)
  {
    if s != [] && IsJsWhitespace(s[|s| - 1]) {
      var p := s[..|s| - 1];
      TrimEndKeepsNonWhitespace(p);
      assert s == p + [s[|s| - 1]];
      NonWhitespaceAppend(p, [s[|s| - 1]]);
      assert NonWhitespace([s[|s| - 1]]) == [];
    }
  }

  lemma TrimKeepsNonWhitespace(s: string)
    ensures NonWhitespace(Trim(s)) == NonWhitespace(s)
  {
    TrimStartKeepsNonWhitespace(s);
    TrimEndKeepsNonWhitespace(TrimStart(s));
  }

  /**
   * One iteration of `\s?\n` at the front of `t`: the optional whitespace
   * is tried first (greedy) and dropped when no newline follows it. The
   * length matched, 0 when the iteration fails.
   */
  function NewlineStep(t: string): (k: nat)
    ensures k <= 2 && k <= |t|
    ensures k > 0 ==> t[k - 1] == '\n' && IsJsWhitespace(t[0])
    ensures k == 0 ==> t == [] || t[0] != '\n'
  {
    if 1 < |t| && IsJsWhitespace(t[0]) && t[1] == '\n' then 2
    else if t != [] && t[0] == '\n' then 1
    else 0
  }

  /**
   * The match of `(\s?\n)+` at the front of `t`, repeated greedily: its
   * length, 0 when no match starts there. A match ends in a newline and
   * cannot be extended.
   */
  function NewlineRun(t: string): (m: nat)
    ensures m <= |t|
    ensures m > 0 ==> t[m - 1] == '\n'
    decreases |t|
  {
    var k := NewlineStep(t);
    if k == 0 then 0 else k + NewlineRun(t[k..])
  }

  /** The match cannot be extended: no further iteration matches after it. */
  lemma {:induction false} NewlineRunMaximal(t: string)
    ensures NewlineStep(t[NewlineRun(t)..]) == 0
    decreases |t|
  {
    var k := NewlineStep(t);
    if k > 0 {
      NewlineRunMaximal(t[k..]);
      assert t[k..][NewlineRun(t[k..])..] == t[NewlineRun(t)..];
    }
  }

  /** A match of `(\s?\n)+` is whitespace only. */
  lemma {:induction false} NewlineRunWhitespace(t: string)
    ensures AllWhitespace(t[..NewlineRun(t)])
    decreases |t|
  {
    var k := NewlineStep(t);
    if k > 0 {
      var rest := t[k..];
      NewlineRunWhitespace(rest);
      var m := NewlineRun(t);
      assert t[..m] == t[..k] + rest[..m - k];
    }
  }

  /**
   * `t.replace(/(\s?\n)+/g, '\n')`: matches are found left to right and
   * never overlap (the pattern looks only forward, so a match at a position
   * is a match at the front of the rest).
   */
  function CollapseNewlines(t: string): string
    decreases |t|
  {
    if t == [] then ""
    else
      var m := NewlineRun(t);
      if m == 0 then [t[0]] + CollapseNewlines(t[1..])
      else "\n" + CollapseNewlines(t[m..])
  }

  /** No two newlines are adjacent in the output, and it starts with one only where a match starts. */
  lemma {:induction false} CollapseNoDoubleNewline(t: string)
    ensures var r := CollapseNewlines(t);
            forall k :: 0 <= k < |r| - 1 ==> !(r[k] == '\n' && r[k + 1] == '\n')
    ensures var r := CollapseNewlines(t);
            r != [] && r[0] == '\n' ==> NewlineStep(t) > 0
    decreases |t|
  {
    if t != [] {
      var m := NewlineRun(t);
      if m == 0 {
        CollapseNoDoubleNewline(t[1..]);
      } else {
        NewlineRunMaximal(t);
        CollapseNoDoubleNewline(t[m..]);
      }
    }
  }

  /** Every whitespace-free character survives, in order; only whitespace is rewritten. */
  lemma {:induction false} CollapseKeepsNonWhitespace(t: string)
    ensures NonWhitespace(CollapseNewlines(t)) == NonWhitespace(t)
    decreases |t|
  {
    if t != [] {
      var m := NewlineRun(t);
      if m == 0 {
        CollapseKeepsNonWhitespace(t[1..]);
        assert ([t[0]] + CollapseNewlines(t[1..]))[1..] == CollapseNewlines(t[1..]);
      } else {
        CollapseRunKeepsNonWhitespace(t, m);
      }
    }
  }

  lemma {:induction false} CollapseRunKeepsNonWhitespace(t: string, m: nat)
    requires 0 < m == NewlineRun(t)
    ensures NonWhitespace(CollapseNewlines(t)) == NonWhitespace(t)
    decreases |t|, 0
  {
    var run, rest := t[..m], t[m..];
    CollapseOfRun(t, m);
    CollapseKeepsNonWhitespace(rest);
    NewlineRunWhitespace(t);
    assert t == run + rest;
    NonWhitespaceAppend(run, rest);
    NonWhitespaceOfWhitespace(run);
    NonWhitespaceAppend("\n", CollapseNewlines(rest));
  }

  /** A match at the front becomes a single newline. */
  lemma CollapseOfRun(t: string, m: nat)
    requires 0 < m == NewlineRun(t)
    ensures CollapseNewlines(t) == "\n" + CollapseNewlines(t[m..])
  {
  }

  /** When `t` ends in a non-whitespace character, so does the output, and it is not empty. */
  lemma {:induction false} CollapseKeepsLast(t: string)
    requires t != [] && !IsJsWhitespace(t[|t| - 1])
    ensures var r := CollapseNewlines(t); r != [] && r[|r| - 1] == t[|t| - 1]
    decreases |t|
  {
    var m := NewlineRun(t);
    var r := CollapseNewlines(t);
    if m == 0 {
      if 1 < |t| {
        CollapseKeepsLast(t[1..]);
        assert r == [t[0]] + CollapseNewlines(t[1..]);
      } else {
        assert r == [t[0]] + "";
      }
    } else {
      assert IsJsWhitespace('\n');
      assert m < |t|;
      CollapseKeepsLast(t[m..]);
      assert r == "\n" + CollapseNewlines(t[m..]);
    }
  }

  /** The plain text of a signature: `text.trim().replace(/(\s?\n)+/g, '\n')`. */
  function PlainText(text: string): string
  {
    CollapseNewlines(Trim(text))
  }

  /** The plain text of a signature has no leading or trailing whitespace. */
  lemma PlainTextTrimmed(text: string)
    ensures var r := PlainText(text);
            r == [] || (!IsJsWhitespace(r[0]) && !IsJsWhitespace(r[|r| - 1]))
  {
    TrimEnds(text);
    PlainTextEnds(Trim(text));
  }

  /** The plain text of a signature never holds two adjacent newlines. */
  lemma PlainTextNoBlankLines(text: string)
    ensures var r := PlainText(text);
            forall k :: 0 <= k < |r| - 1 ==> !(r[k] == '\n' && r[k + 1] == '\n')
  {
    var r := PlainText(text);
    CollapseNoDoubleNewline(Trim(text));
    assert r == CollapseNewlines(Trim(text));
  }

  /** Normalising the text only rewrites whitespace: every other character is kept, in order. */
  lemma PlainTextKeepsNonWhitespace(text: string)
    ensures NonWhitespace(PlainText(text)) == NonWhitespace(text)
  {
    CollapseKeepsNonWhitespace(Trim(text));
    TrimKeepsNonWhitespace(text);
  }

  /** The plain text is empty exactly when the concatenated text is whitespace only. */
  lemma PlainTextEmpty(text: string)
    ensures PlainText(text) == [] <==> AllWhitespace(text)
  {
    TrimEnds(text);
    PlainTextEnds(Trim(text));
    TrimEmpty(text);
  }

  lemma PlainTextEnds(t: string)
    requires t == [] || (!IsJsWhitespace(t[0]) && !IsJsWhitespace(t[|t| - 1]))
    ensures var r := CollapseNewlines(t);
            (r == [] <==> t == []) && (r == [] || (r[0] == t[0] && r[|r| - 1] == t[|t| - 1]))
  {
    if t != [] {
      CollapseKeepsLast(t);
      assert NewlineStep(t) == 0;
    }
  }

  lemma {:induction false} TrimStartEmpty(s: string)
    ensures TrimStart(s) == [] <==> AllWhitespace(s)
  {
    if s != [] && IsJsWhitespace(s[0]) {
      TrimStartEmpty(s[1..]);
      if AllWhitespace(s[1..]) {
        forall k | 0 <= k < |s| ensures IsJsWhitespace(s[k]) {
          if k > 0 { assert s[k] == s[1..][k - 1]; }
        }
      }
    }
  }

  lemma TrimEmpty(s: string)
    ensures Trim(s) == [] <==> AllWhitespace(s)
  {
    TrimStartEmpty(s);
    var t := TrimStart(s);
    TrimEndCut(t);
    if t != [] {
      assert TrimEnd(t) != [] by {
        assert !IsJsWhitespace(t[0]);
        assert !AllWhitespace(t[0..]);
      }
    }
  }
}
