/**
 * The selectors of `findAllSignatures` and `findAllSignaturesOutlook`
 * (removeSignatures.ts lines 82-121), read against the tree. Attribute
 * tests follow Selectors Level 3: `[attr*=value]` is a substring test
 * (section 6.3.2), `.name` a whitespace-separated word of `class`
 * (section 6.4), `#name` an exact `id` (section 6.5). Tag names and
 * attribute names are lower case, values are compared case-sensitively.
 */
module Selectors {
  import opened Wrappers
  import opened Tree
  import opened JsStrings

  // ---------------------------------------------------------------------
  // Attribute tests
  // ---------------------------------------------------------------------

  /** `[name*="value"]`: the attribute is present and contains `value`. */
  predicate AttrContains(attrs: map<string, string>, name: string, value: string)
  {
    name in attrs && Contains(attrs[name], value)
  }

  /** `#value`: the `id` attribute is exactly `value`. */
  predicate HasId(attrs: map<string, string>, value: string)
  {
    "id" in attrs && attrs["id"] == value
  }

  /** `w` occurs in `s` with whitespace or an end of `s` on either side. */
  predicate HasWord(s: string, w: string)
  {
    exists i :: 0 <= i <= |s| - |w| && OccursAt(s, w, i)
      && (i == 0 || IsJsWhitespace(s[i - 1]))
      && (i + |w| == |s| || IsJsWhitespace(s[i + |w|]))
  }

  /** `.value`: `value` is one of the words of the `class` attribute. */
  predicate HasClass(attrs: map<string, string>, value: string)
  {
    "class" in attrs && HasWord(attrs["class"], value)
  }

  // ---------------------------------------------------------------------
  // The signature selector list (lines 83-95)
  // ---------------------------------------------------------------------

  /** An element with this tag and these attributes matches one selector of the list. */
  predicate IsSignature(tag: string, attrs: map<string, string>)
  {
    tag == "signature"
    || HasClass(attrs, "gmail_signature")
    || HasClass(attrs, "protonmail_signature_block")
    || HasId(attrs, "ms-outlook-mobile-signature")
    || HasId(attrs, "Signature")
    || AttrContains(attrs, "class", "signature")
    || AttrContains(attrs, "id", "signature")
  }

  predicate IsSignatureNode(n: Node)
  {
    n.Element? && IsSignature(n.tag, n.attrs)
  }

  predicate IsSignatureHead(hd: Head)
  {
    IsSignature(hd.tag, hd.attrs)
  }

  /** The identities of the matching elements, in document order. */
  function SignatureIds(f: seq<Node>): (r: seq<nat>)
    ensures forall x | x in r :: x in Ids(f)
    decreases f, 1
  {
    if f == [] then [] else NodeSignatureIds(f[0]) + SignatureIds(f[1..])
  }

  function NodeSignatureIds(n: Node): (r: seq<nat>)
    ensures forall x | x in r :: x in NodeIds(n)
    decreases n, 0
  {
    match n
    case Element(id, tag, attrs, ch) => (if IsSignature(tag, attrs) then [id] else []) + SignatureIds(ch)
    case Text(_) => []
  }

  function SignatureSet(f: seq<Node>): set<nat>
  {
    SetOf(SignatureIds(f))
  }

  /** The identities of the matching elements of a list, in its order: the reference reading of a selection. */
  function MatchingIds(es: seq<Node>): seq<nat>
  {
    if es == [] then []
    else (if IsSignatureNode(es[0]) then [es[0].id] else []) + MatchingIds(es[1..])
  }

  // ---------------------------------------------------------------------
  // The Outlook fallback (lines 98-103, 108-121)
  // ---------------------------------------------------------------------

  /** The position of the first node of `es` that satisfies `p`; `|es|` when there is none. */
  function FirstIndex(es: seq<Node>, p: Node -> bool): (k: nat)
    ensures k <= |es|
    ensures k < |es| ==> p(es[k])
    ensures forall j | 0 <= j < k :: !p(es[j])
  {
    if es == [] then 0 else if p(es[0]) then 0 else 1 + FirstIndex(es[1..], p)
  }

  predicate IsHtml(n: Node)
  {
    n.Element? && n.tag == "html"
  }

  /** Line 100: the first `html` element's `xmlns:m` attribute contains "microsoft". */
  predicate XmlnsMicrosoft(f: seq<Node>)
  {
    var es := Elements(f);
    var k := FirstIndex(es, IsHtml);
    k < |es| && AttrContains(es[k].attrs, "xmlns:m", "microsoft")
  }

  /** Line 114, `>[style*="mso-ligatures"], >[style*="mso-fareast"]`: some element child has such a style. */
  predicate HasMsoChild(f: seq<Node>)
  {
    f != []
    && ((f[0].Element? && (AttrContains(f[0].attrs, "style", "mso-ligatures")
                           || AttrContains(f[0].attrs, "style", "mso-fareast")))
        || HasMsoChild(f[1..]))
  }

  /** Line 114, `:has(...)`: an element that has a direct child of Outlook's signature style. */
  predicate IsOutlookStart(n: Node)
  {
    n.Element? && HasMsoChild(n.children)
  }

  /** Line 117, `div[style*='border-top']`: the rule that ends an Outlook signature. */
  predicate IsBorderTopDiv(n: Node)
  {
    n.Element? && n.tag == "div" && AttrContains(n.attrs, "style", "border-top")
  }

  /** `nextUntil`: the sibling elements up to, and without, the first border-top div. */
  function UntilBorder(es: seq<Node>): (r: seq<Node>)
    ensures |r| <= |es| && forall k | 0 <= k < |r| :: r[k] == es[k]
    ensures forall k | 0 <= k < |r| :: !IsBorderTopDiv(r[k])
    ensures |r| < |es| ==> IsBorderTopDiv(es[|r|])
  {
    if es == [] || IsBorderTopDiv(es[0]) then [] else [es[0]] + UntilBorder(es[1..])
  }

  /**
   * Lines 113-117: the first element in document order with a child of
   * Outlook's signature style, followed by its following sibling elements
   * up to the first border-top div; None when no element qualifies.
   */
  function OutlookRun(f: seq<Node>): (r: Option<seq<Node>>)
    ensures r.Some? ==> r.value != [] && IsOutlookStart(r.value[0])
    ensures r.Some? ==> forall k | 0 <= k < |r.value| :: r.value[k].Element?
    decreases f
  {
    if f == [] then None
    else match f[0]
      case Text(_) => OutlookRun(f[1..])
      case Element(_, _, _, ch) =>
        if IsOutlookStart(f[0]) then
          var tail := UntilBorder(ElementChildren(f[1..]));
          assert forall k | 0 <= k < |tail| :: tail[k] == ElementChildren(f[1..])[k];
          Some([f[0]] + tail)
        else
          var inner := OutlookRun(ch);
          if inner.Some? then inner else OutlookRun(f[1..])
  }

  /** The nodes the holder receives: the run, or nothing when there is no start element. */
  function RunOf(f: seq<Node>): (r: seq<Node>)
    ensures forall k | 0 <= k < |r| :: r[k].Element?
  {
    match OutlookRun(f)
    case None => []
    case Some(run) => run
  }

  /** The identities of the moved nodes. */
  function TopIds(run: seq<Node>): set<nat>
  {
    set k | 0 <= k < |run| && run[k].Element? :: run[k].id
  }

  /** Lines 98-103: the fallback is taken when the selector list finds nothing on a Microsoft document. */
  predicate OutlookCase(f: seq<Node>)
  {
    SignatureIds(f) == [] && XmlnsMicrosoft(f)
  }

  // ---------------------------------------------------------------------
  // Lemmas
  // ---------------------------------------------------------------------

  lemma OccursIn(s: string, sub: string, i: nat)
    requires OccursAt(s, sub, i)
    ensures Contains(s, sub)
  {
  }

  /** A word of an attribute value occurs in it. */
  lemma WordContained(s: string, w: string)
    requires HasWord(s, w)
    ensures Contains(s, w)
  {
  }

  lemma GmailRuleSubsumed(attrs: map<string, string>)
    requires HasClass(attrs, "gmail_signature")
    ensures AttrContains(attrs, "class", "signature")
  {
    WordContained(attrs["class"], "gmail_signature");
    assert "gmail_signature"[6..15] == "signature";
    OccursIn("gmail_signature", "signature", 6);
    ContainsTransitive(attrs["class"], "gmail_signature", "signature");
  }

  lemma ProtonmailRuleSubsumed(attrs: map<string, string>)
    requires HasClass(attrs, "protonmail_signature_block")
    ensures AttrContains(attrs, "class", "signature")
  {
    WordContained(attrs["class"], "protonmail_signature_block");
    assert "protonmail_signature_block"[11..20] == "signature";
    OccursIn("protonmail_signature_block", "signature", 11);
    ContainsTransitive(attrs["class"], "protonmail_signature_block", "signature");
  }

  lemma MobileRuleSubsumed(attrs: map<string, string>)
    requires HasId(attrs, "ms-outlook-mobile-signature")
    ensures AttrContains(attrs, "id", "signature")
  {
    assert "ms-outlook-mobile-signature"[18..27] == "signature";
    OccursIn("ms-outlook-mobile-signature", "signature", 18);
  }

  lemma CapitalNotContained()
    ensures !Contains("Signature", "signature")
  {
    assert "Signature"[0] != "signature"[0];
  }

  /**
   * Every specific rule but `#Signature` is subsumed by the two generic
   * substring rules; `#Signature` is not, since the substring test is
   * case-sensitive.
   */
  lemma SignatureRulesSimplified(tag: string, attrs: map<string, string>)
    ensures IsSignature(tag, attrs) <==>
      tag == "signature" || HasId(attrs, "Signature")
      || AttrContains(attrs, "class", "signature") || AttrContains(attrs, "id", "signature")
    ensures HasId(attrs, "Signature") ==> !AttrContains(attrs, "id", "signature")
  {
    if HasClass(attrs, "gmail_signature") {
      GmailRuleSubsumed(attrs);
    }
    if HasClass(attrs, "protonmail_signature_block") {
      ProtonmailRuleSubsumed(attrs);
    }
    if HasId(attrs, "ms-outlook-mobile-signature") {
      MobileRuleSubsumed(attrs);
    }
    CapitalNotContained();
  }

  lemma {:induction false} SignatureIdsAppend(a: seq<Node>, b: seq<Node>)
    ensures SignatureIds(a + b) == SignatureIds(a) + SignatureIds(b)
  {
    if a == [] {
      assert a + b == b;
    } else {
      assert (a + b)[1..] == a[1..] + b;
      SignatureIdsAppend(a[1..], b);
    }
  }

  lemma {:induction false} MatchingIdsAppend(a: seq<Node>, b: seq<Node>)
    ensures MatchingIds(a + b) == MatchingIds(a) + MatchingIds(b)
  {
    if a == [] {
      assert a + b == b;
    } else {
      var c := a + b;
      assert c[0] == a[0] && c[1..] == a[1..] + b;
      MatchingIdsAppend(a[1..], b);
      var head := if IsSignatureNode(a[0]) then [a[0].id] else [];
      assert MatchingIds(c) == head + MatchingIds(c[1..]);
      assert MatchingIds(a) == head + MatchingIds(a[1..]);
    }
  }

  /** The matches are the matching elements of the document-order element list, in that order. */
  lemma {:induction false} SignatureIdsInDocumentOrder(f: seq<Node>)
    ensures SignatureIds(f) == MatchingIds(Elements(f))
    decreases f
  {
    if f != [] {
      SignatureIdsInDocumentOrder(f[1..]);
      MatchingIdsAppend(NodeElements(f[0]), Elements(f[1..]));
      match f[0]
      case Text(_) =>
      case Element(id, tag, attrs, ch) =>
        SignatureIdsInDocumentOrder(ch);
        MatchingIdsAppend([f[0]], Elements(ch));
        assert MatchingIds([f[0]]) == (if IsSignatureNode(f[0]) then [id] else []) + MatchingIds([]);
    }
  }

  /** An element matches exactly when its identity is among the matches (identities being unique). */
  lemma {:induction false} SignatureIdsExact(f: seq<Node>)
    ensures forall hd | hd in Heads(f) && IsSignatureHead(hd) :: hd.id in SignatureIds(f)
    ensures forall x | x in SignatureIds(f) :: exists hd :: hd in Heads(f) && hd.id == x && IsSignatureHead(hd)
    decreases f
  {
    if f != [] {
      var rest := f[1..];
      SignatureIdsExact(rest);
      assert Heads(f) == NodeHeads(f[0]) + Heads(rest);
      assert SignatureIds(f) == NodeSignatureIds(f[0]) + SignatureIds(rest);
      match f[0]
      case Text(_) =>
      case Element(id, tag, attrs, ch) =>
        SignatureIdsExact(ch);
        var hd := Head(id, tag, attrs);
        assert NodeHeads(f[0]) == {hd} + Heads(ch);
        assert NodeSignatureIds(f[0]) == (if IsSignature(tag, attrs) then [id] else []) + SignatureIds(ch);
        forall x | x in SignatureIds(f)
          ensures exists h :: h in Heads(f) && h.id == x && IsSignatureHead(h)
        {
          if x !in SignatureIds(rest) && x !in SignatureIds(ch) {
            assert x == id && IsSignatureHead(hd) && hd in Heads(f);
          }
        }
    }
  }

  /** With unique identities, an identity is among the matches exactly when its element matches. */
  lemma SignatureSetMarks(f: seq<Node>)
    requires Unique(f)
    ensures forall hd | hd in Heads(f) :: hd.id in SignatureSet(f) <==> IsSignatureHead(hd)
  {
    SignatureIdsExact(f);
    UniqueHeads(f);
  }

  /** Each match is listed once. */
  lemma {:induction false} SignatureIdsNoDup(f: seq<Node>)
    requires Unique(f)
    ensures NoDup(SignatureIds(f))
    decreases f
  {
    if f != [] {
      var a := NodeSignatureIds(f[0]);
      SignatureIdsNoDup(f[1..]);
      if f[0].Element? {
        assert UniqueNode(f[0]);
        SignatureIdsNoDup(f[0].children);
        var inner := SignatureIds(f[0].children);
        if IsSignature(f[0].tag, f[0].attrs) {
          NoDupAppend([f[0].id], inner);
        } else {
          assert a == inner;
        }
      }
      NoDupAppend(a, SignatureIds(f[1..]));
    }
  }

  lemma {:induction false} FirstIndexAppend(a: seq<Node>, b: seq<Node>, p: Node -> bool)
    ensures FirstIndex(a + b, p) == if FirstIndex(a, p) < |a| then FirstIndex(a, p) else |a| + FirstIndex(b, p)
  {
    if a != [] {
      assert (a + b)[1..] == a[1..] + b;
      assert (a + b)[0] == a[0];
      FirstIndexAppend(a[1..], b, p);
    } else {
      assert a + b == b;
    }
  }

  /**
   * The run starts at the first element in document order that has a
   * child of Outlook's signature style, and exists exactly when one does.
   */
  lemma {:induction false} OutlookRunStart(f: seq<Node>)
    ensures RunStartsAtFirst(f)
    decreases f, 1
  {
    if f != [] {
      OutlookRunStart(f[1..]);
      OutlookHeadStart(f);
    }
  }

  /** The run exists exactly when some element starts one, and it begins at the first such element in document order. */
  predicate RunStartsAtFirst(f: seq<Node>)
  {
    var es := Elements(f);
    var k := FirstIndex(es, IsOutlookStart);
    (OutlookRun(f).Some? <==> k < |es|) && (k < |es| ==> OutlookRun(f).value[0] == es[k])
  }

  lemma {:induction false} OutlookHeadStart(f: seq<Node>)
    requires f != [] && RunStartsAtFirst(f[1..])
    ensures RunStartsAtFirst(f)
    decreases f[0], 0
  {
    var head := NodeElements(f[0]);
    FirstIndexAppend(head, Elements(f[1..]), IsOutlookStart);
    if f[0].Element? {
      var ch := f[0].children;
      assert head == [f[0]] + Elements(ch);
      FirstIndexAppend([f[0]], Elements(ch), IsOutlookStart);
      assert ([f[0]] + Elements(ch))[0] == f[0];
      if IsOutlookStart(f[0]) {
        assert FirstIndex(head, IsOutlookStart) == 0;
        assert OutlookRun(f).value[0] == f[0];
      } else {
        OutlookRunStart(ch);
        assert FirstIndex([f[0]], IsOutlookStart) == 1 + FirstIndex([], IsOutlookStart);
        assert OutlookRun(f) == if OutlookRun(ch).Some? then OutlookRun(ch) else OutlookRun(f[1..]);
      }
    } else {
      assert head == [];
      assert OutlookRun(f) == OutlookRun(f[1..]);
    }
  }

  /** The run is a forest of its own: identities of the document, unique when the document's are. */
  lemma {:induction false} OutlookRunShape(f: seq<Node>)
    ensures Ids(RunOf(f)) <= Ids(f)
    ensures Unique(f) ==> Unique(RunOf(f))
    decreases f
  {
    if f != [] {
      var rest := f[1..];
      match f[0]
      case Text(_) =>
        OutlookRunShape(rest);
      case Element(id, tag, attrs, ch) =>
        if IsOutlookStart(f[0]) {
          var sibs := ElementChildren(rest);
          var tail := UntilBorder(sibs);
          ElementChildrenShape(rest);
          assert tail == sibs[..|tail|];
          PrefixShape(sibs, |tail|);
          Single(f[0], IdIn({}));
          IdsAppend([f[0]], tail);
          UniqueAppend([f[0]], tail);
          assert RunOf(f) == [f[0]] + tail;
        } else if OutlookRun(ch).Some? {
          OutlookRunShape(ch);
          if Unique(f) {
            assert UniqueNode(f[0]);
          }
          assert RunOf(f) == RunOf(ch);
        } else {
          OutlookRunShape(rest);
          assert RunOf(f) == RunOf(rest);
        }
    }
  }
}
