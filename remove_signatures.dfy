/**
 * `removeSignatures` and `findAllSignatures` (removeSignatures.ts): the
 * signature of an email is looked for in a search tree, its HTML and plain
 * text are built there, and every match is removed from the live document.
 *
 * The methods follow the source statement by statement on `Document`
 * objects; `Extract` and `RemovalOutcome` state in closed form what they
 * compute, and the lemmas at the end state what the source promises of
 * the result.
 */
module RemoveSignatures {
  import opened Wrappers
  import opened Tree
  import opened Flatten
  import opened LineBreaks
  import opened Selectors
  import opened SignatureText
  import opened Removal
  import opened Dom
  import opened JsStrings

  // ---------------------------------------------------------------------
  // Results
  // ---------------------------------------------------------------------

  /**
   * The selection `findAllSignatures` returns: matches that stay in the
   * tree, or the new detached `div` (identity `hid`) holding the Outlook run.
   */
  datatype Found = InTree(ids: seq<nat>) | Detached(hid: nat, run: seq<Node>)

  /**
   * `returnData`. The HTML is the forest whose serialisation
   * `.html()` returns; None is `null`.
   */
  datatype SignatureResult = SignatureResult(
    didFindSignature: bool,
    foundSignaturePlainText: string,
    foundSignatureHtml: Option<seq<Node>>)

  /** The result, and the search tree as the extraction leaves it. */
  datatype Extraction = Extraction(result: SignatureResult, tree: seq<Node>)

  const DivP: set<string> := {"div", "p"}

  // ---------------------------------------------------------------------
  // The closed form
  // ---------------------------------------------------------------------

  /** Line 118-119: the new `div` with the moved nodes appended. */
  function Holder(hid: nat, run: seq<Node>): Node
  {
    Element(hid, "div", map[], run)
  }

  /** Lines 82-106 on tree `f`; `hid` is the identity the holder gets. */
  function FindAll(f: seq<Node>, hid: nat): Found
  {
    if OutlookCase(f) then Detached(hid, RunOf(f)) else InTree(SignatureIds(f))
  }

  /** The tree after `findAllSignatures`: the Outlook path moved its run out. */
  function AfterFind(f: seq<Node>): seq<Node>
  {
    if OutlookCase(f) then RemoveIds(f, TopIds(RunOf(f))) else f
  }

  function Selection(found: Found): seq<nat>
  {
    match found
    case InTree(ids) => ids
    case Detached(hid, _) => [hid]
  }

  /** The forest the selection's elements live in. */
  function Scope(t: seq<Node>, found: Found): seq<Node>
  {
    match found
    case InTree(_) => t
    case Detached(hid, run) => [Holder(hid, run)]
  }

  /** The elements of a `find` list that get a line break: all but the first (line 57). */
  function Marked(blocks: seq<nat>, i: nat): set<nat>
    requires i <= |blocks|
  {
    set k | 1 <= k < i :: blocks[k]
  }

  function Later(blocks: seq<nat>): set<nat>
  {
    Marked(blocks, |blocks|)
  }

  /** Line 53: the inner content of the selection's first element; `null` for an empty selection. */
  function InnerHtml(f: seq<Node>, sel: set<nat>): Option<seq<Node>>
  {
    match FindFirst(f, sel)
    case None => None
    case Some(e) => Some(e.children)
  }

  /**
   * `.text()` of one selected element: its text when it is still in the
   * tree; when flattening put its only child in its place, the element is
   * detached but still selected, and only its text children are left.
   */
  function ElementText(g: seq<Node>, before: seq<Node>, x: nat): string
  {
    match FindFirst(g, {x})
    case Some(e) => TextContent(e.children)
    case None =>
      match FindFirst(before, {x})
      case Some(e) => DirectText(e.children)
      case None => ""
  }

  /** Line 63: `.text()` of the selection, element after element. */
  function SelectionText(g: seq<Node>, before: seq<Node>, sel: seq<nat>): string
  {
    if sel == [] then "" else ElementText(g, before, sel[0]) + SelectionText(g, before, sel[1..])
  }

  /** Lines 43-51 on the scope: the divs below the selection that wrap one div are collapsed. */
  function Flattened(scope: seq<Node>, sel: seq<nat>): seq<Node>
  {
    FlattenBelow(scope, SetOf(sel))
  }

  /** Lines 56-61 after the flattening: a "\n" before every div and p below the selection but the first. */
  function Broken(scope: seq<Node>, sel: seq<nat>): seq<Node>
  {
    var h := Flattened(scope, sel);
    BreakSet(h, Later(Below(h, SetOf(sel), DivP)))
  }

  /** Lines 43-66 on a scope and a selection in it. */
  function ResultOf(scope: seq<Node>, sel: seq<nat>): SignatureResult
  {
    SignatureResult(
      |sel| > 0,
      PlainText(SelectionText(Broken(scope, sel), scope, sel)),
      InnerHtml(Flattened(scope, sel), SetOf(sel)))
  }

  /** Lines 37-66 on search tree `t`. */
  function Extract(t: seq<Node>, hid: nat): Extraction
  {
    var found := FindAll(t, hid);
    var scope := Scope(AfterFind(t), found);
    var sel := Selection(found);
    Extraction(ResultOf(scope, sel), if found.InTree? then Broken(scope, sel) else AfterFind(t))
  }

  /** Lines 69-72 on tree `t`: the matches go; on the Outlook path the run was moved out by the search. */
  function RemovalOutcome(t: seq<Node>): seq<Node>
  {
    if OutlookCase(t) then AfterFind(t) else RemoveIds(t, SignatureSet(t))
  }

  /** Line 30: the first element's content under a new `html` root without attributes. */
  function CopyTree(f: seq<Node>, root: nat): seq<Node>
  {
    var inner := match FirstElement(f) case None => [] case Some(e) => e.children;
    [Element(root, "html", map[], inner)]
  }

  /** Lines 25-34: the tree the signature is looked for in. */
  function SearchTree(f: seq<Node>, next: nat, cleaned: bool, isQuote: Node -> bool): seq<Node>
  {
    if cleaned then f else Prune(CopyTree(f, next), isQuote)
  }

  function SearchNext(next: nat, cleaned: bool): nat
  {
    if cleaned then next else next + 1
  }

  // ---------------------------------------------------------------------
  // The code
  // ---------------------------------------------------------------------

  /** Line 30: `load($('*').html() || '')`, a new document. */
  method CopyDocument(live: Document) returns (copy: Document)
    requires live.Valid()
    ensures fresh(copy) && copy.Valid()
    ensures copy.nodes == CopyTree(live.nodes, live.nextId) && copy.nextId == live.nextId + 1
  {
    var inner: seq<Node> := [];
    var first := FirstElement(live.nodes);
    if first.Some? {
      MemberIds(live.nodes, first.value);
      inner := first.value.children;
    }
    var root := Element(live.nextId, "html", map[], inner);
    Single(root, IdIn({}));
    copy := new Document([root], live.nextId + 1);
  }

  /** Lines 108-121. */
  method FindAllSignaturesOutlook(d: Document) returns (found: Found)
    requires d.Valid()
    modifies d
    ensures d.Valid()
    ensures found == Detached(old(d.nextId), RunOf(old(d.nodes)))
    ensures d.nodes == RemoveIds(old(d.nodes), TopIds(RunOf(old(d.nodes)))) && d.nextId == old(d.nextId) + 1
    ensures Unique([Holder(found.hid, found.run)])
    ensures forall x | x in NodeIds(Holder(found.hid, found.run)) :: x < d.nextId
  {
    ghost var f0 := d.nodes;
    var run := RunOf(d.nodes);
    OutlookRunShape(f0);
    var hid := d.NewId();
    var holder := Holder(hid, []);
    RemoveIdsAbsent(f0, {});
    assert TopIds(run[..0]) == {};
    for i := 0 to |run|
      invariant d.Valid() && d.nextId == hid + 1
      invariant d.nodes == RemoveIds(f0, TopIds(run[..i]))
      invariant holder == Holder(hid, run[..i])
    {
      RemoveIdsTwice(f0, TopIds(run[..i]), {run[i].id});
      d.Remove(run[i].id);
      holder := Holder(hid, holder.children + [run[i]]);
      TopIdsSnoc(run, i);
    }
    assert run[..|run|] == run;
    Single(holder, IdIn({}));
    found := Detached(hid, holder.children);
  }

  lemma TopIdsSnoc(run: seq<Node>, i: nat)
    requires i < |run| && run[i].Element?
    ensures run[..i + 1] == run[..i] + [run[i]]
    ensures TopIds(run[..i + 1]) == TopIds(run[..i]) + {run[i].id}
  {
    assert run[..i + 1] == run[..i] + [run[i]];
  }

  /** Lines 82-106. */
  method FindAllSignatures(d: Document) returns (found: Found)
    requires d.Valid()
    modifies d
    ensures d.Valid()
    ensures found == FindAll(old(d.nodes), old(d.nextId))
    ensures d.nodes == AfterFind(old(d.nodes))
    ensures d.nextId == if found.Detached? then old(d.nextId) + 1 else old(d.nextId)
    ensures found.Detached? ==> Unique([Holder(found.hid, found.run)])
    ensures found.Detached? ==> forall x | x in NodeIds(Holder(found.hid, found.run)) :: x < d.nextId
  {
    var signatureElements := SignatureIds(d.nodes);
    if signatureElements == [] && XmlnsMicrosoft(d.nodes) {
      found := FindAllSignaturesOutlook(d);
    } else {
      found := InTree(signatureElements);
    }
  }

  /** Lines 43-51: every div `find` reaches from the selection, in order, is collapsed when it wraps one div. */
  method FlattenDivs(d: Document, sel: set<nat>)
    requires d.Valid()
    modifies d
    ensures d.Valid() && d.nextId == old(d.nextId)
    ensures d.nodes == FlattenBelow(old(d.nodes), sel)
  {
    ghost var f0 := d.nodes;
    var divs := Below(d.nodes, sel, Div);
    for i := 0 to |divs|
      invariant d.Valid() && d.nextId == old(d.nextId)
      invariant d.nodes == FoldCollapse(f0, divs[..i])
    {
      CollapseAtByFind(d.nodes, divs[i]);
      var div := d.Find(divs[i]);
      if div.Some? && Collapsible(div.value) {
        var childDiv := OnlyChild(div.value);
        d.ReplaceWith(divs[i], childDiv);
      }
      FoldCollapseSnoc(f0, divs[..i], divs[i]);
      assert divs[..i + 1] == divs[..i] + [divs[i]];
    }
    assert divs[..|divs|] == divs;
    FlattenBelowByLoop(f0, sel);
  }

  /** Lines 56-61: a "\n" before every div and p `find` reaches from the selection, but the first. */
  method InsertLineBreaks(d: Document, sel: set<nat>)
    requires d.Valid()
    modifies d
    ensures d.Valid() && d.nextId == old(d.nextId)
    ensures d.nodes == BreakSet(old(d.nodes), Later(Below(old(d.nodes), sel, DivP)))
  {
    ghost var g := d.nodes;
    var blocks := Below(d.nodes, sel, DivP);
    BelowNoDup(g, sel, DivP);
    BreakSetNone(g);
    assert Marked(blocks, 0) == {};
    for i := 0 to |blocks|
      invariant d.Valid() && d.nextId == old(d.nextId)
      invariant d.nodes == BreakSet(g, Marked(blocks, i))
    {
      if i > 0 {
        assert blocks[i] !in Marked(blocks, i);
        BreakSetStep(g, Marked(blocks, i), blocks[i]);
        d.InsertTextBefore(blocks[i], "\n");
        assert Marked(blocks, i + 1) == Marked(blocks, i) + {blocks[i]};
      } else {
        assert Marked(blocks, 1) == Marked(blocks, 0);
      }
    }
  }

  /** Line 72: `remove()` on every element of the selection. */
  method RemoveAll(d: Document, ids: seq<nat>)
    requires d.Valid()
    modifies d
    ensures d.Valid() && d.nextId == old(d.nextId)
    ensures d.nodes == RemoveIds(old(d.nodes), SetOf(ids))
  {
    ghost var f0 := d.nodes;
    RemoveIdsAbsent(f0, {});
    assert SetOf(ids[..0]) == {};
    for i := 0 to |ids|
      invariant d.Valid() && d.nextId == old(d.nextId)
      invariant d.nodes == RemoveIds(f0, SetOf(ids[..i]))
    {
      RemoveIdsTwice(f0, SetOf(ids[..i]), {ids[i]});
      d.Remove(ids[i]);
      assert ids[..i + 1] == ids[..i] + [ids[i]];
      assert SetOf(ids[..i + 1]) == SetOf(ids[..i]) + {ids[i]};
    }
    assert ids[..|ids|] == ids;
  }

  /** Lines 43-66 on the document the selection lives in. */
  method ExtractFrom(scope: Document, sel: seq<nat>) returns (r: SignatureResult)
    requires scope.Valid()
    modifies scope
    ensures scope.Valid() && scope.nextId == old(scope.nextId)
    ensures r == ResultOf(old(scope.nodes), sel)
    ensures scope.nodes == Broken(old(scope.nodes), sel)
  {
    var before := scope.nodes;
    FlattenDivs(scope, SetOf(sel));
    var html := InnerHtml(scope.nodes, SetOf(sel));
    InsertLineBreaks(scope, SetOf(sel));
    var plainText := PlainText(SelectionText(scope.nodes, before, sel));
    r := SignatureResult(|sel| > 0, plainText, html);
  }

  /** Lines 37-66 on the search document. */
  method ExtractSignature(search: Document) returns (r: SignatureResult)
    requires search.Valid()
    modifies search
    ensures search.Valid() && search.nextId >= old(search.nextId)
    ensures r == Extract(old(search.nodes), old(search.nextId)).result
    ensures search.nodes == Extract(old(search.nodes), old(search.nextId)).tree
  {
    var found := FindAllSignatures(search);
    match found {
      case InTree(ids) =>
        r := ExtractFrom(search, ids);
      case Detached(holderId, run) =>
        var holder := new Document([Holder(holderId, run)], search.nextId);
        r := ExtractFrom(holder, [holderId]);
    }
  }

  /** Lines 69-72: the matches of the live document are looked for again and removed. */
  method RemoveFound(live: Document)
    requires live.Valid()
    modifies live
    ensures live.Valid() && live.nextId >= old(live.nextId)
    ensures live.nodes == RemovalOutcome(old(live.nodes))
  {
    var forRemoval := FindAllSignatures(live);
    match forRemoval {
      case InTree(ids) =>
        RemoveAll(live, ids);
      case Detached(_, _) =>
        // removing the detached holder leaves the document as it is
    }
  }

  /**
   * Lines 8-77. `isQuote` selects what `removeQuotations` takes out of the
   * copy.
   */
  method RemoveSignatures(live: Document, cleanedQuotations: bool, isQuote: Node -> bool) returns (r: SignatureResult)
    requires live.Valid()
    modifies live
    ensures live.Valid() && live.nextId >= old(live.nextId)
    ensures var ex := Extract(SearchTree(old(live.nodes), old(live.nextId), cleanedQuotations, isQuote),
                              SearchNext(old(live.nextId), cleanedQuotations));
            r == ex.result
            && live.nodes == RemovalOutcome(if cleanedQuotations then ex.tree else old(live.nodes))
  {
    ghost var ex := Extract(SearchTree(live.nodes, live.nextId, cleanedQuotations, isQuote),
                            SearchNext(live.nextId, cleanedQuotations));
    ghost var original := live.nodes;
    if cleanedQuotations {
      r := ExtractSignature(live);
      assert r == ex.result && live.nodes == ex.tree;
    } else {
      var search := CopyDocument(live);
      search.RemoveWhere(isQuote);
      r := ExtractSignature(search);
      assert r == ex.result && live.nodes == original;
    }
    RemoveFound(live);
  }

  // ---------------------------------------------------------------------
  // What the result says
  // ---------------------------------------------------------------------

  /** Line 74: a signature is reported exactly when the selector list matched or the Outlook fallback ran. */
  lemma DidFindSignatureExactly(t: seq<Node>, hid: nat)
    ensures Extract(t, hid).result.didFindSignature <==> SignatureIds(t) != [] || XmlnsMicrosoft(t)
  {
  }

  /** Marks on a forest are marks on any part of it. */
  lemma MarksPart(f: seq<Node>, g: seq<Node>, xs: set<nat>)
    requires MarksSignatures(f, xs) && Heads(g) <= Heads(f)
    ensures MarksSignatures(g, xs)
  {
  }

  /** With the matches marked, the first marked element in document order is the first match listed. */
  lemma {:induction false} FindFirstMatch(f: seq<Node>, xs: set<nat>)
    requires MarksSignatures(f, xs)
    ensures FindFirst(f, xs).Some? <==> SignatureIds(f) != []
    ensures SignatureIds(f) != [] ==> FindFirst(f, xs).value.id == SignatureIds(f)[0]
    decreases f
  {
    if f != [] {
      var rest := f[1..];
      assert Heads(f) == NodeHeads(f[0]) + Heads(rest);
      assert SignatureIds(f) == NodeSignatureIds(f[0]) + SignatureIds(rest);
      MarksPart(f, rest, xs);
      FindFirstMatch(rest, xs);
      match f[0]
      case Text(_) =>
        assert FindFirst(f, xs) == FindFirst(rest, xs);
      case Element(id, tag, attrs, ch) =>
        var hd := Head(id, tag, attrs);
        assert hd in NodeHeads(f[0]);
        assert id in xs <==> IsSignature(tag, attrs);
        if IsSignature(tag, attrs) {
          assert NodeSignatureIds(f[0])[0] == id;
          assert FindFirst(f, xs) == Some(f[0]);
        } else {
          assert NodeSignatureIds(f[0]) == SignatureIds(ch);
          MarksPart(f, ch, xs);
          FindFirstMatch(ch, xs);
          assert FindFirst(f, xs) == if FindFirst(ch, xs).Some? then FindFirst(ch, xs) else FindFirst(rest, xs);
        }
    }
  }

  /** Line 53: the HTML is `null` exactly when nothing was found. */
  lemma HtmlExactlyWhenFound(t: seq<Node>, hid: nat)
    ensures var r := Extract(t, hid).result;
            r.foundSignatureHtml.Some? <==> r.didFindSignature
  {
    var found := FindAll(t, hid);
    var scope := Scope(AfterFind(t), found);
    var sel := Selection(found);
    FindFirstFlattenBelow(scope, SetOf(sel));
    if sel != [] {
      assert sel[0] in SetOf(sel);
      if found.Detached? {
        assert sel[0] in Ids(scope);
      } else {
        assert sel[0] in Ids(scope);
      }
    }
  }

  /**
   * Lines 16-20 and 53-74: when nothing is found the HTML is `null` and the
   * plain text is the empty string (the text of an empty selection), not
   * `null`.
   */
  lemma NotFoundIsEmpty(t: seq<Node>, hid: nat)
    ensures var r := Extract(t, hid).result;
            !r.didFindSignature ==> r == SignatureResult(false, "", None)
  {
    HtmlExactlyWhenFound(t, hid);
    if !Extract(t, hid).result.didFindSignature {
      PlainTextEmpty("");
    }
  }

  /**
   * Line 53: the HTML is the content of the first match in document order
   * with its div wrappers collapsed, and on the Outlook path the moved run
   * with its div wrappers collapsed; either way no div is left whose only
   * element child is a div.
   */
  lemma HtmlIsFirstMatchFlattened(t: seq<Node>, hid: nat)
    requires Unique(t)
    ensures var html := Extract(t, hid).result.foundSignatureHtml;
            (OutlookCase(t) ==> html == Some(FlatForest(RunOf(t))))
            && (!OutlookCase(t) && SignatureIds(t) != [] ==>
                  var e := FindFirst(t, SignatureSet(t)).value;
                  e.id == SignatureIds(t)[0] && IsSignature(e.tag, e.attrs)
                  && html == Some(FlatForest(e.children)))
            && (html.Some? ==> forall e :: e in Elements(html.value) ==> !Collapsible(e))
  {
    var found := FindAll(t, hid);
    var scope := Scope(AfterFind(t), found);
    var sel := Selection(found);
    FindFirstFlattenBelow(scope, SetOf(sel));
    if OutlookCase(t) {
      var holder := Holder(hid, RunOf(t));
      assert scope == [holder];
      assert FindFirst(scope, SetOf(sel)) == Some(holder);
      FlatForestIsFlat(RunOf(t));
    } else if SignatureIds(t) != [] {
      SignatureSetMarks(t);
      FindFirstMatch(t, SignatureSet(t));
      var e := FindFirst(t, SignatureSet(t)).value;
      UniqueHeads(t);
      assert Head(e.id, e.tag, e.attrs) in Heads(t);
      FlatForestIsFlat(e.children);
    }
  }

  /** Lines 62-66: the plain text is trimmed and has no empty line. */
  lemma PlainTextNormalised(t: seq<Node>, hid: nat)
    ensures var s := Extract(t, hid).result.foundSignaturePlainText;
            (s == [] || (!IsJsWhitespace(s[0]) && !IsJsWhitespace(s[|s| - 1])))
            && forall k :: 0 <= k < |s| - 1 ==> !(s[k] == '\n' && s[k + 1] == '\n')
  {
    var found := FindAll(t, hid);
    var scope := Scope(AfterFind(t), found);
    var sel := Selection(found);
    var text := SelectionText(Broken(scope, sel), scope, sel);
    PlainTextTrimmed(text);
    PlainTextNoBlankLines(text);
  }

  /** The line breaks add only whitespace to the text of each selected element. */
  lemma {:induction false} SelectionTextBreakSet(h: seq<Node>, xs: set<nat>, before: seq<Node>, sel: seq<nat>)
    ensures NonWhitespace(SelectionText(BreakSet(h, xs), before, sel)) == NonWhitespace(SelectionText(h, before, sel))
    decreases sel
  {
    if sel != [] {
      var x := sel[0];
      SelectionTextBreakSet(h, xs, before, sel[1..]);
      FindFirstBreakSet(h, xs, {x});
      if FindFirst(h, {x}).Some? {
        BreakSetAddsOnlyWhitespace(FindFirst(h, {x}).value.children, xs);
      }
      NonWhitespaceAppend(ElementText(BreakSet(h, xs), before, x), SelectionText(BreakSet(h, xs), before, sel[1..]));
      NonWhitespaceAppend(ElementText(h, before, x), SelectionText(h, before, sel[1..]));
    }
  }

  /**
   * Lines 56-66: apart from whitespace, the plain text is the text of the
   * selected elements after the flattening, element after element.
   */
  lemma PlainTextKeepsText(scope: seq<Node>, sel: seq<nat>)
    ensures NonWhitespace(ResultOf(scope, sel).foundSignaturePlainText)
            == NonWhitespace(SelectionText(Flattened(scope, sel), scope, sel))
  {
    var h := Flattened(scope, sel);
    PlainTextKeepsNonWhitespace(SelectionText(Broken(scope, sel), scope, sel));
    SelectionTextBreakSet(h, Later(Below(h, SetOf(sel), DivP)), scope, sel);
  }

  // ---------------------------------------------------------------------
  // What the removal leaves
  // ---------------------------------------------------------------------

  /** Lines 69-72: no match is left in the live document. */
  lemma RemovalLeavesNoSignature(t: seq<Node>)
    requires Unique(t)
    ensures forall hd | hd in Heads(RemovalOutcome(t)) :: !IsSignatureHead(hd)
  {
    if OutlookCase(t) {
      NoSignatureAfterRemoval(t, TopIds(RunOf(t)));
    } else {
      RemoveSignatureSet(t);
      PruneSignaturesLeavesNone(t);
    }
  }

  /** Lines 69-72: outside the Outlook path, exactly the matches go, each with its subtree. */
  lemma RemovalDeletesOnlySignatures(t: seq<Node>)
    requires Unique(t) && !OutlookCase(t)
    ensures RemovalOutcome(t) == PruneSignatures(t)
  {
    RemoveSignatureSet(t);
  }

  /** Every element of `Later(s)` is an element of `s`. */
  lemma LaterIn(s: seq<nat>)
    ensures forall x | x in Later(s) :: x in s
  {
  }

  /**
   * With `cleanedQuotations` the removal runs on the tree the extraction
   * flattened and broke into lines; since that happened only inside
   * matches, the removal still leaves exactly the document without its
   * matches.
   */
  lemma CleanedRemovalDeletesOnlySignatures(t: seq<Node>, hid: nat)
    requires Unique(t) && !OutlookCase(t)
    ensures RemovalOutcome(Extract(t, hid).tree) == PruneSignatures(t)
  {
    var sigs := SignatureSet(t);
    var ids := SignatureIds(t);
    assert FindAll(t, hid) == InTree(ids);
    var h := FlattenBelow(t, sigs);
    var later := Later(Below(h, sigs, DivP));
    var g := BreakSet(h, later);
    assert Extract(t, hid).tree == g;
    if ids == [] {
      assert sigs == {};
      FlattenBelowNone(t, DivP);
      assert later == {};
      BreakSetNone(t);
      RemoveSignatureSet(t);
    } else {
      SignatureSetMarks(t);
      assert SelectsSignatures(t, sigs);
      FlattenForestBelowShrinks(t, sigs);
      assert SelectsSignatures(h, sigs);
      FlattenBelowByLoop(t, sigs);
      FoldCollapseShrinks(t, Below(t, sigs, Div));
      assert Unique(h);
      BelowNotExposed(h, sigs, DivP);
      LaterIn(Below(h, sigs, DivP));
      assert later !! Exposed(h);
      BreaksUnderSignatures(h, later);
      FlattenUnderSignatures(t, sigs);
      FlattenKeepsASignature(t, sigs);
      BreakSetKeepsSignatures(h, later);
      BreakSetShape(h, later);
      assert !OutlookCase(g);
      RemoveSignatureSet(g);
    }
  }

  // ---------------------------------------------------------------------
  // The copy of line 30
  // ---------------------------------------------------------------------

  /**
   * The copy is rooted at a new `html` element without attributes, so the
   * Outlook fallback never runs on it, whatever `removeQuotations` takes out.
   */
  lemma CopyNeverOutlook(f: seq<Node>, next: nat, isQuote: Node -> bool)
    ensures !XmlnsMicrosoft(SearchTree(f, next, false, isQuote))
  {
    var root := CopyTree(f, next)[0];
    Single(root, isQuote);
    var c := SearchTree(f, next, false, isQuote);
    if !isQuote(root) {
      var e := Element(next, "html", map[], Prune(root.children, isQuote));
      assert c == [e];
      Single(e, isQuote);
      assert Elements(c)[0] == e;
    }
  }

  /** A forest none of whose elements matches has no matches. */
  lemma NoMatchingHead(f: seq<Node>)
    requires forall hd | hd in Heads(f) :: !IsSignatureHead(hd)
    ensures SignatureIds(f) == []
  {
    SignatureIdsExact(f);
    if SignatureIds(f) != [] {
      assert SignatureIds(f)[0] in SignatureIds(f);
      assert false;
    }
  }

  /** The copy holds no match the document does not hold. */
  lemma CopyMatches(f: seq<Node>, next: nat, isQuote: Node -> bool)
    requires SignatureIds(f) == []
    ensures SignatureIds(SearchTree(f, next, false, isQuote)) == []
  {
    var copy := CopyTree(f, next);
    var root := copy[0];
    SignatureIdsExact(f);
    Single(root, IdIn({}));
    if FirstElement(f).Some? {
      MemberIds(f, FirstElement(f).value);
    }
    assert Heads(copy) == {Head(next, "html", map[])} + Heads(root.children);
    assert !IsSignature("html", map[]);
    PruneShrinks(copy, isQuote);
    NoMatchingHead(SearchTree(f, next, false, isQuote));
  }

  /**
   * Without `cleanedQuotations`, a Microsoft document whose signature only
   * the Outlook fallback finds is reported as having none, while the
   * removal on the live document still moves the Outlook run out of it.
   */
  lemma UncleanedOutlookUnreported(f: seq<Node>, next: nat, isQuote: Node -> bool)
    requires OutlookCase(f)
    ensures Extract(SearchTree(f, next, false, isQuote), next + 1).result == SignatureResult(false, "", None)
    ensures RemovalOutcome(f) == RemoveIds(f, TopIds(RunOf(f)))
  {
    var c := SearchTree(f, next, false, isQuote);
    CopyMatches(f, next, isQuote);
    CopyNeverOutlook(f, next, isQuote);
    FindFirstFlattenBelow(c, {});
    FlattenBelowNone(c, DivP);
    assert SetOf([]) == {};
    PlainTextEmpty("");
  }
}
