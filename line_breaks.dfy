/**
 * The line breaks of the plain-text signature (removeSignatures.ts lines
 * 56-61): a "\n" text node is put before every `div` and `p` inside the
 * selection except the first one found.
 */
module LineBreaks {
  import opened Tree
  import opened Wrappers
  import SignatureText

  /** `$(el).before(t)` on the element with identity `x`: a text node just before it among its siblings. */
  function BeforeAt(f: seq<Node>, x: nat, t: string): seq<Node>
    decreases f, 1
  {
    if f == [] then [] else BeforeNodeAt(f[0], x, t) + BeforeAt(f[1..], x, t)
  }

  function BeforeNodeAt(n: Node, x: nat, t: string): seq<Node>
    decreases n, 0
  {
    match n
    case Text(_) => [n]
    case Element(id, tag, attrs, ch) =>
      (if id == x then [Text(t)] else []) + [Element(id, tag, attrs, BeforeAt(ch, x, t))]
  }

  /** The forest with a "\n" text node before every element whose identity is in `xs`. */
  function BreakSet(f: seq<Node>, xs: set<nat>): seq<Node>
    decreases f, 1
  {
    if f == [] then [] else BreakNode(f[0], xs) + BreakSet(f[1..], xs)
  }

  function BreakNode(n: Node, xs: set<nat>): seq<Node>
    decreases n, 0
  {
    match n
    case Text(_) => [n]
    case Element(id, tag, attrs, ch) =>
      (if id in xs then [Text("\n")] else []) + [Element(id, tag, attrs, BreakSet(ch, xs))]
  }

  lemma {:induction false} BeforeAtAppend(a: seq<Node>, b: seq<Node>, x: nat, t: string)
    ensures BeforeAt(a + b, x, t) == BeforeAt(a, x, t) + BeforeAt(b, x, t)
  {
    if a == [] {
      assert a + b == b;
    } else {
      assert (a + b)[1..] == a[1..] + b;
      BeforeAtAppend(a[1..], b, x, t);
    }
  }

  /** With nothing to mark, the forest is unchanged: the state before the first insertion. */
  lemma {:induction false} BreakSetNone(f: seq<Node>)
    ensures BreakSet(f, {}) == f
    decreases f
  {
    if f != [] {
      BreakSetNone(f[1..]);
      if f[0].Element? {
        BreakSetNone(f[0].children);
      }
    }
  }

  /** One more insertion before a new element extends the set of marked elements. */
  lemma {:induction false} BreakSetStep(f: seq<Node>, xs: set<nat>, x: nat)
    requires x !in xs
    ensures BeforeAt(BreakSet(f, xs), x, "\n") == BreakSet(f, xs + {x})
    decreases f
  {
    if f != [] {
      BreakSetStep(f[1..], xs, x);
      var head := BreakNode(f[0], xs);
      BeforeAtAppend(head, BreakSet(f[1..], xs), x, "\n");
      match f[0]
      case Text(_) =>
        assert BeforeAt(head, x, "\n") == BeforeNodeAt(f[0], x, "\n") + BeforeAt([], x, "\n");
      case Element(id, tag, attrs, ch) =>
        BreakSetStep(ch, xs, x);
        var e := Element(id, tag, attrs, BreakSet(ch, xs));
        var mark := if id in xs then [Text("\n")] else [];
        assert head == mark + [e];
        BeforeAtAppend(mark, [e], x, "\n");
        assert BeforeAt(mark, x, "\n") == mark;
        assert BeforeAt([e], x, "\n") == BeforeNodeAt(e, x, "\n") + BeforeAt([], x, "\n");
    }
  }

  /** Inserting text keeps every element, so identities stay as they were. */
  lemma {:induction false} BeforeAtIds(f: seq<Node>, x: nat, t: string)
    ensures Ids(BeforeAt(f, x, t)) == Ids(f)
    ensures Unique(f) ==> Unique(BeforeAt(f, x, t))
    decreases f, 1
  {
    if f != [] {
      BeforeAtIds(f[1..], x, t);
      BeforeNodeAtIds(f[0], x, t);
      var head := BeforeNodeAt(f[0], x, t);
      var rest := BeforeAt(f[1..], x, t);
      UniqueAppend(head, rest);
      IdsAppend(head, rest);
    }
  }

  lemma {:induction false} BeforeNodeAtIds(n: Node, x: nat, t: string)
    ensures Ids(BeforeNodeAt(n, x, t)) == NodeIds(n)
    ensures UniqueNode(n) ==> Unique(BeforeNodeAt(n, x, t))
    decreases n, 0
  {
    match n
    case Text(_) =>
      Single(n, IdIn({}));
    case Element(id, tag, attrs, ch) =>
      BeforeAtIds(ch, x, t);
      var e := Element(id, tag, attrs, BeforeAt(ch, x, t));
      var mark := if id == x then [Text(t)] else [];
      assert BeforeNodeAt(n, x, t) == mark + [e];
      Single(e, IdIn({}));
      IdsAppend(mark, [e]);
      UniqueAppend(mark, [e]);
      assert Unique(mark) && Ids(mark) == {} by {
        if id == x {
          Single(Text(t), IdIn({}));
        }
      }
  }

  lemma {:induction false} TextContentAppend(a: seq<Node>, b: seq<Node>)
    ensures TextContent(a + b) == TextContent(a) + TextContent(b)
  {
    if a == [] {
      assert a + b == b;
    } else {
      assert (a + b)[1..] == a[1..] + b;
      TextContentAppend(a[1..], b);
    }
  }

  /**
   * The line breaks add nothing but whitespace to the text: its
   * non-whitespace characters are those of the forest before.
   */
  lemma {:induction false} BreakSetAddsOnlyWhitespace(f: seq<Node>, xs: set<nat>)
    ensures SignatureText.NonWhitespace(TextContent(BreakSet(f, xs))) == SignatureText.NonWhitespace(TextContent(f))
    decreases f, 1
  {
    if f != [] {
      BreakSetAddsOnlyWhitespace(f[1..], xs);
      BreakNodeAddsOnlyWhitespace(f[0], xs);
      var head := BreakNode(f[0], xs);
      var rest := BreakSet(f[1..], xs);
      TextContentAppend(head, rest);
      SignatureText.NonWhitespaceAppend(TextContent(head), TextContent(rest));
      assert f == [f[0]] + f[1..];
      TextContentAppend([f[0]], f[1..]);
      SignatureText.NonWhitespaceAppend(TextContent([f[0]]), TextContent(f[1..]));
    }
  }

  lemma {:induction false} BreakNodeAddsOnlyWhitespace(n: Node, xs: set<nat>)
    ensures SignatureText.NonWhitespace(TextContent(BreakNode(n, xs))) == SignatureText.NonWhitespace(TextContent([n]))
    decreases n, 0
  {
    match n
    case Text(_) =>
    case Element(id, tag, attrs, ch) =>
      BreakSetAddsOnlyWhitespace(ch, xs);
      var e := Element(id, tag, attrs, BreakSet(ch, xs));
      var mark := if id in xs then [Text("\n")] else [];
      assert BreakNode(n, xs) == mark + [e];
      TextContentAppend(mark, [e]);
      SignatureText.NonWhitespaceAppend(TextContent(mark), TextContent([e]));
      assert TextContent([e]) == TextContent(BreakSet(ch, xs)) + TextContent([]);
      assert TextContent([e]) == TextContent(BreakSet(ch, xs));
      assert TextContent([n]) == TextContent(ch) + TextContent([]);
      assert TextContent([n]) == TextContent(ch);
      assert SignatureText.NonWhitespace(TextContent(mark)) == [] by {
        if id in xs {
          assert TextContent(mark) == "\n" + TextContent([]);
          assert SignatureText.NonWhitespace("\n") == [] + SignatureText.NonWhitespace("");
        }
      }
  }

  /** Inserting text nodes keeps every element with its head, so identities stay unique. */
  lemma {:induction false} BreakSetShape(f: seq<Node>, xs: set<nat>)
    ensures Ids(BreakSet(f, xs)) == Ids(f) && Heads(BreakSet(f, xs)) == Heads(f)
    ensures Unique(f) ==> Unique(BreakSet(f, xs))
    decreases f, 1
  {
    if f != [] {
      BreakSetShape(f[1..], xs);
      BreakNodeShape(f[0], xs);
      var head := BreakNode(f[0], xs);
      var rest := BreakSet(f[1..], xs);
      UniqueAppend(head, rest);
      IdsAppend(head, rest);
      HeadsAppend(head, rest);
    }
  }

  lemma {:induction false} BreakNodeShape(n: Node, xs: set<nat>)
    ensures Ids(BreakNode(n, xs)) == NodeIds(n) && Heads(BreakNode(n, xs)) == NodeHeads(n)
    ensures UniqueNode(n) ==> Unique(BreakNode(n, xs))
    decreases n, 0
  {
    match n
    case Text(_) =>
      Single(n, IdIn({}));
    case Element(id, tag, attrs, ch) =>
      BreakSetShape(ch, xs);
      var e := Element(id, tag, attrs, BreakSet(ch, xs));
      var mark := if id in xs then [Text("\n")] else [];
      assert BreakNode(n, xs) == mark + [e];
      Single(e, IdIn({}));
      IdsAppend(mark, [e]);
      HeadsAppend(mark, [e]);
      UniqueAppend(mark, [e]);
      assert Unique(mark) && Ids(mark) == {} by {
        if id in xs {
          Single(Text("\n"), IdIn({}));
        }
      }
  }

  /** A search after the insertions finds the element it found before, with the inserted text inside it. */
  lemma {:induction false} FindFirstBreakSet(f: seq<Node>, xs: set<nat>, sel: set<nat>)
    ensures FindFirst(BreakSet(f, xs), sel) ==
      match FindFirst(f, sel)
      case None => None
      case Some(e) => Some(Element(e.id, e.tag, e.attrs, BreakSet(e.children, xs)))
    decreases f
  {
    if f != [] {
      FindFirstBreakSet(f[1..], xs, sel);
      var head := BreakNode(f[0], xs);
      FindFirstAppend(head, BreakSet(f[1..], xs), sel);
      match f[0]
      case Text(_) =>
        assert FindFirst(head, sel) == FindFirst([], sel);
      case Element(id, tag, attrs, ch) =>
        FindFirstBreakSet(ch, xs, sel);
        var e := Element(id, tag, attrs, BreakSet(ch, xs));
        var mark := if id in xs then [Text("\n")] else [];
        assert head == mark + [e];
        FindFirstAppend(mark, [e], sel);
        assert FindFirst(mark, sel) == None by {
          if id in xs {
            assert FindFirst(mark, sel) == FindFirst([], sel);
          }
        }
        assert [e][1..] == [];
    }
  }
}
