/**
 * Flattening of div-in-div wrappers (removeSignatures.ts lines 43-51): every
 * descendant `div` of the selection, taken in document order, is replaced
 * by its child when its element children are exactly one `div`. The loop
 * works step by step on the live tree; `FlattenBelow` is the closed form
 * it is proved to reach.
 */
module Flatten {
  import opened Tree
  import opened Wrappers

  // ---------------------------------------------------------------------
  // One step: `div.replaceWith(childDiv)`
  // ---------------------------------------------------------------------

  /**
   * Line 46: a div whose children are exactly one element, and that element
   * a div (text children are not counted).
   */
  predicate Collapsible(n: Node)
  {
    n.Element? && n.tag == "div"
    && |ElementChildren(n.children)| == 1 && ElementChildren(n.children)[0].tag == "div"
  }

  /** The child that takes a collapsible div's place. */
  function OnlyChild(n: Node): (c: Node)
    requires Collapsible(n)
    ensures c.Element? && c in n.children
  {
    ElementChildren(n.children)[0]
  }

  /**
   * The forest after the test of line 46 and, when it holds, the
   * `replaceWith` of line 49, on the element with identity `x`.
   */
  function CollapseAt(f: seq<Node>, x: nat): seq<Node>
    decreases f, 1
  {
    if f == [] then [] else CollapseNodeAt(f[0], x) + CollapseAt(f[1..], x)
  }

  function CollapseNodeAt(n: Node, x: nat): seq<Node>
    decreases n, 0
  {
    match n
    case Text(_) => [n]
    case Element(id, tag, attrs, ch) =>
      if id == x then (if Collapsible(n) then [OnlyChild(n)] else [n])
      else [Element(id, tag, attrs, CollapseAt(ch, x))]
  }

  /** The loop of lines 43-51 over the list `xs`, one element after the other. */
  function FoldCollapse(f: seq<Node>, xs: seq<nat>): seq<Node>
    decreases xs
  {
    if xs == [] then f else FoldCollapse(CollapseAt(f, xs[0]), xs[1..])
  }

  // ---------------------------------------------------------------------
  // The closed form
  // ---------------------------------------------------------------------

  /** A node with every chain of single-div wrappers collapsed to its innermost div. */
  function Flat(n: Node): Node
    decreases n, 0
  {
    if Collapsible(n) then Flat(OnlyChild(n))
    else match n
      case Element(id, tag, attrs, ch) => Element(id, tag, attrs, FlatForest(ch))
      case Text(_) => n
  }

  function FlatForest(f: seq<Node>): seq<Node>
    decreases f, 1
  {
    if f == [] then [] else [Flat(f[0])] + FlatForest(f[1..])
  }

  /** The identities of the elements with a tag in `tags`, in document order (`find` from the top). */
  function TagIds(f: seq<Node>, tags: set<string>): (r: seq<nat>)
    ensures forall x :: x in r ==> x in Ids(f)
    decreases f, 1
  {
    if f == [] then [] else NodeTagIds(f[0], tags) + TagIds(f[1..], tags)
  }

  function NodeTagIds(n: Node, tags: set<string>): (r: seq<nat>)
    ensures forall x :: x in r ==> x in NodeIds(n)
    decreases n, 0
  {
    match n
    case Element(id, tag, _, ch) => (if tag in tags then [id] else []) + TagIds(ch, tags)
    case Text(_) => []
  }

  /**
   * `selection.find(tags)`: the identities of the elements with a tag in
   * `tags` strictly inside an element of the selection `sel`, in document
   * order and each once (an element inside two selected elements is found
   * from the outer one).
   */
  function Below(f: seq<Node>, sel: set<nat>, tags: set<string>): (r: seq<nat>)
    ensures forall x :: x in r ==> x in Ids(f)
    decreases f, 1
  {
    if f == [] then [] else NodeBelow(f[0], sel, tags) + Below(f[1..], sel, tags)
  }

  function NodeBelow(n: Node, sel: set<nat>, tags: set<string>): (r: seq<nat>)
    ensures forall x :: x in r ==> x in NodeIds(n)
    decreases n, 0
  {
    match n
    case Element(id, _, _, ch) => if id in sel then TagIds(ch, tags) else Below(ch, sel, tags)
    case Text(_) => []
  }

  /** The forest with the content of every outermost selected element flattened. */
  function FlattenBelow(f: seq<Node>, sel: set<nat>): seq<Node>
    decreases f, 1
  {
    if f == [] then [] else [FlattenNodeBelow(f[0], sel)] + FlattenBelow(f[1..], sel)
  }

  function FlattenNodeBelow(n: Node, sel: set<nat>): Node
    decreases n, 0
  {
    match n
    case Element(id, tag, attrs, ch) =>
      if id in sel then Element(id, tag, attrs, FlatForest(ch))
      else Element(id, tag, attrs, FlattenBelow(ch, sel))
    case Text(_) => n
  }

  const Div: set<string> := {"div"}

  // ---------------------------------------------------------------------
  // Facts about one step
  // ---------------------------------------------------------------------

  lemma {:induction false} CollapseAtAppend(a: seq<Node>, b: seq<Node>, x: nat)
    ensures CollapseAt(a + b, x) == CollapseAt(a, x) + CollapseAt(b, x)
  {
    if a == [] {
      assert a + b == b;
    } else {
      assert (a + b)[1..] == a[1..] + b;
      CollapseAtAppend(a[1..], b, x);
    }
  }

  /** A step on an element the forest does not hold changes nothing. */
  lemma {:induction false} CollapseAtAbsent(f: seq<Node>, x: nat)
    requires x !in Ids(f)
    ensures CollapseAt(f, x) == f
    decreases f
  {
    if f != [] {
      CollapseAtAbsent(f[1..], x);
      if f[0].Element? {
        CollapseAtAbsent(f[0].children, x);
      }
    }
  }

  /** A step adds no identity and keeps identities unique. */
  lemma {:induction false} CollapseAtShrinks(f: seq<Node>, x: nat)
    ensures Ids(CollapseAt(f, x)) <= Ids(f)
    ensures Unique(f) ==> Unique(CollapseAt(f, x))
    decreases f
  {
    if f != [] {
      CollapseAtShrinks(f[1..], x);
      var head := CollapseNodeAt(f[0], x);
      var rest := CollapseAt(f[1..], x);
      match f[0]
      case Text(_) =>
        Single(f[0], IdIn({}));
      case Element(id, tag, attrs, ch) =>
        if Unique(f) {
          assert UniqueNode(f[0]);
        }
        if id == x && Collapsible(f[0]) {
          var c := OnlyChild(f[0]);
          MemberIds(ch, c);
          Single(c, IdIn({}));
        } else if id == x {
          Single(f[0], IdIn({}));
        } else {
          CollapseAtShrinks(ch, x);
          var e := Element(id, tag, attrs, CollapseAt(ch, x));
          Single(e, IdIn({}));
          if Unique(f) {
            assert UniqueNode(f[0]);
            assert UniqueNode(e);
          }
        }
      UniqueAppend(head, rest);
      IdsAppend(head, rest);
    }
  }

  lemma {:induction false} FoldCollapseShrinks(f: seq<Node>, xs: seq<nat>)
    ensures Ids(FoldCollapse(f, xs)) <= Ids(f)
    ensures Unique(f) ==> Unique(FoldCollapse(f, xs))
    decreases xs
  {
    if xs != [] {
      CollapseAtShrinks(f, xs[0]);
      FoldCollapseShrinks(CollapseAt(f, xs[0]), xs[1..]);
    }
  }

  /** The loop one iteration further. */
  lemma {:induction false} FoldCollapseSnoc(f: seq<Node>, xs: seq<nat>, x: nat)
    ensures FoldCollapse(f, xs + [x]) == CollapseAt(FoldCollapse(f, xs), x)
    decreases xs
  {
    if xs == [] {
      assert FoldCollapse(CollapseAt(f, x), []) == CollapseAt(f, x);
    } else {
      assert (xs + [x])[1..] == xs[1..] + [x];
      FoldCollapseSnoc(CollapseAt(f, xs[0]), xs[1..], x);
    }
  }

  lemma {:induction false} FoldCollapseConcat(f: seq<Node>, xs: seq<nat>, ys: seq<nat>)
    ensures FoldCollapse(f, xs + ys) == FoldCollapse(FoldCollapse(f, xs), ys)
    decreases xs
  {
    if xs == [] {
      assert xs + ys == ys;
    } else {
      assert (xs + ys)[1..] == xs[1..] + ys;
      FoldCollapseConcat(CollapseAt(f, xs[0]), xs[1..], ys);
    }
  }

  /** Steps on elements of the front part leave the back part alone. */
  lemma {:induction false} FoldCollapseFront(a: seq<Node>, b: seq<Node>, xs: seq<nat>)
    requires forall x :: x in xs ==> x !in Ids(b)
    ensures FoldCollapse(a + b, xs) == FoldCollapse(a, xs) + b
    decreases xs
  {
    if xs != [] {
      CollapseAtAppend(a, b, xs[0]);
      CollapseAtAbsent(b, xs[0]);
      FoldCollapseFront(CollapseAt(a, xs[0]), b, xs[1..]);
    }
  }

  /** Steps on elements of the back part leave the front part alone. */
  lemma {:induction false} FoldCollapseBack(a: seq<Node>, b: seq<Node>, xs: seq<nat>)
    requires forall x :: x in xs ==> x !in Ids(a)
    ensures FoldCollapse(a + b, xs) == a + FoldCollapse(b, xs)
    decreases xs
  {
    if xs != [] {
      CollapseAtAppend(a, b, xs[0]);
      CollapseAtAbsent(a, xs[0]);
      FoldCollapseBack(a, CollapseAt(b, xs[0]), xs[1..]);
    }
  }

  /** Steps on elements strictly inside an element act on its children. */
  lemma {:induction false} FoldCollapseInside(id: nat, tag: string, attrs: map<string, string>, ch: seq<Node>, xs: seq<nat>)
    requires id !in xs
    ensures FoldCollapse([Element(id, tag, attrs, ch)], xs) == [Element(id, tag, attrs, FoldCollapse(ch, xs))]
    decreases xs
  {
    if xs != [] {
      var e := Element(id, tag, attrs, ch);
      assert id != xs[0] && id !in xs[1..];
      assert CollapseAt([e], xs[0]) == CollapseNodeAt(e, xs[0]) + CollapseAt([], xs[0]);
      assert CollapseAt([e], xs[0]) == [Element(id, tag, attrs, CollapseAt(ch, xs[0]))];
      FoldCollapseInside(id, tag, attrs, CollapseAt(ch, xs[0]), xs[1..]);
    }
  }

  // ---------------------------------------------------------------------
  // The loop reaches the closed form
  // ---------------------------------------------------------------------

  lemma {:induction false} FlatShrinks(n: Node)
    ensures NodeIds(Flat(n)) <= NodeIds(n)
    ensures NodeHeads(Flat(n)) <= NodeHeads(n)
    decreases n, 0
  {
    if Collapsible(n) {
      var c := OnlyChild(n);
      MemberIds(n.children, c);
      FlatShrinks(c);
    } else if n.Element? {
      FlatForestShrinks(n.children);
    }
  }

  lemma {:induction false} FlatForestShrinks(f: seq<Node>)
    ensures Ids(FlatForest(f)) <= Ids(f)
    ensures Heads(FlatForest(f)) <= Heads(f)
    decreases f, 1
  {
    if f != [] {
      FlatShrinks(f[0]);
      FlatForestShrinks(f[1..]);
    }
  }

  /** When a forest's only element is `c`, a search from the top finds what a search from `c` finds. */
  lemma {:induction false} TagIdsOfOnlyElement(f: seq<Node>, c: Node, tags: set<string>)
    requires ElementChildren(f) == [c]
    ensures TagIds(f, tags) == NodeTagIds(c, tags)
  {
    assert f != [];
    var rest := f[1..];
    assert TagIds(f, tags) == NodeTagIds(f[0], tags) + TagIds(rest, tags);
    if f[0].Element? {
      assert ElementChildren(f) == [f[0]] + ElementChildren(rest);
      assert ([f[0]] + ElementChildren(rest))[0] == f[0];
      assert f[0] == c && |ElementChildren(rest)| == 0;
      TagIdsWithoutElements(rest, tags);
    } else {
      assert ElementChildren(f) == ElementChildren(rest);
      assert NodeTagIds(f[0], tags) == [];
      TagIdsOfOnlyElement(rest, c, tags);
    }
  }

  lemma {:induction false} TagIdsWithoutElements(f: seq<Node>, tags: set<string>)
    requires ElementChildren(f) == []
    ensures TagIds(f, tags) == []
  {
    if f != [] {
      assert !f[0].Element?;
      TagIdsWithoutElements(f[1..], tags);
    }
  }

  /** Collapsing the divs of a node from the outside in yields `Flat`. */
  lemma {:induction false} FlatNodeByLoop(n: Node)
    requires UniqueNode(n)
    ensures FoldCollapse([n], NodeTagIds(n, Div)) == [Flat(n)]
    decreases n, 0
  {
    match n
    case Text(_) =>
    case Element(id, tag, attrs, ch) =>
      var inner := TagIds(ch, Div);
      if Collapsible(n) {
        var c := OnlyChild(n);
        MemberIds(ch, c);
        assert CollapseAt([n], id) == CollapseNodeAt(n, id) + CollapseAt([], id);
        assert NodeTagIds(n, Div) == [id] + inner;
        assert ([id] + inner)[1..] == inner && ([id] + inner)[0] == id;
        assert CollapseNodeAt(n, id) == [c];
        assert CollapseAt([n], id) == [c];
        assert FoldCollapse([n], [id] + inner) == FoldCollapse([c], inner);
        TagIdsOfOnlyElement(ch, c, Div);
        FlatNodeByLoop(c);
      } else {
        FlatForestByLoop(ch);
        FoldCollapseInside(id, tag, attrs, ch, inner);
        assert Flat(n) == Element(id, tag, attrs, FlatForest(ch));
        if tag == "div" {
          assert CollapseAt([n], id) == CollapseNodeAt(n, id) + CollapseAt([], id);
          assert NodeTagIds(n, Div) == [id] + inner;
          assert ([id] + inner)[1..] == inner;
          assert FoldCollapse([n], [id] + inner) == FoldCollapse([n], inner);
        } else {
          assert tag !in Div;
          assert NodeTagIds(n, Div) == inner;
        }
      }
  }

  /** Collapsing every div of a forest in document order yields `FlatForest`. */
  lemma {:induction false} FlatForestByLoop(f: seq<Node>)
    requires Unique(f)
    ensures FoldCollapse(f, TagIds(f, Div)) == FlatForest(f)
    decreases f, 1
  {
    if f != [] {
      var head, rest := [f[0]], f[1..];
      assert f == head + rest;
      var xs, ys := NodeTagIds(f[0], Div), TagIds(rest, Div);
      FoldCollapseConcat(f, xs, ys);
      FoldCollapseFront(head, rest, xs);
      FlatNodeByLoop(f[0]);
      FlatShrinks(f[0]);
      FoldCollapseBack([Flat(f[0])], rest, ys);
      FlatForestByLoop(rest);
    }
  }

  /** The loop over `find('div')` of the selection yields `FlattenBelow`. */
  lemma {:induction false} FlattenBelowByLoop(f: seq<Node>, sel: set<nat>)
    requires Unique(f)
    ensures FoldCollapse(f, Below(f, sel, Div)) == FlattenBelow(f, sel)
    decreases f, 1
  {
    if f != [] {
      var head, rest := [f[0]], f[1..];
      assert f == head + rest;
      var xs, ys := NodeBelow(f[0], sel, Div), Below(rest, sel, Div);
      FoldCollapseConcat(f, xs, ys);
      FoldCollapseFront(head, rest, xs);
      FlattenNodeBelowByLoop(f[0], sel);
      FlattenBelowShrinks(f[0], sel);
      FoldCollapseBack([FlattenNodeBelow(f[0], sel)], rest, ys);
      FlattenBelowByLoop(rest, sel);
    }
  }

  lemma {:induction false} FlattenNodeBelowByLoop(n: Node, sel: set<nat>)
    requires UniqueNode(n)
    ensures FoldCollapse([n], NodeBelow(n, sel, Div)) == [FlattenNodeBelow(n, sel)]
    decreases n, 0
  {
    match n
    case Text(_) =>
    case Element(id, tag, attrs, ch) =>
      if id in sel {
        FlatForestByLoop(ch);
        FoldCollapseInside(id, tag, attrs, ch, TagIds(ch, Div));
      } else {
        FlattenBelowByLoop(ch, sel);
        FoldCollapseInside(id, tag, attrs, ch, Below(ch, sel, Div));
      }
  }

  lemma {:induction false} FlattenBelowShrinks(n: Node, sel: set<nat>)
    ensures NodeIds(FlattenNodeBelow(n, sel)) <= NodeIds(n)
    ensures NodeHeads(FlattenNodeBelow(n, sel)) <= NodeHeads(n)
    decreases n, 0
  {
    match n
    case Text(_) =>
    case Element(id, tag, attrs, ch) =>
      if id in sel {
        FlatForestShrinks(ch);
      } else {
        FlattenForestBelowShrinks(ch, sel);
      }
  }

  lemma {:induction false} FlattenForestBelowShrinks(f: seq<Node>, sel: set<nat>)
    ensures Ids(FlattenBelow(f, sel)) <= Ids(f)
    ensures Heads(FlattenBelow(f, sel)) <= Heads(f)
    decreases f, 1
  {
    if f != [] {
      FlattenBelowShrinks(f[0], sel);
      FlattenForestBelowShrinks(f[1..], sel);
    }
  }

  // ---------------------------------------------------------------------
  // The closed form is flat, and `find` lists each element once
  // ---------------------------------------------------------------------

  /** `Flat` keeps text as text, elements as elements, and divs as divs. */
  lemma {:induction false} FlatKind(n: Node)
    ensures Flat(n).Element? == n.Element?
    ensures n.Element? ==> (Flat(n).tag == "div" <==> n.tag == "div")
    decreases n
  {
    if Collapsible(n) {
      FlatKind(OnlyChild(n));
    }
  }

  lemma {:induction false} FlatForestAppend(a: seq<Node>, b: seq<Node>)
    ensures FlatForest(a + b) == FlatForest(a) + FlatForest(b)
  {
    if a == [] {
      assert a + b == b;
    } else {
      assert (a + b)[1..] == a[1..] + b;
      FlatForestAppend(a[1..], b);
    }
  }

  lemma {:induction false} ElementChildrenOfFlat(f: seq<Node>)
    ensures ElementChildren(FlatForest(f)) == FlatForest(ElementChildren(f))
    decreases f
  {
    if f != [] {
      FlatKind(f[0]);
      ElementChildrenOfFlat(f[1..]);
      var head := if f[0].Element? then [f[0]] else [];
      FlatForestAppend(head, ElementChildren(f[1..]));
      assert FlatForest(f)[0] == Flat(f[0]);
      assert FlatForest(f)[1..] == FlatForest(f[1..]);
      if f[0].Element? {
        assert FlatForest(head) == [Flat(f[0])] + FlatForest([]);
      }
    }
  }

  /** What `Flat` returns is never itself a collapsible div. */
  lemma {:induction false} FlatNotCollapsible(n: Node)
    ensures !Collapsible(Flat(n))
    decreases n
  {
    if Collapsible(n) {
      FlatNotCollapsible(OnlyChild(n));
    } else if n.Element? {
      ElementChildrenOfFlat(n.children);
      var kids := ElementChildren(n.children);
      if |kids| == 1 {
        FlatKind(kids[0]);
        assert FlatForest(kids) == [Flat(kids[0])] + FlatForest([]);
      }
    }
  }

  /**
   * After flattening no div is left whose only element child is a div:
   * every chain of wrappers has collapsed to its innermost div.
   */
  lemma {:induction false} FlatForestIsFlat(f: seq<Node>)
    ensures forall e :: e in Elements(FlatForest(f)) ==> !Collapsible(e)
    decreases f
  {
    if f != [] {
      FlatForestIsFlat(f[1..]);
      var n := Flat(f[0]);
      FlatNotCollapsible(f[0]);
      FlatKind(f[0]);
      assert FlatForest(f) == [n] + FlatForest(f[1..]);
      ElementsAppend([n], FlatForest(f[1..]));
      Single(n, IdIn({}));
      if n.Element? {
        FlatTopChildren(f[0]);
        FlatForestIsFlat(f[0].children);
      }
    }
  }

  /** The children of `Flat(n)`: the flattened children of the innermost div of the chain. */
  lemma {:induction false} FlatTopChildren(n: Node)
    requires n.Element?
    ensures Flat(n).Element?
    ensures forall e :: e in Elements(Flat(n).children) ==> !Collapsible(e)
    decreases n
  {
    FlatKind(n);
    if Collapsible(n) {
      FlatTopChildren(OnlyChild(n));
    } else {
      FlatForestIsFlat(n.children);
    }
  }

  /** In a unique forest, `find` lists every element once. */
  lemma {:induction false} TagIdsNoDup(f: seq<Node>, tags: set<string>)
    requires Unique(f)
    ensures NoDup(TagIds(f, tags))
    decreases f
  {
    if f != [] {
      var a := NodeTagIds(f[0], tags);
      TagIdsNoDup(f[1..], tags);
      if f[0].Element? {
        assert UniqueNode(f[0]);
        TagIdsNoDup(f[0].children, tags);
        var inner := TagIds(f[0].children, tags);
        if f[0].tag in tags {
          NoDupAppend([f[0].id], inner);
        } else {
          assert a == inner;
        }
      }
      NoDupAppend(a, TagIds(f[1..], tags));
    }
  }

  lemma {:induction false} BelowNoDup(f: seq<Node>, sel: set<nat>, tags: set<string>)
    requires Unique(f)
    ensures NoDup(Below(f, sel, tags))
    decreases f
  {
    if f != [] {
      BelowNoDup(f[1..], sel, tags);
      if f[0].Element? {
        assert UniqueNode(f[0]);
        if f[0].id in sel {
          TagIdsNoDup(f[0].children, tags);
        } else {
          BelowNoDup(f[0].children, sel, tags);
        }
      }
      NoDupAppend(NodeBelow(f[0], sel, tags), Below(f[1..], sel, tags));
    }
  }

  // ---------------------------------------------------------------------
  // The step as the source writes it, and searches through the closed form
  // ---------------------------------------------------------------------

  /**
   * Line 46-49 as written: look the div up; when its element children are
   * one div, put that child in its place. In a forest with unique
   * identities this is `CollapseAt`.
   */
  lemma {:induction false} CollapseAtByFind(f: seq<Node>, x: nat)
    requires Unique(f)
    ensures CollapseAt(f, x) ==
      match FindFirst(f, {x})
      case None => f
      case Some(e) => if Collapsible(e) then ReplaceAt(f, x, OnlyChild(e)) else f
    decreases f
  {
    if f == [] {
      return;
    }
    var rest := f[1..];
    match f[0]
    case Text(_) =>
      CollapseAtByFind(rest, x);
    case Element(id, tag, attrs, ch) =>
      var inner := FindFirst(ch, {x});
      if id == x {
        CollapseAtAbsent(rest, x);
        if Collapsible(f[0]) {
          ReplaceAtAbsent(rest, x, OnlyChild(f[0]));
        }
      } else if inner.Some? {
        CollapseAtByFind(ch, x);
        CollapseAtAbsent(rest, x);
        if Collapsible(inner.value) {
          ReplaceAtAbsent(rest, x, OnlyChild(inner.value));
        }
      } else {
        CollapseAtByFind(rest, x);
        CollapseAtAbsent(ch, x);
        match FindFirst(rest, {x})
        case None =>
        case Some(e) =>
          if Collapsible(e) {
            ReplaceAtAbsent(ch, x, OnlyChild(e));
          }
      }
  }

  /** With nothing selected nothing is flattened. */
  lemma {:induction false} FlattenBelowNone(f: seq<Node>, tags: set<string>)
    ensures FlattenBelow(f, {}) == f
    ensures Below(f, {}, tags) == []
    decreases f
  {
    if f != [] {
      FlattenBelowNone(f[1..], tags);
      if f[0].Element? {
        FlattenBelowNone(f[0].children, tags);
      }
    }
  }

  /**
   * The first selected element of the flattened forest is the first
   * selected element of the forest, with its content flattened: the
   * element whose inner HTML line 53 serialises.
   */
  lemma {:induction false} FindFirstFlattenBelow(f: seq<Node>, sel: set<nat>)
    ensures FindFirst(FlattenBelow(f, sel), sel) ==
      match FindFirst(f, sel)
      case None => None
      case Some(e) => Some(Element(e.id, e.tag, e.attrs, FlatForest(e.children)))
    decreases f
  {
    if f != [] {
      var g := FlattenBelow(f, sel);
      assert g[0] == FlattenNodeBelow(f[0], sel) && g[1..] == FlattenBelow(f[1..], sel);
      FindFirstFlattenBelow(f[1..], sel);
      if f[0].Element? && f[0].id !in sel {
        FindFirstFlattenBelow(f[0].children, sel);
      }
    }
  }
}
