/**
 * The parsed email as cheerio holds it: a forest of element and text nodes.
 * An element carries an `id` that stands for its identity as an object, so
 * that "this element" can be followed through the tree surgery of
 * removeSignatures.ts; tag and attribute names are lower case, as the HTML
 * parser writes them.
 */
module Tree {
  import opened Wrappers

  datatype Node =
    | Element(id: nat, tag: string, attrs: map<string, string>, children: seq<Node>)
    | Text(text: string)

  // ---------------------------------------------------------------------
  // Queries
  // ---------------------------------------------------------------------

  /** The elements of a forest in document order (preorder), each with its subtree. */
  function Elements(f: seq<Node>): seq<Node>
    decreases f, 1
  {
    if f == [] then [] else NodeElements(f[0]) + Elements(f[1..])
  }

  function NodeElements(n: Node): seq<Node>
    decreases n, 0
  {
    match n
    case Element(_, _, _, ch) => [n] + Elements(ch)
    case Text(_) => []
  }

  /** The identities of all elements of a forest. */
  function Ids(f: seq<Node>): set<nat>
    decreases f, 1
  {
    if f == [] then {} else NodeIds(f[0]) + Ids(f[1..])
  }

  function NodeIds(n: Node): set<nat>
    decreases n, 0
  {
    match n
    case Element(id, _, _, ch) => {id} + Ids(ch)
    case Text(_) => {}
  }

  /** What a selector can see of an element: its identity, tag and attributes. */
  datatype Head = Head(id: nat, tag: string, attrs: map<string, string>)

  /** The heads of all elements of a forest. */
  function Heads(f: seq<Node>): (r: set<Head>)
    ensures forall hd | hd in r :: hd.id in Ids(f)
    decreases f, 1
  {
    if f == [] then {} else NodeHeads(f[0]) + Heads(f[1..])
  }

  function NodeHeads(n: Node): (r: set<Head>)
    ensures forall hd | hd in r :: hd.id in NodeIds(n)
    decreases n, 0
  {
    match n
    case Element(id, tag, attrs, ch) => {Head(id, tag, attrs)} + Heads(ch)
    case Text(_) => {}
  }

  /** No element identity occurs twice: each element object sits at one place. */
  predicate Unique(f: seq<Node>)
    decreases f, 1
  {
    f == [] || (UniqueNode(f[0]) && Unique(f[1..]) && NodeIds(f[0]) !! Ids(f[1..]))
  }

  predicate UniqueNode(n: Node)
    decreases n, 0
  {
    match n
    case Element(id, _, _, ch) => id !in Ids(ch) && Unique(ch)
    case Text(_) => true
  }

  /**
   * The first element in document order whose identity is in `xs`: the
   * element a selection of those elements starts with.
   */
  function FindFirst(f: seq<Node>, xs: set<nat>): (r: Option<Node>)
    ensures r.Some? ==> r.value.Element? && r.value.id in xs && r.value.id in Ids(f)
    ensures r.Some? ==> Head(r.value.id, r.value.tag, r.value.attrs) in Heads(f)
    ensures r.None? <==> Ids(f) !! xs
    decreases f
  {
    if f == [] then None
    else match f[0]
      case Text(_) => FindFirst(f[1..], xs)
      case Element(id, _, _, ch) =>
        if id in xs then Some(f[0])
        else
          var inner := FindFirst(ch, xs);
          if inner.Some? then inner else FindFirst(f[1..], xs)
  }

  /** The element children of a forest, in order (cheerio `children()`). */
  function ElementChildren(f: seq<Node>): (r: seq<Node>)
    ensures forall k :: 0 <= k < |r| ==> r[k].Element? && r[k] in f
  {
    if f == [] then []
    else (if f[0].Element? then [f[0]] else []) + ElementChildren(f[1..])
  }

  /** The first element at the top of a forest: the first element in document order. */
  function FirstElement(f: seq<Node>): (r: Option<Node>)
    ensures r.Some? ==> r.value.Element? && r.value in f
    ensures r.None? <==> forall k | 0 <= k < |f| :: f[k].Text?
  {
    if f == [] then None else if f[0].Element? then Some(f[0]) else FirstElement(f[1..])
  }

  /** The text of a forest: every text node's data, in document order (domutils `textContent`). */
  function TextContent(f: seq<Node>): string
    decreases f
  {
    if f == [] then ""
    else
      (match f[0]
       case Element(_, _, _, ch) => TextContent(ch)
       case Text(t) => t)
      + TextContent(f[1..])
  }

  /** The text of the text nodes at the top of a forest, ignoring elements. */
  function DirectText(f: seq<Node>): string
  {
    if f == [] then "" else (if f[0].Text? then f[0].text else "") + DirectText(f[1..])
  }

  /** The identities a list holds. */
  function SetOf(s: seq<nat>): set<nat>
  {
    set x | x in s
  }

  /** A list of identities without repetition. */
  predicate NoDup(s: seq<nat>)
  {
    forall i, j :: 0 <= i < j < |s| ==> s[i] != s[j]
  }

  // ---------------------------------------------------------------------
  // Pruning
  // ---------------------------------------------------------------------

  /** The forest without every node `drop` selects, each taken out with its subtree. */
  function Prune(f: seq<Node>, drop: Node -> bool): seq<Node>
    decreases f, 1
  {
    if f == [] then [] else PruneNode(f[0], drop) + Prune(f[1..], drop)
  }

  function PruneNode(n: Node, drop: Node -> bool): seq<Node>
    decreases n, 0
  {
    if drop(n) then []
    else match n
      case Element(id, tag, attrs, ch) => [Element(id, tag, attrs, Prune(ch, drop))]
      case Text(_) => [n]
  }

  /** The forest with the element of identity `x` replaced by the node `c` (cheerio `replaceWith`). */
  function ReplaceAt(f: seq<Node>, x: nat, c: Node): seq<Node>
    decreases f, 1
  {
    if f == [] then [] else ReplaceNodeAt(f[0], x, c) + ReplaceAt(f[1..], x, c)
  }

  function ReplaceNodeAt(n: Node, x: nat, c: Node): seq<Node>
    decreases n, 0
  {
    match n
    case Text(_) => [n]
    case Element(id, tag, attrs, ch) => if id == x then [c] else [Element(id, tag, attrs, ReplaceAt(ch, x, c))]
  }

  /** Selects the elements whose identity is in `xs`. */
  function IdIn(xs: set<nat>): Node -> bool
  {
    (n: Node) => n.Element? && n.id in xs
  }

  /** The forest after `remove()` on every element whose identity is in `xs`. */
  function RemoveIds(f: seq<Node>, xs: set<nat>): seq<Node>
  {
    Prune(f, IdIn(xs))
  }

  // ---------------------------------------------------------------------
  // Lemmas
  // ---------------------------------------------------------------------

  lemma {:induction false} ElementsAppend(a: seq<Node>, b: seq<Node>)
    ensures Elements(a + b) == Elements(a) + Elements(b)
  {
    if a == [] {
      assert a + b == b;
    } else {
      assert (a + b)[1..] == a[1..] + b;
      ElementsAppend(a[1..], b);
    }
  }

  lemma {:induction false} IdsAppend(a: seq<Node>, b: seq<Node>)
    ensures Ids(a + b) == Ids(a) + Ids(b)
  {
    if a == [] {
      assert a + b == b;
    } else {
      assert (a + b)[1..] == a[1..] + b;
      IdsAppend(a[1..], b);
    }
  }

  lemma {:induction false} UniqueAppend(a: seq<Node>, b: seq<Node>)
    ensures Unique(a + b) <==> Unique(a) && Unique(b) && Ids(a) !! Ids(b)
  {
    if a == [] {
      assert a + b == b;
    } else {
      assert (a + b)[1..] == a[1..] + b;
      UniqueAppend(a[1..], b);
      IdsAppend(a[1..], b);
    }
  }

  lemma {:induction false} HeadsAppend(a: seq<Node>, b: seq<Node>)
    ensures Heads(a + b) == Heads(a) + Heads(b)
  {
    if a == [] {
      assert a + b == b;
    } else {
      assert (a + b)[1..] == a[1..] + b;
      HeadsAppend(a[1..], b);
    }
  }

  /** In a forest with unique identities, an identity names one element head. */
  lemma {:induction false} UniqueHeads(f: seq<Node>)
    requires Unique(f)
    ensures forall h1, h2 | h1 in Heads(f) && h2 in Heads(f) && h1.id == h2.id :: h1 == h2
    decreases f
  {
    if f != [] {
      UniqueHeads(f[1..]);
      if f[0].Element? {
        UniqueHeads(f[0].children);
      }
    }
  }

  lemma {:induction false} PruneAppend(a: seq<Node>, b: seq<Node>, drop: Node -> bool)
    ensures Prune(a + b, drop) == Prune(a, drop) + Prune(b, drop)
  {
    if a == [] {
      assert a + b == b;
    } else {
      assert (a + b)[1..] == a[1..] + b;
      PruneAppend(a[1..], b, drop);
    }
  }

  lemma NoDupAppend(a: seq<nat>, b: seq<nat>)
    requires NoDup(a) && NoDup(b) && forall x :: x in a ==> x !in b
    ensures NoDup(a + b)
  {
    forall i, j | 0 <= i < j < |a + b| ensures (a + b)[i] != (a + b)[j] {
      if j < |a| {
        assert (a + b)[i] == a[i] && (a + b)[j] == a[j];
        assert a[i] != a[j];
      } else if i >= |a| {
        assert (a + b)[i] == b[i - |a|] && (a + b)[j] == b[j - |a|];
        assert b[i - |a|] != b[j - |a|];
      } else {
        assert (a + b)[i] == a[i] && a[i] in a;
        assert (a + b)[j] == b[j - |a|] && b[j - |a|] in b;
      }
    }
  }

  /** A node of a forest holds only identities of the forest, and a unique forest has unique nodes. */
  lemma {:induction false} MemberIds(f: seq<Node>, n: Node)
    requires n in f
    ensures NodeIds(n) <= Ids(f) && NodeHeads(n) <= Heads(f)
    ensures Unique(f) ==> UniqueNode(n)
    decreases f
  {
    if f[0] != n {
      MemberIds(f[1..], n);
    }
  }

  /** A forest of one node. */
  lemma Single(n: Node, drop: Node -> bool)
    ensures Ids([n]) == NodeIds(n) && Elements([n]) == NodeElements(n) && Heads([n]) == NodeHeads(n)
    ensures Unique([n]) <==> UniqueNode(n)
    ensures Prune([n], drop) == PruneNode(n, drop)
  {
    assert [n][1..] == [];
  }

  /** Pruning only takes nodes away: no identity is added, and identities stay unique. */
  lemma {:induction false} PruneShrinks(f: seq<Node>, drop: Node -> bool)
    ensures Ids(Prune(f, drop)) <= Ids(f)
    ensures Heads(Prune(f, drop)) <= Heads(f)
    ensures Unique(f) ==> Unique(Prune(f, drop))
    decreases f
  {
    if f != [] {
      PruneShrinks(f[1..], drop);
      var head := PruneNode(f[0], drop);
      var rest := Prune(f[1..], drop);
      if !drop(f[0]) && f[0].Element? {
        PruneShrinks(f[0].children, drop);
        Single(head[0], drop);
        assert head == [head[0]];
        assert NodeIds(head[0]) <= NodeIds(f[0]);
        assert NodeHeads(head[0]) <= NodeHeads(f[0]);
        if Unique(f) {
          assert UniqueNode(f[0]);
          assert UniqueNode(head[0]);
        }
      } else if !drop(f[0]) {
        Single(f[0], drop);
      }
      UniqueAppend(head, rest);
      IdsAppend(head, rest);
      HeadsAppend(head, rest);
    }
  }

  lemma IdInApply(xs: set<nat>, n: Node)
    ensures IdIn(xs)(n) == (n.Element? && n.id in xs)
  {
  }

  /** Removing the elements of `a`, then those of `b`, is removing those of both. */
  lemma {:induction false} RemoveIdsTwice(f: seq<Node>, a: set<nat>, b: set<nat>)
    ensures RemoveIds(RemoveIds(f, a), b) == RemoveIds(f, a + b)
    decreases f
  {
    if f != [] {
      RemoveIdsTwice(f[1..], a, b);
      var head := PruneNode(f[0], IdIn(a));
      PruneAppend(head, RemoveIds(f[1..], a), IdIn(b));
      IdInApply(a, f[0]);
      IdInApply(b, f[0]);
      IdInApply(a + b, f[0]);
      if f[0].Element? && f[0].id !in a {
        RemoveIdsTwice(f[0].children, a, b);
        Single(head[0], IdIn(b));
        IdInApply(b, head[0]);
        assert head == [head[0]];
      } else if f[0].Text? {
        Single(f[0], IdIn(b));
        IdInApply(b, f[0]);
      }
      assert RemoveIds(f, a) == head + RemoveIds(f[1..], a);
      assert RemoveIds(f, a + b) == PruneNode(f[0], IdIn(a + b)) + RemoveIds(f[1..], a + b);
    }
  }

  /** Removing elements the forest does not hold changes nothing. */
  lemma {:induction false} RemoveIdsAbsent(f: seq<Node>, xs: set<nat>)
    requires Ids(f) !! xs
    ensures RemoveIds(f, xs) == f
    decreases f
  {
    if f != [] {
      RemoveIdsAbsent(f[1..], xs);
      IdInApply(xs, f[0]);
      if f[0].Element? {
        RemoveIdsAbsent(f[0].children, xs);
      }
      assert RemoveIds(f, xs) == PruneNode(f[0], IdIn(xs)) + RemoveIds(f[1..], xs);
    }
  }

  /** A search in a concatenation looks in the second part only when the first has no match. */
  lemma {:induction false} FindFirstAppend(a: seq<Node>, b: seq<Node>, xs: set<nat>)
    ensures FindFirst(a + b, xs) == if FindFirst(a, xs).Some? then FindFirst(a, xs) else FindFirst(b, xs)
  {
    if a == [] {
      assert a + b == b;
    } else {
      assert (a + b)[1..] == a[1..] + b;
      assert (a + b)[0] == a[0];
      FindFirstAppend(a[1..], b, xs);
    }
  }

  /** Replacing an element the forest does not hold changes nothing. */
  lemma {:induction false} ReplaceAtAbsent(f: seq<Node>, x: nat, c: Node)
    requires x !in Ids(f)
    ensures ReplaceAt(f, x, c) == f
    decreases f
  {
    if f != [] {
      ReplaceAtAbsent(f[1..], x, c);
      if f[0].Element? {
        ReplaceAtAbsent(f[0].children, x, c);
      }
    }
  }

  /**
   * Putting a child of the element `x` in the element's place keeps the
   * identities unique and adds none.
   */
  lemma {:induction false} ReplaceAtShrinks(f: seq<Node>, x: nat, c: Node)
    requires Unique(f)
    requires FindFirst(f, {x}).Some? && c in FindFirst(f, {x}).value.children
    ensures Ids(ReplaceAt(f, x, c)) <= Ids(f)
    ensures Unique(ReplaceAt(f, x, c))
    decreases f
  {
    var rest := f[1..];
    match f[0]
    case Text(_) =>
      ReplaceAtShrinks(rest, x, c);
      Single(f[0], IdIn({}));
      UniqueAppend([f[0]], ReplaceAt(rest, x, c));
      IdsAppend([f[0]], ReplaceAt(rest, x, c));
    case Element(id, tag, attrs, ch) =>
      var inner := FindFirst(ch, {x});
      if id == x {
        MemberIds(ch, c);
        ReplaceAtAbsent(rest, x, c);
        Single(c, IdIn({}));
        UniqueAppend([c], rest);
        IdsAppend([c], rest);
      } else if inner.Some? {
        ReplaceAtShrinks(ch, x, c);
        ReplaceAtAbsent(rest, x, c);
        var e := Element(id, tag, attrs, ReplaceAt(ch, x, c));
        Single(e, IdIn({}));
        UniqueAppend([e], rest);
        IdsAppend([e], rest);
      } else {
        ReplaceAtShrinks(rest, x, c);
        ReplaceAtAbsent(ch, x, c);
        Single(f[0], IdIn({}));
        UniqueAppend([f[0]], ReplaceAt(rest, x, c));
        IdsAppend([f[0]], ReplaceAt(rest, x, c));
      }
  }

  /** The elements among a forest's nodes form a forest of their own, with unique identities when it had them. */
  lemma {:induction false} ElementChildrenShape(f: seq<Node>)
    ensures Ids(ElementChildren(f)) == Ids(f)
    ensures Unique(f) ==> Unique(ElementChildren(f))
    decreases f
  {
    if f != [] {
      ElementChildrenShape(f[1..]);
      var head := if f[0].Element? then [f[0]] else [];
      Single(f[0], IdIn({}));
      UniqueAppend(head, ElementChildren(f[1..]));
      IdsAppend(head, ElementChildren(f[1..]));
    }
  }

  /** A prefix of a forest holds fewer identities, unique when the forest's are. */
  lemma PrefixShape(f: seq<Node>, k: nat)
    requires k <= |f|
    ensures Ids(f[..k]) <= Ids(f)
    ensures Unique(f) ==> Unique(f[..k])
  {
    assert f == f[..k] + f[k..];
    IdsAppend(f[..k], f[k..]);
    UniqueAppend(f[..k], f[k..]);
  }
}
