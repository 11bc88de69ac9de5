/**
 * A loaded document (the `CheerioAPI` object `$` of removeSignatures.ts):
 * the forest under the document root, which the cheerio calls of the
 * source change in place. `nextId` hands out identities to the nodes the
 * code creates.
 */
module Dom {
  import opened Wrappers
  import opened Tree
  import LineBreaks

  class Document {
    var nodes: seq<Node>
    var nextId: nat

    /** Every element sits at one place, and `nextId` is fresh. */
    ghost predicate Valid()
      reads this
    {
      Unique(nodes) && forall x | x in Ids(nodes) :: x < nextId
    }

    /** `load(...)`: a document over a parsed forest. */
    constructor (f: seq<Node>, next: nat)
      requires Unique(f) && forall x | x in Ids(f) :: x < next
      ensures nodes == f && nextId == next
      ensures Valid()
    {
      nodes := f;
      nextId := next;
    }

    /** `$(el)` for an element known by identity: the element as it is now. */
    function Find(x: nat): (r: Option<Node>)
      reads this
      ensures r.Some? ==> r.value.Element? && r.value.id == x
    {
      FindFirst(nodes, {x})
    }

    /** A new node (`$('<div></div>')`) gets an identity no element of the document has. */
    method NewId() returns (x: nat)
      requires Valid()
      modifies this
      ensures Valid()
      ensures x == old(nextId) && x !in Ids(nodes)
      ensures nodes == old(nodes) && nextId == old(nextId) + 1
    {
      x := nextId;
      nextId := nextId + 1;
    }

    /** `$(el).replaceWith(c)` for a child `c` of `el`: `c` moves into `el`'s place. */
    method ReplaceWith(x: nat, c: Node)
      requires Valid()
      requires Find(x).Some? && c in Find(x).value.children
      modifies this
      ensures Valid()
      ensures nodes == ReplaceAt(old(nodes), x, c) && nextId == old(nextId)
    {
      ReplaceAtShrinks(nodes, x, c);
      nodes := ReplaceAt(nodes, x, c);
    }

    /** `$(el).before(t)`: a text node just before the element. */
    method InsertTextBefore(x: nat, t: string)
      requires Valid()
      modifies this
      ensures Valid()
      ensures nodes == LineBreaks.BeforeAt(old(nodes), x, t) && nextId == old(nextId)
    {
      LineBreaks.BeforeAtIds(nodes, x, t);
      nodes := LineBreaks.BeforeAt(nodes, x, t);
    }

    /** `remove()` on every node `drop` selects, each with its subtree. */
    method RemoveWhere(drop: Node -> bool)
      requires Valid()
      modifies this
      ensures Valid()
      ensures nodes == Prune(old(nodes), drop) && nextId == old(nextId)
    {
      PruneShrinks(nodes, drop);
      nodes := Prune(nodes, drop);
    }

    /** `$(el).remove()`: the element leaves the document with its subtree. */
    method Remove(x: nat)
      requires Valid()
      modifies this
      ensures Valid()
      ensures nodes == RemoveIds(old(nodes), {x}) && nextId == old(nextId)
      ensures x !in Ids(nodes)
    {
      PruneShrinks(nodes, IdIn({x}));
      RemovedAbsent(nodes, x);
      nodes := RemoveIds(nodes, {x});
    }
  }

  /** After a removal the removed identity is gone (identities being unique). */
  lemma {:induction false} RemovedAbsent(f: seq<Node>, x: nat)
    requires Unique(f)
    ensures x !in Ids(RemoveIds(f, {x}))
    decreases f
  {
    if f != [] {
      RemovedAbsent(f[1..], x);
      IdInApply({x}, f[0]);
      var head := PruneNode(f[0], IdIn({x}));
      IdsAppend(head, RemoveIds(f[1..], {x}));
      if f[0].Element? && f[0].id != x {
        RemovedAbsent(f[0].children, x);
        Single(head[0], IdIn({x}));
        assert head == [head[0]];
      } else if f[0].Text? {
        Single(f[0], IdIn({x}));
      }
      assert RemoveIds(f, {x}) == head + RemoveIds(f[1..], {x});
    }
  }
}
