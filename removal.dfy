/**
 * What the removal of lines 69-72 leaves of a document: every element the
 * selector list matches goes, with its subtree. When the removal runs on
 * the tree the extraction has already worked on (`cleanedQuotations`), the
 * flattening and the line breaks happened inside matches only, so the
 * removal leaves exactly what it would have left of the untouched tree.
 */
module Removal {
  import opened Tree
  import opened Flatten
  import opened LineBreaks
  import opened Selectors

  /** The forest without its matching elements, each taken out with its subtree. */
  function PruneSignatures(f: seq<Node>): seq<Node>
  {
    Prune(f, IsSignatureNode)
  }

  /** Every element of `f` whose identity is in `sel` matches the selector list. */
  predicate SelectsSignatures(f: seq<Node>, sel: set<nat>)
  {
    forall hd | hd in Heads(f) && hd.id in sel :: IsSignatureHead(hd)
  }

  /** The identities `x` marks exactly the matching elements. */
  predicate MarksSignatures(f: seq<Node>, xs: set<nat>)
  {
    forall hd | hd in Heads(f) :: hd.id in xs <==> IsSignatureHead(hd)
  }

  /** The identities of the elements that are not strictly inside a matching element. */
  function Exposed(f: seq<Node>): (r: set<nat>)
    ensures r <= Ids(f)
    decreases f, 1
  {
    if f == [] then {} else NodeExposed(f[0]) + Exposed(f[1..])
  }

  function NodeExposed(n: Node): (r: set<nat>)
    ensures r <= NodeIds(n)
    decreases n, 0
  {
    match n
    case Element(id, tag, attrs, ch) => {id} + (if IsSignature(tag, attrs) then {} else Exposed(ch))
    case Text(_) => {}
  }

  lemma PruneSignaturesOfNode(n: Node, rest: seq<Node>)
    ensures PruneSignatures([n] + rest) == PruneNode(n, IsSignatureNode) + PruneSignatures(rest)
  {
    assert ([n] + rest)[0] == n && ([n] + rest)[1..] == rest;
  }

  /** Removing the marked identities is pruning the matches. */
  lemma {:induction false} RemoveMarked(f: seq<Node>, xs: set<nat>)
    requires MarksSignatures(f, xs)
    ensures RemoveIds(f, xs) == PruneSignatures(f)
    decreases f
  {
    if f != [] {
      RemoveMarked(f[1..], xs);
      IdInApply(xs, f[0]);
      PruneSignaturesOfNode(f[0], f[1..]);
      assert f == [f[0]] + f[1..];
      match f[0]
      case Text(_) =>
        assert PruneNode(f[0], IsSignatureNode) == [f[0]];
        assert PruneNode(f[0], IdIn(xs)) == [f[0]];
      case Element(id, tag, attrs, ch) =>
        assert Head(id, tag, attrs) in Heads(f);
        if !IsSignature(tag, attrs) {
          RemoveMarked(ch, xs);
        }
      assert RemoveIds(f, xs) == PruneNode(f[0], IdIn(xs)) + RemoveIds(f[1..], xs);
    }
  }

  /** Lines 69-72 on a document with unique identities prune exactly the matches. */
  lemma RemoveSignatureSet(f: seq<Node>)
    requires Unique(f)
    ensures RemoveIds(f, SignatureSet(f)) == PruneSignatures(f)
  {
    SignatureSetMarks(f);
    RemoveMarked(f, SignatureSet(f));
  }

  /** Flattening inside matches is invisible once the matches are pruned. */
  lemma {:induction false} FlattenUnderSignatures(f: seq<Node>, sel: set<nat>)
    requires SelectsSignatures(f, sel)
    ensures PruneSignatures(FlattenBelow(f, sel)) == PruneSignatures(f)
    decreases f
  {
    if f != [] {
      FlattenUnderSignatures(f[1..], sel);
      var n := FlattenNodeBelow(f[0], sel);
      PruneSignaturesOfNode(n, FlattenBelow(f[1..], sel));
      PruneSignaturesOfNode(f[0], f[1..]);
      assert f == [f[0]] + f[1..];
      match f[0]
      case Text(_) =>
      case Element(id, tag, attrs, ch) =>
        assert Head(id, tag, attrs) in Heads(f);
        if !IsSignature(tag, attrs) {
          FlattenUnderSignatures(ch, sel);
        }
    }
  }

  /** Text inserted before elements strictly inside matches is invisible once the matches are pruned. */
  lemma {:induction false} BreaksUnderSignatures(f: seq<Node>, xs: set<nat>)
    requires xs !! Exposed(f)
    ensures PruneSignatures(BreakSet(f, xs)) == PruneSignatures(f)
    decreases f
  {
    if f != [] {
      BreaksUnderSignatures(f[1..], xs);
      PruneSignaturesOfNode(f[0], f[1..]);
      assert f == [f[0]] + f[1..];
      PruneAppend(BreakNode(f[0], xs), BreakSet(f[1..], xs), IsSignatureNode);
      match f[0]
      case Text(_) =>
        Single(f[0], IsSignatureNode);
      case Element(id, tag, attrs, ch) =>
        var e := Element(id, tag, attrs, BreakSet(ch, xs));
        assert BreakNode(f[0], xs) == [e];
        Single(e, IsSignatureNode);
        if !IsSignature(tag, attrs) {
          BreaksUnderSignatures(ch, xs);
        }
    }
  }

  /**
   * The elements `find` reaches from a selection of matches lie strictly
   * inside a match (identities being unique).
   */
  lemma {:induction false} BelowNotExposed(f: seq<Node>, sel: set<nat>, tags: set<string>)
    requires Unique(f) && SelectsSignatures(f, sel)
    ensures forall x | x in Below(f, sel, tags) :: x !in Exposed(f)
    decreases f
  {
    if f != [] {
      BelowNotExposed(f[1..], sel, tags);
      match f[0]
      case Text(_) =>
      case Element(id, tag, attrs, ch) =>
        assert UniqueNode(f[0]);
        assert Head(id, tag, attrs) in Heads(f);
        if id !in sel {
          BelowNotExposed(ch, sel, tags);
          assert NodeBelow(f[0], sel, tags) == Below(ch, sel, tags);
          forall x | x in Below(ch, sel, tags) ensures x !in NodeExposed(f[0]) {
            assert x in Ids(ch);
          }
        }
        assert forall x | x in NodeBelow(f[0], sel, tags) :: x !in NodeExposed(f[0]);
      assert Below(f, sel, tags) == NodeBelow(f[0], sel, tags) + Below(f[1..], sel, tags);
      assert Exposed(f) == NodeExposed(f[0]) + Exposed(f[1..]);
    }
  }

  /** No match is left once the matches are pruned. */
  lemma {:induction false} PruneSignaturesLeavesNone(f: seq<Node>)
    ensures forall hd | hd in Heads(PruneSignatures(f)) :: !IsSignatureHead(hd)
    decreases f
  {
    if f != [] {
      PruneSignaturesLeavesNone(f[1..]);
      PruneSignaturesOfNode(f[0], f[1..]);
      assert f == [f[0]] + f[1..];
      var head := PruneNode(f[0], IsSignatureNode);
      HeadsAppend(head, PruneSignatures(f[1..]));
      match f[0]
      case Text(_) =>
        Single(f[0], IsSignatureNode);
      case Element(id, tag, attrs, ch) =>
        if !IsSignature(tag, attrs) {
          PruneSignaturesLeavesNone(ch);
          Single(head[0], IsSignatureNode);
          assert head == [head[0]];
        }
    }
  }

  /** A forest without matches keeps none under any removal. */
  lemma NoSignatureAfterRemoval(f: seq<Node>, xs: set<nat>)
    requires SignatureIds(f) == []
    ensures forall hd | hd in Heads(RemoveIds(f, xs)) :: !IsSignatureHead(hd)
  {
    SignatureIdsExact(f);
    PruneShrinks(f, IdIn(xs));
  }

  /** The outermost matches survive the flattening, so matches are still found afterwards. */
  lemma {:induction false} FlattenKeepsASignature(f: seq<Node>, sel: set<nat>)
    requires SelectsSignatures(f, sel) && SignatureIds(f) != []
    ensures SignatureIds(FlattenBelow(f, sel)) != []
    decreases f
  {
    var g := FlattenBelow(f, sel);
    assert g[0] == FlattenNodeBelow(f[0], sel) && g[1..] == FlattenBelow(f[1..], sel);
    assert SignatureIds(g) == NodeSignatureIds(g[0]) + SignatureIds(g[1..]);
    match f[0]
    case Text(_) =>
      FlattenKeepsASignature(f[1..], sel);
    case Element(id, tag, attrs, ch) =>
      assert Head(id, tag, attrs) in Heads(f);
      if IsSignature(tag, attrs) {
      } else if SignatureIds(ch) != [] {
        FlattenKeepsASignature(ch, sel);
      } else {
        FlattenKeepsASignature(f[1..], sel);
      }
  }

  /** Inserted text nodes change nothing about the matches. */
  lemma {:induction false} BreakSetKeepsSignatures(f: seq<Node>, xs: set<nat>)
    ensures SignatureIds(BreakSet(f, xs)) == SignatureIds(f)
    decreases f
  {
    if f != [] {
      BreakSetKeepsSignatures(f[1..], xs);
      SignatureIdsAppend(BreakNode(f[0], xs), BreakSet(f[1..], xs));
      match f[0]
      case Text(_) =>
        assert SignatureIds([f[0]]) == SignatureIds([]);
      case Element(id, tag, attrs, ch) =>
        BreakSetKeepsSignatures(ch, xs);
        var e := Element(id, tag, attrs, BreakSet(ch, xs));
        var mark := if id in xs then [Text("\n")] else [];
        assert BreakNode(f[0], xs) == mark + [e];
        SignatureIdsAppend(mark, [e]);
        assert SignatureIds(mark) == [] by {
          if id in xs {
            assert SignatureIds(mark) == SignatureIds([]);
          }
        }
        assert [e][1..] == [];
    }
  }
}
