/**
  The patch pass of `ThriftFormatter`, one node at a time: each rule is a
  function from the arena before the visit to the arena after it. New
  nodes are appended at the end of the arena, so a child always has a
  larger index than its parent.
 */
module Patch {
  import opened Tree

  /** The three walks `patch` makes. */
  datatype Step = RequiredStep | SeparatorStep | RemoveStep

  /** The kinds a patch may append nodes under. */
  predicate InsertKind(k: Kind) {
    k == Field || k == EnumField || k == Function
  }

  /** What a visit of `x` may change: kinds and parents stay, only `x` gets
      a new child list, and new nodes are appended only under an insert
      kind and are never of an insert kind themselves. Token texts may
      change. */
  predicate StepFrame(ns: seq<Node>, r: seq<Node>, x: nat)
    requires x < |ns|
  {
    |ns| <= |r|
    && (forall i | 0 <= i < |ns| :: r[i].kind == ns[i].kind && r[i].parent == ns[i].parent)
    && (forall i | 0 <= i < |ns| && i != x :: r[i].children == ns[i].children)
    && (forall i | |ns| <= i < |r| :: !InsertKind(r[i].kind))
    && (|r| > |ns| ==> InsertKind(ns[x].kind))
    && (forall i | 0 <= i < |ns| :: r[i].token.index == ns[i].token.index && r[i].token.line == ns[i].token.line)
    && (forall i | |ns| <= i < |r| && r[i].kind == Terminal :: IsFakeNode(r[i]))
  }

  // ---------------------------------------------------------------------
  // patchFieldRequired
  // ---------------------------------------------------------------------

  predicate IsReqOrType(ns: seq<Node>, c: nat)
    requires c < |ns|
  {
    ns[c].kind == FieldReq || ns[c].kind == FieldType
  }

  /** Where the scan of `patchFieldRequired` stops: the first qualifier or
      type child, or the end. */
  function RequiredScan(ns: seq<Node>, cs: seq<nat>): (i: nat)
    requires forall j | 0 <= j < |cs| :: cs[j] < |ns|
    ensures i <= |cs|
    ensures forall j | 0 <= j < i :: !IsReqOrType(ns, cs[j])
    ensures i < |cs| ==> IsReqOrType(ns, cs[i])
    decreases |cs|
  {
    if cs == [] || IsReqOrType(ns, cs[0]) then 0 else 1 + RequiredScan(ns, cs[1..])
  }

  /** The fields the rule applies to: a field with a parent that is not a
      function or throws list. */
  predicate NeedsRequired(ns: seq<Node>, x: nat)
    requires WellFormed(ns) && x < |ns|
  {
    assert NodeOk(ns, x);
    ns[x].kind == Field && ns[x].parent != -1 && !IsFunctionOrThrowsListNode(ns[ns[x].parent].kind)
  }

  /** The field already has a qualifier before its type. */
  predicate HasRequired(ns: seq<Node>, x: nat)
    requires WellFormed(ns) && x < |ns|
  {
    var cs := Children(ns, x);
    var i := RequiredScan(ns, cs);
    i < |cs| && ns[cs[i]].kind == FieldReq
  }

  /** Node `mid` spliced in as child `i` of `x`, with `leaf` under it; both
      are appended to the arena. */
  function Splice(ns: seq<Node>, x: nat, i: nat, mid: Node, leaf: Node): seq<Node>
    requires x < |ns| && i <= |ns[x].children|
  {
    var cs := ns[x].children;
    ns[x := ns[x].(children := cs[..i] + [|ns|] + cs[i..])] + [mid, leaf]
  }

  /** `patchFieldRequired`: a field of a struct-like body with no qualifier
      before its type gets a synthetic `required` qualifier, inserted where
      the type is (at the end when there is no type). */
  function PatchFieldRequired(ns: seq<Node>, x: nat): seq<Node>
    requires WellFormed(ns) && x < |ns|
  {
    if !NeedsRequired(ns, x) || HasRequired(ns, x) then ns
    else InsertRequired(ns, x)
  }

  /** The insertion itself: the qualifier node goes where the scan stopped,
      with a fake `required` terminal under it. */
  function InsertRequired(ns: seq<Node>, x: nat): seq<Node>
    requires WellFormed(ns) && x < |ns|
  {
    var req := |ns|;
    Splice(ns, x, RequiredScan(ns, Children(ns, x)),
           Node(FieldReq, x, [req + 1], NoToken), CreateFakeNode(RequiredKw, "required", req))
  }

  /** The insertion at the index the scan returned, with the two nodes
      `patchFieldRequired` builds. */
  lemma InsertRequiredAt(ns: seq<Node>, x: nat, i: nat)
    requires WellFormed(ns) && x < |ns| && i == RequiredScan(ns, Children(ns, x))
    ensures i <= |ns[x].children|
    ensures Splice(ns, x, i, Node(FieldReq, x, [|ns| + 1], NoToken), CreateFakeNode(RequiredKw, "required", |ns|))
            == InsertRequired(ns, x)
  {
  }

  /** What `patchFieldRequired` guarantees: the tree stays well formed and
      only `x` changes; a field that needs a qualifier has one afterwards,
      and any other node, or a field that already has one, is left alone.
      The qualifier is a new node placed where the scan for the type
      stopped, holding one fake `required` terminal. */
  lemma PatchFieldRequiredSpec(ns: seq<Node>, x: nat)
    requires WellFormed(ns) && x < |ns|
    ensures var r := PatchFieldRequired(ns, x);
            WellFormed(r) && StepFrame(ns, r, x)
            && (NeedsRequired(ns, x) ==> HasRequired(r, x))
            && (!NeedsRequired(ns, x) || HasRequired(ns, x) ==> r == ns)
    ensures var r := PatchFieldRequired(ns, x);
            NeedsRequired(ns, x) && !HasRequired(ns, x) ==>
              var cs := Children(ns, x);
              var i := RequiredScan(ns, cs);
              |r| == |ns| + 2 && WellFormed(r)
              && Children(r, x) == cs[..i] + [|ns|] + cs[i..]
              && r[|ns|].kind == FieldReq && r[|ns|].children == [|ns| + 1]
              && r[|ns| + 1].kind == Terminal && IsFakeNode(r[|ns| + 1])
              && r[|ns| + 1].token.text == "required"
  {
    if NeedsRequired(ns, x) && !HasRequired(ns, x) {
      InsertRequiredShape(ns, x);
    }
  }

  /** The insertion: well formed, only `x` changed, and the qualifier with
      its `required` leaf spliced in where the scan stopped. */
  lemma InsertRequiredShape(ns: seq<Node>, x: nat)
    requires WellFormed(ns) && x < |ns| && NeedsRequired(ns, x)
    ensures var r := InsertRequired(ns, x);
            var cs := Children(ns, x);
            var i := RequiredScan(ns, cs);
            |r| == |ns| + 2 && WellFormed(r) && StepFrame(ns, r, x)
            && Children(r, x) == cs[..i] + [|ns|] + cs[i..]
            && RequiredScan(r, Children(r, x)) == i
            && r[|ns|].kind == FieldReq && r[|ns|].children == [|ns| + 1]
            && r[|ns| + 1].kind == Terminal && IsFakeNode(r[|ns| + 1])
            && r[|ns| + 1].token.text == "required"
  {
    var cs := Children(ns, x);
    var i := RequiredScan(ns, cs);
    var req := |ns|;
    var mid := Node(FieldReq, x, [req + 1], NoToken);
    var leaf := CreateFakeNode(RequiredKw, "required", req);
    var r := Splice(ns, x, i, mid, leaf);
    assert r == InsertRequired(ns, x);
    InsertPreservesWellFormed(ns, x, i, mid, leaf);
    SpliceFrame(ns, x, i, mid, leaf);
    RequiredScanAfterInsert(ns, r, cs, i, req);
    assert Children(r, x) == cs[..i] + [req] + cs[i..];
  }

  lemma RequiredScanAfterInsert(ns: seq<Node>, r: seq<Node>, cs: seq<nat>, i: nat, req: nat)
    requires forall j | 0 <= j < |cs| :: cs[j] < |ns|
    requires i == RequiredScan(ns, cs)
    requires |ns| <= |r| && req < |r| && r[req].kind == FieldReq
    requires forall j | 0 <= j < |ns| :: r[j].kind == ns[j].kind
    ensures var cs' := cs[..i] + [req] + cs[i..];
            RequiredScan(r, cs') == i && cs'[i] == req
  {
    var cs' := cs[..i] + [req] + cs[i..];
    assert forall j | 0 <= j < i :: cs'[j] == cs[j] && r[cs[j]].kind == ns[cs[j]].kind;
    assert cs'[i] == req && IsReqOrType(r, req);
  }

  /** Inserting a node with one fresh leaf under `x` keeps the arena well
      formed. */
  lemma InsertPreservesWellFormed(ns: seq<Node>, x: nat, i: nat, mid: Node, leaf: Node)
    requires WellFormed(ns) && x < |ns| && InsertKind(ns[x].kind)
    requires i <= |ns[x].children|
    requires mid.parent == x && mid.children == [|ns| + 1] && mid.kind != Terminal
    requires leaf.parent == |ns| && leaf.children == [] && leaf.kind == Terminal
    ensures WellFormed(Splice(ns, x, i, mid, leaf))
  {
    var r := Splice(ns, x, i, mid, leaf);
    forall k | 0 <= k < |r| ensures NodeOk(r, k) {
      if k == x {
        SpliceHostOk(ns, x, i, mid, leaf);
      } else if k < |ns| {
        SpliceOtherOk(ns, x, i, mid, leaf, k);
      } else if k == |ns| {
        assert r[k + 1] == leaf;
      }
    }
  }

  /** The host keeps its links, with the new node among its children. */
  lemma SpliceHostOk(ns: seq<Node>, x: nat, i: nat, mid: Node, leaf: Node)
    requires WellFormed(ns) && x < |ns| && InsertKind(ns[x].kind)
    requires i <= |ns[x].children|
    requires mid.parent == x
    ensures NodeOk(Splice(ns, x, i, mid, leaf), x)
  {
    var cs := ns[x].children;
    var cs' := cs[..i] + [|ns|] + cs[i..];
    var r := Splice(ns, x, i, mid, leaf);
    assert NodeOk(ns, x);
    forall j | 0 <= j < |cs'| ensures x < cs'[j] < |r| && r[cs'[j]].parent == x {
      if j < i {
        assert cs'[j] == cs[j];
      } else if j > i {
        assert cs'[j] == cs[j - 1];
      }
    }
    SpliceKeepsDistinct(cs, i, |ns|);
  }

  /** Splicing an index above all of a list of distinct indices into it
      keeps them distinct. */
  lemma SpliceKeepsDistinct(cs: seq<nat>, i: nat, top: nat)
    requires i <= |cs| && forall j | 0 <= j < |cs| :: cs[j] < top
    requires forall j, l | 0 <= j < l < |cs| :: cs[j] != cs[l]
    ensures var cs' := cs[..i] + [top] + cs[i..];
            forall j, l | 0 <= j < l < |cs'| :: cs'[j] != cs'[l]
  {
    var cs' := cs[..i] + [top] + cs[i..];
    forall j, l | 0 <= j < l < |cs'| ensures cs'[j] != cs'[l] {
      if j < i && l > i {
        assert cs'[j] == cs[j] && cs'[l] == cs[l - 1];
      } else if j > i {
        assert cs'[j] == cs[j - 1] && cs'[l] == cs[l - 1];
      } else if j < i && l < i {
        assert cs'[j] == cs[j] && cs'[l] == cs[l];
      } else if j == i {
        assert cs'[l] == cs[l - 1];
      } else {
        assert cs'[j] == cs[j];
      }
    }
  }

  /** Every other old node keeps its links. */
  lemma SpliceOtherOk(ns: seq<Node>, x: nat, i: nat, mid: Node, leaf: Node, k: nat)
    requires WellFormed(ns) && x < |ns| && i <= |ns[x].children|
    requires k < |ns| && k != x
    ensures NodeOk(Splice(ns, x, i, mid, leaf), k)
  {
    var r := Splice(ns, x, i, mid, leaf);
    assert NodeOk(ns, k);
    forall j | 0 <= j < |r[k].children| ensures r[r[k].children[j]].parent == k {
      var c := r[k].children[j];
      assert c == ns[k].children[j];
      if c == x {
        assert r[x].parent == ns[x].parent;
      }
    }
  }

  /** A splice changes only the child list of `x`, under an insert kind,
      and appends a node of another kind and a fake terminal. */
  lemma SpliceFrame(ns: seq<Node>, x: nat, i: nat, mid: Node, leaf: Node)
    requires x < |ns| && InsertKind(ns[x].kind) && i <= |ns[x].children|
    requires !InsertKind(mid.kind) && mid.kind != Terminal && IsFakeNode(leaf) && leaf.kind == Terminal
    ensures StepFrame(ns, Splice(ns, x, i, mid, leaf), x)
  {
  }

  // ---------------------------------------------------------------------
  // patchFieldListSeparator
  // ---------------------------------------------------------------------

  predicate NeedsSeparator(k: Kind) {
    k == EnumField || k == Field || k == Function
  }

  /** The last child is a list separator. */
  predicate EndsWithSeparator(ns: seq<Node>, x: nat)
    requires WellFormed(ns) && x < |ns|
  {
    var cs := Children(ns, x);
    |cs| > 0 && ns[cs[|cs| - 1]].kind == ListSeparator
  }

  /** The last child is a list separator whose token reads `,`. */
  predicate EndsWithComma(ns: seq<Node>, x: nat)
    requires WellFormed(ns) && x < |ns|
  {
    EndsWithSeparator(ns, x)
    && var s := Children(ns, x)[|Children(ns, x)| - 1];
       assert NodeOk(ns, s);
       ns[ns[s].children[0]].token.text == ","
  }

  /** The node `t` with its token text replaced. */
  function SetText(ns: seq<Node>, t: nat, text: string): seq<Node>
    requires t < |ns|
  {
    ns[t := ns[t].(token := ns[t].token.(text := text))]
  }

  /** The terminal of `x`'s trailing separator. */
  function SeparatorTerminal(ns: seq<Node>, x: nat): (t: nat)
    requires WellFormed(ns) && x < |ns| && EndsWithSeparator(ns, x)
    ensures t < |ns|
  {
    var cs := Children(ns, x);
    var s := cs[|cs| - 1];
    assert NodeOk(ns, s);
    ns[s].children[0]
  }

  /** A synthetic `,` separator appended as the last child of `x`. */
  function AppendSeparator(ns: seq<Node>, x: nat): seq<Node>
    requires x < |ns|
  {
    var sep := |ns|;
    Splice(ns, x, |ns[x].children|, Node(ListSeparator, x, [sep + 1], NoToken), CreateFakeNode(Comma, ",", sep))
  }

  /** `patchFieldListSeparator`: an enum field, field or function ends with
      a `,` separator afterwards; an existing separator has its text
      replaced, otherwise a synthetic one is appended. */
  function PatchFieldListSeparator(ns: seq<Node>, x: nat): seq<Node>
    requires WellFormed(ns) && x < |ns|
  {
    if !NeedsSeparator(ns[x].kind) then ns
    else if EndsWithSeparator(ns, x) then SetText(ns, SeparatorTerminal(ns, x), ",")
    else AppendSeparator(ns, x)
  }

  /** What `patchFieldListSeparator` guarantees: the tree stays well formed
      and only `x` changes; an enum field, field or function ends with a
      `,` separator afterwards, the existing one rewritten in place or a new
      one appended; other nodes are left alone. */
  lemma PatchFieldListSeparatorSpec(ns: seq<Node>, x: nat)
    requires WellFormed(ns) && x < |ns|
    ensures var r := PatchFieldListSeparator(ns, x);
            WellFormed(r) && StepFrame(ns, r, x)
            && (NeedsSeparator(ns[x].kind) ==> EndsWithComma(r, x))
            && (NeedsSeparator(ns[x].kind) && EndsWithSeparator(ns, x) ==> |r| == |ns|)
            && (NeedsSeparator(ns[x].kind) && !EndsWithSeparator(ns, x) ==>
                  Children(r, x) == Children(ns, x) + [|ns|])
            && (!NeedsSeparator(ns[x].kind) ==> r == ns)
  {
    if NeedsSeparator(ns[x].kind) {
      if EndsWithSeparator(ns, x) {
        RewriteSeparatorShape(ns, x);
      } else {
        AppendSeparatorShape(ns, x);
      }
    }
  }

  /** Rewriting the trailing separator's text keeps the arena and leaves a
      `,` at the end. */
  lemma RewriteSeparatorShape(ns: seq<Node>, x: nat)
    requires WellFormed(ns) && x < |ns| && EndsWithSeparator(ns, x)
    ensures var r := SetText(ns, SeparatorTerminal(ns, x), ",");
            WellFormed(r) && StepFrame(ns, r, x) && |r| == |ns| && EndsWithComma(r, x)
  {
    SetTextPreservesWellFormed(ns, SeparatorTerminal(ns, x), ",", x);
  }

  /** Appending a separator to a node of a separated kind keeps the arena
      well formed and leaves a `,` as the new last child. */
  lemma AppendSeparatorShape(ns: seq<Node>, x: nat)
    requires WellFormed(ns) && x < |ns| && NeedsSeparator(ns[x].kind)
    ensures var r := AppendSeparator(ns, x);
            WellFormed(r) && StepFrame(ns, r, x) && EndsWithComma(r, x)
            && Children(r, x) == Children(ns, x) + [|ns|]
  {
    var cs := ns[x].children;
    var sep := |ns|;
    var mid := Node(ListSeparator, x, [sep + 1], NoToken);
    var leaf := CreateFakeNode(Comma, ",", sep);
    InsertPreservesWellFormed(ns, x, |cs|, mid, leaf);
    SpliceFrame(ns, x, |cs|, mid, leaf);
    var r := AppendSeparator(ns, x);
    assert cs[..|cs|] + [sep] + cs[|cs|..] == cs + [sep];
    assert Children(r, x) == cs + [sep];
    assert NodeOk(r, sep);
  }

  lemma SetTextPreservesWellFormed(ns: seq<Node>, t: nat, text: string, x: nat)
    requires WellFormed(ns) && t < |ns| && x < |ns|
    ensures WellFormed(SetText(ns, t, text)) && StepFrame(ns, SetText(ns, t, text), x)
  {
    var r := SetText(ns, t, text);
    forall k | 0 <= k < |r| ensures NodeOk(r, k) {
      assert NodeOk(ns, k);
    }
  }

  // ---------------------------------------------------------------------
  // patchRemoveLastListSeparator
  // ---------------------------------------------------------------------

  /** A field of a function's argument or throws list, or a type annotation:
      the inline nodes whose last separator is dropped. */
  predicate IsInlineNode(ns: seq<Node>, x: nat)
    requires WellFormed(ns) && x < |ns|
  {
    assert NodeOk(ns, x);
    var isInlineField := ns[x].kind == Field && ns[x].parent != -1
                         && IsFunctionOrThrowsListNode(ns[ns[x].parent].kind);
    (isInlineField || ns[x].kind == TypeAnnotation) && ns[x].parent != -1
  }

  /** The sibling test as written: `x` counts as last when it is the final
      child of its parent or its next sibling has the SAME class. */
  predicate IsLastAsWritten(ns: seq<Node>, x: nat)
    requires WellFormed(ns) && x < |ns|
  {
    assert NodeOk(ns, x);
    ns[x].parent != -1
    && var b := Children(ns, ns[x].parent);
       exists i | 0 <= i < |b| :: b[i] == x && (i == |b| - 1 || !NotSameClass(ns, x, b[i + 1]))
  }

  /** The sibling test as intended: `x` is last when it is the final child
      of its parent or its next sibling is of a different class, that is,
      no sibling of its kind follows it directly. */
  predicate IsLast(ns: seq<Node>, x: nat)
    requires WellFormed(ns) && x < |ns|
  {
    assert NodeOk(ns, x);
    ns[x].parent != -1
    && var b := Children(ns, ns[x].parent);
       exists i | 0 <= i < |b| :: b[i] == x && (i == |b| - 1 || NotSameClass(ns, x, b[i + 1]))
  }

  /** Dropping the last child of `x`. */
  function DropLastChild(ns: seq<Node>, x: nat): seq<Node>
    requires x < |ns| && |ns[x].children| > 0
  {
    var cs := ns[x].children;
    ns[x := ns[x].(children := cs[..|cs| - 1])]
  }

  /** Dropping the last child keeps the tree well formed and changes only
      `x`, whose other children stay in order. */
  lemma DropLastChildSpec(ns: seq<Node>, x: nat)
    requires WellFormed(ns) && x < |ns| && EndsWithSeparator(ns, x)
    requires ns[x].kind == Field || ns[x].kind == TypeAnnotation
    ensures var r := DropLastChild(ns, x);
            WellFormed(r) && StepFrame(ns, r, x) && |r| == |ns|
            && Children(r, x) == Children(ns, x)[..|Children(ns, x)| - 1]
  {
    var r := DropLastChild(ns, x);
    forall k | 0 <= k < |r| ensures NodeOk(r, k) {
      assert NodeOk(ns, k);
      if k != x {
        forall j | 0 <= j < |r[k].children| ensures r[r[k].children[j]].parent == k {
          assert r[k].children[j] == ns[k].children[j];
        }
      }
    }
  }

  /** `patchRemoveLastListSeparator` with the sibling test as written. */
  function PatchRemoveLastAsWritten(ns: seq<Node>, x: nat): seq<Node>
    requires WellFormed(ns) && x < |ns|
  {
    if IsInlineNode(ns, x) && IsLastAsWritten(ns, x) && EndsWithSeparator(ns, x) then DropLastChild(ns, x)
    else ns
  }

  /** `patchRemoveLastListSeparator` as intended: the last inline field of
      an argument list and the last annotation lose their separator. */
  function PatchRemoveLastListSeparator(ns: seq<Node>, x: nat): seq<Node>
    requires WellFormed(ns) && x < |ns|
  {
    if IsInlineNode(ns, x) && IsLast(ns, x) && EndsWithSeparator(ns, x) then DropLastChild(ns, x)
    else ns
  }

  /** What `patchRemoveLastListSeparator` guarantees: the tree stays well
      formed and only `x` changes; an inline node that is last and ends in
      a separator loses it, and nothing else changes. */
  lemma PatchRemoveLastListSeparatorSpec(ns: seq<Node>, x: nat)
    requires WellFormed(ns) && x < |ns|
    ensures var r := PatchRemoveLastListSeparator(ns, x);
            WellFormed(r) && StepFrame(ns, r, x) && |r| == |ns|
            && (IsInlineNode(ns, x) && IsLast(ns, x) && EndsWithSeparator(ns, x) ==>
                  Children(r, x) == Children(ns, x)[..|Children(ns, x)| - 1])
            && (!(IsInlineNode(ns, x) && IsLast(ns, x) && EndsWithSeparator(ns, x)) ==> r == ns)
  {
    if IsInlineNode(ns, x) && IsLast(ns, x) && EndsWithSeparator(ns, x) {
      DropLastChildSpec(ns, x);
    }
  }

  /** What `patchRemoveLastListSeparator` does as written: the tree stays
      well formed and only `x` changes; `x` loses its last child exactly
      when it is an inline node, is the final child of its parent or is
      directly followed by a sibling of its own class, and ends in a
      separator; otherwise nothing changes. */
  lemma PatchRemoveLastAsWrittenSpec(ns: seq<Node>, x: nat)
    requires WellFormed(ns) && x < |ns|
    ensures var r := PatchRemoveLastAsWritten(ns, x);
            WellFormed(r) && StepFrame(ns, r, x) && |r| == |ns|
            && (IsInlineNode(ns, x) && IsLastAsWritten(ns, x) && EndsWithSeparator(ns, x) ==>
                  Children(r, x) == Children(ns, x)[..|Children(ns, x)| - 1])
            && (!(IsInlineNode(ns, x) && IsLastAsWritten(ns, x) && EndsWithSeparator(ns, x)) ==> r == ns)
  {
    if IsInlineNode(ns, x) && IsLastAsWritten(ns, x) && EndsWithSeparator(ns, x) {
      DropLastChildSpec(ns, x);
    }
  }

  /** Where `x` stands among its parent's children, the two sibling tests
      read off that position: as written `x` counts as last before a
      sibling of the same class, as intended before one of another class.
      So they agree on the final child and disagree everywhere else. */
  lemma SiblingTestsDisagree(ns: seq<Node>, x: nat, p: nat, i: nat)
    requires WellFormed(ns) && x < |ns| && ns[x].parent == p && p < x
    requires i < |Children(ns, p)| && Children(ns, p)[i] == x
    ensures var b := Children(ns, p);
            (IsLastAsWritten(ns, x) <==> i == |b| - 1 || !NotSameClass(ns, x, b[i + 1]))
            && (IsLast(ns, x) <==> i == |b| - 1 || NotSameClass(ns, x, b[i + 1]))
    ensures var b := Children(ns, p);
            (i == |b| - 1 ==> IsLastAsWritten(ns, x) && IsLast(ns, x))
            && (i < |b| - 1 ==> (IsLastAsWritten(ns, x) <==> !IsLast(ns, x)))
  {
    var b := Children(ns, p);
    ChildIndexUnique(ns, p, i);
    if IsLastAsWritten(ns, x) {
      var j :| 0 <= j < |b| && b[j] == x && (j == |b| - 1 || !NotSameClass(ns, x, b[j + 1]));
      assert j == i;
    } else {
      assert !(i == |b| - 1 || !NotSameClass(ns, x, b[i + 1]));
    }
    if IsLast(ns, x) {
      var j :| 0 <= j < |b| && b[j] == x && (j == |b| - 1 || NotSameClass(ns, x, b[j + 1]));
      assert j == i;
    } else {
      assert !(i == |b| - 1 || NotSameClass(ns, x, b[i + 1]));
    }
  }

  /** A node occurs once among its parent's children. */
  lemma ChildIndexUnique(ns: seq<Node>, p: nat, i: nat)
    requires WellFormed(ns) && p < |ns| && i < |Children(ns, p)|
    ensures forall j | 0 <= j < |Children(ns, p)| && Children(ns, p)[j] == Children(ns, p)[i] :: j == i
  {
    assert NodeOk(ns, p);
  }

  // ---------------------------------------------------------------------
  // The walk
  // ---------------------------------------------------------------------

  function Apply(step: Step, ns: seq<Node>, x: nat): (r: seq<Node>)
    requires WellFormed(ns) && x < |ns|
    ensures WellFormed(r) && StepFrame(ns, r, x)
  {
    match step
    case RequiredStep => PatchFieldRequiredSpec(ns, x); PatchFieldRequired(ns, x)
    case SeparatorStep => PatchFieldListSeparatorSpec(ns, x); PatchFieldListSeparator(ns, x)
    case RemoveStep => PatchRemoveLastAsWrittenSpec(ns, x); PatchRemoveLastAsWritten(ns, x)
  }

  /** The arena after visiting the nodes of `order` one after the other. */
  function ApplySteps(step: Step, ns: seq<Node>, order: seq<nat>): (r: seq<Node>)
    requires WellFormed(ns)
    ensures WellFormed(r) && |ns| <= |r|
    decreases |order|
  {
    if order == [] then ns
    else
      var prev := ApplySteps(step, ns, order[..|order| - 1]);
      var x := order[|order| - 1];
      if x < |prev| then Apply(step, prev, x) else prev
  }

  /** The children of the visited nodes, in visiting order: what the queue
      of a breadth-first walk receives. */
  function ChildrenConcat(ns: seq<Node>, order: seq<nat>): seq<nat>
    decreases |order|
  {
    if order == [] then []
    else
      var x := order[|order| - 1];
      ChildrenConcat(ns, order[..|order| - 1]) + (if x < |ns| then ns[x].children else [])
  }

  /** The nodes the walk has not visited yet. */
  ghost function Unvisited(ns: seq<Node>, order: seq<nat>): set<nat> {
    set i: nat | i < |ns| && i !in order
  }

  /** The unvisited nodes a visit may still append nodes under. */
  ghost function UnvisitedInsert(ns: seq<Node>, order: seq<nat>): set<nat> {
    set i: nat | i < |ns| && i !in order && InsertKind(ns[i].kind)
  }

  /** Visiting an unvisited node shrinks the walk's remaining work: either
      one insert-kind node fewer is left, or nothing was appended and one
      node fewer is left. */
  lemma VisitShrinks(ns: seq<Node>, r: seq<Node>, order: seq<nat>, x: nat)
    requires x < |ns| && x !in order && StepFrame(ns, r, x)
    ensures |UnvisitedInsert(r, order + [x])| < |UnvisitedInsert(ns, order)|
            || (|UnvisitedInsert(r, order + [x])| == |UnvisitedInsert(ns, order)|
                && |Unvisited(r, order + [x])| < |Unvisited(ns, order)|)
  {
    var o := order + [x];
    if InsertKind(ns[x].kind) {
      assert x in UnvisitedInsert(ns, order) && x !in UnvisitedInsert(r, o);
      forall i | i in UnvisitedInsert(r, o) ensures i in UnvisitedInsert(ns, order) {
        assert i < |ns|;
      }
      ProperSubsetCard(UnvisitedInsert(r, o), UnvisitedInsert(ns, order));
    } else {
      assert |r| == |ns|;
      assert x in Unvisited(ns, order) && x !in Unvisited(r, o);
      forall i | i in UnvisitedInsert(ns, order) ensures i in UnvisitedInsert(r, o) {
        assert i != x;
      }
      assert UnvisitedInsert(r, o) == UnvisitedInsert(ns, order);
      ProperSubsetCard(Unvisited(r, o), Unvisited(ns, order));
    }
  }

  lemma ProperSubsetCard(a: set<nat>, b: set<nat>)
    requires a < b
    ensures |a| < |b|
  {
    assert b == a + (b - a);
    var e :| e in b - a;
  }

  /** One round of the walk: visiting the head of the queue extends the
      visits applied so far by one, keeps the invariant once the head's
      children are queued, and shrinks the remaining work. */
  lemma WalkAdvance(step: Step, t0: seq<Node>, ns: seq<Node>, r: seq<Node>, root: nat, order: seq<nat>, seen: seq<nat>)
    requires WellFormed(t0) && ns == ApplySteps(step, t0, order)
    requires WalkSeen(ns, root, order, seen) && |order| < |seen| && order == seen[..|order|]
    requires seen[|order|] < |ns| && r == Apply(step, ns, seen[|order|])
    ensures r == ApplySteps(step, t0, order + [seen[|order|]])
    ensures WalkSeen(r, root, order + [seen[|order|]], seen + r[seen[|order|]].children)
    ensures |UnvisitedInsert(r, order + [seen[|order|]])| < |UnvisitedInsert(ns, order)|
            || (|UnvisitedInsert(r, order + [seen[|order|]])| == |UnvisitedInsert(ns, order)|
                && |Unvisited(r, order + [seen[|order|]])| < |Unvisited(ns, order)|)
  {
    var x := seen[|order|];
    HeadNotVisited(seen, order);
    ApplyStepsNext(step, t0, order, x);
    WalkStep(ns, r, root, order, seen);
    VisitShrinks(ns, r, order, x);
  }

  /** The head of the queue is not among the visited nodes. */
  lemma HeadNotVisited(seen: seq<nat>, order: seq<nat>)
    requires Distinct(seen) && |order| < |seen| && order == seen[..|order|]
    ensures seen[|order|] !in order
  {
    forall j | 0 <= j < |order| ensures order[j] != seen[|order|] {
      assert seen[j] == order[j];
    }
  }

  /** Applying the step at `x` after those of `order` applies those of
      `order + [x]`. */
  lemma ApplyStepsNext(step: Step, t0: seq<Node>, order: seq<nat>, x: nat)
    requires WellFormed(t0) && x < |ApplySteps(step, t0, order)|
    ensures Apply(step, ApplySteps(step, t0, order), x) == ApplySteps(step, t0, order + [x])
  {
    assert (order + [x])[..|order|] == order;
  }

  /** Taking the head of the queue and queueing `cs` keeps everything
      queued so far in the same order. */
  lemma QueueShift(seen: seq<nat>, order: seq<nat>, queue: seq<nat>, cs: seq<nat>)
    requires seen == order + queue && queue != []
    ensures seen + cs == (order + [queue[0]]) + (queue[1..] + cs)
    ensures seen[|order|] == queue[0] && order == seen[..|order|]
  {
    assert queue == [queue[0]] + queue[1..];
  }

  /** A visit of `x` leaves the children the queue already received from
      the other visited nodes as they were. */
  lemma {:induction false} ChildrenConcatFrame(ns: seq<Node>, r: seq<Node>, order: seq<nat>, x: nat)
    requires forall j | 0 <= j < |order| :: order[j] < |ns| && order[j] != x
    requires |ns| <= |r| && forall i | 0 <= i < |ns| && i != x :: r[i].children == ns[i].children
    ensures ChildrenConcat(r, order) == ChildrenConcat(ns, order)
    decreases |order|
  {
    if order != [] {
      ChildrenConcatFrame(ns, r, order[..|order| - 1], x);
    }
  }

  predicate Distinct(s: seq<nat>) {
    forall i, j | 0 <= i < j < |s| :: s[i] != s[j]
  }

  /** The invariant of `walkNode`, over everything queued so far (`seen`,
      whose prefix `order` was visited and whose rest is the queue): the
      root followed by the children of the visited nodes, in the order they
      were queued; no node twice; and every node but the root queued by
      its parent. */
  ghost predicate WalkSeen(ns: seq<Node>, root: nat, order: seq<nat>, seen: seq<nat>) {
    seen == [root] + ChildrenConcat(ns, order)
    && Distinct(seen)
    && (forall j | 0 <= j < |seen| :: root <= seen[j] < |ns|)
    && (forall j | 0 <= j < |seen| :: seen[j] == root || ns[seen[j]].parent in order)
  }

  /** Visiting the head of the queue and queueing its children (as the
      visit left them) keeps the invariant. */
  lemma WalkStep(ns: seq<Node>, r: seq<Node>, root: nat, order: seq<nat>, seen: seq<nat>)
    requires WellFormed(r) && WalkSeen(ns, root, order, seen)
    requires |order| < |seen| && order == seen[..|order|]
    requires StepFrame(ns, r, seen[|order|])
    ensures WalkSeen(r, root, order + [seen[|order|]], seen + r[seen[|order|]].children)
  {
    var x := seen[|order|];
    var cs := r[x].children;
    WalkStepFresh(ns, r, root, order, seen);
    WalkStepConcat(ns, r, order, x);
    QueueGrows(seen, root, ChildrenConcat(ns, order), ChildrenConcat(r, order + [x]), cs);
    assert NodeOk(r, x);
    DistinctAppend(seen, cs);
    assert root <= x by {
      assert seen[|order|] == x;
    }
    WalkStepParents(ns, r, root, order, seen, x);
  }

  /** The children a visit leaves under the head of the queue were not
      queued before: their parent is the head, which was not visited, and
      they lie above it, so none is the root. */
  lemma WalkStepFresh(ns: seq<Node>, r: seq<Node>, root: nat, order: seq<nat>, seen: seq<nat>)
    requires WellFormed(r) && WalkSeen(ns, root, order, seen)
    requires |order| < |seen| && order == seen[..|order|]
    requires StepFrame(ns, r, seen[|order|])
    ensures forall j | 0 <= j < |order| :: order[j] < |ns| && order[j] != seen[|order|]
    ensures forall k | 0 <= k < |r[seen[|order|]].children| :: r[seen[|order|]].children[k] !in seen
  {
    var x := seen[|order|];
    forall j | 0 <= j < |order| ensures order[j] < |ns| && order[j] != x {
      assert seen[j] == order[j];
    }
    assert NodeOk(r, x);
    var cs := r[x].children;
    forall k | 0 <= k < |cs| ensures cs[k] !in seen {
      var c := cs[k];
      assert r[c].parent == x && root <= x < c;
    }
  }

  /** What the queue received, after one more visit. */
  lemma WalkStepConcat(ns: seq<Node>, r: seq<Node>, order: seq<nat>, x: nat)
    requires x < |ns| && StepFrame(ns, r, x)
    requires forall j | 0 <= j < |order| :: order[j] < |ns| && order[j] != x
    ensures ChildrenConcat(r, order + [x]) == ChildrenConcat(ns, order) + r[x].children
  {
    ChildrenConcatFrame(ns, r, order, x);
    assert (order + [x])[..|order|] == order;
  }

  /** After the visit of `x` every queued node still lies between the root
      and the arena's end and was queued by a visited parent. */
  lemma WalkStepParents(ns: seq<Node>, r: seq<Node>, root: nat, order: seq<nat>, seen: seq<nat>, x: nat)
    requires |ns| <= |r| && x < |r| && root <= x && NodeOk(r, x)
    requires forall j | 0 <= j < |seen| :: root <= seen[j] < |ns| && (seen[j] == root || ns[seen[j]].parent in order)
    requires forall i | 0 <= i < |ns| :: r[i].parent == ns[i].parent
    ensures var seen' := seen + r[x].children;
            forall j | 0 <= j < |seen'| ::
              root <= seen'[j] < |r| && (seen'[j] == root || r[seen'[j]].parent in order + [x])
  {
    var cs := r[x].children;
    var seen' := seen + cs;
    var o := order + [x];
    assert x in o;
    forall j | 0 <= j < |seen'|
      ensures root <= seen'[j] < |r| && (seen'[j] == root || r[seen'[j]].parent in o)
    {
      var c := seen'[j];
      if j < |seen| {
        assert c == seen[j];
        if c != root {
          var p := ns[c].parent;
          assert p in order && r[c].parent == p;
          var m :| 0 <= m < |order| && order[m] == p;
          assert o[m] == p;
        }
      } else {
        assert c == cs[j - |seen|];
      }
    }
  }

  lemma QueueGrows(seen: seq<nat>, root: nat, before: seq<nat>, after: seq<nat>, cs: seq<nat>)
    requires seen == [root] + before && after == before + cs
    ensures seen + cs == [root] + after
  {
  }

  lemma DistinctAppend(s: seq<nat>, t: seq<nat>)
    requires Distinct(s) && Distinct(t) && forall k | 0 <= k < |t| :: t[k] !in s
    ensures Distinct(s + t)
  {
    var u := s + t;
    forall i, j | 0 <= i < j < |u| ensures u[i] != u[j] {
      if j >= |s| && i < |s| {
        assert u[j] == t[j - |s|] && u[i] == s[i];
      } else if i >= |s| {
        assert u[j] == t[j - |s|] && u[i] == t[i - |s|];
      } else {
        assert u[j] == s[j] && u[i] == s[i];
      }
    }
  }

  /** The children of a visited node are in what the walk queued. */
  lemma {:induction false} ChildrenConcatHas(ns: seq<Node>, order: seq<nat>, i: nat, j: nat)
    requires i < |order| && order[i] < |ns| && j < |ns[order[i]].children|
    ensures ns[order[i]].children[j] in ChildrenConcat(ns, order)
    decreases |order|
  {
    var prefix := order[..|order| - 1];
    if i < |order| - 1 {
      assert prefix[i] == order[i];
      ChildrenConcatHas(ns, prefix, i, j);
    }
  }

  /** When the queue is empty, the walk has visited every child of every
      node it visited: it visited the whole subtree of the root. */
  lemma WalkCloses(ns: seq<Node>, root: nat, order: seq<nat>)
    requires WalkSeen(ns, root, order, order)
    ensures forall i, j | 0 <= i < |order| && 0 <= j < |ns[order[i]].children| :: ns[order[i]].children[j] in order
  {
    forall i, j | 0 <= i < |order| && 0 <= j < |ns[order[i]].children|
      ensures ns[order[i]].children[j] in order
    {
      ChildrenConcatHas(ns, order, i, j);
    }
  }

  // ---------------------------------------------------------------------
  // Properties
  // ---------------------------------------------------------------------

  /** Visiting a field twice inserts one qualifier only. */
  lemma PatchFieldRequiredIdempotent(ns: seq<Node>, x: nat)
    requires WellFormed(ns) && x < |ns|
    ensures var r := PatchFieldRequired(ns, x);
            WellFormed(r) && x < |r| && PatchFieldRequired(r, x) == r
  {
    PatchFieldRequiredSpec(ns, x);
  }

  /** Visiting a node twice appends one separator only. */
  lemma PatchFieldListSeparatorIdempotent(ns: seq<Node>, x: nat)
    requires WellFormed(ns) && x < |ns|
    ensures var r := PatchFieldListSeparator(ns, x);
            WellFormed(r) && x < |r| && PatchFieldListSeparator(r, x) == r
  {
    PatchFieldListSeparatorSpec(ns, x);
    var r := PatchFieldListSeparator(ns, x);
    if NeedsSeparator(ns[x].kind) {
      var t := SeparatorTerminal(r, x);
      assert r[t].token.(text := ",") == r[t].token;
      assert SetText(r, t, ",") == r;
    }
  }

  /** A concrete argument list `(1: i32 a, 2: i32 b)` followed by `)`: node
      0 is the function, 1 and 2 its fields, 3 and 4 their separators, 5 the
      closing parenthesis, 6 and 7 the separators' commas. */
  function TwoArguments(): (ns: seq<Node>)
    ensures WellFormed(ns) && |ns| == 8
  {
    var ns := [
      Node(Function, -1, [1, 2, 5], NoToken),
      Node(Field, 0, [3], NoToken),
      Node(Field, 0, [4], NoToken),
      Node(ListSeparator, 1, [6], NoToken),
      Node(ListSeparator, 2, [7], NoToken),
      Node(Terminal, 0, [], Token(OtherType, ")", 1, DefaultChannel, 5)),
      Node(Terminal, 3, [], Token(Comma, ",", 1, DefaultChannel, 2)),
      Node(Terminal, 4, [], Token(Comma, ",", 1, DefaultChannel, 4))];
    forall k | 0 <= k < |ns| ensures NodeOk(ns, k) {
      TwoArgumentsNodeOk(ns, k);
    }
    ns
  }

  lemma TwoArgumentsNodeOk(ns: seq<Node>, k: nat)
    requires |ns| == 8 && k < 8
    requires ns[0] == Node(Function, -1, [1, 2, 5], NoToken)
    requires ns[1] == Node(Field, 0, [3], NoToken) && ns[2] == Node(Field, 0, [4], NoToken)
    requires ns[3] == Node(ListSeparator, 1, [6], NoToken) && ns[4] == Node(ListSeparator, 2, [7], NoToken)
    requires forall j | 5 <= j < 8 :: ns[j].kind == Terminal && ns[j].children == []
    requires ns[5].parent == 0 && ns[6].parent == 3 && ns[7].parent == 4
    ensures NodeOk(ns, k)
  {
  }

  /** What the two removal rules look at in `TwoArguments`. */
  lemma TwoArgumentsFacts()
    ensures var ns := TwoArguments();
            Children(ns, 0) == [1, 2, 5] && Children(ns, 1) == [3] && Children(ns, 2) == [4]
            && ns[0].kind == Function && ns[1].kind == Field && ns[2].kind == Field
            && ns[5].kind == Terminal && ns[1].parent == 0 && ns[2].parent == 0
            && ns[3].kind == ListSeparator && ns[4].kind == ListSeparator
  {
  }

  /** As written, the first argument loses its separator and the last one
      keeps it, so the list renders as `(1: i32 a 2: i32 b,)`. */
  lemma RemoveLastAsWrittenDropsFirst()
    ensures PatchRemoveLastAsWritten(TwoArguments(), 1)[1].children == []
    ensures PatchRemoveLastAsWritten(TwoArguments(), 2)[2].children == [4]
  {
    var ns := TwoArguments();
    TwoArgumentsFacts();
    assert IsInlineNode(ns, 1) && IsInlineNode(ns, 2);
    assert EndsWithSeparator(ns, 1) && EndsWithSeparator(ns, 2);
    var b := Children(ns, 0);
    assert b[0] == 1 && b[1] == 2 && !NotSameClass(ns, 1, b[1]);
    assert IsLastAsWritten(ns, 1);
    assert !IsLastAsWritten(ns, 2) by {
      forall i | 0 <= i < |b| && b[i] == 2 ensures i == 1 && NotSameClass(ns, 2, b[2]) { }
    }
    assert DropLastChild(ns, 1)[1].children == [3][..0];
  }

  /** As intended, only the last argument loses its separator. */
  lemma RemoveLastDropsLast()
    ensures PatchRemoveLastListSeparator(TwoArguments(), 1)[1].children == [3]
    ensures PatchRemoveLastListSeparator(TwoArguments(), 2)[2].children == []
  {
    var ns := TwoArguments();
    TwoArgumentsFacts();
    assert IsInlineNode(ns, 1) && IsInlineNode(ns, 2);
    assert EndsWithSeparator(ns, 2);
    var b := Children(ns, 0);
    assert b[1] == 2 && b[2] == 5 && NotSameClass(ns, 2, b[2]);
    assert IsLast(ns, 2);
    assert !IsLast(ns, 1) by {
      forall i | 0 <= i < |b| && b[i] == 1 ensures i == 0 && !NotSameClass(ns, 1, b[1]) { }
    }
    assert DropLastChild(ns, 2)[2].children == [4][..0];
  }

  /** After the intended removal no inline node that is last still ends with
      a separator, unless it had two. */
  lemma RemoveLastLeavesNoTrailingSeparator(ns: seq<Node>, x: nat)
    requires WellFormed(ns) && x < |ns|
    requires IsInlineNode(ns, x) && IsLast(ns, x)
    requires forall j | 0 <= j < |Children(ns, x)| - 1 :: ns[Children(ns, x)[j]].kind != ListSeparator
    ensures var r := PatchRemoveLastListSeparator(ns, x);
            WellFormed(r) && x < |r| && !EndsWithSeparator(r, x)
  {
    PatchRemoveLastListSeparatorSpec(ns, x);
    var r := PatchRemoveLastListSeparator(ns, x);
    var cs := Children(ns, x);
    if EndsWithSeparator(ns, x) {
      var cs' := Children(r, x);
      if |cs'| > 0 {
        assert cs'[|cs'| - 1] == cs[|cs| - 2];
      }
    }
  }
}
