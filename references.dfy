/** The symbol reference index: every descendant of a root node that resolves
    to a symbol yields one reference entry keyed by that symbol (two for a
    generic specialisation), and the entries are grouped by symbol.

    The compiler's semantic model is abstracted as a value holding total
    functions; symbols and node identities are opaque numbers compared by
    equality. */
module SymbolReferences {
  import opened Wrappers
  import opened Sequences

  /** Identity of a resolved symbol (type, method, field, ...). */
  type Symbol = nat

  /** Identity of a syntax node; it also stands for the node's source location. */
  type NodeId = nat

  datatype SymbolKind = NamedType | Method | OtherSymbol

  /** The semantic-model oracle.
      symbolInfo: the symbol a node resolves to, if any;
      kind: which kind of symbol it is (named types and methods are disjoint);
      constructedFrom: the symbol a generic type or method is constructed from;
      declaredType: the type declared by a type-declaration node, if any. */
  datatype SemanticModel = SemanticModel(
    symbolInfo: NodeId -> Option<Symbol>,
    kind: Symbol -> SymbolKind,
    constructedFrom: Symbol -> Option<Symbol>,
    declaredType: NodeId -> Option<Symbol>)

  datatype SyntaxNode = SyntaxNode(id: NodeId, isTypeDeclaration: bool, children: seq<SyntaxNode>)

  /** A node in its tree: its strict ancestors, outermost first, parent last. */
  datatype Located = Located(node: SyntaxNode, ancestors: seq<SyntaxNode>)

  datatype ReferenceLocation = ReferenceLocation(location: NodeId, referencingType: Option<Symbol>)

  datatype SymbolDetails = SymbolDetails(symbol: Symbol, location: ReferenceLocation)

  /** One group of the index: a symbol and the locations referencing it. */
  datatype Grouping = Grouping(key: Symbol, elements: seq<ReferenceLocation>)

  // ---------------------------------------------------------------------------
  // Tree navigation.
  // ---------------------------------------------------------------------------

  function Parent(at: Located): (r: Option<Located>)
    ensures r.Some? <==> |at.ancestors| > 0
    ensures r.Some? ==> (r.value.node == at.ancestors[|at.ancestors| - 1] &&
                         at.ancestors == r.value.ancestors + [r.value.node])
  {
    if |at.ancestors| == 0 then None
    else Some(Located(at.ancestors[|at.ancestors| - 1], at.ancestors[..|at.ancestors| - 1]))
  }

  /** All strict descendants of root, in document (pre-)order; `above` is the
      ancestor chain of root itself.  Every node returned lies below root,
      and every child of root is returned (DescendantsExactly: every node
      below a child is too). */
  function Descendants(root: SyntaxNode, above: seq<SyntaxNode>): (r: seq<Located>)
    ensures forall l :: l in r ==> |above| < |l.ancestors| && l.ancestors[..|above| + 1] == above + [root]
    ensures forall i :: 0 <= i < |root.children| ==> Located(root.children[i], above + [root]) in r
    decreases root, 1
  {
    DescendantsOfEach(root.children, above + [root])
  }

  /** The subtrees of the siblings cs, each sibling before the nodes below it. */
  function DescendantsOfEach(cs: seq<SyntaxNode>, above: seq<SyntaxNode>): (r: seq<Located>)
    ensures forall l :: l in r ==> |above| <= |l.ancestors| && l.ancestors[..|above|] == above
    ensures forall i :: 0 <= i < |cs| ==> Located(cs[i], above) in r
    ensures forall i, l :: 0 <= i < |cs| && l in Descendants(cs[i], above) ==> l in r
    decreases cs, 0
  {
    if cs == [] then []
    else
      var init, last := cs[..|cs| - 1], cs[|cs| - 1];
      var front, below := DescendantsOfEach(init, above), Descendants(last, above);
      InThreeParts(front, Located(last, above), below);
      BelowOneChild(below, above, last);
      assert forall i :: 0 <= i < |init| ==> cs[i] == init[i];
      front + [Located(last, above)] + below
  }

  lemma InThreeParts<T>(a: seq<T>, x: T, b: seq<T>)
    ensures forall y :: y in a + [x] + b <==> y in a || y == x || y in b
  {
  }

  /** Nodes below the child `last` of the chain `above` also extend `above`. */
  lemma BelowOneChild(ls: seq<Located>, above: seq<SyntaxNode>, last: SyntaxNode)
    requires forall l :: l in ls ==> |above| < |l.ancestors| && l.ancestors[..|above| + 1] == above + [last]
    ensures forall l :: l in ls ==> |above| <= |l.ancestors| && l.ancestors[..|above|] == above
  {
    forall l | l in ls
      ensures l.ancestors[..|above|] == above
    {
      assert l.ancestors[..|above|] == l.ancestors[..|above| + 1][..|above|];
    }
  }

  /** Nothing else is returned: a node in the subtrees of the siblings is a
      sibling or lies below one. */
  lemma {:induction false} OnlySubtreesOfEach(cs: seq<SyntaxNode>, above: seq<SyntaxNode>, l: Located)
    requires l in DescendantsOfEach(cs, above)
    ensures exists i :: 0 <= i < |cs| && (l == Located(cs[i], above) || l in Descendants(cs[i], above))
  {
    var init, last := cs[..|cs| - 1], cs[|cs| - 1];
    if l in DescendantsOfEach(init, above) {
      OnlySubtreesOfEach(init, above, l);
      var i :| 0 <= i < |init| && (l == Located(init[i], above) || l in Descendants(init[i], above));
      assert cs[i] == init[i];
    } else {
      assert l == Located(cs[|cs| - 1], above) || l in Descendants(cs[|cs| - 1], above);
    }
  }

  /** The examined nodes are exactly the children of root and the nodes
      below them. */
  lemma DescendantsExactly(root: SyntaxNode, above: seq<SyntaxNode>, l: Located)
    ensures l in Descendants(root, above) <==>
            exists i :: 0 <= i < |root.children| &&
                        (l == Located(root.children[i], above + [root]) ||
                         l in Descendants(root.children[i], above + [root]))
  {
    if l in Descendants(root, above) {
      OnlySubtreesOfEach(root.children, above + [root], l);
    } else {
      assert Descendants(root, above) == DescendantsOfEach(root.children, above + [root]);
    }
  }

  /** The number of nodes in the tree under n, n included. */
  function Size(n: SyntaxNode): nat
    decreases n, 1
  {
    1 + SizeOfEach(n.children)
  }

  function SizeOfEach(cs: seq<SyntaxNode>): nat
    decreases cs, 0
  {
    if cs == [] then 0 else SizeOfEach(cs[..|cs| - 1]) + Size(cs[|cs| - 1])
  }

  /** Every node below root is examined once: there are exactly as many as
      the tree has nodes besides the root. */
  lemma {:induction false} DescendantsCount(root: SyntaxNode, above: seq<SyntaxNode>)
    ensures |Descendants(root, above)| == Size(root) - 1
    decreases root, 1
  {
    DescendantsOfEachCount(root.children, above + [root]);
  }

  lemma {:induction false} DescendantsOfEachCount(cs: seq<SyntaxNode>, above: seq<SyntaxNode>)
    ensures |DescendantsOfEach(cs, above)| == SizeOfEach(cs)
    decreases cs, 0
  {
    if cs != [] {
      var init, last := cs[..|cs| - 1], cs[|cs| - 1];
      DescendantsOfEachCount(init, above);
      DescendantsCount(last, above);
      assert DescendantsOfEach(cs, above) ==
             DescendantsOfEach(init, above) + [Located(last, above)] + Descendants(last, above);
    }
  }

  /** A node followed by the nodes below it, in document order. */
  function Subtree(n: SyntaxNode, above: seq<SyntaxNode>): seq<Located> {
    [Located(n, above)] + Descendants(n, above)
  }

  lemma DescendantsOfEachSnoc(cs: seq<SyntaxNode>, c: SyntaxNode, above: seq<SyntaxNode>)
    ensures DescendantsOfEach(cs + [c], above) == DescendantsOfEach(cs, above) + Subtree(c, above)
  {
    assert (cs + [c])[..|cs|] == cs;
    ConcatAssociates(DescendantsOfEach(cs, above), [Located(c, above)], Descendants(c, above));
  }

  /** The subtrees of siblings are examined in sibling order: those of a
      split list are the first part's followed by the second's. */
  lemma {:induction false} DescendantsOfEachConcat(a: seq<SyntaxNode>, b: seq<SyntaxNode>, above: seq<SyntaxNode>)
    ensures DescendantsOfEach(a + b, above) == DescendantsOfEach(a, above) + DescendantsOfEach(b, above)
    decreases |b|
  {
    if b == [] {
      assert a + b == a;
    } else {
      var init, last := b[..|b| - 1], b[|b| - 1];
      assert b == init + [last];
      assert a + b == (a + init) + [last];
      DescendantsOfEachConcat(a, init, above);
      DescendantsOfEachSnoc(a + init, last, above);
      DescendantsOfEachSnoc(init, last, above);
      ConcatAssociates(DescendantsOfEach(a, above), DescendantsOfEach(init, above), Subtree(last, above));
    }
  }

  /** The root itself is never among the nodes examined. */
  lemma RootNotExamined(root: SyntaxNode, above: seq<SyntaxNode>)
    ensures Located(root, above) !in Descendants(root, above)
  {
    forall l | l in Descendants(root, above)
      ensures l != Located(root, above)
    {
      assert |above| < |l.ancestors|;
    }
  }

  /** Position i of `ancestors` holds the nearest type declaration: it is one,
      and nothing after it (closer to the node) is. */
  predicate NearestTypeDeclarationAt(ancestors: seq<SyntaxNode>, i: int) {
    0 <= i < |ancestors| && ancestors[i].isTypeDeclaration &&
    forall j :: i < j < |ancestors| ==> !ancestors[j].isTypeDeclaration
  }

  /** The type declared by the nearest strict ancestor that is a type
      declaration, or none when there is no such ancestor; the node itself is
      never tested. */
  function ResolveContainingType(model: SemanticModel, node: Option<Located>): (r: Option<Symbol>)
    ensures node.None? ==> r.None?
    ensures node.Some? && (forall j :: 0 <= j < |node.value.ancestors| ==> !node.value.ancestors[j].isTypeDeclaration)
            ==> r.None?
    ensures node.Some? ==> forall i :: NearestTypeDeclarationAt(node.value.ancestors, i)
                                       ==> r == model.declaredType(node.value.ancestors[i].id)
    decreases if node.Some? then |node.value.ancestors| + 1 else 0
  {
    if node.None? then None
    else
      var parent := Parent(node.value);
      if parent.Some? && parent.value.node.isTypeDeclaration then
        model.declaredType(parent.value.node.id)
      else
        ResolveContainingType(model, parent)
  }

  /** The containing type depends only on the ancestors, never on the node
      itself: a type declaration asking for its own containing type gets the
      enclosing one. */
  lemma ContainingTypeIgnoresNode(model: SemanticModel, a: SyntaxNode, b: SyntaxNode, ancestors: seq<SyntaxNode>)
    ensures ResolveContainingType(model, Some(Located(a, ancestors))) ==
            ResolveContainingType(model, Some(Located(b, ancestors)))
  {
  }

  // ---------------------------------------------------------------------------
  // Entries of one resolved node.
  // ---------------------------------------------------------------------------

  /** A named type or a method constructed from a different symbol. */
  predicate IsSpecialisation(model: SemanticModel, s: Symbol) {
    (model.kind(s) == NamedType || model.kind(s) == Method) &&
    model.constructedFrom(s).Some? && model.constructedFrom(s).value != s
  }

  function LocationOf(model: SemanticModel, at: Located): ReferenceLocation {
    ReferenceLocation(at.node.id, ResolveContainingType(model, Some(at)))
  }

  /** The entries one resolved node yields: one keyed by its symbol; a second
      one for a specialisation, keyed by the generic definition for a named
      type but by the method itself for a method. */
  function GetSymbolDetails(model: SemanticModel, symbol: Symbol, at: Located): (r: seq<SymbolDetails>)
    ensures 1 <= |r| <= 2
    ensures r[0] == SymbolDetails(symbol, LocationOf(model, at))
    ensures |r| == 2 <==> IsSpecialisation(model, symbol)
    ensures |r| == 2 && model.kind(symbol) == NamedType ==>
              r[1] == SymbolDetails(model.constructedFrom(symbol).value, LocationOf(model, at))
    ensures |r| == 2 && model.kind(symbol) == Method ==> r[1] == r[0]
  {
    var location := LocationOf(model, at);
    var first := [SymbolDetails(symbol, location)];
    var fromType :=
      if model.kind(symbol) == NamedType && model.constructedFrom(symbol).Some?
         && model.constructedFrom(symbol).value != symbol
      then [SymbolDetails(model.constructedFrom(symbol).value, location)] else [];
    var fromMethod :=
      if model.kind(symbol) == Method && model.constructedFrom(symbol).Some?
         && model.constructedFrom(symbol).value != symbol
      then [SymbolDetails(symbol, LocationOf(model, at))] else [];
    first + fromType + fromMethod
  }

  // ---------------------------------------------------------------------------
  // The pipeline: resolve, drop the unresolved, expand, group.
  // ---------------------------------------------------------------------------

  /** The descendants that resolve to a symbol, paired with that symbol, in
      order: each resolved descendant is kept as often as it occurs, the
      others are dropped. */
  function ResolvedNodes(model: SemanticModel, ds: seq<Located>): (r: seq<(Symbol, Located)>)
    ensures forall s, l :: (s, l) in r <==> l in ds && model.symbolInfo(l.node.id) == Some(s)
    ensures forall s, l :: multiset(r)[(s, l)] ==
              if model.symbolInfo(l.node.id) == Some(s) then multiset(ds)[l] else 0
    ensures |r| <= |ds|
  {
    if ds == [] then []
    else
      var last := ds[|ds| - 1];
      var prefix := ResolvedNodes(model, ds[..|ds| - 1]);
      MultisetOfLast(ds);
      match model.symbolInfo(last.node.id)
      case None => prefix
      case Some(s) =>
        MultisetOfLast(prefix + [(s, last)]);
        assert (prefix + [(s, last)])[..|prefix|] == prefix;
        prefix + [(s, last)]
  }

  /** The nodes resolved from a list that grows by one node. */
  function ResolvedOne(model: SemanticModel, l: Located): seq<(Symbol, Located)> {
    match model.symbolInfo(l.node.id)
    case None => []
    case Some(s) => [(s, l)]
  }

  lemma ResolvedNodesSnoc(model: SemanticModel, ds: seq<Located>, l: Located)
    ensures ResolvedNodes(model, ds + [l]) == ResolvedNodes(model, ds) + ResolvedOne(model, l)
  {
    assert (ds + [l])[..|ds|] == ds;
  }

  /** Resolving keeps the order of the descendants. */
  lemma {:induction false} ResolvedNodesConcat(model: SemanticModel, a: seq<Located>, b: seq<Located>)
    ensures ResolvedNodes(model, a + b) == ResolvedNodes(model, a) + ResolvedNodes(model, b)
    decreases |b|
  {
    if b == [] {
      assert a + b == a;
    } else {
      var init, last := b[..|b| - 1], b[|b| - 1];
      assert b == init + [last];
      assert a + b == (a + init) + [last];
      ResolvedNodesConcat(model, a, init);
      ResolvedNodesSnoc(model, a + init, last);
      ResolvedNodesSnoc(model, init, last);
      ConcatAssociates(ResolvedNodes(model, a), ResolvedNodes(model, init), ResolvedOne(model, last));
    }
  }

  /** All entries of the resolved nodes, node by node: a single node yields
      exactly its own entries (SelectDetailsOfOne), and a split list the
      entries of each part in turn (SelectDetailsConcat). */
  function SelectDetails(model: SemanticModel, resolved: seq<(Symbol, Located)>): (r: seq<SymbolDetails>)
    ensures |resolved| <= |r| <= 2 * |resolved|
    ensures forall e :: e in r <==> exists p :: p in resolved && e in GetSymbolDetails(model, p.0, p.1)
    ensures forall p :: p in resolved ==> multiset(GetSymbolDetails(model, p.0, p.1)) <= multiset(r)
  {
    if resolved == [] then []
    else
      var last := resolved[|resolved| - 1];
      SelectDetails(model, resolved[..|resolved| - 1]) + GetSymbolDetails(model, last.0, last.1)
  }

  lemma SelectDetailsSnoc(model: SemanticModel, rs: seq<(Symbol, Located)>, p: (Symbol, Located))
    ensures SelectDetails(model, rs + [p]) == SelectDetails(model, rs) + GetSymbolDetails(model, p.0, p.1)
  {
    assert (rs + [p])[..|rs|] == rs;
  }

  /** A single resolved node is flattened to exactly its own entries. */
  lemma SelectDetailsOfOne(model: SemanticModel, p: (Symbol, Located))
    ensures SelectDetails(model, [p]) == GetSymbolDetails(model, p.0, p.1)
  {
    SelectDetailsSnoc(model, [], p);
    assert [] + [p] == [p];
  }

  /** Flattening keeps the order of the resolved nodes. */
  lemma {:induction false} SelectDetailsConcat(model: SemanticModel, a: seq<(Symbol, Located)>, b: seq<(Symbol, Located)>)
    ensures SelectDetails(model, a + b) == SelectDetails(model, a) + SelectDetails(model, b)
    decreases |b|
  {
    if b == [] {
      assert a + b == a;
    } else {
      var init, last := b[..|b| - 1], b[|b| - 1];
      assert b == init + [last];
      assert a + b == (a + init) + [last];
      SelectDetailsConcat(model, a, init);
      SelectDetailsSnoc(model, a + init, last);
      SelectDetailsSnoc(model, init, last);
      ConcatAssociates(SelectDetails(model, a), SelectDetails(model, init), GetSymbolDetails(model, last.0, last.1));
    }
  }

  /** The symbols of the entries, each once, in order of first appearance. */
  function Keys(es: seq<SymbolDetails>): (r: seq<Symbol>)
    ensures forall i, j :: 0 <= i < j < |r| ==> r[i] != r[j]
    ensures forall k :: k in r <==> exists e :: e in es && e.symbol == k
  {
    if es == [] then []
    else
      var prefix := Keys(es[..|es| - 1]);
      var k := es[|es| - 1].symbol;
      if k in prefix then prefix else prefix + [k]
  }

  /** The locations of the entries keyed by k, in order. */
  function ElementsOf(es: seq<SymbolDetails>, k: Symbol): (r: seq<ReferenceLocation>)
    ensures forall loc :: multiset(r)[loc] == multiset(es)[SymbolDetails(k, loc)]
    ensures (forall e :: e in es ==> e.symbol != k) ==> r == []
  {
    if es == [] then []
    else
      var last := es[|es| - 1];
      assert es == es[..|es| - 1] + [last];
      ElementsOf(es[..|es| - 1], k) + (if last.symbol == k then [last.location] else [])
  }

  /** Group the entries by symbol, groups in order of first appearance. */
  function GroupBy(es: seq<SymbolDetails>): seq<Grouping> {
    var keys := Keys(es);
    seq(|keys|, i requires 0 <= i < |keys| => Grouping(keys[i], ElementsOf(es, keys[i])))
  }

  function Entries(model: SemanticModel, root: SyntaxNode, above: seq<SyntaxNode>): seq<SymbolDetails> {
    SelectDetails(model, ResolvedNodes(model, Descendants(root, above)))
  }

  /** The reference index of the subtree under root: one non-empty group per
      symbol, holding all the entries between them. */
  function Resolve(model: SemanticModel, root: SyntaxNode, above: seq<SyntaxNode>): (r: seq<Grouping>)
    ensures forall i, j :: 0 <= i < j < |r| ==> r[i].key != r[j].key
    ensures forall g :: g in r ==> |g.elements| > 0
    ensures TotalSize(r) == |Entries(model, root, above)|
  {
    var es := Entries(model, root, above);
    GroupKeysDistinct(es);
    GroupsNonEmpty(es);
    GroupSizesSum(es);
    GroupBy(es)
  }

  // ---------------------------------------------------------------------------
  // Properties of the grouping.
  // ---------------------------------------------------------------------------

  /** The number of locations held by the groups. */
  function TotalSize(gs: seq<Grouping>): nat {
    if gs == [] then 0 else TotalSize(gs[..|gs| - 1]) + |gs[|gs| - 1].elements|
  }

  /** The number of entries under the given keys. */
  function SizeUnder(ks: seq<Symbol>, es: seq<SymbolDetails>): nat {
    if ks == [] then 0 else SizeUnder(ks[..|ks| - 1], es) + |ElementsOf(es, ks[|ks| - 1])|
  }

  lemma ElementsOfAppend(es: seq<SymbolDetails>, e: SymbolDetails, k: Symbol)
    ensures |ElementsOf(es + [e], k)| == |ElementsOf(es, k)| + (if e.symbol == k then 1 else 0)
  {
    assert (es + [e])[..|es|] == es;
  }

  lemma {:induction false} SizeUnderStep(ks: seq<Symbol>, es: seq<SymbolDetails>, e: SymbolDetails)
    ensures SizeUnder(ks, es + [e]) == SizeUnder(ks, es) + multiset(ks)[e.symbol]
  {
    if ks != [] {
      var init, k := ks[..|ks| - 1], ks[|ks| - 1];
      SizeUnderStep(init, es, e);
      ElementsOfAppend(es, e, k);
      MultisetOfLast(ks);
    }
  }

  lemma {:induction false} DistinctOccursOnce(ks: seq<Symbol>, k: Symbol)
    requires forall i, j :: 0 <= i < j < |ks| ==> ks[i] != ks[j]
    ensures multiset(ks)[k] == if k in ks then 1 else 0
  {
    if ks != [] {
      var init := ks[..|ks| - 1];
      DistinctOccursOnce(init, k);
      assert ks == init + [ks[|ks| - 1]];
    }
  }

  lemma {:induction false} KeysCoverEntries(es: seq<SymbolDetails>)
    ensures SizeUnder(Keys(es), es) == |es|
  {
    if es != [] {
      var init, e := es[..|es| - 1], es[|es| - 1];
      assert es == init + [e];
      KeysCoverEntries(init);
      var ks := Keys(init);
      SizeUnderStep(ks, init, e);
      DistinctOccursOnce(ks, e.symbol);
      if e.symbol !in ks {
        var ks' := ks + [e.symbol];
        assert ks'[..|ks|] == ks;
        SizeUnderStep(ks', init, e);
        assert ElementsOf(init, e.symbol) == [];
        assert |ElementsOf(es, e.symbol)| == 1;
      }
    }
  }

  lemma {:induction false} TotalSizeOfGroups(gs: seq<Grouping>, ks: seq<Symbol>, es: seq<SymbolDetails>)
    requires |gs| == |ks|
    requires forall i :: 0 <= i < |gs| ==> gs[i] == Grouping(ks[i], ElementsOf(es, ks[i]))
    ensures TotalSize(gs) == SizeUnder(ks, es)
  {
    if gs != [] {
      TotalSizeOfGroups(gs[..|gs| - 1], ks[..|ks| - 1], es);
    }
  }

  /** Group keys are distinct. */
  lemma GroupKeysDistinct(es: seq<SymbolDetails>)
    ensures forall i, j :: 0 <= i < j < |GroupBy(es)| ==> GroupBy(es)[i].key != GroupBy(es)[j].key
  {
    var gs, ks := GroupBy(es), Keys(es);
    forall i, j | 0 <= i < j < |gs|
      ensures gs[i].key != gs[j].key
    {
      assert gs[i].key == ks[i] && gs[j].key == ks[j];
    }
  }

  /** Every group's key is the symbol of some entry. */
  lemma GroupKeysAreEntrySymbols(es: seq<SymbolDetails>)
    ensures forall g :: g in GroupBy(es) ==> exists e :: e in es && e.symbol == g.key
  {
    var gs, ks := GroupBy(es), Keys(es);
    forall g | g in gs
      ensures exists e :: e in es && e.symbol == g.key
    {
      var i :| 0 <= i < |gs| && gs[i] == g;
      assert g.key == ks[i] && ks[i] in ks;
    }
  }

  /** Every group is non-empty. */
  lemma GroupsNonEmpty(es: seq<SymbolDetails>)
    ensures forall g :: g in GroupBy(es) ==> |g.elements| > 0
  {
    var gs, ks := GroupBy(es), Keys(es);
    forall g | g in gs
      ensures |g.elements| > 0
    {
      var i :| 0 <= i < |gs| && gs[i] == g;
      assert g.key in ks;
      var e :| e in es && e.symbol == g.key;
      assert multiset(es)[SymbolDetails(g.key, e.location)] > 0;
      assert multiset(g.elements)[e.location] > 0;
    }
  }

  /** Every entry lies in the group of its own symbol. */
  lemma EntryInOwnGroup(es: seq<SymbolDetails>, e: SymbolDetails)
    requires e in es
    ensures exists g :: g in GroupBy(es) && g.key == e.symbol && e.location in g.elements
  {
    var gs, ks := GroupBy(es), Keys(es);
    assert e.symbol in ks;
    var i :| 0 <= i < |ks| && ks[i] == e.symbol;
    assert e == SymbolDetails(e.symbol, e.location);
    assert multiset(es)[SymbolDetails(e.symbol, e.location)] > 0;
    assert multiset(gs[i].elements)[e.location] > 0;
    assert gs[i] in gs;
  }

  /** The group sizes add up to the number of entries. */
  lemma GroupSizesSum(es: seq<SymbolDetails>)
    ensures TotalSize(GroupBy(es)) == |es|
  {
    KeysCoverEntries(es);
    TotalSizeOfGroups(GroupBy(es), Keys(es), es);
  }

  /** A location appears in the group of k exactly as often as an entry
      (k, location) was emitted. */
  lemma GroupMultiplicity(es: seq<SymbolDetails>, g: Grouping, loc: ReferenceLocation)
    requires g in GroupBy(es)
    ensures multiset(g.elements)[loc] == multiset(es)[SymbolDetails(g.key, loc)]
  {
  }

  // ---------------------------------------------------------------------------
  // Properties of the index.
  // ---------------------------------------------------------------------------

  /** Each resolved descendant yields one or two entries, unresolved ones none. */
  lemma EntryCountBounds(model: SemanticModel, root: SyntaxNode, above: seq<SyntaxNode>)
    ensures var resolved := ResolvedNodes(model, Descendants(root, above));
            |resolved| <= |Entries(model, root, above)| <= 2 * |resolved|
  {
  }

  /** Every entry comes from a descendant that resolves to a symbol. */
  lemma EntryFromResolvedNode(model: SemanticModel, root: SyntaxNode, above: seq<SyntaxNode>, e: SymbolDetails)
    requires e in Entries(model, root, above)
    ensures exists l, s :: l in Descendants(root, above) && model.symbolInfo(l.node.id) == Some(s)
                           && e in GetSymbolDetails(model, s, l)
  {
    var resolved := ResolvedNodes(model, Descendants(root, above));
    var p :| p in resolved && e in GetSymbolDetails(model, p.0, p.1);
    assert (p.0, p.1) in resolved;
  }

  /** Every entry of a resolved descendant is in the index's entries. */
  lemma ResolvedNodeEntries(model: SemanticModel, root: SyntaxNode, above: seq<SyntaxNode>, l: Located, s: Symbol)
    requires l in Descendants(root, above)
    requires model.symbolInfo(l.node.id) == Some(s)
    ensures multiset(GetSymbolDetails(model, s, l)) <= multiset(Entries(model, root, above))
    ensures forall e :: e in GetSymbolDetails(model, s, l) ==> e in Entries(model, root, above)
  {
    var resolved := ResolvedNodes(model, Descendants(root, above));
    assert (s, l) in resolved;
  }

  /** Every resolved descendant is indexed under its own symbol, with its
      location and containing type. */
  lemma ReferenceIndexedUnderSymbol(model: SemanticModel, root: SyntaxNode, above: seq<SyntaxNode>, l: Located, s: Symbol)
    requires l in Descendants(root, above)
    requires model.symbolInfo(l.node.id) == Some(s)
    ensures exists g :: g in Resolve(model, root, above) && g.key == s && LocationOf(model, l) in g.elements
  {
    var es := Entries(model, root, above);
    ResolvedNodeEntries(model, root, above, l, s);
    var d := GetSymbolDetails(model, s, l)[0];
    assert d in es;
    EntryInOwnGroup(es, d);
  }

  /** A specialised named type is also indexed under the generic definition
      it is constructed from, with the same location and containing type. */
  lemma TypeSpecialisationIndexedUnderDefinition(model: SemanticModel, root: SyntaxNode, above: seq<SyntaxNode>, l: Located, s: Symbol)
    requires l in Descendants(root, above)
    requires model.symbolInfo(l.node.id) == Some(s)
    requires model.kind(s) == NamedType && IsSpecialisation(model, s)
    ensures exists g :: g in Resolve(model, root, above) && g.key == model.constructedFrom(s).value
                        && LocationOf(model, l) in g.elements
  {
    var es := Entries(model, root, above);
    ResolvedNodeEntries(model, root, above, l, s);
    var d := GetSymbolDetails(model, s, l)[1];
    assert d in es;
    EntryInOwnGroup(es, d);
  }

  /** A specialised method is indexed under itself twice for the same node,
      never under the method it is constructed from. */
  lemma MethodSpecialisationIndexedTwice(model: SemanticModel, root: SyntaxNode, above: seq<SyntaxNode>, l: Located, s: Symbol)
    requires l in Descendants(root, above)
    requires model.symbolInfo(l.node.id) == Some(s)
    requires model.kind(s) == Method && IsSpecialisation(model, s)
    ensures GetSymbolDetails(model, s, l) == [SymbolDetails(s, LocationOf(model, l))] + [SymbolDetails(s, LocationOf(model, l))]
    ensures exists g :: g in Resolve(model, root, above) && g.key == s
                        && multiset(g.elements)[LocationOf(model, l)] >= 2
  {
    var es := Entries(model, root, above);
    var details := GetSymbolDetails(model, s, l);
    var d := SymbolDetails(s, LocationOf(model, l));
    assert details == [d] + [d];
    ResolvedNodeEntries(model, root, above, l, s);
    assert multiset(details)[d] == 2;
    ReferenceIndexedUnderSymbol(model, root, above, l, s);
    var g :| g in Resolve(model, root, above) && g.key == s && LocationOf(model, l) in g.elements;
    GroupMultiplicity(es, g, LocationOf(model, l));
  }
}
