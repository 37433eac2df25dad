/** Cyclomatic complexity of a syntax subtree.

    The analyzer is a syntax walker with one mutable counter: it starts at 1
    and every visit of a decision point bumps it.  The walk is modelled by the
    class InnerComplexityAnalyzer; the number of bumps a walk performs is given
    by the specification functions Visits / Accepted / DefaultVisits, and the
    lemmas below relate that number to a plain count of decision points. */
module CyclomaticComplexity {
  import opened Wrappers

  /** Syntax kinds the analyzer distinguishes; every other kind is OtherKind.
      GotoStatement stands for all three goto forms (goto, goto case,
      goto default), which share one syntax class and one visit override. */
  datatype Kind =
    | CaseSwitchLabel | CoalesceExpression | ConditionalExpression
    | LogicalAndExpression | LogicalOrExpression | LogicalNotExpression
    | WhileStatement | ForStatement | ForEachStatement | DefaultExpression
    | ContinueStatement | GotoStatement | IfStatement | CatchClause
    | OtherKind(name: string)

  datatype LambdaForm = ParenthesizedLambda | SimpleLambda

  /** A syntax node.  Call arguments and lambdas are spelled out because the
      walker looks inside them: an argument carries its optional name colon
      and its expression, a lambda its parameters and its body (in that
      order they are also the node's children). */
  datatype Node =
    | Syntax(kind: Kind, children: seq<Node>)
    | Argument(nameColon: Option<Node>, expression: Node)
    | Lambda(form: LambdaForm, parameters: seq<Node>, body: Node)

  /** The contributor kinds: each visited node of one of these kinds adds 1. */
  const Contributors: set<Kind> :=
    {CaseSwitchLabel, CoalesceExpression, ConditionalExpression,
     LogicalAndExpression, LogicalOrExpression, LogicalNotExpression}

  /** The kinds whose visit override adds 1 after walking the node. */
  const Branches: set<Kind> :=
    {WhileStatement, ForStatement, ForEachStatement, DefaultExpression,
     ContinueStatement, GotoStatement, IfStatement, CatchClause}

  predicate IsContributor(n: Node) {
    n.Syntax? && n.kind in Contributors
  }

  predicate IsBranch(n: Node) {
    n.Syntax? && n.kind in Branches
  }

  // ---------------------------------------------------------------------------
  // Specification of the walk: the number of counter increments.
  // ---------------------------------------------------------------------------

  /** Increments performed by Visit(n): the kind-specific visit, then 1 more
      when n is a contributor. */
  function Visits(n: Node): nat
    decreases n, 2
  {
    Accepted(n) + (if IsContributor(n) then 1 else 0)
  }

  /** Increments performed by the kind-specific visit of n. */
  function Accepted(n: Node): nat
    decreases n, 1
  {
    match n
    case Syntax(_, _) => DefaultVisits(n) + (if IsBranch(n) then 1 else 0)
    case Argument(_, e) => (if e.Lambda? then Visits(e.body) else 0) + DefaultVisits(n)
    case Lambda(_, _, _) => DefaultVisits(n)
  }

  /** Increments performed by the default descent into the children of n. */
  function DefaultVisits(n: Node): nat
    decreases n, 0
  {
    match n
    case Syntax(_, cs) => VisitsEach(cs)
    case Argument(nc, e) => (if nc.Some? then Visits(nc.value) else 0) + Visits(e)
    case Lambda(_, ps, b) => VisitsEach(ps) + Visits(b)
  }

  function VisitsEach(cs: seq<Node>): nat
    decreases cs
  {
    if cs == [] then 0 else VisitsEach(cs[..|cs| - 1]) + Visits(cs[|cs| - 1])
  }

  /** The score of a (possibly absent) node: one baseline path plus every
      increment of the walk. */
  function Complexity(node: Option<Node>): nat {
    1 + (if node.Some? then Visits(node.value) else 0)
  }

  // ---------------------------------------------------------------------------
  // The analyzer.
  // ---------------------------------------------------------------------------

  class InnerComplexityAnalyzer {
    var counter: int

    constructor ()
      ensures counter == 1
    {
      counter := 1;
    }

    /** Walks the node when there is one and returns the counter. */
    method Calculate(syntax: Option<Node>) returns (result: int)
      modifies this
      ensures counter == old(counter) + (if syntax.Some? then Visits(syntax.value) else 0)
      ensures result == counter
    {
      if syntax.Some? {
        Visit(syntax.value);
      }
      result := counter;
    }

    /** The kind-specific visit first, then 1 for a contributor. */
    method Visit(node: Node)
      modifies this
      ensures counter == old(counter) + Visits(node)
      decreases node, 3
    {
      Accept(node);
      if IsContributor(node) {
        counter := counter + 1;
      }
    }

    /** Dispatch on the node to its visit override, or to the default descent. */
    method Accept(node: Node)
      modifies this
      ensures counter == old(counter) + Accepted(node)
      decreases node, 2
    {
      match node
      case Syntax(_, _) =>
        if IsBranch(node) {
          VisitBranch(node);
        } else {
          DefaultVisit(node);
        }
      case Argument(_, _) =>
        VisitArgument(node);
      case Lambda(_, _, _) =>
        DefaultVisit(node);
    }

    /** The eight overrides for while, for, foreach, default(T), continue,
        goto, if and catch: walk the node, then add 1. */
    method VisitBranch(node: Node)
      requires IsBranch(node)
      modifies this
      ensures counter == old(counter) + DefaultVisits(node) + 1
      decreases node, 1
    {
      DefaultVisit(node);
      counter := counter + 1;
    }

    /** A lambda passed directly as an argument has its body walked here, and
        then once more by the default descent through the lambda. */
    method VisitArgument(node: Node)
      requires node.Argument?
      modifies this
      ensures counter == old(counter) + Accepted(node)
      decreases node, 1
    {
      match node.expression {
        case Lambda(_, _, body) =>
          Visit(body);
        case _ =>
      }
      DefaultVisit(node);
    }

    /** The default descent: every child node, in order. */
    method DefaultVisit(node: Node)
      modifies this
      ensures counter == old(counter) + DefaultVisits(node)
      decreases node, 0
    {
      match node
      case Syntax(_, cs) =>
        VisitEach(cs);
      case Argument(nc, e) =>
        if nc.Some? {
          Visit(nc.value);
        }
        Visit(e);
      case Lambda(_, ps, b) =>
        VisitEach(ps);
        Visit(b);
    }

    method VisitEach(cs: seq<Node>)
      modifies this
      ensures counter == old(counter) + VisitsEach(cs)
      decreases cs
    {
      var i := 0;
      while i < |cs|
        invariant 0 <= i <= |cs|
        invariant counter == old(counter) + VisitsEach(cs[..i])
      {
        Visit(cs[i]);
        assert cs[..i + 1][..i] == cs[..i];
        i := i + 1;
      }
      assert cs[..|cs|] == cs;
    }
  }

  /** The entry point: a fresh analyzer per call, so every walk starts from 1. */
  method Calculate(node: Option<Node>) returns (result: int)
    ensures result == Complexity(node)
    ensures result >= 1
  {
    var analyzer := new InnerComplexityAnalyzer();
    result := analyzer.Calculate(node);
  }

  // ---------------------------------------------------------------------------
  // Reference definition: decision points counted once each.
  // ---------------------------------------------------------------------------

  /** 1 for a contributor, 1 for a node with a counting override. */
  function Weight(n: Node): nat {
    (if IsContributor(n) then 1 else 0) + (if IsBranch(n) then 1 else 0)
  }

  /** The number of decision points in the tree, each node counted once. */
  function Counted(n: Node): nat
    decreases n, 0
  {
    Weight(n) +
    match n
    case Syntax(_, cs) => CountedEach(cs)
    case Argument(nc, e) => (if nc.Some? then Counted(nc.value) else 0) + Counted(e)
    case Lambda(_, ps, b) => CountedEach(ps) + Counted(b)
  }

  function CountedEach(cs: seq<Node>): nat
    decreases cs
  {
    if cs == [] then 0 else CountedEach(cs[..|cs| - 1]) + Counted(cs[|cs| - 1])
  }

  /** The extra walks: for every argument whose expression is a lambda, the
      increments of one more walk of that lambda's body. */
  function Extra(n: Node): nat
    decreases n, 0
  {
    match n
    case Syntax(_, cs) => ExtraEach(cs)
    case Argument(nc, e) =>
      (if e.Lambda? then Visits(e.body) else 0) +
      (if nc.Some? then Extra(nc.value) else 0) + Extra(e)
    case Lambda(_, ps, b) => ExtraEach(ps) + Extra(b)
  }

  function ExtraEach(cs: seq<Node>): nat
    decreases cs
  {
    if cs == [] then 0 else ExtraEach(cs[..|cs| - 1]) + Extra(cs[|cs| - 1])
  }

  // ---------------------------------------------------------------------------
  // Properties of the walk.
  // ---------------------------------------------------------------------------

  /** The walk counts every decision point once, plus a second walk of the
      body of every lambda passed directly as an argument. */
  lemma {:induction false} VisitsDecompose(n: Node)
    ensures Visits(n) == Counted(n) + Extra(n)
    decreases n, 0
  {
    match n
    case Syntax(_, cs) =>
      VisitsDecomposeEach(cs);
      assert Accepted(n) == VisitsEach(cs) + (if IsBranch(n) then 1 else 0);
    case Argument(nc, e) =>
      if nc.Some? {
        VisitsDecompose(nc.value);
      }
      VisitsDecompose(e);
      assert Visits(n) == Accepted(n) == (if e.Lambda? then Visits(e.body) else 0) + DefaultVisits(n);
    case Lambda(_, ps, b) =>
      VisitsDecomposeEach(ps);
      VisitsDecompose(b);
      assert Visits(n) == DefaultVisits(n);
  }

  lemma {:induction false} VisitsDecomposeEach(cs: seq<Node>)
    ensures VisitsEach(cs) == CountedEach(cs) + ExtraEach(cs)
    decreases cs
  {
    if cs != [] {
      VisitsDecomposeEach(cs[..|cs| - 1]);
      VisitsDecompose(cs[|cs| - 1]);
    }
  }

  /** A tree without any decision point scores 1, inline lambdas or not. */
  lemma {:induction false} NeutralTreeScoresOne(n: Node)
    requires Counted(n) == 0
    ensures Visits(n) == 0
    ensures Complexity(Some(n)) == 1
    decreases n, 0
  {
    match n
    case Syntax(_, cs) =>
      NeutralEachScoresNothing(cs);
      SyntaxVisits(n.kind, cs);
    case Argument(nc, e) =>
      if nc.Some? {
        NeutralTreeScoresOne(nc.value);
      }
      NeutralTreeScoresOne(e);
      if e.Lambda? {
        NeutralTreeScoresOne(e.body);
      }
      assert Visits(n) == Accepted(n) == (if e.Lambda? then Visits(e.body) else 0) + DefaultVisits(n);
    case Lambda(_, ps, b) =>
      NeutralEachScoresNothing(ps);
      NeutralTreeScoresOne(b);
      assert DefaultVisits(n) == VisitsEach(ps) + Visits(b);
      assert Visits(n) == Accepted(n) == DefaultVisits(n);
  }

  lemma {:induction false} NeutralEachScoresNothing(cs: seq<Node>)
    requires CountedEach(cs) == 0
    ensures VisitsEach(cs) == 0
    decreases cs
  {
    if cs != [] {
      NeutralEachScoresNothing(cs[..|cs| - 1]);
      NeutralTreeScoresOne(cs[|cs| - 1]);
    }
  }

  /** Each decision point adds exactly 1 when walked: a contributor or a
      node with a counting override scores its children's walk plus 1. */
  lemma DecisionPointAddsOne(k: Kind, cs: seq<Node>)
    requires k in Contributors || k in Branches
    ensures Visits(Syntax(k, cs)) == VisitsEach(cs) + 1
  {
    var n := Syntax(k, cs);
    assert Accepted(n) == VisitsEach(cs) + (if IsBranch(n) then 1 else 0);
  }

  /** A lambda passed directly as an argument has its body counted twice. */
  lemma InlineLambdaBodyCountedTwice(nc: Option<Node>, form: LambdaForm, ps: seq<Node>, b: Node)
    ensures Visits(Argument(nc, Lambda(form, ps, b))) ==
            (if nc.Some? then Visits(nc.value) else 0) + VisitsEach(ps) + 2 * Visits(b)
  {
    var lambda := Lambda(form, ps, b);
    var n := Argument(nc, lambda);
    assert Visits(lambda) == DefaultVisits(lambda) == VisitsEach(ps) + Visits(b);
    assert Visits(n) == Accepted(n) == Visits(b) + DefaultVisits(n);
  }

  /** Any other argument expression is walked once. */
  lemma OtherArgumentWalkedOnce(nc: Option<Node>, e: Node)
    requires !e.Lambda?
    ensures Visits(Argument(nc, e)) == (if nc.Some? then Visits(nc.value) else 0) + Visits(e)
  {
    var n := Argument(nc, e);
    assert Visits(n) == Accepted(n) == DefaultVisits(n);
  }

  /** Closed form of the walk: every decision point weighted by 2 to the
      power of the number of inline-lambda bodies it sits in, times m. */
  function Multiplied(n: Node, m: nat): nat
    decreases n, 0
  {
    m * Weight(n) +
    match n
    case Syntax(_, cs) => MultipliedEach(cs, m)
    case Argument(nc, e) =>
      (if nc.Some? then Multiplied(nc.value, m) else 0) +
      (if e.Lambda? then MultipliedEach(e.parameters, m) + Multiplied(e.body, 2 * m)
       else Multiplied(e, m))
    case Lambda(_, ps, b) => MultipliedEach(ps, m) + Multiplied(b, m)
  }

  function MultipliedEach(cs: seq<Node>, m: nat): nat
    decreases cs
  {
    if cs == [] then 0 else MultipliedEach(cs[..|cs| - 1], m) + Multiplied(cs[|cs| - 1], m)
  }

  lemma Distribute(m: nat, a: nat, b: nat)
    ensures m * (a + b) == m * a + m * b
  {
  }

  /** The walk's increments are the decision points, each doubled once for
      every inline-lambda body around it; nested inline lambdas compound. */
  lemma {:induction false} VisitsMultiplied(n: Node, m: nat)
    ensures Multiplied(n, m) == m * Visits(n)
    decreases n, 1
  {
    match n
    case Syntax(k, cs) =>
      VisitsMultipliedEach(cs, m);
      SyntaxVisits(k, cs);
      Distribute(m, VisitsEach(cs), Weight(n));
    case Argument(nc, e) =>
      ArgumentMultiplied(nc, e, m);
    case Lambda(_, ps, b) =>
      VisitsMultipliedEach(ps, m);
      VisitsMultiplied(b, m);
      assert Visits(n) == Accepted(n) == DefaultVisits(n) == VisitsEach(ps) + Visits(b);
      Distribute(m, VisitsEach(ps), Visits(b));
  }

  lemma {:induction false} ArgumentMultiplied(nc: Option<Node>, e: Node, m: nat)
    ensures Multiplied(Argument(nc, e), m) == m * Visits(Argument(nc, e))
    decreases Argument(nc, e), 0
  {
    var n := Argument(nc, e);
    var named := if nc.Some? then Visits(nc.value) else 0;
    assert Weight(n) == 0;
    if nc.Some? {
      VisitsMultiplied(nc.value, m);
    }
    if e.Lambda? {
      var ps, b := e.parameters, e.body;
      VisitsMultipliedEach(ps, m);
      VisitsMultiplied(b, 2 * m);
      InlineLambdaBodyCountedTwice(nc, e.form, ps, b);
      var namedM := if nc.Some? then Multiplied(nc.value, m) else 0;
      assert namedM == m * named;
      assert Multiplied(n, m) == namedM + MultipliedEach(ps, m) + Multiplied(b, 2 * m);
      ScaledSum(m, named, VisitsEach(ps), Visits(b));
    } else {
      VisitsMultiplied(e, m);
      OtherArgumentWalkedOnce(nc, e);
      Distribute(m, named, Visits(e));
    }
  }

  lemma ScaledSum(m: nat, a: nat, p: nat, b: nat)
    ensures m * a + m * p + (2 * m) * b == m * (a + p + 2 * b)
  {
    Distribute(m, a, p + 2 * b);
    Distribute(m, p, 2 * b);
    assert (2 * m) * b == m * (2 * b);
  }

  lemma {:induction false} VisitsMultipliedEach(cs: seq<Node>, m: nat)
    ensures MultipliedEach(cs, m) == m * VisitsEach(cs)
    decreases cs
  {
    if cs != [] {
      VisitsMultipliedEach(cs[..|cs| - 1], m);
      VisitsMultiplied(cs[|cs| - 1], m);
      Distribute(m, VisitsEach(cs[..|cs| - 1]), Visits(cs[|cs| - 1]));
    }
  }

  // ---------------------------------------------------------------------------
  // Worked examples.
  // ---------------------------------------------------------------------------

  /** An identifier, a leaf with no decision point. */
  const Identifier: Node := Syntax(OtherKind("IdentifierName"), [])

  /** A lambda parameter, `x`. */
  const Parameter: Node := Syntax(OtherKind("Parameter"), [])

  function Block(statements: seq<Node>): Node {
    Syntax(OtherKind("Block"), statements)
  }

  /** A node's walk is its children's walk plus its own weight. */
  lemma SyntaxVisits(k: Kind, cs: seq<Node>)
    ensures Visits(Syntax(k, cs)) == VisitsEach(cs) + Weight(Syntax(k, cs))
  {
    var n := Syntax(k, cs);
    assert Accepted(n) == VisitsEach(cs) + (if IsBranch(n) then 1 else 0);
  }

  lemma VisitsEachPair(a: Node, b: Node)
    ensures VisitsEach([a, b]) == Visits(a) + Visits(b)
  {
    assert [a, b][..1] == [a];
    assert [a][..0] == [];
    assert VisitsEach([a]) == VisitsEach([]) + Visits(a);
    assert VisitsEach([a, b]) == VisitsEach([a]) + Visits(b);
  }

  /** `if (a) {} else if (b) {}` scores 3: the nested if in the else clause is walked too. */
  lemma ElseIfScoresThree()
    ensures Complexity(Some(
      Syntax(IfStatement, [Identifier, Block([]),
        Syntax(OtherKind("ElseClause"), [Syntax(IfStatement, [Identifier, Block([])])])]))) == 3
  {
    var empty := Block([]);
    var inner := Syntax(IfStatement, [Identifier, empty]);
    var elseClause := Syntax(OtherKind("ElseClause"), [inner]);
    var outer := Syntax(IfStatement, [Identifier, empty, elseClause]);
    SyntaxVisits(OtherKind("IdentifierName"), []);
    SyntaxVisits(OtherKind("Block"), []);
    VisitsEachPair(Identifier, empty);
    SyntaxVisits(IfStatement, [Identifier, empty]);
    assert [inner][..0] == [];
    SyntaxVisits(OtherKind("ElseClause"), [inner]);
    assert [Identifier, empty, elseClause][..2] == [Identifier, empty];
    SyntaxVisits(IfStatement, [Identifier, empty, elseClause]);
  }

  /** `while (x) { if (y) continue; }` scores 4. */
  lemma WhileIfContinueScoresFour()
    ensures Complexity(Some(
      Syntax(WhileStatement, [Identifier, Block([
        Syntax(IfStatement, [Identifier, Syntax(ContinueStatement, [])])])]))) == 4
  {
    var cont := Syntax(ContinueStatement, []);
    var ifStatement := Syntax(IfStatement, [Identifier, cont]);
    var body := Block([ifStatement]);
    SyntaxVisits(OtherKind("IdentifierName"), []);
    SyntaxVisits(ContinueStatement, []);
    VisitsEachPair(Identifier, cont);
    SyntaxVisits(IfStatement, [Identifier, cont]);
    assert [ifStatement][..0] == [];
    SyntaxVisits(OtherKind("Block"), [ifStatement]);
    VisitsEachPair(Identifier, body);
    SyntaxVisits(WhileStatement, [Identifier, body]);
  }

  /** `f(x => { if (c) {} })`: the if inside the inline lambda adds 2. */
  lemma InlineLambdaIfScoresThree()
    ensures Complexity(Some(
      Syntax(OtherKind("InvocationExpression"), [Identifier,
        Syntax(OtherKind("ArgumentList"), [
          Argument(None, Lambda(SimpleLambda, [Syntax(OtherKind("Parameter"), [])],
            Block([Syntax(IfStatement, [Identifier, Block([])])])))])]))) == 3
  {
    var empty := Block([]);
    var parameter := Syntax(OtherKind("Parameter"), []);
    var ifStatement := Syntax(IfStatement, [Identifier, empty]);
    var body := Block([ifStatement]);
    var argument := Argument(None, Lambda(SimpleLambda, [parameter], body));
    var arguments := Syntax(OtherKind("ArgumentList"), [argument]);
    SyntaxVisits(OtherKind("IdentifierName"), []);
    SyntaxVisits(OtherKind("Block"), []);
    SyntaxVisits(OtherKind("Parameter"), []);
    VisitsEachPair(Identifier, empty);
    SyntaxVisits(IfStatement, [Identifier, empty]);
    assert [ifStatement][..0] == [];
    SyntaxVisits(OtherKind("Block"), [ifStatement]);
    assert [parameter][..0] == [];
    InlineLambdaBodyCountedTwice(None, SimpleLambda, [parameter], body);
    assert [argument][..0] == [];
    SyntaxVisits(OtherKind("ArgumentList"), [argument]);
    VisitsEachPair(Identifier, arguments);
    SyntaxVisits(OtherKind("InvocationExpression"), [Identifier, arguments]);
  }

  /** `g(x => body)`: a call whose only argument is a simple lambda. */
  function InlineCall(body: Node): Node {
    Syntax(OtherKind("InvocationExpression"), [Identifier,
      Syntax(OtherKind("ArgumentList"), [Argument(None, Lambda(SimpleLambda, [Parameter], body))])])
  }

  lemma InlineCallDoubles(body: Node)
    ensures Visits(InlineCall(body)) == 2 * Visits(body)
  {
    var argument := Argument(None, Lambda(SimpleLambda, [Parameter], body));
    var arguments := Syntax(OtherKind("ArgumentList"), [argument]);
    SyntaxVisits(OtherKind("IdentifierName"), []);
    SyntaxVisits(OtherKind("Parameter"), []);
    assert [Parameter][..0] == [];
    InlineLambdaBodyCountedTwice(None, SimpleLambda, [Parameter], body);
    assert [argument][..0] == [];
    SyntaxVisits(OtherKind("ArgumentList"), [argument]);
    VisitsEachPair(Identifier, arguments);
    SyntaxVisits(OtherKind("InvocationExpression"), [Identifier, arguments]);
  }

  /** `f(x => f(y => { if (c) {} }))`: the if sits in two inline-lambda
      bodies, so it counts four times and the call scores 5. */
  lemma NestedInlineLambdaIfScoresFive()
    ensures Complexity(Some(InlineCall(InlineCall(Block([Syntax(IfStatement, [Identifier, Block([])])]))))) == 5
  {
    IfBlockCountsOne();
    var body := Block([Syntax(IfStatement, [Identifier, Block([])])]);
    InlineCallDoubles(body);
    InlineCallDoubles(InlineCall(body));
  }

  /** `{ if (c) {} }` holds one decision point. */
  lemma IfBlockCountsOne()
    ensures Visits(Block([Syntax(IfStatement, [Identifier, Block([])])])) == 1
  {
    var empty := Block([]);
    var ifStatement := Syntax(IfStatement, [Identifier, empty]);
    SyntaxVisits(OtherKind("IdentifierName"), []);
    SyntaxVisits(OtherKind("Block"), []);
    VisitsEachPair(Identifier, empty);
    SyntaxVisits(IfStatement, [Identifier, empty]);
    assert [ifStatement][..0] == [];
    SyntaxVisits(OtherKind("Block"), [ifStatement]);
  }

  function Pow2(d: nat): (r: nat)
    ensures r >= 1
  {
    if d == 0 then 1 else 2 * Pow2(d - 1)
  }

  /** `f(x => f(x => ... f(x => body)))`, d calls deep. */
  function Nest(d: nat, body: Node): Node {
    if d == 0 then body else InlineCall(Nest(d - 1, body))
  }

  /** Inline lambdas compound: a body nested d calls deep is walked 2^d times. */
  lemma {:induction false} NestDoubles(d: nat, body: Node)
    ensures Visits(Nest(d, body)) == Pow2(d) * Visits(body)
  {
    if d > 0 {
      var inner := Nest(d - 1, body);
      assert Nest(d, body) == InlineCall(inner);
      NestDoubles(d - 1, body);
      InlineCallDoubles(inner);
      DoubleProduct(Pow2(d - 1), Visits(body));
    }
  }

  lemma DoubleProduct(p: nat, v: nat)
    ensures 2 * (p * v) == (2 * p) * v
  {
  }

  lemma {:induction false} Pow2Add(a: nat, b: nat)
    ensures Pow2(a + b) == Pow2(a) * Pow2(b)
  {
    if a > 0 {
      Pow2Add(a - 1, b);
      assert Pow2(a + b) == 2 * Pow2(a - 1 + b);
      DoubleProduct(Pow2(a - 1), Pow2(b));
    }
  }

  lemma Pow2Of31()
    ensures Pow2(31) == 0x8000_0000
  {
    assert Pow2(1) == 2;
    Pow2Add(1, 1);
    assert Pow2(2) == 4;
    Pow2Add(2, 1);
    assert Pow2(3) == 8;
    Pow2Add(2, 2);
    assert Pow2(4) == 16;
    Pow2Add(3, 4);
    assert Pow2(7) == 128;
    Pow2Add(4, 4);
    assert Pow2(8) == 256;
    Pow2Add(7, 8);
    assert Pow2(15) == 0x8000;
    Pow2Add(8, 8);
    assert Pow2(16) == 0x1_0000;
    Pow2Add(15, 16);
  }

  /** One if statement inside 31 or more nested inline lambdas scores more
      than the largest 32-bit signed integer, where the source's counter
      wraps. */
  lemma NestedIfPassesInt32Max(d: nat)
    requires d >= 31
    ensures Complexity(Some(Nest(d, Block([Syntax(IfStatement, [Identifier, Block([])])])))) == Pow2(d) + 1
    ensures Complexity(Some(Nest(d, Block([Syntax(IfStatement, [Identifier, Block([])])])))) > 0x7fff_ffff
  {
    IfBlockCountsOne();
    NestDoubles(d, Block([Syntax(IfStatement, [Identifier, Block([])])]));
    Pow2Of31();
    Pow2Add(31, d - 31);
  }
}
