/** The rule registry: which rule types of the rule assembly are instantiated,
    with which constructor, and in which order.

    The assembly's type catalog is given as a list of type descriptors, and
    the order of rule IDs (a culture-sensitive string comparison) as a rank
    function: IDs compare as their ranks do, and equal ranks are ties. */
module RuleRegistry {
  import opened Sequences

  /** The two evaluation interfaces a rule type may implement. */
  datatype Evaluation = SyntaxEvaluation | SymbolEvaluation

  /** A constructor parameter, reduced to the one question asked of it:
      is its type the spell-checker interface or a type derived from it? */
  datatype Parameter = Parameter(isSpellChecker: bool)

  /** A type of the catalog: its flags, the evaluation interfaces it is
      assignable to, the parameter lists of its public constructors, and
      the ID its instances report. */
  datatype TypeDescriptor = TypeDescriptor(
    name: string,
    isInterface: bool,
    isAbstract: bool,
    implements: set<Evaluation>,
    constructors: seq<seq<Parameter>>,
    id: string)

  /** The spell checker handed to the registry; only its identity matters. */
  type SpellChecker = nat

  datatype Construction = NoArguments | WithSpellChecker(spellChecker: SpellChecker)

  /** A rule instance: the type it was created from and how. */
  datatype Rule = Rule(ruleType: TypeDescriptor, construction: Construction)

  /** A concrete type implementing the given evaluation interface. */
  predicate IsCandidate(t: TypeDescriptor, evaluation: Evaluation) {
    evaluation in t.implements && !t.isInterface && !t.isAbstract
  }

  predicate HasParameterlessConstructor(t: TypeDescriptor) {
    exists c :: c in t.constructors && |c| == 0
  }

  predicate HasSpellCheckerConstructor(t: TypeDescriptor) {
    exists c: seq<Parameter> :: c in t.constructors && |c| == 1 && c[0].isSpellChecker
  }

  // ---------------------------------------------------------------------------
  // Selection.
  // ---------------------------------------------------------------------------

  /** The candidate types, in catalog order. */
  function Candidates(catalog: seq<TypeDescriptor>, evaluation: Evaluation): (r: seq<TypeDescriptor>)
    ensures forall t :: multiset(r)[t] == if IsCandidate(t, evaluation) then multiset(catalog)[t] else 0
  {
    if catalog == [] then []
    else
      assert catalog == [catalog[0]] + catalog[1..];
      (if IsCandidate(catalog[0], evaluation) then [catalog[0]] else []) + Candidates(catalog[1..], evaluation)
  }

  /** One instance built with no arguments per type with a parameterless
      constructor, in the order of the types. */
  function Parameterless(types: seq<TypeDescriptor>): (r: seq<Rule>)
    ensures forall x :: multiset(r)[x] ==
              if x.construction == NoArguments && HasParameterlessConstructor(x.ruleType)
              then multiset(types)[x.ruleType] else 0
  {
    if types == [] then []
    else
      assert types == [types[0]] + types[1..];
      (if HasParameterlessConstructor(types[0]) then [Rule(types[0], NoArguments)] else []) +
      Parameterless(types[1..])
  }

  /** One instance built with the spell checker per type with a constructor
      taking just a spell checker, in the order of the types. */
  function SpellChecking(types: seq<TypeDescriptor>, spellChecker: SpellChecker): (r: seq<Rule>)
    ensures forall x :: multiset(r)[x] ==
              if x.construction == WithSpellChecker(spellChecker) && HasSpellCheckerConstructor(x.ruleType)
              then multiset(types)[x.ruleType] else 0
  {
    if types == [] then []
    else
      assert types == [types[0]] + types[1..];
      (if HasSpellCheckerConstructor(types[0]) then [Rule(types[0], WithSpellChecker(spellChecker))] else []) +
      SpellChecking(types[1..], spellChecker)
  }

  // ---------------------------------------------------------------------------
  // Ordering: a stable sort by the rank of the rule's ID.
  // ---------------------------------------------------------------------------

  function Key(rank: string -> int, x: Rule): int {
    rank(x.ruleType.id)
  }

  predicate SortedBy(rank: string -> int, s: seq<Rule>) {
    forall i, j :: 0 <= i < j < |s| ==> Key(rank, s[i]) <= Key(rank, s[j])
  }

  /** The elements of s whose key is k, in the order of s. */
  function WithKey(rank: string -> int, s: seq<Rule>, k: int): seq<Rule> {
    if s == [] then []
    else (if Key(rank, s[0]) == k then [s[0]] else []) + WithKey(rank, s[1..], k)
  }

  /** x placed before the first element whose key is not smaller than its own. */
  function Insert(rank: string -> int, x: Rule, s: seq<Rule>): seq<Rule> {
    if s == [] || Key(rank, x) <= Key(rank, s[0]) then [x] + s
    else [s[0]] + Insert(rank, x, s[1..])
  }

  /** A sort by key: the result is sorted and a permutation of s
      (OrderBySortsStably: and stable). */
  function OrderBy(rank: string -> int, s: seq<Rule>): (r: seq<Rule>)
    ensures SortedBy(rank, r)
    ensures multiset(r) == multiset(s)
  {
    if s == [] then []
    else
      var sorted := OrderBy(rank, s[1..]);
      InsertKeepsSorted(rank, s[0], sorted);
      InsertPermutes(rank, s[0], sorted);
      assert s == [s[0]] + s[1..];
      Insert(rank, s[0], sorted)
  }

  lemma {:induction false} InsertPermutes(rank: string -> int, x: Rule, s: seq<Rule>)
    ensures multiset(Insert(rank, x, s)) == multiset(s) + multiset{x}
  {
    if !(s == [] || Key(rank, x) <= Key(rank, s[0])) {
      InsertPermutes(rank, x, s[1..]);
      assert s == [s[0]] + s[1..];
    }
  }

  lemma SortedTail(rank: string -> int, s: seq<Rule>)
    requires SortedBy(rank, s) && s != []
    ensures SortedBy(rank, s[1..])
  {
    var tail := s[1..];
    forall i, j | 0 <= i < j < |tail|
      ensures Key(rank, tail[i]) <= Key(rank, tail[j])
    {
      assert tail[i] == s[i + 1] && tail[j] == s[j + 1];
    }
  }

  /** Inserting a larger element behind the head keeps the head the smallest. */
  lemma HeadBelowInserted(rank: string -> int, x: Rule, s: seq<Rule>)
    requires SortedBy(rank, s) && s != [] && Key(rank, s[0]) < Key(rank, x)
    ensures forall y :: y in Insert(rank, x, s[1..]) ==> Key(rank, s[0]) <= Key(rank, y)
  {
    var tail := s[1..];
    InsertPermutes(rank, x, tail);
    forall y | y in Insert(rank, x, tail)
      ensures Key(rank, s[0]) <= Key(rank, y)
    {
      assert y in multiset(Insert(rank, x, tail));
      if y != x {
        assert y in multiset(tail);
        var m :| 0 <= m < |tail| && tail[m] == y;
        assert s[m + 1] == y;
      }
    }
  }

  /** An element no larger than any element of a sorted sequence can go first. */
  lemma ConsSorted(rank: string -> int, y: Rule, t: seq<Rule>)
    requires SortedBy(rank, t)
    requires forall z :: z in t ==> Key(rank, y) <= Key(rank, z)
    ensures SortedBy(rank, [y] + t)
  {
    var r := [y] + t;
    forall i, j | 0 <= i < j < |r|
      ensures Key(rank, r[i]) <= Key(rank, r[j])
    {
      assert r[j] == t[j - 1];
      if i > 0 {
        assert r[i] == t[i - 1];
      }
    }
  }

  lemma {:induction false} InsertKeepsSorted(rank: string -> int, x: Rule, s: seq<Rule>)
    requires SortedBy(rank, s)
    ensures SortedBy(rank, Insert(rank, x, s))
  {
    if s == [] || Key(rank, x) <= Key(rank, s[0]) {
      forall z | z in s
        ensures Key(rank, x) <= Key(rank, z)
      {
        var m :| 0 <= m < |s| && s[m] == z;
        assert Key(rank, s[0]) <= Key(rank, s[m]);
      }
      ConsSorted(rank, x, s);
    } else {
      SortedTail(rank, s);
      InsertKeepsSorted(rank, x, s[1..]);
      HeadBelowInserted(rank, x, s);
      ConsSorted(rank, s[0], Insert(rank, x, s[1..]));
    }
  }

  lemma {:induction false} InsertWithKey(rank: string -> int, x: Rule, s: seq<Rule>, k: int)
    requires SortedBy(rank, s)
    ensures WithKey(rank, Insert(rank, x, s), k) == (if Key(rank, x) == k then [x] else []) + WithKey(rank, s, k)
  {
    var r := Insert(rank, x, s);
    if s == [] || Key(rank, x) <= Key(rank, s[0]) {
      assert r[1..] == s;
    } else {
      var tail := s[1..];
      SortedTail(rank, s);
      InsertWithKey(rank, x, tail, k);
      var inserted := Insert(rank, x, tail);
      assert r == [s[0]] + inserted;
      assert r[1..] == inserted;
      assert WithKey(rank, r, k) == (if Key(rank, s[0]) == k then [s[0]] else []) + WithKey(rank, inserted, k);
      if Key(rank, x) == k {
        assert Key(rank, s[0]) != k;
      }
    }
  }

  /** OrderBy sorts by key, keeps every element, and is stable: the elements
      sharing a key keep their relative order. */
  lemma {:induction false} OrderBySortsStably(rank: string -> int, s: seq<Rule>)
    ensures SortedBy(rank, OrderBy(rank, s))
    ensures multiset(OrderBy(rank, s)) == multiset(s)
    ensures forall k :: WithKey(rank, OrderBy(rank, s), k) == WithKey(rank, s, k)
  {
    if s != [] {
      var sorted := OrderBy(rank, s[1..]);
      OrderBySortsStably(rank, s[1..]);
      forall k
        ensures WithKey(rank, OrderBy(rank, s), k) == WithKey(rank, s, k)
      {
        InsertWithKey(rank, s[0], sorted, k);
      }
      assert s == [s[0]] + s[1..];
    }
  }

  lemma {:induction false} WithKeyConcat(rank: string -> int, a: seq<Rule>, b: seq<Rule>, k: int)
    ensures WithKey(rank, a + b, k) == WithKey(rank, a, k) + WithKey(rank, b, k)
  {
    if a != [] {
      WithKeyConcat(rank, a[1..], b, k);
      assert (a + b)[1..] == a[1..] + b;
    } else {
      assert a + b == b;
    }
  }

  // ---------------------------------------------------------------------------
  // The two registries.
  // ---------------------------------------------------------------------------

  /** The syntax rules: parameterless instances followed by spell-checker
      instances of the syntax-rule candidates, stably sorted by ID. */
  function GetSyntaxRules(catalog: seq<TypeDescriptor>, spellChecker: SpellChecker, rank: string -> int): (r: seq<Rule>)
    ensures SortedBy(rank, r)
    ensures multiset(r) == multiset(Parameterless(Candidates(catalog, SyntaxEvaluation)))
                         + multiset(SpellChecking(Candidates(catalog, SyntaxEvaluation), spellChecker))
  {
    var types := Candidates(catalog, SyntaxEvaluation);
    OrderBy(rank, Parameterless(types) + SpellChecking(types, spellChecker))
  }

  /** The symbol rules: one parameterless instance per catalog entry of a
      concrete symbol-rule type with a parameterless constructor, in catalog
      order (SymbolRulesFollowCatalog), and no instance built any other way. */
  function GetSymbolRules(catalog: seq<TypeDescriptor>): (r: seq<Rule>)
    ensures forall x :: multiset(r)[x] ==
              if x.construction == NoArguments && IsCandidate(x.ruleType, SymbolEvaluation)
                 && HasParameterlessConstructor(x.ruleType)
              then multiset(catalog)[x.ruleType] else 0
  {
    Parameterless(Candidates(catalog, SymbolEvaluation))
  }

  /** The syntax rules are sorted by ID, are a permutation of the
      parameterless instances followed by the spell-checker instances, and
      among equal IDs put the parameterless instances first, each group in
      catalog order. */
  lemma SyntaxRulesOrdered(catalog: seq<TypeDescriptor>, spellChecker: SpellChecker, rank: string -> int)
    ensures var types := Candidates(catalog, SyntaxEvaluation);
            var unsorted := Parameterless(types) + SpellChecking(types, spellChecker);
            var r := GetSyntaxRules(catalog, spellChecker, rank);
            && SortedBy(rank, r)
            && multiset(r) == multiset(unsorted)
            && |r| == |Parameterless(types)| + |SpellChecking(types, spellChecker)|
            && forall k :: WithKey(rank, r, k) == WithKey(rank, Parameterless(types), k)
                                               + WithKey(rank, SpellChecking(types, spellChecker), k)
  {
    var types := Candidates(catalog, SyntaxEvaluation);
    var unsorted := Parameterless(types) + SpellChecking(types, spellChecker);
    OrderBySortsStably(rank, unsorted);
    forall k {
      WithKeyConcat(rank, Parameterless(types), SpellChecking(types, spellChecker), k);
    }
    assert |multiset(GetSyntaxRules(catalog, spellChecker, rank))| == |multiset(unsorted)|;
  }

  /** How often each instance occurs among the syntax rules: a concrete
      syntax-rule type yields one parameterless instance per catalog entry
      when it has a parameterless constructor, and one spell-checker instance
      when it has a spell-checker constructor; nothing else occurs. */
  lemma SyntaxRuleMultiplicity(catalog: seq<TypeDescriptor>, spellChecker: SpellChecker, rank: string -> int, t: TypeDescriptor)
    ensures multiset(GetSyntaxRules(catalog, spellChecker, rank))[Rule(t, NoArguments)] ==
            if IsCandidate(t, SyntaxEvaluation) && HasParameterlessConstructor(t) then multiset(catalog)[t] else 0
    ensures multiset(GetSyntaxRules(catalog, spellChecker, rank))[Rule(t, WithSpellChecker(spellChecker))] ==
            if IsCandidate(t, SyntaxEvaluation) && HasSpellCheckerConstructor(t) then multiset(catalog)[t] else 0
    ensures forall x :: x in GetSyntaxRules(catalog, spellChecker, rank) ==>
              x.construction == NoArguments || x.construction == WithSpellChecker(spellChecker)
  {
    var types := Candidates(catalog, SyntaxEvaluation);
    var simple, spelling := Parameterless(types), SpellChecking(types, spellChecker);
    var r := GetSyntaxRules(catalog, spellChecker, rank);
    OrderBySortsStably(rank, simple + spelling);
    assert multiset(r) == multiset(simple) + multiset(spelling);
    var plain, checked := Rule(t, NoArguments), Rule(t, WithSpellChecker(spellChecker));
    assert multiset(spelling)[plain] == 0;
    assert multiset(simple)[checked] == 0;
    forall x | x in r
      ensures x.construction == NoArguments || x.construction == WithSpellChecker(spellChecker)
    {
      assert multiset(r)[x] > 0;
    }
  }

  /** No deduplication: a type listed once that has both constructor shapes
      yields two instances; one with neither shape yields none. */
  lemma SyntaxRuleShapes(catalog: seq<TypeDescriptor>, spellChecker: SpellChecker, rank: string -> int, t: TypeDescriptor)
    requires multiset(catalog)[t] == 1 && IsCandidate(t, SyntaxEvaluation)
    ensures HasParameterlessConstructor(t) && HasSpellCheckerConstructor(t) ==>
              multiset(GetSyntaxRules(catalog, spellChecker, rank))[Rule(t, NoArguments)] == 1 &&
              multiset(GetSyntaxRules(catalog, spellChecker, rank))[Rule(t, WithSpellChecker(spellChecker))] == 1
    ensures !HasParameterlessConstructor(t) && !HasSpellCheckerConstructor(t) ==>
              forall x :: x in GetSyntaxRules(catalog, spellChecker, rank) ==> x.ruleType != t
  {
    SyntaxRuleMultiplicity(catalog, spellChecker, rank, t);
    var r := GetSyntaxRules(catalog, spellChecker, rank);
    if !HasParameterlessConstructor(t) && !HasSpellCheckerConstructor(t) {
      forall x | x in r
        ensures x.ruleType != t
      {
        assert multiset(r)[x] > 0;
      }
    }
  }

  lemma {:induction false} CandidatesConcat(a: seq<TypeDescriptor>, b: seq<TypeDescriptor>, evaluation: Evaluation)
    ensures Candidates(a + b, evaluation) == Candidates(a, evaluation) + Candidates(b, evaluation)
  {
    if a == [] {
      assert a + b == b;
    } else {
      var ab := a + b;
      var head := if IsCandidate(a[0], evaluation) then [a[0]] else [];
      assert ab[0] == a[0] && ab[1..] == a[1..] + b;
      assert Candidates(ab, evaluation) == head + Candidates(a[1..] + b, evaluation);
      CandidatesConcat(a[1..], b, evaluation);
      assert Candidates(a, evaluation) == head + Candidates(a[1..], evaluation);
      ConcatAssociates(head, Candidates(a[1..], evaluation), Candidates(b, evaluation));
    }
  }

  lemma {:induction false} ParameterlessConcat(a: seq<TypeDescriptor>, b: seq<TypeDescriptor>)
    ensures Parameterless(a + b) == Parameterless(a) + Parameterless(b)
  {
    if a == [] {
      assert a + b == b;
    } else {
      var ab := a + b;
      var head := if HasParameterlessConstructor(a[0]) then [Rule(a[0], NoArguments)] else [];
      assert ab[0] == a[0] && ab[1..] == a[1..] + b;
      assert Parameterless(ab) == head + Parameterless(a[1..] + b);
      ParameterlessConcat(a[1..], b);
      assert Parameterless(a) == head + Parameterless(a[1..]);
      ConcatAssociates(head, Parameterless(a[1..]), Parameterless(b));
    }
  }

  lemma {:induction false} SpellCheckingConcat(a: seq<TypeDescriptor>, b: seq<TypeDescriptor>, spellChecker: SpellChecker)
    ensures SpellChecking(a + b, spellChecker) == SpellChecking(a, spellChecker) + SpellChecking(b, spellChecker)
  {
    if a == [] {
      assert a + b == b;
    } else {
      var ab := a + b;
      var head := if HasSpellCheckerConstructor(a[0]) then [Rule(a[0], WithSpellChecker(spellChecker))] else [];
      assert ab[0] == a[0] && ab[1..] == a[1..] + b;
      assert SpellChecking(ab, spellChecker) == head + SpellChecking(a[1..] + b, spellChecker);
      SpellCheckingConcat(a[1..], b, spellChecker);
      assert SpellChecking(a, spellChecker) == head + SpellChecking(a[1..], spellChecker);
      ConcatAssociates(head, SpellChecking(a[1..], spellChecker), SpellChecking(b, spellChecker));
    }
  }

  /** The symbol rules follow the catalog: the rules of two catalog parts
      are those of the first part followed by those of the second, so a
      type listed later never yields an earlier rule. */
  lemma SymbolRulesFollowCatalog(a: seq<TypeDescriptor>, b: seq<TypeDescriptor>)
    ensures GetSymbolRules(a + b) == GetSymbolRules(a) + GetSymbolRules(b)
  {
    CandidatesConcat(a, b, SymbolEvaluation);
    ParameterlessConcat(Candidates(a, SymbolEvaluation), Candidates(b, SymbolEvaluation));
  }
}
