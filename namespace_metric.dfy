/** The per-namespace metric record: the constructor stores its inputs as
    given and derives abstractness; class coupling is counted on demand. */
module NamespaceMetrics {
  import opened Wrappers

  /** The part of a type metric the namespace metric reads. */
  datatype TypeMetric = TypeMetric(name: string, isAbstract: bool)

  /** A dependency of the namespace on a type. */
  datatype TypeCoupling = TypeCoupling(typeName: string, namespaceName: string, assemblyName: string)

  datatype Documentation = Documentation(summary: string)

  /** A ratio that is undefined (the floating-point NaN of 0/0) or a value. */
  datatype Ratio = Undefined | Defined(value: real)

  datatype NamespaceMetric = NamespaceMetric(
    abstractness: Ratio,
    maintainabilityIndex: real,
    cyclomaticComplexity: int,
    linesOfCode: int,
    dependencies: seq<TypeCoupling>,
    depthOfInheritance: int,
    name: string,
    documentation: Option<Documentation>,
    typeMetrics: seq<TypeMetric>)
  {
    /** The number of dependencies, duplicates included: at least the
        number of distinct dependencies, and equal to it exactly when none
        repeats. */
    function ClassCoupling(): (n: nat)
      ensures n >= |set d | d in dependencies|
      ensures n == |set d | d in dependencies| <==> NoDuplicates(dependencies)
    {
      DistinctElementsBound(dependencies);
      |dependencies|
    }
  }

  /** The number of abstract types among the type metrics. */
  function AbstractCount(ts: seq<TypeMetric>): (n: nat)
    ensures n <= |ts|
    ensures n == 0 <==> forall i :: 0 <= i < |ts| ==> !ts[i].isAbstract
    ensures n == |ts| <==> forall i :: 0 <= i < |ts| ==> ts[i].isAbstract
  {
    if ts == [] then 0
    else AbstractCount(ts[..|ts| - 1]) + (if ts[|ts| - 1].isAbstract then 1 else 0)
  }

  /** The share of abstract types: undefined without any type, otherwise a
      value in [0, 1] that times the number of types gives the abstract count. */
  function Abstractness(ts: seq<TypeMetric>): (a: Ratio)
    ensures a.Undefined? <==> |ts| == 0
    ensures a.Defined? ==> 0.0 <= a.value <= 1.0
    ensures a.Defined? ==> a.value * (|ts| as real) == AbstractCount(ts) as real
  {
    if |ts| == 0 then Undefined
    else
      var abstractTypes, types := AbstractCount(ts), |ts|;
      RatioOfCounts(abstractTypes, types);
      Defined(abstractTypes as real / types as real)
  }

  /** A part of a positive whole, as a fraction of it. */
  lemma RatioOfCounts(part: nat, whole: nat)
    requires part <= whole && whole > 0
    ensures 0.0 <= part as real / whole as real <= 1.0
    ensures (part as real / whole as real) * (whole as real) == part as real
  {
  }

  /** The constructor: every input stored as given, in input order, and the
      abstractness of the type metrics derived once. */
  function NewNamespaceMetric(
    maintainabilityIndex: real,
    cyclomaticComplexity: int,
    linesOfCode: int,
    classCouplings: seq<TypeCoupling>,
    depthOfInheritance: int,
    name: string,
    typeMetrics: seq<TypeMetric>,
    documentation: Option<Documentation>): (m: NamespaceMetric)
    ensures m.maintainabilityIndex == maintainabilityIndex
    ensures m.cyclomaticComplexity == cyclomaticComplexity
    ensures m.linesOfCode == linesOfCode
    ensures m.dependencies == classCouplings
    ensures m.depthOfInheritance == depthOfInheritance
    ensures m.name == name
    ensures m.typeMetrics == typeMetrics
    ensures m.documentation == documentation
    ensures m.abstractness == Abstractness(typeMetrics)
    ensures m.abstractness.Undefined? <==> |typeMetrics| == 0
  {
    NamespaceMetric(
      Abstractness(typeMetrics), maintainabilityIndex, cyclomaticComplexity, linesOfCode,
      classCouplings, depthOfInheritance, name, documentation, typeMetrics)
  }

  predicate NoDuplicates(s: seq<TypeCoupling>) {
    forall i, j :: 0 <= i < j < |s| ==> s[i] != s[j]
  }

  lemma NoDuplicatesAppend(init: seq<TypeCoupling>, last: TypeCoupling)
    ensures NoDuplicates(init + [last]) <==> NoDuplicates(init) && last !in init
  {
    var s := init + [last];
    if NoDuplicates(s) {
      forall i, j | 0 <= i < j < |init|
        ensures init[i] != init[j]
      {
        assert s[i] == init[i] && s[j] == init[j];
      }
      forall k | 0 <= k < |init|
        ensures init[k] != last
      {
        assert s[k] == init[k] && s[|init|] == last;
      }
    }
    if NoDuplicates(init) && last !in init {
      forall i, j | 0 <= i < j < |s|
        ensures s[i] != s[j]
      {
        assert s[i] == init[i];
      }
    }
  }

  lemma {:induction false} DistinctElementsBound(s: seq<TypeCoupling>)
    ensures |set x | x in s| <= |s|
    ensures |set x | x in s| == |s| <==> NoDuplicates(s)
  {
    if s != [] {
      var init, last := s[..|s| - 1], s[|s| - 1];
      DistinctElementsBound(init);
      assert s == init + [last];
      NoDuplicatesAppend(init, last);
      assert (set x | x in s) == (set x | x in init) + {last};
    }
  }

  /** With at least one type, abstractness is 0 when no type is abstract
      and 1 when all are. */
  lemma AbstractnessExtremes(ts: seq<TypeMetric>)
    requires |ts| > 0
    ensures (forall i :: 0 <= i < |ts| ==> !ts[i].isAbstract) ==> Abstractness(ts) == Defined(0.0)
    ensures (forall i :: 0 <= i < |ts| ==> ts[i].isAbstract) ==> Abstractness(ts) == Defined(1.0)
  {
  }
}
