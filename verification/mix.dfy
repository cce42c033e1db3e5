/** The `DefineMix` component: two parallel lists, unit types and their
    densities, become a `Mix` when they have the same length, and a single
    warning otherwise.
 */
module Mixes {
  import opened Host

  /** The mix as the component builds it: the two lists, side by side. */
  datatype Mix = Mix(types: seq<string>, densities: seq<real>)

  const MismatchWarning: string := "The number of cell types and densities must be the same."

  /** What one run of the component leaves behind: the value it sets on its
      output, if any, and the warning-level messages it adds. */
  datatype MixRun = MixRun(output: Option<Mix>, warnings: seq<string>)

  /** `DefineMix.SolveInstance`. An input the host does not deliver is
      `None`: the component returns before validating, silently. */
  function DefineMix(types: Option<seq<string>>, densities: Option<seq<real>>): (r: MixRun)
    ensures (types.None? || densities.None?) ==> r.output.None? && r.warnings == []
    ensures (types.Some? && densities.Some?) ==>
      (r.output.Some? <==> |types.value| == |densities.value|)
    ensures r.output.Some? ==>
      r.output.value == Mix(types.value, densities.value) && r.warnings == []
    ensures (types.Some? && densities.Some? && r.output.None?) ==>
      r.warnings == [MismatchWarning]
    ensures r.output.Some? ==> |r.output.value.types| == |r.output.value.densities|
  {
    match (types, densities)
    case (Some(ts), Some(ds)) =>
      if |ts| != |ds| then MixRun(None, [MismatchWarning])
      else MixRun(Some(Mix(ts, ds)), [])
    case _ => MixRun(None, [])
  }

  /** Length equality is the only check: negative densities and repeated
      types are accepted as given. */
  lemma OnlyLengthsChecked(types: seq<string>, densities: seq<real>)
    requires |types| == |densities|
    ensures DefineMix(Some(types), Some(densities)).output == Some(Mix(types, densities))
  {
  }

  /** Two types and one density fail validation with exactly one warning. */
  lemma MismatchExample()
    ensures DefineMix(Some(["A", "B"]), Some([0.3])) == MixRun(None, [MismatchWarning])
  {
  }

  /** No type occurs twice. */
  predicate Distinct(types: seq<string>)
  {
    forall i, j :: 0 <= i < j < |types| ==> types[i] != types[j]
  }

  /** The type-to-density dictionary `Mix.GetAllDensities` hands to
      `FillCells`, built by assigning the pairs in list order, so that a
      repeated type keeps its last density. */
  function Densities(types: seq<string>, densities: seq<real>): (m: map<string, real>)
    requires |types| == |densities|
    ensures m.Keys == set t | t in types
  {
    if types == [] then map[]
    else
      var n := |types|;
      Densities(types[..n - 1], densities[..n - 1])[types[n - 1] := densities[n - 1]]
  }

  /** Each density of a mix without repeated types is looked up under its
      own type. */
  lemma {:induction false} DensitiesLookup(types: seq<string>, densities: seq<real>, i: nat)
    requires |types| == |densities|
    requires Distinct(types)
    requires i < |types|
    ensures types[i] in Densities(types, densities)
    ensures Densities(types, densities)[types[i]] == densities[i]
  {
    var n := |types|;
    if i < n - 1 {
      assert types[..n - 1][i] == types[i];
      DensitiesLookup(types[..n - 1], densities[..n - 1], i);
    }
  }

  /** A type occurring anywhere in the list maps to the density paired with
      its last occurrence. */
  lemma {:induction false} DensitiesLastWins(types: seq<string>, densities: seq<real>, i: nat)
    requires |types| == |densities|
    requires i < |types|
    requires forall j :: i < j < |types| ==> types[j] != types[i]
    ensures Densities(types, densities)[types[i]] == densities[i]
  {
    var n := |types|;
    if i < n - 1 {
      DensitiesLastWins(types[..n - 1], densities[..n - 1], i);
    }
  }
}
