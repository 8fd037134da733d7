/**
 The plan of the forbidden-term sweep (tools/forbidden_terms/plan.py): the areas of
 the tree, the rules that excuse a file, and the anchors that must be read.
 */
module SweepPlan {
  import opened Wrappers

  datatype Area = Area(name: string, root: string) {
    /** The root itself, or anything below it. */
    predicate Contains(path: string) {
      root != "" && (path == root || root + "/" <= path)
    }
  }

  datatype ExclusionRule = ExclusionRule(id: string, paths: seq<string>, files: nat) {
    predicate Matches(path: string) {
      exists i :: 0 <= i < |paths| && PatternMatches(paths[i], path)
    }
  }

  /** An exact path, or everything below `dir/`. */
  predicate PatternMatches(pattern: string, path: string) {
    var n := |pattern|;
    if n >= 3 && pattern[n - 3..] == "/**" then pattern[..n - 2] <= path else path == pattern
  }

  datatype Plan = Plan(areas: seq<Area>, fallbackArea: string, anchors: seq<string>, exclusions: seq<ExclusionRule>)

  // ----- the most specific area ----------------------------------------------------------------

  function Best(areas: seq<Area>, path: string): Option<Area> {
    if areas == [] then None
    else
      var last := areas[|areas| - 1];
      var best := Best(areas[..|areas| - 1], path);
      if last.Contains(path) && (best.None? || |last.root| > |best.value.root|) then Some(last) else best
  }

  function NameOf(best: Option<Area>, fallback: string): string {
    if best.Some? then best.value.name else fallback
  }

  function AreaOf(plan: Plan, path: string): string {
    NameOf(Best(plan.areas, path), plan.fallbackArea)
  }

  method FindArea(plan: Plan, path: string) returns (name: string)
    ensures name == AreaOf(plan, path)
  {
    var best: Option<Area> := None;
    for k := 0 to |plan.areas|
      invariant best == Best(plan.areas[..k], path)
    {
      var area := plan.areas[k];
      assert plan.areas[..k + 1][..k] == plan.areas[..k];
      if area.Contains(path) && (best.None? || |area.root| > |best.value.root|) {
        best := Some(area);
      }
    }
    assert plan.areas[..|plan.areas|] == plan.areas;
    name := if best.Some? then best.value.name else plan.fallbackArea;
  }

  /** The declared area with the longest root among those that contain the path. */
  lemma {:induction false} BestIsLongest(areas: seq<Area>, path: string)
    ensures Best(areas, path).None? <==> forall area :: area in areas ==> !area.Contains(path)
    ensures var best := Best(areas, path);
            best.Some? ==>
              && best.value in areas && best.value.Contains(path)
              && forall area :: area in areas && area.Contains(path) ==> |area.root| <= |best.value.root|
  {
    if areas == [] {
    } else {
      var n := |areas| - 1;
      BestIsLongest(areas[..n], path);
      assert areas == areas[..n] + [areas[n]];
    }
  }

  lemma RootsOfOnePath(left: Area, right: Area, path: string)
    requires left.Contains(path) && right.Contains(path) && |left.root| == |right.root|
    ensures left.root == right.root
  {
    assert left.root == path[..|left.root|];
    assert right.root == path[..|right.root|];
  }

  /** No root but the empty one, which contains nothing, is declared under two names. */
  ghost predicate OneNamePerRoot(areas: seq<Area>) {
    forall left, right :: left in areas && right in areas && left.root == right.root != "" ==> left.name == right.name
  }

  /** The same areas in another order. */
  predicate Reordered(left: Plan, right: Plan) {
    multiset(left.areas) == multiset(right.areas) && left.fallbackArea == right.fallbackArea
  }

  lemma ReorderedHaveTheSame(left: Plan, right: Plan)
    requires Reordered(left, right)
    ensures forall area :: area in left.areas <==> area in right.areas
  {
    assert forall area :: area in left.areas <==> area in multiset(left.areas);
    assert forall area :: area in right.areas <==> area in multiset(right.areas);
  }

  lemma ReorderingKeepsTheName(left: Plan, right: Plan, path: string)
    requires OneNamePerRoot(left.areas) && Reordered(left, right)
    ensures AreaOf(left, path) == AreaOf(right, path)
  {
    ReorderedHaveTheSame(left, right);
    BestIsLongest(left.areas, path);
    BestIsLongest(right.areas, path);
    var one, other := Best(left.areas, path), Best(right.areas, path);
    if one.Some? {
      assert one.value in right.areas && other.Some?;
      RootsOfOnePath(one.value, other.value, path);
    }
  }

  /** At its own root, the area declared first is the one that is found. */
  lemma {:induction false} FirstAtItsRoot(area: Area, rest: seq<Area>)
    requires area.root != ""
    ensures Best([area] + rest, area.root) == Some(area)
  {
    var all := [area] + rest;
    if rest == [] {
      assert all[..0] == [];
    } else {
      var n := |rest| - 1;
      assert all[..|all| - 1] == [area] + rest[..n];
      FirstAtItsRoot(area, rest[..n]);
    }
  }

  lemma BroughtForward(plan: Plan, area: Area) returns (reordered: Plan)
    requires area in plan.areas && area.root != ""
    ensures Reordered(plan, reordered) && AreaOf(reordered, area.root) == area.name
  {
    var i :| 0 <= i < |plan.areas| && plan.areas[i] == area;
    var before, after := plan.areas[..i], plan.areas[i + 1..];
    assert plan.areas == before + [area] + after;
    reordered := plan.(areas := [area] + (before + after));
    FirstAtItsRoot(area, before + after);
  }

  /** The order the areas are declared in never matters exactly when each root has one name. */
  lemma AreaIgnoresOrderIffOneNamePerRoot(plan: Plan)
    ensures (forall other, path :: Reordered(plan, other) ==> AreaOf(plan, path) == AreaOf(other, path)) <==>
            OneNamePerRoot(plan.areas)
  {
    if OneNamePerRoot(plan.areas) {
      forall other, path | Reordered(plan, other)
        ensures AreaOf(plan, path) == AreaOf(other, path)
      {
        ReorderingKeepsTheName(plan, other, path);
      }
    }
    if forall other, path :: Reordered(plan, other) ==> AreaOf(plan, path) == AreaOf(other, path) {
      forall left, right | left in plan.areas && right in plan.areas && left.root == right.root != ""
        ensures left.name == right.name
      {
        var one := BroughtForward(plan, left);
        var two := BroughtForward(plan, right);
        assert AreaOf(plan, left.root) == AreaOf(one, left.root) == AreaOf(two, left.root);
      }
    }
  }

  /** `area_names`: the declared areas and the residual one. */
  function AreaNames(plan: Plan): set<string> {
    (set i | 0 <= i < |plan.areas| :: plan.areas[i].name) + {plan.fallbackArea}
  }

  /** Every path is in a named area. */
  lemma AreaOfIsNamed(plan: Plan, path: string)
    ensures AreaOf(plan, path) in AreaNames(plan)
  {
    BestIsLongest(plan.areas, path);
  }

  // ----- the rules that excuse a path -------------------------------------------------------------

  function MatchedRules(rules: seq<ExclusionRule>, path: string): seq<string> {
    if rules == [] then []
    else
      var n := |rules| - 1;
      MatchedRules(rules[..n], path) + if rules[n].Matches(path) then [rules[n].id] else []
  }

  lemma {:induction false} MatchedRulesAre(rules: seq<ExclusionRule>, path: string)
    ensures forall id :: id in MatchedRules(rules, path) <==>
                           exists rule :: rule in rules && rule.Matches(path) && rule.id == id
  {
    if rules == [] {
    } else {
      var n := |rules| - 1;
      MatchedRulesAre(rules[..n], path);
      assert rules == rules[..n] + [rules[n]];
    }
  }

  predicate DistinctIds(rules: seq<ExclusionRule>) {
    forall i, j :: 0 <= i < j < |rules| ==> rules[i].id != rules[j].id
  }
}
