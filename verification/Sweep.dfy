/**
 The forbidden-term sweep (tools/forbidden_terms/sweep.py): which files are read,
 which are excused under which rule, the checks on that accounting, and the retired
 terms found in what was read.
 */
module Sweep {
  import opened Wrappers
  import opened SweepPlan

  type Buckets = map<string, seq<string>>

  datatype Fault =
    | RuleOverlap(path: string, rules: nat)
    | RuleInert(rule: string)
    | RuleCountWrong(rule: string, declared: nat, actual: nat)
    | RuleHidesAnchor(rule: string, anchor: string)
    | AnchorMissing(anchor: string)
    | AreaUnanchored(area: string)
    | UnaccountedFile(path: string)
    | FileUndecodable(path: string)
    | TreeUnreadable(path: string)

  // ----- the partition --------------------------------------------------------------------

  predicate Excused(plan: Plan, path: string) {
    exists rule :: rule in plan.exclusions && rule.Matches(path)
  }

  /** The first rule that matches takes the path. */
  function TakenBy(plan: Plan, path: string): Option<string> {
    var ids := MatchedRules(plan.exclusions, path);
    if ids == [] then None else Some(ids[0])
  }

  /** The paths one rule takes; none of the rules, for those that are read. */
  function Share(paths: seq<string>, plan: Plan, rule: Option<string>): (share: seq<string>)
    ensures forall path :: path in share <==> path in paths && TakenBy(plan, path) == rule
  {
    if paths == [] then []
    else
      var n := |paths| - 1;
      assert paths == paths[..n] + [paths[n]];
      Share(paths[..n], plan, rule) + if TakenBy(plan, paths[n]) == rule then [paths[n]] else []
  }

  function RuleIds(plan: Plan): set<string> {
    set i | 0 <= i < |plan.exclusions| :: plan.exclusions[i].id
  }

  ghost predicate IsPartition(paths: seq<string>, plan: Plan, swept: seq<string>, excluded: Buckets) {
    && swept == Share(paths, plan, None)
    && excluded.Keys == RuleIds(plan)
    && forall id :: id in excluded ==> excluded[id] == Share(paths, plan, Some(id))
  }

  lemma TakenByARule(plan: Plan, path: string)
    ensures TakenBy(plan, path).None? <==> !Excused(plan, path)
    ensures TakenBy(plan, path).Some? ==> TakenBy(plan, path).value in RuleIds(plan)
  {
    var ids := MatchedRules(plan.exclusions, path);
    MatchedRulesAre(plan.exclusions, path);
    if ids != [] {
      assert ids[0] in ids;
    }
    if Excused(plan, path) {
      var rule :| rule in plan.exclusions && rule.Matches(path);
      assert rule.id in ids;
    }
  }

  lemma ShareStep(paths: seq<string>, k: nat, plan: Plan, rule: Option<string>)
    requires k < |paths|
    ensures Share(paths[..k + 1], plan, rule) ==
            Share(paths[..k], plan, rule) + if TakenBy(plan, paths[k]) == rule then [paths[k]] else []
  {
    assert paths[..k + 1][..k] == paths[..k];
  }

  lemma PartitionStep(paths: seq<string>, k: nat, plan: Plan, swept: seq<string>, excluded: Buckets)
    requires k < |paths| && IsPartition(paths[..k], plan, swept, excluded)
    ensures match TakenBy(plan, paths[k])
            case None => IsPartition(paths[..k + 1], plan, swept + [paths[k]], excluded)
            case Some(id) =>
              && id in excluded
              && IsPartition(paths[..k + 1], plan, swept, excluded[id := excluded[id] + [paths[k]]])
  {
    TakenByARule(plan, paths[k]);
    ShareStep(paths, k, plan, None);
    forall id | id in excluded
      ensures Share(paths[..k + 1], plan, Some(id)) ==
              Share(paths[..k], plan, Some(id)) + if TakenBy(plan, paths[k]) == Some(id) then [paths[k]] else []
    {
      ShareStep(paths, k, plan, Some(id));
    }
  }

  /** More than one rule would excuse the path. */
  predicate Overlap(plan: Plan, path: string, fault: Fault) {
    fault == RuleOverlap(path, |MatchedRules(plan.exclusions, path)|) && fault.rules > 1
  }

  ghost predicate AreOverlaps(paths: seq<string>, n: nat, plan: Plan, faults: seq<Fault>)
    requires n <= |paths|
  {
    forall fault :: fault in faults <==> exists i :: 0 <= i < n && Overlap(plan, paths[i], fault)
  }

  lemma OverlapStep(paths: seq<string>, k: nat, plan: Plan, faults: seq<Fault>)
    requires k < |paths| && AreOverlaps(paths, k, plan, faults)
    ensures var count := |MatchedRules(plan.exclusions, paths[k])|;
            if count > 1 then AreOverlaps(paths, k + 1, plan, faults + [RuleOverlap(paths[k], count)])
            else AreOverlaps(paths, k + 1, plan, faults)
  {
  }

  method Partition(paths: seq<string>, plan: Plan)
    returns (swept: seq<string>, excluded: Buckets, faults: seq<Fault>)
    ensures IsPartition(paths, plan, swept, excluded)
    ensures AreOverlaps(paths, |paths|, plan, faults)
  {
    swept, faults := [], [];
    excluded := map id | id in RuleIds(plan) :: [];
    for k := 0 to |paths|
      invariant IsPartition(paths[..k], plan, swept, excluded)
      invariant AreOverlaps(paths, k, plan, faults)
    {
      PartitionStep(paths, k, plan, swept, excluded);
      OverlapStep(paths, k, plan, faults);
      var matched := MatchedRules(plan.exclusions, paths[k]);
      if matched == [] {
        swept := swept + [paths[k]];
      } else {
        if |matched| > 1 {
          faults := faults + [RuleOverlap(paths[k], |matched|)];
        }
        excluded := excluded[matched[0] := excluded[matched[0]] + [paths[k]]];
      }
    }
    assert paths[..|paths|] == paths;
  }

  // ----- the partition is total ---------------------------------------------------------------

  function SizeOf(paths: seq<string>, plan: Plan, rules: seq<ExclusionRule>): nat {
    if rules == [] then 0
    else
      var n := |rules| - 1;
      SizeOf(paths, plan, rules[..n]) + |Share(paths, plan, Some(rules[n].id))|
  }

  lemma {:induction false} NothingHasNoSize(plan: Plan, rules: seq<ExclusionRule>)
    ensures SizeOf([], plan, rules) == 0
  {
    if rules == [] {
    } else {
      NothingHasNoSize(plan, rules[..|rules| - 1]);
    }
  }

  /** One of the rules has this id. */
  predicate Names(rules: seq<ExclusionRule>, taken: Option<string>) {
    exists i :: 0 <= i < |rules| && taken == Some(rules[i].id)
  }

  lemma NamesOneMore(rules: seq<ExclusionRule>, taken: Option<string>)
    requires rules != [] && DistinctIds(rules)
    ensures var m := |rules| - 1;
            && (Names(rules, taken) <==> Names(rules[..m], taken) || taken == Some(rules[m].id))
            && !(Names(rules[..m], taken) && taken == Some(rules[m].id))
  {
    var front := rules[..|rules| - 1];
    assert forall i :: 0 <= i < |front| ==> front[i] == rules[i];
  }

  lemma {:induction false} OnePathOneBucket(paths: seq<string>, plan: Plan, rules: seq<ExclusionRule>)
    requires paths != [] && DistinctIds(rules)
    ensures var n := |paths| - 1;
            SizeOf(paths, plan, rules) ==
            SizeOf(paths[..n], plan, rules) + if Names(rules, TakenBy(plan, paths[n])) then 1 else 0
  {
    if rules == [] {
    } else {
      OnePathOneBucket(paths, plan, rules[..|rules| - 1]);
      NamesOneMore(rules, TakenBy(plan, paths[|paths| - 1]));
    }
  }

  /** Every path is counted once: among those read, or in one rule's bucket. */
  lemma {:induction false} EveryPathIsCountedOnce(paths: seq<string>, plan: Plan)
    requires DistinctIds(plan.exclusions)
    ensures |paths| == |Share(paths, plan, None)| + SizeOf(paths, plan, plan.exclusions)
  {
    if paths == [] {
      NothingHasNoSize(plan, plan.exclusions);
    } else {
      var n := |paths| - 1;
      EveryPathIsCountedOnce(paths[..n], plan);
      OnePathOneBucket(paths, plan, plan.exclusions);
      TakenByARule(plan, paths[n]);
      if TakenBy(plan, paths[n]).Some? {
        assert Names(plan.exclusions, TakenBy(plan, paths[n]));
      }
    }
  }

  /** No path in two places, and none in no place. */
  lemma PlacesAreDisjoint(paths: seq<string>, plan: Plan, swept: seq<string>, excluded: Buckets, path: string)
    requires IsPartition(paths, plan, swept, excluded)
    ensures path in paths <==> path in swept || exists id :: id in excluded && path in excluded[id]
    ensures path in swept ==> !Excused(plan, path) && forall id :: id in excluded ==> path !in excluded[id]
    ensures forall id, other :: id in excluded && other in excluded && path in excluded[id] && path in excluded[other] ==>
              id == other
  {
    TakenByARule(plan, path);
    var taken := TakenBy(plan, path);
    if path in paths && taken.Some? {
      assert taken.value in excluded && path in excluded[taken.value];
    }
  }

  // ----- the accounting ----------------------------------------------------------------------------

  function SizeIn(excluded: Buckets, id: string): nat {
    if id in excluded then |excluded[id]| else 0
  }

  predicate AccountingFault(plan: Plan, excluded: Buckets, fault: Fault) {
    match fault
    case RuleInert(id) => exists rule :: rule in plan.exclusions && rule.id == id && SizeIn(excluded, id) == 0
    case RuleCountWrong(id, declared, actual) =>
      exists rule :: rule in plan.exclusions && rule.id == id && rule.files == declared != actual == SizeIn(excluded, id) > 0
    case RuleHidesAnchor(id, anchor) =>
      anchor in plan.anchors && exists rule :: rule in plan.exclusions && rule.id == id && rule.Matches(anchor)
    case _ => false
  }

  /** Every fault of the accounting, and no other. */
  method AccountingFaults(plan: Plan, excluded: Buckets) returns (faults: seq<Fault>)
    ensures forall fault :: fault in faults <==> AccountingFault(plan, excluded, fault)
  {
    faults := [];
    var rules := plan.exclusions;
    for k := 0 to |rules|
      invariant forall fault :: fault in faults <==> exists i :: 0 <= i < k && CountFault(rules[i], excluded, fault)
    {
      var actual := SizeIn(excluded, rules[k].id);
      if actual == 0 {
        faults := faults + [RuleInert(rules[k].id)];
      } else if actual != rules[k].files {
        faults := faults + [RuleCountWrong(rules[k].id, rules[k].files, actual)];
      }
    }
    ghost var counts := faults;
    for a := 0 to |plan.anchors|
      invariant forall fault :: fault in faults <==>
                  fault in counts || exists j :: 0 <= j < a && HidingFault(rules, plan.anchors[j], fault)
    {
      var hiding := Hiding(rules, plan.anchors[a]);
      faults := faults + hiding;
    }
    AccountingIsComplete(plan, excluded, counts, faults);
  }

  predicate CountFault(rule: ExclusionRule, excluded: Buckets, fault: Fault) {
    var actual := SizeIn(excluded, rule.id);
    if actual == 0 then fault == RuleInert(rule.id)
    else actual != rule.files && fault == RuleCountWrong(rule.id, rule.files, actual)
  }

  predicate HidingFault(rules: seq<ExclusionRule>, anchor: string, fault: Fault) {
    && fault.RuleHidesAnchor? && fault.anchor == anchor
    && exists rule :: rule in rules && rule.id == fault.rule && rule.Matches(anchor)
  }

  method Hiding(rules: seq<ExclusionRule>, anchor: string) returns (faults: seq<Fault>)
    ensures forall fault :: fault in faults <==> HidingFault(rules, anchor, fault)
  {
    faults := [];
    for k := 0 to |rules|
      invariant forall fault :: fault in faults <==> HidingFault(rules[..k], anchor, fault)
    {
      assert rules[..k + 1] == rules[..k] + [rules[k]];
      if rules[k].Matches(anchor) {
        faults := faults + [RuleHidesAnchor(rules[k].id, anchor)];
      }
    }
    assert rules[..|rules|] == rules;
  }

  lemma AccountingIsComplete(plan: Plan, excluded: Buckets, counts: seq<Fault>, faults: seq<Fault>)
    requires forall fault :: fault in counts <==>
               exists i :: 0 <= i < |plan.exclusions| && CountFault(plan.exclusions[i], excluded, fault)
    requires forall fault :: fault in faults <==>
               fault in counts || exists j :: 0 <= j < |plan.anchors| && HidingFault(plan.exclusions, plan.anchors[j], fault)
    ensures forall fault :: fault in faults <==> AccountingFault(plan, excluded, fault)
  {
    forall fault
      ensures fault in faults <==> AccountingFault(plan, excluded, fault)
    {
      if AccountingFault(plan, excluded, fault) {
        if fault.RuleHidesAnchor? {
          var j :| 0 <= j < |plan.anchors| && plan.anchors[j] == fault.anchor;
          assert HidingFault(plan.exclusions, plan.anchors[j], fault);
        } else {
          var rule :| rule in plan.exclusions && CountFault(rule, excluded, fault);
          var i :| 0 <= i < |plan.exclusions| && plan.exclusions[i] == rule;
          assert CountFault(plan.exclusions[i], excluded, fault);
        }
      }
    }
  }

  // ----- the sweep is not vacuous --------------------------------------------------------------------

  predicate VacuityFault(plan: Plan, swept: seq<string>, fault: Fault) {
    match fault
    case AnchorMissing(anchor) => anchor in plan.anchors && anchor !in swept
    case AreaUnanchored(area) =>
      area in AreaNames(plan) && forall anchor :: anchor in plan.anchors ==> AreaOf(plan, anchor) != area
    case _ => false
  }

  method VacuityFaults(plan: Plan, swept: seq<string>) returns (faults: seq<Fault>)
    ensures forall fault :: fault in faults <==> VacuityFault(plan, swept, fault)
  {
    faults := [];
    var anchored: set<string> := {};
    for k := 0 to |plan.anchors|
      invariant forall fault :: fault in faults <==>
                  fault.AnchorMissing? && fault.anchor in plan.anchors[..k] && fault.anchor !in swept
      invariant anchored == set i | 0 <= i < k :: AreaOf(plan, plan.anchors[i])
    {
      var anchor := plan.anchors[k];
      assert plan.anchors[..k + 1] == plan.anchors[..k] + [anchor];
      if anchor !in swept {
        faults := faults + [AnchorMissing(anchor)];
      }
      var area := FindArea(plan, anchor);
      anchored := anchored + {area};
    }
    assert plan.anchors[..|plan.anchors|] == plan.anchors;
    assert forall area :: area in anchored <==> exists anchor :: anchor in plan.anchors && AreaOf(plan, anchor) == area;
    var names := AreaNames(plan);
    var rest := names;
    while rest != {}
      invariant rest <= names
      invariant forall fault :: fault in faults <==>
                  VacuityFault(plan, swept, fault) && (fault.AreaUnanchored? ==> fault.area !in rest)
    {
      var area :| area in rest;
      if area !in anchored {
        faults := faults + [AreaUnanchored(area)];
      }
      rest := rest - {area};
    }
  }

  // ----- the tree and the walk ----------------------------------------------------------------------------

  function PathsIn(excluded: Buckets): set<string> {
    set id, path | id in excluded && path in excluded[id] :: path
  }

  /** Tracked files that were neither read nor excused. */
  method Unaccounted(tracked: seq<string>, swept: seq<string>, excluded: Buckets) returns (faults: seq<Fault>)
    ensures forall fault :: fault in faults <==>
              fault.UnaccountedFile? && fault.path in tracked && fault.path !in swept && fault.path !in PathsIn(excluded)
  {
    var accounted := set path | path in swept;
    var ids := excluded.Keys;
    while ids != {}
      invariant ids <= excluded.Keys
      invariant forall path :: path in accounted <==>
                  path in swept || exists id :: id in excluded && id !in ids && path in excluded[id]
    {
      var id :| id in ids;
      accounted := accounted + set path | path in excluded[id];
      ids := ids - {id};
    }
    var missing := (set path | path in tracked) - accounted;
    faults := [];
    var rest := missing;
    while rest != {}
      invariant rest <= missing
      invariant forall fault :: fault in faults <==> fault.UnaccountedFile? && fault.path in missing && fault.path !in rest
    {
      var path :| path in rest;
      faults := faults + [UnaccountedFile(path)];
      rest := rest - {path};
    }
  }

  /** It asks whether the walk was given the whole tree: nothing is unaccounted for iff every tracked file was walked. */
  lemma AccountedIffWalked(tracked: seq<string>, paths: seq<string>, plan: Plan, swept: seq<string>, excluded: Buckets)
    requires IsPartition(paths, plan, swept, excluded)
    ensures (forall path :: path in tracked ==> path in swept || path in PathsIn(excluded)) <==>
            (forall path :: path in tracked ==> path in paths)
  {
    forall path
      ensures path in swept || path in PathsIn(excluded) <==> path in paths
    {
      PlacesAreDisjoint(paths, plan, swept, excluded, path);
    }
  }

  // ----- no fault means the tree is accounted for -------------------------------------------------------

  ghost predicate NoFaults(paths: seq<string>, plan: Plan, swept: seq<string>, excluded: Buckets) {
    && (forall path, fault :: path in paths ==> !Overlap(plan, path, fault))
    && (forall fault :: !AccountingFault(plan, excluded, fault))
    && (forall fault :: !VacuityFault(plan, swept, fault))
  }

  /** Each bucket is all that its rule matches, is not empty, and has the declared size. */
  lemma BucketsAreTheRules(paths: seq<string>, plan: Plan, swept: seq<string>, excluded: Buckets, rule: ExclusionRule)
    requires IsPartition(paths, plan, swept, excluded) && NoFaults(paths, plan, swept, excluded)
    requires rule in plan.exclusions
    ensures rule.id in excluded && |excluded[rule.id]| == rule.files > 0
    ensures DistinctIds(plan.exclusions) ==>
              forall path :: path in excluded[rule.id] <==> path in paths && rule.Matches(path)
  {
    var i :| 0 <= i < |plan.exclusions| && plan.exclusions[i] == rule;
    assert rule.id in RuleIds(plan);
    assert !AccountingFault(plan, excluded, RuleInert(rule.id));
    assert !AccountingFault(plan, excluded, RuleCountWrong(rule.id, rule.files, SizeIn(excluded, rule.id)));
    if DistinctIds(plan.exclusions) {
      forall path | path in paths
        ensures TakenBy(plan, path) == Some(rule.id) <==> rule.Matches(path)
      {
        assert !Overlap(plan, path, RuleOverlap(path, |MatchedRules(plan.exclusions, path)|));
        OnlyRule(plan, path, rule);
      }
    }
  }

  lemma OnlyRule(plan: Plan, path: string, rule: ExclusionRule)
    requires DistinctIds(plan.exclusions) && rule in plan.exclusions
    requires |MatchedRules(plan.exclusions, path)| <= 1
    ensures TakenBy(plan, path) == Some(rule.id) <==> rule.Matches(path)
  {
    var ids := MatchedRules(plan.exclusions, path);
    MatchedRulesAre(plan.exclusions, path);
    if rule.Matches(path) {
      assert rule.id in ids;
    }
    if ids != [] && ids[0] == rule.id {
      assert ids[0] in ids;
      var other :| other in plan.exclusions && other.Matches(path) && other.id == rule.id;
      var i :| 0 <= i < |plan.exclusions| && plan.exclusions[i] == rule;
      var j :| 0 <= j < |plan.exclusions| && plan.exclusions[j] == other;
      assert i == j;
    }
  }

  function DeclaredFiles(rules: seq<ExclusionRule>): nat {
    if rules == [] then 0 else DeclaredFiles(rules[..|rules| - 1]) + rules[|rules| - 1].files
  }

  lemma {:induction false} DeclaredSizes(paths: seq<string>, plan: Plan, rules: seq<ExclusionRule>)
    requires forall rule :: rule in rules ==> |Share(paths, plan, Some(rule.id))| == rule.files
    ensures SizeOf(paths, plan, rules) == DeclaredFiles(rules)
  {
    if rules == [] {
    } else {
      var n := |rules| - 1;
      assert rules == rules[..n] + [rules[n]];
      DeclaredSizes(paths, plan, rules[..n]);
    }
  }

  /** With no fault, the files read are the tree less exactly what the plan declares it excuses. */
  lemma SweptIsTheTreeLessTheDeclared(paths: seq<string>, plan: Plan, swept: seq<string>, excluded: Buckets)
    requires DistinctIds(plan.exclusions)
    requires IsPartition(paths, plan, swept, excluded) && NoFaults(paths, plan, swept, excluded)
    ensures |paths| == |swept| + DeclaredFiles(plan.exclusions)
    ensures forall path :: path in swept <==> path in paths && !Excused(plan, path)
  {
    EveryPathIsCountedOnce(paths, plan);
    forall rule | rule in plan.exclusions
      ensures |Share(paths, plan, Some(rule.id))| == rule.files
    {
      BucketsAreTheRules(paths, plan, swept, excluded, rule);
    }
    DeclaredSizes(paths, plan, plan.exclusions);
    forall path
      ensures path in swept <==> path in paths && !Excused(plan, path)
    {
      TakenByARule(plan, path);
    }
  }

  /** With no fault, every area, the residual one too, has an anchor in it that was read. */
  lemma EveryAreaWasRead(paths: seq<string>, plan: Plan, swept: seq<string>, excluded: Buckets, area: string)
    requires IsPartition(paths, plan, swept, excluded) && NoFaults(paths, plan, swept, excluded)
    requires area in AreaNames(plan)
    ensures exists anchor :: anchor in plan.anchors && anchor in swept && AreaOf(plan, anchor) == area
  {
    assert !VacuityFault(plan, swept, AreaUnanchored(area));
    var anchor :| anchor in plan.anchors && AreaOf(plan, anchor) == area;
    assert !VacuityFault(plan, swept, AnchorMissing(anchor));
  }

  /** So every path stands in an area that something proves was read. */
  lemma EveryPathHasAnAnchor(paths: seq<string>, plan: Plan, swept: seq<string>, excluded: Buckets, path: string)
    requires IsPartition(paths, plan, swept, excluded) && NoFaults(paths, plan, swept, excluded)
    ensures exists anchor :: anchor in plan.anchors && anchor in swept && AreaOf(plan, anchor) == AreaOf(plan, path)
  {
    AreaOfIsNamed(plan, path);
    EveryAreaWasRead(paths, plan, swept, excluded, AreaOf(plan, path));
  }

  /** An anchor that was read is hidden by no rule, so the second check can only add a reason to the first. */
  lemma HiddenAnchorsAreMissing(paths: seq<string>, plan: Plan, swept: seq<string>, excluded: Buckets,
                                rule: ExclusionRule, anchor: string)
    requires IsPartition(paths, plan, swept, excluded)
    requires rule in plan.exclusions && anchor in plan.anchors && rule.Matches(anchor)
    ensures AccountingFault(plan, excluded, RuleHidesAnchor(rule.id, anchor))
    ensures VacuityFault(plan, swept, AnchorMissing(anchor))
  {
    TakenByARule(plan, anchor);
  }
}
