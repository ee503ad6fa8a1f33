/** The rule-mapping page: the dashboard counters computed from the mapping tree
    (unique policies, unique regulators, the regulator pie and the domain bars),
    the initial view that hides customer communications, and the three editors —
    saving an edited mapping, adding a new mapping, and deriving the customer
    communications domain from operational resilience. */
module RuleMapping {
  import opened Wrappers
  import opened JsObjects
  import opened JsStrings
  import opened ComplianceData

  // ---------------------------------------------------------------------------
  // Shown domains

  /** The domains the counters visit: every domain, or all but customer
      communications when that domain is hidden. */
  function Shown(tree: MappingTree, showCC: bool): (ds: MappingTree)
    ensures showCC ==> ds == tree
    ensures !HasKey(ds, CUSTOMER_COMMUNICATIONS) || showCC
    ensures forall e :: e in ds ==> e in tree
  {
    if showCC then tree else Delete(tree, CUSTOMER_COMMUNICATIONS)
  }

  // ---------------------------------------------------------------------------
  // Included policy records

  /** `policies.filter(policy => policy.included !== false)` */
  function Included(ps: seq<MappedPolicy>): (r: seq<MappedPolicy>)
    ensures |r| <= |ps|
    ensures forall p :: p in r <==> p in ps && IsIncluded(p)
  {
    if |ps| == 0 then []
    else
      var prefix, last := ps[..|ps| - 1], ps[|ps| - 1];
      assert ps == prefix + [last];
      var rest := Included(prefix);
      if IsIncluded(last) then rest + [last] else rest
  }

  /** `policies.some(policy => policy.included !== false)` */
  predicate HasIncluded(ps: seq<MappedPolicy>) {
    exists i :: 0 <= i < |ps| && IsIncluded(ps[i])
  }

  lemma HasIncludedIffCount(ps: seq<MappedPolicy>)
    ensures HasIncluded(ps) <==> |Included(ps)| > 0
  {
    if HasIncluded(ps) {
      var i :| 0 <= i < |ps| && IsIncluded(ps[i]);
      assert ps[i] in Included(ps);
    }
    if |Included(ps)| > 0 {
      var p := Included(ps)[0];
      assert p in ps;
      var i :| 0 <= i < |ps| && ps[i] == p;
    }
  }

  /** Included policy records of a domain's regulator groups. */
  function GroupsIncluded(gs: seq<RegulatorGroup>): nat {
    if |gs| == 0 then 0 else |Included(gs[0].policies)| + GroupsIncluded(gs[1..])
  }

  /** Included policy records of a list of domains. */
  function TreeIncluded(ds: MappingTree): nat {
    if |ds| == 0 then 0 else GroupsIncluded(ds[0].value) + TreeIncluded(ds[1..])
  }

  lemma {:induction false} GroupsIncludedSnoc(gs: seq<RegulatorGroup>)
    requires |gs| > 0
    ensures GroupsIncluded(gs) == GroupsIncluded(gs[..|gs| - 1]) + |Included(gs[|gs| - 1].policies)|
  {
    if |gs| > 1 {
      var tail, init := gs[1..], gs[..|gs| - 1];
      GroupsIncludedSnoc(tail);
      assert GroupsIncluded(init) == |Included(gs[0].policies)| + GroupsIncluded(tail[..|tail| - 1]) by {
        assert init[0] == gs[0] && init[1..] == tail[..|tail| - 1];
      }
      assert tail[|tail| - 1] == gs[|gs| - 1];
    }
  }

  lemma {:induction false} TreeIncludedSnoc(ds: MappingTree)
    requires |ds| > 0
    ensures TreeIncluded(ds) == TreeIncluded(ds[..|ds| - 1]) + GroupsIncluded(ds[|ds| - 1].value)
  {
    if |ds| > 1 {
      var tail, init := ds[1..], ds[..|ds| - 1];
      TreeIncludedSnoc(tail);
      assert TreeIncluded(init) == GroupsIncluded(ds[0].value) + TreeIncluded(tail[..|tail| - 1]) by {
        assert init[0] == ds[0] && init[1..] == tail[..|tail| - 1];
      }
      assert tail[|tail| - 1] == ds[|ds| - 1];
    }
  }

  // ---------------------------------------------------------------------------
  // Unique policies: `${domain}-${policy.policy_code}` of every included policy

  function PolicyIdentifier(domain: string, code: string): string {
    domain + "-" + code
  }

  function PolicyIds(domain: string, ps: seq<MappedPolicy>): (s: set<string>)
    ensures |s| <= |Included(ps)|
    ensures forall id :: id in s <==>
              exists p :: p in ps && IsIncluded(p) && id == PolicyIdentifier(domain, p.policyCode)
  {
    if |ps| == 0 then {}
    else
      var prefix, last := ps[..|ps| - 1], ps[|ps| - 1];
      assert ps == prefix + [last];
      var rest := PolicyIds(domain, prefix);
      if IsIncluded(last) then rest + {PolicyIdentifier(domain, last.policyCode)} else rest
  }

  function GroupIds(domain: string, gs: seq<RegulatorGroup>): (s: set<string>)
    ensures |s| <= GroupsIncluded(gs)
  {
    if |gs| == 0 then {}
    else PolicyIds(domain, gs[0].policies) + GroupIds(domain, gs[1..])
  }

  function TreeIds(ds: MappingTree): (s: set<string>)
    ensures |s| <= TreeIncluded(ds)
  {
    if |ds| == 0 then {}
    else GroupIds(ds[0].key, ds[0].value) + TreeIds(ds[1..])
  }

  /** An identifier is counted exactly when some included policy of a shown domain
      carries it. */
  lemma {:induction false} TreeIdsMembers(ds: MappingTree, id: string)
    ensures id in TreeIds(ds) <==> exists i :: 0 <= i < |ds| && IdInGroups(ds[i].key, ds[i].value, id)
  {
    if |ds| > 0 {
      TreeIdsMembers(ds[1..], id);
      GroupIdsMembers(ds[0].key, ds[0].value, id);
      if id in TreeIds(ds[1..]) {
        var i :| 0 <= i < |ds[1..]| && IdInGroups(ds[1..][i].key, ds[1..][i].value, id);
        assert ds[i + 1] == ds[1..][i];
      }
      if exists i :: 0 <= i < |ds| && IdInGroups(ds[i].key, ds[i].value, id) {
        var i :| 0 <= i < |ds| && IdInGroups(ds[i].key, ds[i].value, id);
        if i > 0 {
          assert ds[1..][i - 1] == ds[i];
        }
      }
    }
  }

  /** Some included record of the groups has identifier `id` in `domain`. */
  predicate IdInGroups(domain: string, gs: seq<RegulatorGroup>, id: string) {
    exists j, p :: 0 <= j < |gs| && p in gs[j].policies && IsIncluded(p) &&
                   id == PolicyIdentifier(domain, p.policyCode)
  }

  lemma {:induction false} GroupIdsMembers(domain: string, gs: seq<RegulatorGroup>, id: string)
    ensures id in GroupIds(domain, gs) <==> IdInGroups(domain, gs, id)
  {
    if |gs| > 0 {
      GroupIdsMembers(domain, gs[1..], id);
      if id in GroupIds(domain, gs[1..]) {
        var j, p :| 0 <= j < |gs[1..]| && p in gs[1..][j].policies && IsIncluded(p) &&
                    id == PolicyIdentifier(domain, p.policyCode);
        assert gs[j + 1] == gs[1..][j];
      }
      if IdInGroups(domain, gs, id) {
        var j, p :| 0 <= j < |gs| && p in gs[j].policies && IsIncluded(p) &&
                    id == PolicyIdentifier(domain, p.policyCode);
        if j > 0 {
          assert gs[1..][j - 1] == gs[j];
        }
      }
    }
  }

  // ---------------------------------------------------------------------------
  // Unique regulators: those with at least one included policy

  function GroupRegulators(gs: seq<RegulatorGroup>): set<string> {
    if |gs| == 0 then {}
    else
      var last := gs[|gs| - 1];
      GroupRegulators(gs[..|gs| - 1]) + (if HasIncluded(last.policies) then {last.regulator} else {})
  }

  function TreeRegulators(ds: MappingTree): set<string> {
    if |ds| == 0 then {}
    else TreeRegulators(ds[..|ds| - 1]) + GroupRegulators(ds[|ds| - 1].value)
  }

  /** A regulator is counted exactly when one of its groups in a shown domain has an
      included policy. */
  lemma {:induction false} TreeRegulatorsMembers(ds: MappingTree, reg: string)
    ensures reg in TreeRegulators(ds) <==> exists i :: 0 <= i < |ds| && RegulatorInGroups(ds[i].value, reg)
  {
    if |ds| > 0 {
      var prefix, last := ds[..|ds| - 1], ds[|ds| - 1];
      TreeRegulatorsMembers(prefix, reg);
      GroupRegulatorsMembers(last.value, reg);
      if reg in TreeRegulators(prefix) {
        var i :| 0 <= i < |prefix| && RegulatorInGroups(prefix[i].value, reg);
        assert prefix[i] == ds[i];
      }
      if exists i :: 0 <= i < |ds| && RegulatorInGroups(ds[i].value, reg) {
        var i :| 0 <= i < |ds| && RegulatorInGroups(ds[i].value, reg);
        if i < |prefix| {
          assert prefix[i] == ds[i];
        }
      }
    }
  }

  /** Some group of `reg` has an included record. */
  predicate RegulatorInGroups(gs: seq<RegulatorGroup>, reg: string) {
    exists j :: 0 <= j < |gs| && gs[j].regulator == reg && HasIncluded(gs[j].policies)
  }

  lemma {:induction false} GroupRegulatorsMembers(gs: seq<RegulatorGroup>, reg: string)
    ensures reg in GroupRegulators(gs) <==> RegulatorInGroups(gs, reg)
  {
    if |gs| > 0 {
      var prefix := gs[..|gs| - 1];
      GroupRegulatorsMembers(prefix, reg);
      assert forall j :: 0 <= j < |prefix| ==> prefix[j] == gs[j];
    }
  }

  // ---------------------------------------------------------------------------
  // Regulator distribution: included records per regulator, in first-seen order

  function AddGroups(counts: Obj<int>, gs: seq<RegulatorGroup>): Obj<int> {
    if |gs| == 0 then counts
    else
      var before := AddGroups(counts, gs[..|gs| - 1]);
      var last := gs[|gs| - 1];
      var n := |Included(last.policies)|;
      if n > 0 then AddTo(before, last.regulator, n) else before
  }

  function RegulatorCounts(ds: MappingTree): Obj<int> {
    if |ds| == 0 then []
    else AddGroups(RegulatorCounts(ds[..|ds| - 1]), ds[|ds| - 1].value)
  }

  /** Included records of the groups of regulator `reg`. */
  function RegulatorIncluded(gs: seq<RegulatorGroup>, reg: string): nat {
    if |gs| == 0 then 0
    else
      var last := gs[|gs| - 1];
      RegulatorIncluded(gs[..|gs| - 1], reg) + (if last.regulator == reg then |Included(last.policies)| else 0)
  }

  function TreeRegulatorIncluded(ds: MappingTree, reg: string): nat {
    if |ds| == 0 then 0
    else TreeRegulatorIncluded(ds[..|ds| - 1], reg) + RegulatorIncluded(ds[|ds| - 1].value, reg)
  }

  lemma {:induction false} AddGroupsUnique(counts: Obj<int>, gs: seq<RegulatorGroup>)
    requires UniqueKeys(counts)
    ensures UniqueKeys(AddGroups(counts, gs))
  {
    if |gs| > 0 {
      var last := gs[|gs| - 1];
      AddGroupsUnique(counts, gs[..|gs| - 1]);
      if |Included(last.policies)| > 0 {
        AddToKeepsUniqueKeys(AddGroups(counts, gs[..|gs| - 1]), last.regulator, |Included(last.policies)|);
      }
    }
  }

  lemma {:induction false} AddGroupsSum(counts: Obj<int>, gs: seq<RegulatorGroup>)
    ensures SumValues(AddGroups(counts, gs)) == SumValues(counts) + GroupsIncluded(gs)
  {
    if |gs| > 0 {
      AddGroupsSum(counts, gs[..|gs| - 1]);
      GroupsIncludedSnoc(gs);
    }
  }

  lemma {:induction false} AddGroupsKeys(counts: Obj<int>, gs: seq<RegulatorGroup>)
    ensures KeySet(AddGroups(counts, gs)) == KeySet(counts) + GroupRegulators(gs)
  {
    if |gs| > 0 {
      var prefix, last := gs[..|gs| - 1], gs[|gs| - 1];
      AddGroupsKeys(counts, prefix);
      HasIncludedIffCount(last.policies);
      var before := AddGroups(counts, prefix);
      var n := |Included(last.policies)|;
      if n > 0 {
        AddToKeySet(before, last.regulator, n);
      }
    }
  }

  lemma {:induction false} AddGroupsCount(counts: Obj<int>, gs: seq<RegulatorGroup>, reg: string)
    ensures Get(AddGroups(counts, gs), reg).GetOr(0) == Get(counts, reg).GetOr(0) + RegulatorIncluded(gs, reg)
  {
    if |gs| > 0 {
      var prefix, last := gs[..|gs| - 1], gs[|gs| - 1];
      AddGroupsCount(counts, prefix, reg);
      var n := |Included(last.policies)|;
      if n > 0 {
        GetAddTo(AddGroups(counts, prefix), last.regulator, n, reg);
      }
    }
  }

  /** The regulator distribution has one entry per regulator with an included policy;
      its values add up to the included records, and the value of a regulator is the
      number of its included records. */
  lemma {:induction false} RegulatorCountsShape(ds: MappingTree)
    ensures UniqueKeys(RegulatorCounts(ds))
    ensures KeySet(RegulatorCounts(ds)) == TreeRegulators(ds)
    ensures |RegulatorCounts(ds)| == |TreeRegulators(ds)|
    ensures SumValues(RegulatorCounts(ds)) == TreeIncluded(ds)
  {
    if |ds| > 0 {
      RegulatorCountsShape(ds[..|ds| - 1]);
      var before := RegulatorCounts(ds[..|ds| - 1]);
      AddGroupsUnique(before, ds[|ds| - 1].value);
      AddGroupsSum(before, ds[|ds| - 1].value);
      AddGroupsKeys(before, ds[|ds| - 1].value);
      TreeIncludedSnoc(ds);
    }
    KeySetSize(RegulatorCounts(ds));
  }

  lemma {:induction false} RegulatorCountsValue(ds: MappingTree, reg: string)
    ensures Get(RegulatorCounts(ds), reg).GetOr(0) == TreeRegulatorIncluded(ds, reg)
  {
    if |ds| > 0 {
      RegulatorCountsValue(ds[..|ds| - 1], reg);
      AddGroupsCount(RegulatorCounts(ds[..|ds| - 1]), ds[|ds| - 1].value, reg);
    }
  }

  // ---------------------------------------------------------------------------
  // Domain distribution: included records per shown domain, zero included

  function DomainCounts(ds: MappingTree): Obj<int> {
    if |ds| == 0 then []
    else
      var last := ds[|ds| - 1];
      Put(DomainCounts(ds[..|ds| - 1]), last.key, GroupsIncluded(last.value))
  }

  /** One bar per domain with its number of included records, as a direct definition. */
  function IncludedPerDomain(ds: MappingTree): (bars: Obj<int>)
    ensures |bars| == |ds|
  {
    seq(|ds|, i requires 0 <= i < |ds| => Entry(ds[i].key, GroupsIncluded(ds[i].value)))
  }

  lemma IncludedPerDomainSnoc(ds: MappingTree)
    requires |ds| > 0
    ensures IncludedPerDomain(ds) ==
            IncludedPerDomain(ds[..|ds| - 1]) + [Entry(ds[|ds| - 1].key, GroupsIncluded(ds[|ds| - 1].value))]
  {
  }

  /** Over distinct domain keys the accumulated counts are exactly the direct definition. */
  lemma {:induction false} DomainCountsEntries(ds: MappingTree)
    requires UniqueKeys(ds)
    ensures DomainCounts(ds) == IncludedPerDomain(ds)
    decreases |ds|, 1
  {
    if |ds| > 0 {
      var prefix := ds[..|ds| - 1];
      assert UniqueKeys(prefix) by {
        LastKeyFresh(ds);
      }
      DomainCountsEntries(prefix);
      DomainCountsSnoc(ds);
      IncludedPerDomainSnoc(ds);
    }
  }

  /** A fresh domain appends its bar. */
  lemma {:induction false} DomainCountsSnoc(ds: MappingTree)
    requires UniqueKeys(ds) && |ds| > 0
    ensures DomainCounts(ds) ==
            DomainCounts(ds[..|ds| - 1]) + [Entry(ds[|ds| - 1].key, GroupsIncluded(ds[|ds| - 1].value))]
    decreases |ds|, 0
  {
    var prefix, last := ds[..|ds| - 1], ds[|ds| - 1];
    var before := DomainCounts(prefix);
    LastKeyFresh(ds);
    DomainCountsEntries(prefix);
    assert !HasKey(before, last.key) by {
      assert forall i :: 0 <= i < |before| ==> before[i].key == prefix[i].key;
    }
    PutAbsentAppends(before, last.key, GroupsIncluded(last.value));
  }

  /** The bars add up to the included records of all shown domains. */
  lemma {:induction false} DomainCountsSum(ds: MappingTree)
    requires UniqueKeys(ds)
    ensures SumValues(DomainCounts(ds)) == TreeIncluded(ds)
  {
    if |ds| > 0 {
      var prefix, last := ds[..|ds| - 1], ds[|ds| - 1];
      LastKeyFresh(ds);
      DomainCountsSum(prefix);
      DomainCountsSnoc(ds);
      SumValuesAppend(DomainCounts(prefix), Entry(last.key, GroupsIncluded(last.value)));
      TreeIncludedSnoc(ds);
    }
  }

  // ---------------------------------------------------------------------------
  // Dashboard

  /** The four figures of the dashboard; the chart lists are `{ name, value }` pairs. */
  datatype Dashboard = Dashboard(
    totalPolicies: nat,
    totalRegulators: nat,
    regulatorData: Obj<int>,
    domainData: Obj<int>)

  /** Bar labels: `name.replace(/_/g, ' ').toUpperCase()`. */
  function DomainBars(counts: Obj<int>): (bars: Obj<int>)
    ensures |bars| == |counts|
    ensures forall i :: 0 <= i < |counts| ==> bars[i] == Entry(UpperLabel(counts[i].key), counts[i].value)
  {
    seq(|counts|, i requires 0 <= i < |counts| => Entry(UpperLabel(counts[i].key), counts[i].value))
  }

  /** The dashboard of `data.policies`; every figure is 0 or empty without data. */
  function DashboardOf(data: Option<MappingTree>, showCC: bool): (d: Dashboard)
    ensures data.None? ==> d == Dashboard(0, 0, [], [])
  {
    match data
    case None => Dashboard(0, 0, [], [])
    case Some(tree) =>
      var ds := Shown(tree, showCC);
      Dashboard(|TreeIds(ds)|, |TreeRegulators(ds)|, RegulatorCounts(ds), DomainBars(DomainCounts(ds)))
  }

  /** The dashboard figures agree: the unique-policy count never exceeds the included
      records, which both charts add up to; there is one pie slice per counted regulator
      and one bar per shown domain. */
  lemma DashboardConsistent(tree: MappingTree, showCC: bool)
    requires UniqueKeys(tree)
    ensures var d := DashboardOf(Some(tree), showCC);
            var ds := Shown(tree, showCC);
            && d.totalPolicies <= TreeIncluded(ds)
            && SumValues(d.regulatorData) == TreeIncluded(ds)
            && SumValues(d.domainData) == TreeIncluded(ds)
            && d.totalRegulators == |d.regulatorData|
            && |d.domainData| == |ds|
            && (forall i :: 0 <= i < |ds| ==> d.domainData[i] == Entry(UpperLabel(ds[i].key), GroupsIncluded(ds[i].value)))
  {
    var ds := Shown(tree, showCC);
    if !showCC {
      DeleteKeepsUniqueKeys(tree, CUSTOMER_COMMUNICATIONS);
    }
    RegulatorCountsShape(ds);
    DomainCountsEntries(ds);
    DomainCountsSum(ds);
    var counts := DomainCounts(ds);
    SumValuesSameValues(DomainBars(counts), counts);
  }

  // ---------------------------------------------------------------------------
  // Initial view

  /** The data the page starts from: customer communications is removed when hidden. */
  function InitialView(tree: MappingTree, showCC: bool): (r: MappingTree)
    ensures showCC ==> r == tree
    ensures !showCC ==> !HasKey(r, CUSTOMER_COMMUNICATIONS)
  {
    if !showCC && HasKey(tree, CUSTOMER_COMMUNICATIONS) then Delete(tree, CUSTOMER_COMMUNICATIONS) else tree
  }

  /** Removing the hidden domain up front changes no other domain and no dashboard figure. */
  lemma InitialViewKeepsDashboard(tree: MappingTree, showCC: bool, k: string)
    requires k != CUSTOMER_COMMUNICATIONS
    ensures Get(InitialView(tree, showCC), k) == Get(tree, k)
    ensures DashboardOf(Some(InitialView(tree, showCC)), showCC) == DashboardOf(Some(tree), showCC)
  {
    if !showCC {
      var r := InitialView(tree, showCC);
      if HasKey(tree, CUSTOMER_COMMUNICATIONS) {
        GetDelete(tree, CUSTOMER_COMMUNICATIONS, k);
      }
      DeleteAbsent(r, CUSTOMER_COMMUNICATIONS);
      assert Shown(r, showCC) == Shown(tree, showCC);
    }
  }

  // ---------------------------------------------------------------------------
  // Saving an edited mapping

  /** The mapping opened for editing: its regulator, code and document path. */
  datatype Selection = Selection(regulation: string, policyCode: string, documentPath: string)

  /** The edit form: the `included` checkbox and the comments text. */
  datatype EditForm = EditForm(included: bool, comments: string)

  predicate Selected(sel: Selection, regulator: string, p: MappedPolicy) {
    regulator == sel.regulation && p.policyCode == sel.policyCode && p.documentPath == sel.documentPath
  }

  function ApplyForm(p: MappedPolicy, form: EditForm): MappedPolicy {
    p.(included := Some(form.included), comments := Some(form.comments))
  }

  function SavePolicies(sel: Selection, form: EditForm, regulator: string, ps: seq<MappedPolicy>): (r: seq<MappedPolicy>)
    ensures |r| == |ps|
    ensures forall i :: 0 <= i < |ps| ==> r[i] == if Selected(sel, regulator, ps[i]) then ApplyForm(ps[i], form) else ps[i]
  {
    if |ps| == 0 then []
    else
      var p := ps[0];
      [if Selected(sel, regulator, p) then ApplyForm(p, form) else p] + SavePolicies(sel, form, regulator, ps[1..])
  }

  function SaveGroups(sel: Selection, form: EditForm, gs: seq<RegulatorGroup>): (r: seq<RegulatorGroup>)
    ensures |r| == |gs|
    ensures forall j :: 0 <= j < |gs| ==>
              r[j] == RegulatorGroup(gs[j].regulator, SavePolicies(sel, form, gs[j].regulator, gs[j].policies))
  {
    if |gs| == 0 then []
    else
      [RegulatorGroup(gs[0].regulator, SavePolicies(sel, form, gs[0].regulator, gs[0].policies))] +
      SaveGroups(sel, form, gs[1..])
  }

  /** `handleSaveMapping`: every policy, in every domain, whose regulator, code and
      path equal the selection takes the form's `included` and `comments`. */
  function SaveMapping(data: Option<MappingTree>, sel: Selection, form: EditForm): (r: Option<MappingTree>)
    ensures r.Some? <==> data.Some?
    ensures r.Some? ==> Keys(r.value) == Keys(data.value)
  {
    match data
    case None => None
    case Some(tree) =>
      var r := seq(|tree|, i requires 0 <= i < |tree| => Entry(tree[i].key, SaveGroups(sel, form, tree[i].value)));
      assert Keys(r) == Keys(tree);
      Some(r)
  }

  /** A policy with its `included` flag and comments forgotten. */
  function Identity(p: MappedPolicy): MappedPolicy {
    p.(included := None, comments := None)
  }

  function SkeletonPolicies(ps: seq<MappedPolicy>): seq<MappedPolicy> {
    seq(|ps|, k requires 0 <= k < |ps| => Identity(ps[k]))
  }

  function SkeletonGroups(gs: seq<RegulatorGroup>): seq<RegulatorGroup> {
    seq(|gs|, j requires 0 <= j < |gs| => RegulatorGroup(gs[j].regulator, SkeletonPolicies(gs[j].policies)))
  }

  /** The mapping tree with every policy reduced to its identity. */
  function Skeleton(tree: MappingTree): MappingTree {
    seq(|tree|, i requires 0 <= i < |tree| => Entry(tree[i].key, SkeletonGroups(tree[i].value)))
  }

  /** Saving changes nothing but `included` and `comments`: domains, regulator groups,
      codes and paths keep their places. */
  lemma SaveMappingKeepsSkeleton(tree: MappingTree, sel: Selection, form: EditForm)
    ensures Skeleton(SaveMapping(Some(tree), sel, form).value) == Skeleton(tree)
  {
    var r := SaveMapping(Some(tree), sel, form).value;
    forall i | 0 <= i < |tree|
      ensures SkeletonGroups(r[i].value) == SkeletonGroups(tree[i].value)
    {
      var gs := tree[i].value;
      forall j | 0 <= j < |gs|
        ensures SkeletonPolicies(r[i].value[j].policies) == SkeletonPolicies(gs[j].policies)
      {
        var ps := gs[j].policies;
        var saved := SavePolicies(sel, form, gs[j].regulator, ps);
        assert r[i].value[j].policies == saved;
        assert forall k :: 0 <= k < |ps| ==> Identity(saved[k]) == Identity(ps[k]);
      }
    }
  }

  /** A policy of the saved tree at domain `i`, group `j`, position `k` reads the form's
      values when it is selected, and is the old policy otherwise. */
  lemma SaveMappingAt(tree: MappingTree, sel: Selection, form: EditForm, i: int, j: int, k: int)
    requires 0 <= i < |tree| && 0 <= j < |tree[i].value| && 0 <= k < |tree[i].value[j].policies|
    ensures var r := SaveMapping(Some(tree), sel, form).value;
            var g := tree[i].value[j];
            var p := g.policies[k];
            && 0 <= j < |r[i].value| && 0 <= k < |r[i].value[j].policies|
            && (Selected(sel, g.regulator, p) ==>
                  r[i].value[j].policies[k].included == Some(form.included) &&
                  r[i].value[j].policies[k].comments == Some(form.comments))
            && (!Selected(sel, g.regulator, p) ==> r[i].value[j].policies[k] == p)
            && Identity(r[i].value[j].policies[k]) == Identity(p)
  {
  }

  /** Saving the same form twice is the same as saving it once. */
  lemma SavePoliciesIdempotent(sel: Selection, form: EditForm, regulator: string, ps: seq<MappedPolicy>)
    ensures SavePolicies(sel, form, regulator, SavePolicies(sel, form, regulator, ps)) ==
            SavePolicies(sel, form, regulator, ps)
  {
    var once := SavePolicies(sel, form, regulator, ps);
    var twice := SavePolicies(sel, form, regulator, once);
    forall k | 0 <= k < |ps|
      ensures twice[k] == once[k]
    {
      assert Selected(sel, regulator, once[k]) == Selected(sel, regulator, ps[k]);
    }
  }

  lemma SaveMappingIdempotent(data: Option<MappingTree>, sel: Selection, form: EditForm)
    ensures SaveMapping(SaveMapping(data, sel, form), sel, form) == SaveMapping(data, sel, form)
  {
    if data.Some? {
      var once := SaveMapping(data, sel, form).value;
      var twice := SaveMapping(Some(once), sel, form).value;
      forall i | 0 <= i < |once|
        ensures twice[i] == once[i]
      {
        var gs := once[i].value;
        forall j | 0 <= j < |gs|
          ensures twice[i].value[j] == gs[j]
        {
          var orig := data.value[i].value[j];
          SavePoliciesIdempotent(sel, form, orig.regulator, orig.policies);
        }
        assert twice[i].value == gs;
      }
      assert twice == once;
    }
  }

  // ---------------------------------------------------------------------------
  // Adding a new mapping

  datatype NewMapping = NewMapping(
    regulation: string,
    policyCode: string,
    documentPath: string,
    included: bool,
    comments: string)

  /** The domain a new mapping goes to: customer communications exactly when its path
      mentions it, operational resilience otherwise. */
  function TargetDomain(path: string): (d: string)
    ensures d == CUSTOMER_COMMUNICATIONS <==> Contains(path, CUSTOMER_COMMUNICATIONS)
    ensures d == CUSTOMER_COMMUNICATIONS || d == OPERATIONAL_RESILIENCE
  {
    if Contains(path, CUSTOMER_COMMUNICATIONS) then CUSTOMER_COMMUNICATIONS else OPERATIONAL_RESILIENCE
  }

  function NewPolicy(m: NewMapping): MappedPolicy {
    MappedPolicy(m.policyCode, m.documentPath, Some(m.included), Some(m.comments))
  }

  predicate HasGroup(gs: seq<RegulatorGroup>, reg: string) {
    exists j :: 0 <= j < |gs| && gs[j].regulator == reg
  }

  /** `find(obj => regulation in obj)`, then push: the policy is appended to the first
      group of the regulator, or to a new group at the end when there is none. */
  function AppendToRegulator(gs: seq<RegulatorGroup>, reg: string, p: MappedPolicy): (r: seq<RegulatorGroup>)
    ensures |r| == if HasGroup(gs, reg) then |gs| else |gs| + 1
    ensures !HasGroup(gs, reg) ==> r == gs + [RegulatorGroup(reg, [p])]
    ensures forall j :: 0 <= j < |gs| ==> r[j].regulator == gs[j].regulator
  {
    if |gs| == 0 then [RegulatorGroup(reg, [p])]
    else if gs[0].regulator == reg then [RegulatorGroup(reg, gs[0].policies + [p])] + gs[1..]
    else
      assert HasGroup(gs, reg) <==> HasGroup(gs[1..], reg) by {
        assert forall j :: 1 <= j < |gs| ==> gs[j] == gs[1..][j - 1];
      }
      [gs[0]] + AppendToRegulator(gs[1..], reg, p)
  }

  /** A first group of another regulator is kept and the search goes on behind it. */
  lemma AppendToRegulatorSkip(gs: seq<RegulatorGroup>, reg: string, p: MappedPolicy)
    requires |gs| > 0 && gs[0].regulator != reg
    ensures AppendToRegulator(gs, reg, p) == [gs[0]] + AppendToRegulator(gs[1..], reg, p)
  {
  }

  /** The policy ends up last in the first group of its regulator; every other group is
      unchanged. */
  lemma {:induction false} AppendToRegulatorAt(gs: seq<RegulatorGroup>, reg: string, p: MappedPolicy, j: int)
    requires 0 <= j < |gs| && gs[j].regulator == reg
    requires forall i :: 0 <= i < j ==> gs[i].regulator != reg
    ensures AppendToRegulator(gs, reg, p) == gs[j := RegulatorGroup(reg, gs[j].policies + [p])]
  {
    var g := RegulatorGroup(reg, gs[j].policies + [p]);
    if j == 0 {
      assert gs[j := g] == [g] + gs[1..];
    } else {
      var tail := gs[1..];
      assert forall i :: 0 <= i < j - 1 ==> tail[i] == gs[i + 1];
      AppendToRegulatorAt(tail, reg, p, j - 1);
      assert tail[j - 1] == gs[j];
      AppendToRegulatorSkip(gs, reg, p);
      UpdateBehindHead(gs, j, g);
    }
  }

  /** Replacing an element behind the head is replacing it in the tail. */
  lemma UpdateBehindHead<T>(s: seq<T>, j: int, x: T)
    requires 0 < j < |s|
    ensures s[j := x] == [s[0]] + s[1..][j - 1 := x]
  {
    var l, r := s[j := x], [s[0]] + s[1..][j - 1 := x];
    assert forall i :: 0 <= i < |s| ==> l[i] == r[i];
  }

  lemma {:induction false} IncludedAppend(ps: seq<MappedPolicy>, p: MappedPolicy)
    ensures |Included(ps + [p])| == |Included(ps)| + (if IsIncluded(p) then 1 else 0)
  {
    assert (ps + [p])[..|ps|] == ps;
  }

  /** Adding a policy adds one included record exactly when it is included. */
  lemma {:induction false} AppendToRegulatorIncluded(gs: seq<RegulatorGroup>, reg: string, p: MappedPolicy)
    ensures GroupsIncluded(AppendToRegulator(gs, reg, p)) == GroupsIncluded(gs) + (if IsIncluded(p) then 1 else 0)
  {
    var r := AppendToRegulator(gs, reg, p);
    if |gs| == 0 {
      IncludedAppend([], p);
      assert r[1..] == [];
    } else if gs[0].regulator == reg {
      IncludedAppend(gs[0].policies, p);
      assert r[1..] == gs[1..];
    } else {
      AppendToRegulatorIncluded(gs[1..], reg, p);
      assert r[1..] == AppendToRegulator(gs[1..], reg, p);
    }
  }

  /** `handleSaveNewMapping`: the target domain is created when absent, and the new
      policy is appended under its regulator there. Nothing happens without data. */
  function SaveNewMapping(data: Option<MappingTree>, m: NewMapping): (r: Option<MappingTree>)
    ensures r.Some? <==> data.Some?
  {
    match data
    case None => None
    case Some(tree) =>
      var target := TargetDomain(m.documentPath);
      var groups := Get(tree, target).GetOr([]);
      Some(Put(tree, target, AppendToRegulator(groups, m.regulation, NewPolicy(m))))
  }

  /** After adding a mapping the target domain holds the appended groups, every other
      domain reads as before, and the target domain is new exactly when it was absent. */
  lemma SaveNewMappingEffect(tree: MappingTree, m: NewMapping, k: string)
    ensures var r := SaveNewMapping(Some(tree), m).value;
            var target := TargetDomain(m.documentPath);
            && Get(r, target) == Some(AppendToRegulator(Get(tree, target).GetOr([]), m.regulation, NewPolicy(m)))
            && (k != target ==> Get(r, k) == Get(tree, k))
            && Keys(r) == if HasKey(tree, target) then Keys(tree) else Keys(tree) + [target]
  {
    var target := TargetDomain(m.documentPath);
    var groups := AppendToRegulator(Get(tree, target).GetOr([]), m.regulation, NewPolicy(m));
    GetPut(tree, target, groups, target);
    GetPut(tree, target, groups, k);
    PutKeys(tree, target, groups);
  }

  /** Replacing the groups of a domain changes the included records by the difference. */
  lemma {:induction false} TreeIncludedPut(tree: MappingTree, k: string, gs: seq<RegulatorGroup>)
    ensures TreeIncluded(Put(tree, k, gs)) + GroupsIncluded(Get(tree, k).GetOr([])) == TreeIncluded(tree) + GroupsIncluded(gs)
  {
    if |tree| == 0 {
      assert Put(tree, k, gs)[1..] == [];
    } else if tree[0].key == k {
      assert Put(tree, k, gs)[1..] == tree[1..];
    } else {
      TreeIncludedPut(tree[1..], k, gs);
      assert Put(tree, k, gs)[1..] == Put(tree[1..], k, gs);
    }
  }

  /** A new mapping adds one included record to the tree exactly when it is included. */
  lemma SaveNewMappingIncluded(tree: MappingTree, m: NewMapping)
    ensures TreeIncluded(SaveNewMapping(Some(tree), m).value) == TreeIncluded(tree) + (if m.included then 1 else 0)
  {
    var target := TargetDomain(m.documentPath);
    var groups := Get(tree, target).GetOr([]);
    AppendToRegulatorIncluded(groups, m.regulation, NewPolicy(m));
    TreeIncludedPut(tree, target, AppendToRegulator(groups, m.regulation, NewPolicy(m)));
  }

  /** The regulators the new-mapping dialog offers. */
  const DIALOG_REGULATORS: set<string> := {"FCA", "PRA"}

  /** `handleSaveNewMapping` with its lookup as written: `regulation in obj` also holds
      for an inherited member name, so such a regulation selects the first object of a
      non-empty domain, and pushing onto the inherited member throws a TypeError unless
      that object owns the name. The copy is then dropped and the data stays as it was. */
  function SaveNewMappingAsWritten(data: Option<MappingTree>, m: NewMapping): (r: Option<MappingTree>)
    ensures r.Some? <==> data.Some?
    ensures m.regulation !in PROTOTYPE_MEMBERS ==> r == SaveNewMapping(data, m)
    ensures r != SaveNewMapping(data, m) ==> r == data
  {
    match data
    case None => None
    case Some(tree) =>
      var groups := Get(tree, TargetDomain(m.documentPath)).GetOr([]);
      if m.regulation in PROTOTYPE_MEMBERS && |groups| > 0 && groups[0].regulator != m.regulation then data
      else SaveNewMapping(data, m)
  }

  /** For every regulator the dialog offers, the lookup as written is the model's. */
  lemma DialogSaveAgrees(data: Option<MappingTree>, m: NewMapping)
    requires m.regulation in DIALOG_REGULATORS
    ensures SaveNewMappingAsWritten(data, m) == SaveNewMapping(data, m)
  {
    assert m.regulation !in PROTOTYPE_MEMBERS;
  }

  /** An inherited name as regulation: the code throws and keeps the data, where the
      model appends a new regulator object. */
  lemma SaveNewMappingAsWrittenThrows()
    ensures var tree := [Entry(OPERATIONAL_RESILIENCE, [RegulatorGroup("FCA", [])])];
            var m := NewMapping("toString", "p1", "/docs/a.pdf", true, "");
            && SaveNewMappingAsWritten(Some(tree), m) == Some(tree)
            && SaveNewMapping(Some(tree), m).value != tree
  {
    var tree := [Entry(OPERATIONAL_RESILIENCE, [RegulatorGroup("FCA", [])])];
    var m := NewMapping("toString", "p1", "/docs/a.pdf", true, "");
    SaveNewMappingIncluded(tree, m);
  }

  // ---------------------------------------------------------------------------
  // Deriving customer communications

  /** The file every derived customer-communications policy points to. */
  const CC_DOCUMENT := "/" + CUSTOMER_COMMUNICATIONS + "_policy.pdf"

  /** A derived policy: `CC-` before the code, the last path segment replaced; the
      other fields are kept. */
  function CCPolicy(p: MappedPolicy): MappedPolicy {
    p.(policyCode := "CC-" + p.policyCode, documentPath := ReplaceLastSegment(p.documentPath, CC_DOCUMENT))
  }

  function DeriveCC(gs: seq<RegulatorGroup>): (r: seq<RegulatorGroup>)
    ensures |r| == |gs|
    ensures forall j :: 0 <= j < |gs| ==>
              r[j].regulator == gs[j].regulator && |r[j].policies| == |gs[j].policies|
    ensures forall j, k :: 0 <= j < |gs| && 0 <= k < |gs[j].policies| ==>
              r[j].policies[k] == CCPolicy(gs[j].policies[k])
  {
    seq(|gs|, j requires 0 <= j < |gs| =>
      RegulatorGroup(gs[j].regulator,
        seq(|gs[j].policies|, k requires 0 <= k < |gs[j].policies| => CCPolicy(gs[j].policies[k]))))
  }

  /** A derived policy keeps its flags, prefixes its code, and when its path has a last
      segment the new path ends in the customer-communications document, so that a new
      mapping with this path would go to the customer-communications domain. */
  lemma CCPolicyFields(p: MappedPolicy, i: int)
    ensures CCPolicy(p).included == p.included && CCPolicy(p).comments == p.comments
    ensures CCPolicy(p).policyCode == "CC-" + p.policyCode
    ensures LastSegmentAt(p.documentPath, i) ==>
              CCPolicy(p).documentPath == p.documentPath[..i] + CC_DOCUMENT &&
              TargetDomain(CCPolicy(p).documentPath) == CUSTOMER_COMMUNICATIONS
    ensures (forall j :: !LastSegmentAt(p.documentPath, j)) ==> CCPolicy(p).documentPath == p.documentPath
  {
    if LastSegmentAt(p.documentPath, i) {
      var path := CCPolicy(p).documentPath;
      var n := |CUSTOMER_COMMUNICATIONS|;
      assert path == p.documentPath[..i] + "/" + CUSTOMER_COMMUNICATIONS + "_policy.pdf";
      assert path[i + 1..i + 1 + n] == CUSTOMER_COMMUNICATIONS;
      assert OccursAt(path, CUSTOMER_COMMUNICATIONS, i + 1);
    }
  }

  lemma {:induction false} IncludedSameFlags(ps: seq<MappedPolicy>, qs: seq<MappedPolicy>)
    requires |ps| == |qs|
    requires forall k :: 0 <= k < |ps| ==> ps[k].included == qs[k].included
    ensures |Included(ps)| == |Included(qs)|
  {
    if |ps| > 0 {
      IncludedSameFlags(ps[..|ps| - 1], qs[..|qs| - 1]);
    }
  }

  /** The derived domain has as many included records as the one it copies. */
  lemma {:induction false} DeriveCCIncluded(gs: seq<RegulatorGroup>)
    ensures GroupsIncluded(DeriveCC(gs)) == GroupsIncluded(gs)
  {
    if |gs| > 0 {
      var r := DeriveCC(gs);
      assert |Included(r[0].policies)| == |Included(gs[0].policies)| by {
        IncludedSameFlags(r[0].policies, gs[0].policies);
      }
      assert GroupsIncluded(r[1..]) == GroupsIncluded(gs[1..]) by {
        DeriveCCIncluded(gs[1..]);
        assert r[1..] == DeriveCC(gs[1..]);
      }
    }
  }

  /** The page's mapping data and whether customer communications is shown. */
  datatype MappingView = MappingView(policies: MappingTree, showCC: bool)

  /** `addCustomerCommunicationsPolicy`: without operational resilience in the loaded
      data nothing changes; otherwise the loaded customer-communications domain, or one
      derived from operational resilience, is put into the current data and shown. */
  function AddCustomerCommunications(initial: Option<MappingTree>, view: MappingView): (r: MappingView)
    ensures initial.None? || !HasKey(initial.value, OPERATIONAL_RESILIENCE) ==> r == view
    ensures initial.Some? && HasKey(initial.value, OPERATIONAL_RESILIENCE) ==>
              r.showCC && HasKey(r.policies, CUSTOMER_COMMUNICATIONS)
  {
    if initial.None? || !HasKey(initial.value, OPERATIONAL_RESILIENCE) then view
    else
      var cc := match Get(initial.value, CUSTOMER_COMMUNICATIONS)
                case Some(groups) => groups
                case None => DeriveCC(Get(initial.value, OPERATIONAL_RESILIENCE).value);
      var r := Put(view.policies, CUSTOMER_COMMUNICATIONS, cc);
      GetPut(view.policies, CUSTOMER_COMMUNICATIONS, cc, CUSTOMER_COMMUNICATIONS);
      MappingView(r, true)
  }

  /** The customer-communications domain it puts is the loaded one when there is one,
      otherwise the derived copy of operational resilience; every other domain of the
      current data stays. */
  lemma AddCustomerCommunicationsEffect(initial: MappingTree, view: MappingView, k: string)
    requires HasKey(initial, OPERATIONAL_RESILIENCE)
    ensures var r := AddCustomerCommunications(Some(initial), view);
            && (HasKey(initial, CUSTOMER_COMMUNICATIONS) ==>
                  Get(r.policies, CUSTOMER_COMMUNICATIONS) == Get(initial, CUSTOMER_COMMUNICATIONS))
            && (!HasKey(initial, CUSTOMER_COMMUNICATIONS) ==>
                  Get(r.policies, CUSTOMER_COMMUNICATIONS) == Some(DeriveCC(Get(initial, OPERATIONAL_RESILIENCE).value)))
            && (k != CUSTOMER_COMMUNICATIONS ==> Get(r.policies, k) == Get(view.policies, k))
  {
    var r := AddCustomerCommunications(Some(initial), view);
    var cc := match Get(initial, CUSTOMER_COMMUNICATIONS)
              case Some(groups) => groups
              case None => DeriveCC(Get(initial, OPERATIONAL_RESILIENCE).value);
    assert r.policies == Put(view.policies, CUSTOMER_COMMUNICATIONS, cc);
    GetPut(view.policies, CUSTOMER_COMMUNICATIONS, cc, CUSTOMER_COMMUNICATIONS);
    GetPut(view.policies, CUSTOMER_COMMUNICATIONS, cc, k);
  }

  /** The page after `addCustomerCommunicationsPolicy` as written. Turning the flag on
      re-runs the initialising effect, which replaces the data with a fresh copy of the
      loaded data; only when the flag was already on does the handler's result stand. */
  function AddCustomerCommunicationsAsWritten(initial: Option<MappingTree>, view: MappingView): (r: MappingView)
    ensures view.showCC || initial.None? || !HasKey(initial.value, OPERATIONAL_RESILIENCE) ==>
              r == AddCustomerCommunications(initial, view)
    ensures !view.showCC && initial.Some? && HasKey(initial.value, OPERATIONAL_RESILIENCE) ==>
              r == MappingView(initial.value, true)
  {
    var handled := AddCustomerCommunications(initial, view);
    if initial.Some? && handled.showCC && !view.showCC then MappingView(InitialView(initial.value, true), true)
    else handled
  }

  /** With the flag off and no loaded customer-communications domain, the derived domain
      the handler adds is gone once the effect has run, and so is an earlier edit of the
      current data; the handler's own result keeps both. */
  lemma AddCustomerCommunicationsAsWrittenLosesDomain()
    ensures var policy := MappedPolicy("or1", "/docs/or.pdf", Some(true), None);
            var initial := [Entry(OPERATIONAL_RESILIENCE, [RegulatorGroup("FCA", [policy])])];
            var edited := [Entry(OPERATIONAL_RESILIENCE, [RegulatorGroup("FCA", [policy.(included := Some(false))])])];
            var view := MappingView(edited, false);
            var shown := AddCustomerCommunicationsAsWritten(Some(initial), view);
            var intended := AddCustomerCommunications(Some(initial), view);
            && !HasKey(shown.policies, CUSTOMER_COMMUNICATIONS)
            && Get(shown.policies, OPERATIONAL_RESILIENCE) != Get(edited, OPERATIONAL_RESILIENCE)
            && HasKey(intended.policies, CUSTOMER_COMMUNICATIONS)
            && Get(intended.policies, OPERATIONAL_RESILIENCE) == Get(edited, OPERATIONAL_RESILIENCE)
  {
    var policy := MappedPolicy("or1", "/docs/or.pdf", Some(true), None);
    var initial := [Entry(OPERATIONAL_RESILIENCE, [RegulatorGroup("FCA", [policy])])];
    var edited := [Entry(OPERATIONAL_RESILIENCE, [RegulatorGroup("FCA", [policy.(included := Some(false))])])];
    var view := MappingView(edited, false);
    assert initial[0].key == OPERATIONAL_RESILIENCE;
    AddCustomerCommunicationsEffect(initial, view, OPERATIONAL_RESILIENCE);
  }
}
