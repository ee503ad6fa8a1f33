/** The policy assessment page: the version filter over `policy_validation`, the
    dashboard statistics (distinct regulators and policy codes, per-domain and
    overall compliance tallies, test cases per regulator), the status labels and
    the document-path lookup of "view source". */
module PolicyAssessment {
  import opened Wrappers
  import opened JsObjects
  import opened JsNumbers
  import opened JsStrings
  import opened ComplianceData

  /** The assessment version picked in the selector. */
  datatype Version = V1 | V2

  // ---------------------------------------------------------------------------
  // Version filter

  /** `policies.filter(p => p.policy_code !== 'sup15')` */
  function WithoutSup15(ps: seq<AssessedPolicy>): (r: seq<AssessedPolicy>)
    ensures |r| <= |ps|
    ensures forall p :: p in r <==> p in ps && p.policyCode != SUP15
  {
    if |ps| == 0 then []
    else
      var rest := WithoutSup15(ps[1..]);
      assert forall p :: p in ps <==> p == ps[0] || p in ps[1..];
      if ps[0].policyCode != SUP15 then [ps[0]] + rest else rest
  }

  /** The filter keeps the survivors' order: it distributes over concatenation. */
  lemma {:induction false} WithoutSup15Append(a: seq<AssessedPolicy>, b: seq<AssessedPolicy>)
    ensures WithoutSup15(a + b) == WithoutSup15(a) + WithoutSup15(b)
  {
    if |a| == 0 {
      assert a + b == b;
    } else {
      assert (a + b)[1..] == a[1..] + b;
      WithoutSup15Append(a[1..], b);
    }
  }

  /** A list without `sup15` passes the filter unchanged; hence filtering twice is
      filtering once. */
  lemma {:induction false} WithoutSup15Idempotent(ps: seq<AssessedPolicy>)
    ensures WithoutSup15(WithoutSup15(ps)) == WithoutSup15(ps)
    ensures (forall i :: 0 <= i < |ps| ==> ps[i].policyCode != SUP15) ==> WithoutSup15(ps) == ps
  {
    if |ps| > 0 {
      WithoutSup15Idempotent(ps[1..]);
      assert forall i :: 1 <= i < |ps| ==> ps[1..][i - 1] == ps[i];
    }
  }

  /** Every regulator list of a domain filtered of `sup15`, keys in place. */
  function DropSup15(regs: RegulatorPolicies): (r: RegulatorPolicies)
    ensures Keys(r) == Keys(regs)
    ensures forall i :: 0 <= i < |r| ==> r[i].value == WithoutSup15(regs[i].value)
  {
    var r := seq(|regs|, i requires 0 <= i < |regs| => Entry(regs[i].key, WithoutSup15(regs[i].value)));
    assert forall i :: 0 <= i < |regs| ==> Keys(r)[i] == Keys(regs)[i];
    r
  }

  lemma {:induction false} DropSup15Idempotent(regs: RegulatorPolicies)
    ensures DropSup15(DropSup15(regs)) == DropSup15(regs)
  {
    var once := DropSup15(regs);
    var twice := DropSup15(once);
    forall i | 0 <= i < |regs|
      ensures twice[i] == once[i]
    {
      WithoutSup15Idempotent(regs[i].value);
      assert twice[i].key == once[i].key by {
        assert Keys(twice)[i] == Keys(once)[i];
      }
    }
  }

  /** The domains shown for a version: version 1 drops `customer_communications`,
      version 2 filters `sup15` out of every `operational_resilience` regulator. The
      top-level object is a copy; the domain objects are shared (see `RenderAsWritten`). */
  function FilterForVersion(tree: AssessmentTree, v: Version): AssessmentTree {
    match v
    case V1 => Delete(tree, CUSTOMER_COMMUNICATIONS)
    case V2 =>
      match Get(tree, OPERATIONAL_RESILIENCE)
      case None => tree
      case Some(regs) => Put(tree, OPERATIONAL_RESILIENCE, DropSup15(regs))
  }

  /** Version 1 hides `customer_communications` and reads every other domain as before;
      with distinct keys it removes exactly that domain's entry. */
  lemma FilterV1(tree: AssessmentTree)
    ensures var r := FilterForVersion(tree, V1);
            && !HasKey(r, CUSTOMER_COMMUNICATIONS)
            && (forall k :: k != CUSTOMER_COMMUNICATIONS ==> Get(r, k) == Get(tree, k))
            && (UniqueKeys(tree) ==>
                  forall i :: 0 <= i < |tree| && tree[i].key == CUSTOMER_COMMUNICATIONS ==>
                    r == tree[..i] + tree[i + 1..])
            && (!HasKey(tree, CUSTOMER_COMMUNICATIONS) ==> r == tree)
  {
    forall k | k != CUSTOMER_COMMUNICATIONS
      ensures Get(Delete(tree, CUSTOMER_COMMUNICATIONS), k) == Get(tree, k)
    {
      GetDelete(tree, CUSTOMER_COMMUNICATIONS, k);
    }
    if UniqueKeys(tree) {
      forall i | 0 <= i < |tree| && tree[i].key == CUSTOMER_COMMUNICATIONS
        ensures Delete(tree, CUSTOMER_COMMUNICATIONS) == tree[..i] + tree[i + 1..]
      {
        DeleteRemovesOneEntry(tree, CUSTOMER_COMMUNICATIONS, i);
      }
    }
    if !HasKey(tree, CUSTOMER_COMMUNICATIONS) {
      DeleteAbsent(tree, CUSTOMER_COMMUNICATIONS);
    }
  }

  /** Version 2 keeps every domain in place; only `operational_resilience` changes,
      to its regulator lists without `sup15`. */
  lemma FilterV2(tree: AssessmentTree)
    ensures var r := FilterForVersion(tree, V2);
            && Keys(r) == Keys(tree)
            && (forall k :: k != OPERATIONAL_RESILIENCE ==> Get(r, k) == Get(tree, k))
            && (match Get(tree, OPERATIONAL_RESILIENCE)
                case None => r == tree
                case Some(regs) => Get(r, OPERATIONAL_RESILIENCE) == Some(DropSup15(regs)))
  {
    match Get(tree, OPERATIONAL_RESILIENCE)
    case None =>
    case Some(regs) =>
      PutKeys(tree, OPERATIONAL_RESILIENCE, DropSup15(regs));
      forall k
        ensures Get(Put(tree, OPERATIONAL_RESILIENCE, DropSup15(regs)), k) ==
                (if k == OPERATIONAL_RESILIENCE then Some(DropSup15(regs)) else Get(tree, k))
      {
        GetPut(tree, OPERATIONAL_RESILIENCE, DropSup15(regs), k);
      }
  }

  /** Filtering a filtered view again changes nothing. */
  lemma FilterIdempotent(tree: AssessmentTree, v: Version)
    ensures FilterForVersion(FilterForVersion(tree, v), v) == FilterForVersion(tree, v)
  {
    match v
    case V1 =>
      var r := Delete(tree, CUSTOMER_COMMUNICATIONS);
      DeleteAbsent(r, CUSTOMER_COMMUNICATIONS);
    case V2 =>
      match Get(tree, OPERATIONAL_RESILIENCE)
      case None =>
      case Some(regs) =>
        var once := Put(tree, OPERATIONAL_RESILIENCE, DropSup15(regs));
        GetPut(tree, OPERATIONAL_RESILIENCE, DropSup15(regs), OPERATIONAL_RESILIENCE);
        DropSup15Idempotent(regs);
        PutPut(tree, OPERATIONAL_RESILIENCE, DropSup15(regs), DropSup15(DropSup15(regs)));
  }

  // ---------------------------------------------------------------------------
  // Rendering history: the filter's effect on the fetched data

  /** What one render leaves behind: the view it shows and the fetched data as it
      is afterwards. */
  datatype Rendered = Rendered(view: AssessmentTree, data: AssessmentTree)

  /** As written, the version-2 filter assigns the filtered lists into the
      `operational_resilience` object of the shallow copy, which is the fetched
      object itself: the fetched data loses `sup15` too. */
  function RenderAsWritten(data: AssessmentTree, v: Version): Rendered {
    var view := FilterForVersion(data, v);
    Rendered(view, if v == V2 then view else data)
  }

  /** The views shown by rendering `versions` in turn, each render seeing the data
      the previous one left. */
  function ViewsAsWritten(data: AssessmentTree, versions: seq<Version>): seq<AssessmentTree>
    decreases |versions|
  {
    if |versions| == 0 then []
    else
      var step := RenderAsWritten(data, versions[0]);
      [step.view] + ViewsAsWritten(step.data, versions[1..])
  }

  /** The fetched data after one render: unchanged. */
  function Render(data: AssessmentTree, v: Version): (r: Rendered)
    ensures r.data == data
  {
    Rendered(FilterForVersion(data, v), data)
  }

  function Views(data: AssessmentTree, versions: seq<Version>): seq<AssessmentTree>
    decreases |versions|
  {
    if |versions| == 0 then []
    else
      var step := Render(data, versions[0]);
      [step.view] + Views(step.data, versions[1..])
  }

  /** Each view depends only on its own version, not on what was shown before. */
  lemma {:induction false} ViewsIndependentOfHistory(data: AssessmentTree, versions: seq<Version>)
    ensures |Views(data, versions)| == |versions|
    ensures forall i :: 0 <= i < |versions| ==> Views(data, versions)[i] == FilterForVersion(data, versions[i])
  {
    if |versions| > 0 {
      ViewsIndependentOfHistory(data, versions[1..]);
      assert forall i :: 1 <= i < |versions| ==> versions[1..][i - 1] == versions[i];
    }
  }

  /** One FCA policy `sup15` under operational resilience. */
  function Sup15Data(): AssessmentTree {
    [Entry(OPERATIONAL_RESILIENCE, [Entry("FCA", [AssessedPolicy(SUP15, [])])])]
  }

  /** Showing version 2 and then version 1 loses `sup15` from the version-1 view,
      which the version-1 filter alone keeps. */
  lemma ViewsAsWrittenLoseSup15()
    ensures var shown := ViewsAsWritten(Sup15Data(), [V2, V1]);
            && Get(shown[1], OPERATIONAL_RESILIENCE) == Some([Entry("FCA", [])])
            && Get(FilterForVersion(Sup15Data(), V1), OPERATIONAL_RESILIENCE) ==
               Some([Entry("FCA", [AssessedPolicy(SUP15, [])])])
            && Views(Sup15Data(), [V2, V1])[1] == FilterForVersion(Sup15Data(), V1)
  {
    var data := Sup15Data();
    var regs := [Entry("FCA", [AssessedPolicy(SUP15, [])])];
    assert Get(data, OPERATIONAL_RESILIENCE) == Some(regs);
    assert WithoutSup15(regs[0].value) == [];
    assert DropSup15(regs) == [Entry("FCA", [])];
    var afterV2 := RenderAsWritten(data, V2).data;
    assert afterV2 == [Entry(OPERATIONAL_RESILIENCE, [Entry("FCA", [])])];
    var shown := ViewsAsWritten(data, [V2, V1]);
    assert [V2, V1][1..] == [V1];
    assert shown[1] == FilterForVersion(afterV2, V1);
    assert Delete(afterV2, CUSTOMER_COMMUNICATIONS) == afterV2;
    assert Delete(data, CUSTOMER_COMMUNICATIONS) == data;
    ViewsIndependentOfHistory(data, [V2, V1]);
  }

  // ---------------------------------------------------------------------------
  // Traversal of the filtered tree (`Object.entries` order)

  /** All validations of one domain's regulators. */
  function RegulatorValidations(regs: RegulatorPolicies): seq<Validation> {
    if |regs| == 0 then []
    else RegulatorValidations(regs[..|regs| - 1]) + PolicyValidations(regs[|regs| - 1].value)
  }

  function TreeValidations(tree: AssessmentTree): seq<Validation> {
    if |tree| == 0 then []
    else TreeValidations(tree[..|tree| - 1]) + RegulatorValidations(tree[|tree| - 1].value)
  }

  function RegulatorPolicyList(regs: RegulatorPolicies): seq<AssessedPolicy> {
    if |regs| == 0 then [] else RegulatorPolicyList(regs[..|regs| - 1]) + regs[|regs| - 1].value
  }

  /** Dropping `sup15` regulator by regulator filters the domain's whole policy list. */
  lemma {:induction false} RegulatorPolicyListDropSup15(regs: RegulatorPolicies)
    ensures RegulatorPolicyList(DropSup15(regs)) == WithoutSup15(RegulatorPolicyList(regs))
    decreases |regs|
  {
    if |regs| > 0 {
      var init := regs[..|regs| - 1];
      var dropped := DropSup15(regs);
      assert dropped[..|regs| - 1] == DropSup15(init) by {
        assert Keys(dropped)[..|regs| - 1] == Keys(init) == Keys(DropSup15(init));
        forall i | 0 <= i < |regs| - 1
          ensures dropped[i] == DropSup15(init)[i]
        {
          assert Keys(dropped)[i] == Keys(DropSup15(init))[i];
        }
      }
      RegulatorPolicyListDropSup15(init);
      WithoutSup15Append(RegulatorPolicyList(init), regs[|regs| - 1].value);
    } else {
      assert DropSup15(regs) == [];
    }
  }

  /** The policy list read from the front: the first regulator's policies, then the rest. */
  lemma {:induction false} RegulatorPolicyListCons(regs: RegulatorPolicies)
    requires |regs| > 0
    ensures RegulatorPolicyList(regs) == regs[0].value + RegulatorPolicyList(regs[1..])
    decreases |regs|
  {
    if |regs| > 1 {
      var init := regs[..|regs| - 1];
      RegulatorPolicyListCons(init);
      assert init[1..] == regs[1..][..|regs[1..]| - 1];
      assert init[0] == regs[0];
    } else {
      assert regs[..0] == [];
      assert regs[1..] == [];
    }
  }

  function TreePolicies(tree: AssessmentTree): seq<AssessedPolicy> {
    if |tree| == 0 then [] else TreePolicies(tree[..|tree| - 1]) + RegulatorPolicyList(tree[|tree| - 1].value)
  }

  /** The regulator keys met, across every domain. */
  function TreeRegulators(tree: AssessmentTree): set<string> {
    if |tree| == 0 then {}
    else TreeRegulators(tree[..|tree| - 1]) + KeySet(tree[|tree| - 1].value)
  }

  /** The distinct policy codes of a list. */
  function Codes(ps: seq<AssessedPolicy>): (s: set<string>)
    ensures |s| <= |ps|
    ensures forall c :: c in s <==> exists i :: 0 <= i < |ps| && ps[i].policyCode == c
  {
    if |ps| == 0 then {}
    else
      var prefix := ps[..|ps| - 1];
      var s := Codes(prefix) + {ps[|ps| - 1].policyCode};
      assert forall c :: c in s <==> exists i :: 0 <= i < |ps| && ps[i].policyCode == c by {
        forall c | c in s
          ensures exists i :: 0 <= i < |ps| && ps[i].policyCode == c
        {
          if c in Codes(prefix) {
            var i :| 0 <= i < |prefix| && prefix[i].policyCode == c;
            assert ps[i].policyCode == c;
          } else {
            assert ps[|ps| - 1].policyCode == c;
          }
        }
        forall c, i | 0 <= i < |ps| && ps[i].policyCode == c
          ensures c in s
        {
          if i < |prefix| {
            assert prefix[i].policyCode == c;
          }
        }
      }
      s
  }

  // ---------------------------------------------------------------------------
  // Compliance tallies

  /** The tally of one domain: `total` counts only statuses it tallied. */
  datatype DomainCounts = DomainCounts(compliant: nat, partial: nat, nonCompliant: nat, total: nat)

  function CountAt(c: DomainCounts, k: nat): nat
    requires k < 3
  {
    if k == 0 then c.compliant else if k == 1 then c.partial else c.nonCompliant
  }

  function KnownStatus(k: nat): string
    requires k < 3
  {
    if k == 0 then COMPLIANT else if k == 1 then PARTIAL_COMPLIANCE else NON_COMPLIANT
  }

  /** One validation added to a tally: a known status counts in its category and in
      the total, any other status is skipped. */
  function AddStatus(c: DomainCounts, status: string): DomainCounts {
    if status == COMPLIANT then c.(compliant := c.compliant + 1, total := c.total + 1)
    else if status == PARTIAL_COMPLIANCE then c.(partial := c.partial + 1, total := c.total + 1)
    else if status == NON_COMPLIANT then c.(nonCompliant := c.nonCompliant + 1, total := c.total + 1)
    else c
  }

  /** The tally of a list of validations, counted one by one. */
  function DomainTally(vs: seq<Validation>): (c: DomainCounts)
    ensures forall k :: 0 <= k < 3 ==> CountAt(c, k) == CountStatus(vs, KnownStatus(k))
    ensures c.total == c.compliant + c.partial + c.nonCompliant
    ensures c.total <= |vs|
  {
    if |vs| == 0 then DomainCounts(0, 0, 0, 0)
    else AddStatus(DomainTally(vs[1..]), vs[0].status)
  }

  /** As written: a status passes the `in` test when it is known or an inherited
      member name; the latter bumps the domain total and no category. */
  function AddStatusAsWritten(c: DomainCounts, status: string): DomainCounts {
    if status in PROTOTYPE_MEMBERS && !IsKnownStatus(status) then c.(total := c.total + 1)
    else AddStatus(c, status)
  }

  function DomainTallyAsWritten(vs: seq<Validation>): DomainCounts {
    if |vs| == 0 then DomainCounts(0, 0, 0, 0)
    else AddStatusAsWritten(DomainTallyAsWritten(vs[1..]), vs[0].status)
  }

  /** Without statuses named after inherited object members, the tally as written and
      the corrected tally agree. */
  lemma {:induction false} DomainTallyAsWrittenAgrees(vs: seq<Validation>)
    requires forall i :: 0 <= i < |vs| ==> vs[i].status !in PROTOTYPE_MEMBERS
    ensures DomainTallyAsWritten(vs) == DomainTally(vs)
  {
    if |vs| > 0 {
      assert forall i :: 1 <= i < |vs| ==> vs[1..][i - 1] == vs[i];
      DomainTallyAsWrittenAgrees(vs[1..]);
    }
  }

  /** A validation with status "toString" raises the domain total above the sum of
      its categories, so the domain's percentages no longer add up to 100; the
      skipping tally keeps the two equal. */
  lemma DomainTallyAsWrittenCounterexample()
    ensures var vs := [Validation("TC-1", COMPLIANT), Validation("TC-2", "toString")];
            var c := DomainTallyAsWritten(vs);
            && c == DomainCounts(1, 0, 0, 2)
            && c.total != c.compliant + c.partial + c.nonCompliant
            && DomainTally(vs) == DomainCounts(1, 0, 0, 1)
  {
    var vs := [Validation("TC-1", COMPLIANT), Validation("TC-2", "toString")];
    assert vs[1..][1..] == [];
    assert DomainTallyAsWritten(vs[1..]) == DomainCounts(0, 0, 0, 1);
    assert DomainTally(vs[1..]) == DomainCounts(0, 0, 0, 0);
  }

  // ---------------------------------------------------------------------------
  // Dashboard statistics

  datatype Stats = Stats(
    regulators: set<string>,
    policyCodes: set<string>,
    totalPolicyCount: nat,
    compliant: nat,
    partial: nat,
    nonCompliant: nat,
    domainCompliance: Obj<DomainCounts>,
    totalTestCases: nat)

  /** `domainCompliance`: one tally per domain, each assigned when the domain is met. */
  function DomainCompliance(tree: AssessmentTree): Obj<DomainCounts> {
    if |tree| == 0 then []
    else
      var last := tree[|tree| - 1];
      Put(DomainCompliance(tree[..|tree| - 1]), last.key, DomainTally(RegulatorValidations(last.value)))
  }

  /** The statistics the aggregation loop leaves in `stats`, built on the corrected tally
      `DomainTally`; by `DomainTallyAsWrittenAgrees` this is the loop as written whenever
      no status is the name of an inherited object member. */
  function AggregateStats(tree: AssessmentTree): Stats {
    var overall := DomainTally(TreeValidations(tree));
    var policies := TreePolicies(tree);
    Stats(TreeRegulators(tree), Codes(policies), |policies|,
          overall.compliant, overall.partial, overall.nonCompliant,
          DomainCompliance(tree), |TreeValidations(tree)|)
  }

  /** The policies figure: the raw number of policy records for version 2, the number
      of distinct policy codes for version 1, which is never larger. */
  function TotalPolicies(s: Stats, v: Version): nat {
    if v == V2 then s.totalPolicyCount else |s.policyCodes|
  }

  lemma TotalPoliciesBound(tree: AssessmentTree, v: Version)
    ensures TotalPolicies(AggregateStats(tree), v) <= |TreePolicies(tree)|
    ensures v == V2 ==> TotalPolicies(AggregateStats(tree), v) == |TreePolicies(tree)|
  {
  }

  /** Sum over the domain tallies of category `k` (or of the totals when `k == 3`). */
  function SumAt(o: Obj<DomainCounts>, k: nat): nat
    requires k <= 3
  {
    if |o| == 0 then 0
    else
      var c := o[|o| - 1].value;
      SumAt(o[..|o| - 1], k) + (if k == 3 then c.total else CountAt(c, k))
  }

  /** With distinct domain keys every domain's tally is appended: one tally per
      domain, in the domains' order. */
  lemma {:induction false} DomainComplianceKeys(tree: AssessmentTree)
    requires UniqueKeys(tree)
    ensures Keys(DomainCompliance(tree)) == Keys(tree)
    ensures |tree| > 0 ==>
              DomainCompliance(tree) ==
              DomainCompliance(tree[..|tree| - 1]) +
              [Entry(tree[|tree| - 1].key, DomainTally(RegulatorValidations(tree[|tree| - 1].value)))]
  {
    if |tree| > 0 {
      var prefix := tree[..|tree| - 1];
      var last := tree[|tree| - 1];
      LastKeyFresh(tree);
      KeysSnoc(tree);
      DomainComplianceKeys(prefix);
      var before := DomainCompliance(prefix);
      var tally := DomainTally(RegulatorValidations(last.value));
      HasKeyIsKey(before, last.key);
      HasKeyIsKey(prefix, last.key);
      assert !HasKey(before, last.key);
      PutAbsentAppends(before, last.key, tally);
      assert DomainCompliance(tree) == before + [Entry(last.key, tally)];
      KeysSnoc(before + [Entry(last.key, tally)]);
      assert (before + [Entry(last.key, tally)])[..|before|] == before;
    }
  }

  /** With distinct domain keys: the overall count of each status is the sum of the
      domain counts, and so is the sum of the domain totals, which never exceeds the
      number of test cases. */
  lemma {:induction false} DomainComplianceSums(tree: AssessmentTree)
    requires UniqueKeys(tree)
    ensures forall k :: 0 <= k < 3 ==> SumAt(DomainCompliance(tree), k) == CountStatus(TreeValidations(tree), KnownStatus(k))
    ensures SumAt(DomainCompliance(tree), 3) ==
            SumAt(DomainCompliance(tree), 0) + SumAt(DomainCompliance(tree), 1) + SumAt(DomainCompliance(tree), 2)
    ensures SumAt(DomainCompliance(tree), 3) <= |TreeValidations(tree)|
  {
    if |tree| > 0 {
      var prefix := tree[..|tree| - 1];
      var last := tree[|tree| - 1];
      LastKeyFresh(tree);
      DomainComplianceSums(prefix);
      DomainComplianceKeys(tree);
      var after := DomainCompliance(tree);
      assert after[..|after| - 1] == DomainCompliance(prefix);
      var tally := after[|after| - 1].value;
      assert tally == DomainTally(RegulatorValidations(last.value));
      forall k | 0 <= k < 3
        ensures SumAt(after, k) == CountStatus(TreeValidations(tree), KnownStatus(k))
      {
        CountStatusAppend(TreeValidations(prefix), RegulatorValidations(last.value), KnownStatus(k));
      }
    }
  }

  /** The per-domain picture agrees with the overall one. */
  lemma StatsConsistent(tree: AssessmentTree)
    requires UniqueKeys(tree)
    ensures var s := AggregateStats(tree);
            && Keys(s.domainCompliance) == Keys(tree)
            && s.compliant == SumAt(s.domainCompliance, 0)
            && s.partial == SumAt(s.domainCompliance, 1)
            && s.nonCompliant == SumAt(s.domainCompliance, 2)
            && s.compliant + s.partial + s.nonCompliant <= s.totalTestCases
  {
    DomainComplianceKeys(tree);
    DomainComplianceSums(tree);
    var overall := DomainTally(TreeValidations(tree));
    assert CountAt(overall, 0) == CountStatus(TreeValidations(tree), KnownStatus(0));
    assert CountAt(overall, 1) == CountStatus(TreeValidations(tree), KnownStatus(1));
    assert CountAt(overall, 2) == CountStatus(TreeValidations(tree), KnownStatus(2));
  }

  // ---------------------------------------------------------------------------
  // Test cases per regulator (`prepareRegulatoryData`)

  /** One domain's regulators added to the counters, in order. */
  function AddRegulators(counts: Obj<int>, regs: RegulatorPolicies): Obj<int> {
    if |regs| == 0 then counts
    else
      var last := regs[|regs| - 1];
      AddTo(AddRegulators(counts, regs[..|regs| - 1]), last.key, ValidationCount(last.value))
  }

  function RegulatorDistribution(tree: AssessmentTree): Obj<int> {
    if |tree| == 0 then []
    else AddRegulators(RegulatorDistribution(tree[..|tree| - 1]), tree[|tree| - 1].value)
  }

  lemma {:induction false} AddRegulatorsUnique(counts: Obj<int>, regs: RegulatorPolicies)
    requires UniqueKeys(counts)
    ensures UniqueKeys(AddRegulators(counts, regs))
  {
    if |regs| > 0 {
      var last := regs[|regs| - 1];
      AddRegulatorsUnique(counts, regs[..|regs| - 1]);
      AddToKeepsUniqueKeys(AddRegulators(counts, regs[..|regs| - 1]), last.key, ValidationCount(last.value));
    }
  }

  lemma {:induction false} AddRegulatorsSum(counts: Obj<int>, regs: RegulatorPolicies)
    ensures SumValues(AddRegulators(counts, regs)) == SumValues(counts) + |RegulatorValidations(regs)|
  {
    if |regs| > 0 {
      AddRegulatorsSum(counts, regs[..|regs| - 1]);
      ValidationCountIsLength(regs[|regs| - 1].value);
    }
  }

  lemma {:induction false} AddRegulatorsKeys(counts: Obj<int>, regs: RegulatorPolicies)
    ensures forall k :: k in Keys(AddRegulators(counts, regs)) <==> k in Keys(counts) || k in Keys(regs)
  {
    if |regs| > 0 {
      var prefix := regs[..|regs| - 1];
      var last := regs[|regs| - 1];
      AddRegulatorsKeys(counts, prefix);
      var before := AddRegulators(counts, prefix);
      HasKeyIsKey(before, last.key);
      AddToKeySet(before, last.key, ValidationCount(last.value));
      KeysSnoc(regs);
      forall k
        ensures k in Keys(AddRegulators(counts, regs)) <==> k in Keys(counts) || k in Keys(regs)
      {
        assert k in Keys(regs) <==> k in Keys(prefix) || k == last.key;
        assert k in Keys(AddRegulators(counts, regs)) <==> k in KeySet(before) || k == last.key;
      }
    }
  }

  /** The regulator distribution has one entry per distinct regulator key, and its
      values add up to the number of test cases. */
  lemma {:induction false} RegulatorDistributionShape(tree: AssessmentTree)
    ensures UniqueKeys(RegulatorDistribution(tree))
    ensures SumValues(RegulatorDistribution(tree)) == |TreeValidations(tree)| == AggregateStats(tree).totalTestCases
    ensures forall k :: k in Keys(RegulatorDistribution(tree)) <==> k in AggregateStats(tree).regulators
  {
    if |tree| > 0 {
      RegulatorDistributionShape(tree[..|tree| - 1]);
      var before := RegulatorDistribution(tree[..|tree| - 1]);
      AddRegulatorsUnique(before, tree[|tree| - 1].value);
      AddRegulatorsSum(before, tree[|tree| - 1].value);
      AddRegulatorsKeys(before, tree[|tree| - 1].value);
    }
  }

  // ---------------------------------------------------------------------------
  // Percentages

  /** A number `Math.round(count / total * 100)` can evaluate to for a count and
      total that are not negative. */
  datatype RoundedPercent = Percent(value: int) | Infinity | NotANumber

  /** `Math.round((count / total) * 100)` on exact rationals; there is no zero guard. */
  function SharePercent(count: nat, total: nat): (r: RoundedPercent)
    ensures total > 0 ==> r.Percent? && total * (2 * r.value - 1) <= 200 * count < total * (2 * r.value + 1)
    ensures total > 0 && count <= total ==> 0 <= r.value <= 100
    ensures total == 0 ==> (r.NotANumber? <==> count == 0) && (r.Infinity? <==> count > 0)
  {
    if total == 0 then (if count == 0 then NotANumber else Infinity)
    else
      var r := RoundDiv(100 * count, total);
      assert count <= total ==> 0 <= r <= 100 by {
        if count <= total {
          RoundDivScaledBounds(count, total, 100);
        }
      }
      Percent(r)
  }

  datatype Breakdown = Breakdown(compliant: RoundedPercent, needsReview: RoundedPercent, nonCompliant: RoundedPercent)

  /** A domain card's three percentages, each against the domain total. */
  function DomainBreakdown(c: DomainCounts): Breakdown {
    Breakdown(SharePercent(c.compliant, c.total), SharePercent(c.partial, c.total),
              SharePercent(c.nonCompliant, c.total))
  }

  /** A domain's percentages lie in 0..100 and add up to 99, 100 or 101; a domain
      with no tallied test case shows NaN three times. */
  lemma DomainBreakdownSum(vs: seq<Validation>)
    ensures var c := DomainTally(vs);
            var b := DomainBreakdown(c);
            && (c.total > 0 ==>
                  && 0 <= b.compliant.value <= 100 && 0 <= b.needsReview.value <= 100
                  && 0 <= b.nonCompliant.value <= 100
                  && 99 <= b.compliant.value + b.needsReview.value + b.nonCompliant.value <= 101)
            && (c.total == 0 ==> b == Breakdown(NotANumber, NotANumber, NotANumber))
  {
    var c := DomainTally(vs);
    if c.total > 0 {
      RoundedSharesSum(100 * c.compliant, 100 * c.partial, 100 * c.nonCompliant, c.total, 100);
    }
  }

  /** The overall card: each status against every test case, tallied or not. */
  function OverallBreakdown(s: Stats): Breakdown {
    Breakdown(SharePercent(s.compliant, s.totalTestCases), SharePercent(s.partial, s.totalTestCases),
              SharePercent(s.nonCompliant, s.totalTestCases))
  }

  /** The overall percentages lie in 0..100 once there is a test case; when every
      status is known they add up to 99, 100 or 101. */
  lemma OverallBreakdownBounds(tree: AssessmentTree)
    ensures var s := AggregateStats(tree);
            var b := OverallBreakdown(s);
            s.totalTestCases > 0 ==>
              && 0 <= b.compliant.value <= 100 && 0 <= b.needsReview.value <= 100
              && 0 <= b.nonCompliant.value <= 100
              && (s.compliant + s.partial + s.nonCompliant == s.totalTestCases ==>
                    99 <= b.compliant.value + b.needsReview.value + b.nonCompliant.value <= 101)
  {
    var s := AggregateStats(tree);
    if s.totalTestCases > 0 && s.compliant + s.partial + s.nonCompliant == s.totalTestCases {
      RoundedSharesSum(100 * s.compliant, 100 * s.partial, 100 * s.nonCompliant, s.totalTestCases, 100);
    }
  }

  // ---------------------------------------------------------------------------
  // Status labels

  /** `getComplianceDisplayName`: only "Partial Compliance" is renamed. */
  function DisplayName(status: string): (r: string)
    ensures status == PARTIAL_COMPLIANCE ==> r == "Needs review"
    ensures status != PARTIAL_COMPLIANCE ==> r == status
  {
    if status == PARTIAL_COMPLIANCE then "Needs review" else status
  }

  /** The display name changes exactly one status, and no other status is shown as
      "Needs review" unless that is its own text. */
  lemma DisplayNameChanges(status: string)
    ensures DisplayName(status) != status <==> status == PARTIAL_COMPLIANCE
  {
  }

  /** `getComplianceChipColor` */
  function ChipColor(status: string): (r: string)
    ensures r == "default" <==> !IsKnownStatus(status)
    ensures r == "success" <==> status == COMPLIANT
    ensures r == "error" <==> status == NON_COMPLIANT
    ensures r == "warning" <==> status == PARTIAL_COMPLIANCE
  {
    if status == COMPLIANT then "success"
    else if status == NON_COMPLIANT then "error"
    else if status == PARTIAL_COMPLIANCE then "warning"
    else "default"
  }

  // ---------------------------------------------------------------------------
  // Document path of "view source"

  /** The PDF path of a test case's policy: the domain lower-cased, the first
      regulator object for the regulator, its first policy with the code; a missing
      or empty path is an error (None), a found one is given a leading slash. */
  function DocumentPath(mapping: MappingTree, domain: string, regulator: string, code: string): (r: Option<string>)
    ensures r.Some? ==> StartsWith(r.value, "/")
    ensures r.Some? <==>
              && Get(mapping, ToLower(domain)).Some?
              && FindGroup(Get(mapping, ToLower(domain)).value, regulator).Some?
              && FindPolicy(FindGroup(Get(mapping, ToLower(domain)).value, regulator).value.policies, code).Some?
              && FindPolicy(FindGroup(Get(mapping, ToLower(domain)).value, regulator).value.policies, code).value.documentPath != ""
  {
    match Get(mapping, ToLower(domain))
    case None => None
    case Some(groups) =>
      match FindGroup(groups, regulator)
      case None => None
      case Some(group) =>
        match FindPolicy(group.policies, code)
        case None => None
        case Some(p) => if p.documentPath == "" then None else Some(EnsureLeadingSlash(p.documentPath))
  }

  /** A found path is the stored one, with a slash prepended only when it lacks one. */
  lemma DocumentPathNormalised(mapping: MappingTree, domain: string, regulator: string, code: string)
    requires DocumentPath(mapping, domain, regulator, code).Some?
    ensures var p := FindPolicy(FindGroup(Get(mapping, ToLower(domain)).value, regulator).value.policies, code).value;
            var r := DocumentPath(mapping, domain, regulator, code).value;
            && (StartsWith(p.documentPath, "/") ==> r == p.documentPath)
            && (!StartsWith(p.documentPath, "/") ==> r == "/" + p.documentPath)
  {
  }
}
