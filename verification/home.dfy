/** The home page's `processAssessmentData`: per assessment run and domain, a table
    row of compliance tallies (rescaled to a fixed total for the first run), and a
    global chart over the test cases deduplicated across runs. */
module Home {
  import opened Wrappers
  import opened JsObjects
  import opened JsNumbers
  import opened JsStrings
  import opened ComplianceData
  import opened HomeCharts
  import PolicyAssessment

  // ---------------------------------------------------------------------------
  // Assessment runs

  /** A dated run over some domains; `overrideTotal == 0` is an absent (falsy) override. */
  datatype Run = Run(date: string, domains: seq<string>, overrideTotal: nat)

  const FIRST_RUN_DATE := "2025-03-04"
  const SECOND_RUN_DATE := "2025-03-07"

  /** The fixed number of test cases the first run and the version-1 chart display. */
  const OVERRIDE_TOTAL := 78

  /** The runs listed for the current interpretation version. */
  function AssessmentRuns(showV2: bool): seq<Run> {
    var first := Run(FIRST_RUN_DATE, [OPERATIONAL_RESILIENCE], OVERRIDE_TOTAL);
    if showV2 then [first, Run(SECOND_RUN_DATE, [OPERATIONAL_RESILIENCE, CUSTOMER_COMMUNICATIONS], 0)]
    else [first]
  }

  /** The second run drops `sup15` from operational resilience, and only there. */
  predicate DropsSup15(run: Run, domainKey: string) {
    run.date == SECOND_RUN_DATE && domainKey == OPERATIONAL_RESILIENCE
  }

  predicate Keeps(run: Run, domainKey: string, p: AssessedPolicy) {
    !DropsSup15(run, domainKey) || p.policyCode != SUP15
  }

  /** A policy visited under its regulator key. */
  datatype Visited = Visited(regulator: string, policy: AssessedPolicy)

  /** The policies of one regulator that the run keeps: every record, in order, except
      `sup15` where the run drops it, each tagged with its regulator key. */
  function KeptPolicies(run: Run, domainKey: string, regulator: string, ps: seq<AssessedPolicy>)
    : (r: seq<Visited>)
    ensures forall i :: 0 <= i < |r| ==> r[i].regulator == regulator && Keeps(run, domainKey, r[i].policy)
    ensures var kept := if DropsSup15(run, domainKey) then PolicyAssessment.WithoutSup15(ps) else ps;
            |r| == |kept| && forall i :: 0 <= i < |r| ==> r[i] == Visited(regulator, kept[i])
  {
    if |ps| == 0 then []
    else
      var rest := KeptPolicies(run, domainKey, regulator, ps[1..]);
      if Keeps(run, domainKey, ps[0]) then [Visited(regulator, ps[0])] + rest else rest
  }

  /** The policies of a sequence of visits, in order. */
  function Policies(vs: seq<Visited>): (ps: seq<AssessedPolicy>)
    ensures |ps| == |vs|
    ensures forall i :: 0 <= i < |vs| ==> ps[i] == vs[i].policy
  {
    seq(|vs|, i requires 0 <= i < |vs| => vs[i].policy)
  }

  /** The (regulator, policy) pairs a run visits in one domain, in `Object.entries` order. */
  function RunPolicies(run: Run, domainKey: string, regs: RegulatorPolicies): seq<Visited> {
    if |regs| == 0 then []
    else KeptPolicies(run, domainKey, regs[0].key, regs[0].value) + RunPolicies(run, domainKey, regs[1..])
  }

  lemma PoliciesAppend(a: seq<Visited>, b: seq<Visited>)
    ensures Policies(a + b) == Policies(a) + Policies(b)
  {
    assert forall i :: 0 <= i < |a| + |b| ==> Policies(a + b)[i] == (Policies(a) + Policies(b))[i];
  }

  lemma PoliciesOfKept(run: Run, domainKey: string, regulator: string, ps: seq<AssessedPolicy>)
    ensures Policies(KeptPolicies(run, domainKey, regulator, ps)) ==
            if DropsSup15(run, domainKey) then PolicyAssessment.WithoutSup15(ps) else ps
  {
  }

  /** The policies a run visits in one domain, read from the front. */
  lemma {:induction false} RunPoliciesList(run: Run, domainKey: string, regs: RegulatorPolicies)
    ensures Policies(RunPolicies(run, domainKey, regs)) ==
            if DropsSup15(run, domainKey) then PolicyAssessment.WithoutSup15(PolicyAssessment.RegulatorPolicyList(regs))
            else PolicyAssessment.RegulatorPolicyList(regs)
  {
    if |regs| == 0 {
      assert PolicyAssessment.RegulatorPolicyList(regs) == [];
    } else {
      var head := KeptPolicies(run, domainKey, regs[0].key, regs[0].value);
      var tail := RunPolicies(run, domainKey, regs[1..]);
      RunPoliciesList(run, domainKey, regs[1..]);
      PolicyAssessment.RegulatorPolicyListCons(regs);
      PolicyAssessment.WithoutSup15Append(regs[0].value, PolicyAssessment.RegulatorPolicyList(regs[1..]));
      PoliciesAppend(head, tail);
      PoliciesOfKept(run, domainKey, regs[0].key, regs[0].value);
    }
  }

  /** A run visits every policy record of a domain exactly once, in order, except that
      the second run's operational resilience leaves out `sup15`: the visited policies
      are the assessment page's `sup15` filter of the domain's policy list, and each is
      visited under its own regulator key. */
  lemma {:induction false} RunPoliciesFilter(run: Run, domainKey: string, regs: RegulatorPolicies)
    ensures Policies(RunPolicies(run, domainKey, regs)) ==
            if DropsSup15(run, domainKey) then PolicyAssessment.WithoutSup15(PolicyAssessment.RegulatorPolicyList(regs))
            else PolicyAssessment.RegulatorPolicyList(regs)
    ensures DropsSup15(run, domainKey) ==>
              forall i :: 0 <= i < |RunPolicies(run, domainKey, regs)| ==>
                RunPolicies(run, domainKey, regs)[i].policy.policyCode != SUP15
    ensures !DropsSup15(run, domainKey) ==>
              forall r, j :: 0 <= r < |regs| && 0 <= j < |regs[r].value| ==>
                Visited(regs[r].key, regs[r].value[j]) in RunPolicies(run, domainKey, regs)
  {
    RunPoliciesList(run, domainKey, regs);
    if |regs| > 0 {
      RunPoliciesFilter(run, domainKey, regs[1..]);
      assert forall r :: 1 <= r < |regs| ==> regs[r] == regs[1..][r - 1];
      var head := KeptPolicies(run, domainKey, regs[0].key, regs[0].value);
      if !DropsSup15(run, domainKey) {
        assert forall j :: 0 <= j < |regs[0].value| ==> head[j] == Visited(regs[0].key, regs[0].value[j]);
      }
    }
  }

  /** The assessment page's fetch resolves the same object this page reads, and its
      version-2 render writes the `sup15`-free lists into that object's operational
      resilience. A later first-run row, which keeps every record of the data it is
      given, then visits the filtered list: `sup15` is gone from both runs. */
  lemma SharedDataLosesSup15(data: AssessmentTree, regs: RegulatorPolicies)
    requires Get(data, OPERATIONAL_RESILIENCE) == Some(regs)
    ensures var first := AssessmentRuns(true)[0];
            var shared := PolicyAssessment.RenderAsWritten(data, PolicyAssessment.V2).data;
            && Get(shared, OPERATIONAL_RESILIENCE) == Some(PolicyAssessment.DropSup15(regs))
            && Policies(RunPolicies(first, OPERATIONAL_RESILIENCE, PolicyAssessment.DropSup15(regs))) ==
               PolicyAssessment.WithoutSup15(PolicyAssessment.RegulatorPolicyList(regs))
            && Policies(RunPolicies(first, OPERATIONAL_RESILIENCE, regs)) == PolicyAssessment.RegulatorPolicyList(regs)
  {
    var first := AssessmentRuns(true)[0];
    GetPut(data, OPERATIONAL_RESILIENCE, PolicyAssessment.DropSup15(regs), OPERATIONAL_RESILIENCE);
    RunPoliciesList(first, OPERATIONAL_RESILIENCE, PolicyAssessment.DropSup15(regs));
    RunPoliciesList(first, OPERATIONAL_RESILIENCE, regs);
    PolicyAssessment.RegulatorPolicyListDropSup15(regs);
  }

  // ---------------------------------------------------------------------------
  // Per-domain tally

  /** `total` counts every validation; the category counters only their own status. */
  datatype Tally = Tally(compliant: nat, partial: nat, nonCompliant: nat, total: nat)

  function Known(t: Tally): nat {
    t.compliant + t.partial + t.nonCompliant
  }

  /** One more validation keeps "the known counts make up the total" exactly when its
      status is known. */
  lemma TallyStep(vs: seq<Validation>, t: Tally)
    requires |vs| > 0 && t.total == |vs| - 1 && Known(t) <= t.total
    requires Known(t) == t.total <==> forall i :: 0 <= i < |vs| - 1 ==> IsKnownStatus(vs[1..][i].status)
    ensures var s := vs[0].status;
            var u := Tally(t.compliant + (if s == COMPLIANT then 1 else 0),
                           t.partial + (if s == PARTIAL_COMPLIANCE then 1 else 0),
                           t.nonCompliant + (if s == NON_COMPLIANT then 1 else 0),
                           t.total + 1);
            Known(u) <= u.total && (Known(u) == u.total <==> forall i :: 0 <= i < |vs| ==> IsKnownStatus(vs[i].status))
  {
    assert forall i :: 1 <= i < |vs| ==> vs[i] == vs[1..][i - 1];
  }

  function TallyValidations(vs: seq<Validation>): (t: Tally)
    ensures t.total == |vs|
    ensures t.compliant == CountStatus(vs, COMPLIANT)
    ensures t.partial == CountStatus(vs, PARTIAL_COMPLIANCE)
    ensures t.nonCompliant == CountStatus(vs, NON_COMPLIANT)
    ensures Known(t) <= t.total
    ensures Known(t) == t.total <==> forall i :: 0 <= i < |vs| ==> IsKnownStatus(vs[i].status)
  {
    if |vs| == 0 then Tally(0, 0, 0, 0)
    else
      var t := TallyValidations(vs[1..]);
      TallyStep(vs, t);
      var s := vs[0].status;
      Tally(t.compliant + (if s == COMPLIANT then 1 else 0),
            t.partial + (if s == PARTIAL_COMPLIANCE then 1 else 0),
            t.nonCompliant + (if s == NON_COMPLIANT then 1 else 0),
            t.total + 1)
  }

  /** The validations of the visited policies, in traversal order. */
  function VisitedValidations(ps: seq<Visited>): seq<Validation> {
    if |ps| == 0 then [] else ps[0].policy.validations + VisitedValidations(ps[1..])
  }

  // ---------------------------------------------------------------------------
  // Override reconciliation

  /** The three category values of a chart or row. */
  datatype Counts = Counts(compliant: int, partial: int, nonCompliant: int)

  function Sum(c: Counts): int {
    c.compliant + c.partial + c.nonCompliant
  }

  function At(c: Counts, k: nat): int
    requires k < 3
  {
    if k == 0 then c.compliant else if k == 1 then c.partial else c.nonCompliant
  }

  /** The category that takes the rounding difference: the first of Compliant,
      Partial, Non-Compliant that is at least as large as both others. */
  function LargestCategory(c: Counts): (k: nat)
    ensures k < 3
    ensures forall j :: 0 <= j < 3 ==> At(c, j) <= At(c, k)
    ensures forall j :: 0 <= j < k ==> At(c, j) < At(c, k)
  {
    if c.compliant >= c.partial && c.compliant >= c.nonCompliant then 0
    else if c.partial >= c.compliant && c.partial >= c.nonCompliant then 1
    else 2
  }

  function AddAt(c: Counts, k: nat, d: int): (r: Counts)
    requires k < 3
    ensures forall j :: 0 <= j < 3 ==> At(r, j) == At(c, j) + (if j == k then d else 0)
  {
    if k == 0 then c.(compliant := c.compliant + d)
    else if k == 1 then c.(partial := c.partial + d)
    else c.(nonCompliant := c.nonCompliant + d)
  }

  /** Each category rescaled by `target / total` and rounded (`Math.round`). */
  function Scaled(raw: Counts, total: nat, target: nat): (a: Counts)
    requires total > 0
  {
    Counts(RoundDiv(target * raw.compliant, total),
           RoundDiv(target * raw.partial, total),
           RoundDiv(target * raw.nonCompliant, total))
  }

  /** The difference to `target`, when there is one, goes to the largest category. */
  function Adjust(a: Counts, target: int): Counts {
    if Sum(a) != target then AddAt(a, LargestCategory(a), target - Sum(a)) else a
  }

  /** Rescales three counts to `target`: the rounded shares, with the difference to
      `target` added to the largest share. A zero total yields NaN (None). */
  function Reconcile(raw: Counts, total: nat, target: nat): (r: Option<Counts>)
    ensures total == 0 <==> r.None?
    ensures r.Some? ==> Sum(r.value) == target
    ensures r.Some? ==>
              var a := Scaled(raw, total, target);
              var k := LargestCategory(a);
              forall j :: 0 <= j < 3 && j != k ==> At(r.value, j) == At(a, j)
  {
    if total == 0 then None else Some(Adjust(Scaled(raw, total, target), target))
  }

  /** The rounded shares of counts that make up the whole total lie in 0..target and
      add up to within one of it. */
  lemma ScaledNearTarget(raw: Counts, total: nat, target: nat)
    requires raw.compliant >= 0 && raw.partial >= 0 && raw.nonCompliant >= 0
    requires Sum(raw) == total > 0
    ensures var a := Scaled(raw, total, target);
            && 0 <= a.compliant <= target && 0 <= a.partial <= target && 0 <= a.nonCompliant <= target
            && -1 <= target - Sum(a) <= 1
  {
    var pc, pp, pn := target * raw.compliant, target * raw.partial, target * raw.nonCompliant;
    assert pc + pp + pn == target * total by {
      assert target * (raw.compliant + raw.partial + raw.nonCompliant) == pc + pp + pn;
    }
    RoundedSharesSum(pc, pp, pn, total, target);
    RoundDivScaledBounds(raw.compliant, total, target);
    RoundDivScaledBounds(raw.partial, total, target);
    RoundDivScaledBounds(raw.nonCompliant, total, target);
  }

  /** Moving a difference of at most one onto the largest of three non-negative
      categories leaves all three non-negative. */
  lemma AdjustNonNegative(a: Counts, target: int)
    requires a.compliant >= 0 && a.partial >= 0 && a.nonCompliant >= 0
    requires -1 <= target - Sum(a) <= 1 && target >= 0
    ensures var r := Adjust(a, target);
            r.compliant >= 0 && r.partial >= 0 && r.nonCompliant >= 0
  {
    if Sum(a) != target {
      var k := LargestCategory(a);
      assert At(a, 0) <= At(a, k) && At(a, 1) <= At(a, k) && At(a, 2) <= At(a, k);
      var r := Adjust(a, target);
      assert At(r, 0) >= 0 && At(r, 1) >= 0 && At(r, 2) >= 0;
    }
  }

  /** When every validation has a known status, the rounding difference is -1, 0 or 1,
      and no reconciled category becomes negative. */
  lemma ReconcileDiffBound(raw: Counts, total: nat, target: nat)
    requires raw.compliant >= 0 && raw.partial >= 0 && raw.nonCompliant >= 0
    requires Sum(raw) == total > 0
    ensures var a := Scaled(raw, total, target);
            -1 <= target - Sum(a) <= 1
    ensures var r := Reconcile(raw, total, target).value;
            r.compliant >= 0 && r.partial >= 0 && r.nonCompliant >= 0
  {
    ScaledNearTarget(raw, total, target);
    AdjustNonNegative(Scaled(raw, total, target), target);
  }

  /** Three equal thirds of 100 round to 33 each; the missing one goes to Compliant,
      the first of the tied categories. */
  lemma ReconcileTieGoesToCompliant()
    ensures Reconcile(Counts(1, 1, 1), 3, 100) == Some(Counts(34, 33, 33))
  {
    assert RoundDiv(100, 3) == 33 by {
      RoundDivUnique(100, 3, 33);
    }
  }

  // ---------------------------------------------------------------------------
  // Table rows

  /** A home table row; the three evaluation cells are "count/total" strings. */
  datatype Row = Row(
    id: string,
    lastRun: string,
    policyDetails: string,
    compliant: string,
    partial: string,
    nonCompliant: string)

  predicate Overrides(run: Run) {
    run.date == FIRST_RUN_DATE && run.overrideTotal > 0
  }

  /** The row of one run and domain with its tally. */
  function DomainRow(run: Run, domainKey: string, t: Tally): (row: Row)
    ensures row.id == run.date + "-" + domainKey && row.lastRun == run.date
    ensures row.policyDetails == DomainLabel(domainKey)
  {
    var id := run.date + "-" + domainKey;
    if Overrides(run) then
      var f := Reconcile(Counts(t.compliant, t.partial, t.nonCompliant), t.total, run.overrideTotal);
      var pick := (k: nat) requires k < 3 => if f.Some? then Some(At(f.value, k)) else None;
      Row(id, run.date, DomainLabel(domainKey),
          FractionText(pick(0), run.overrideTotal),
          FractionText(pick(1), run.overrideTotal),
          FractionText(pick(2), run.overrideTotal))
    else
      Row(id, run.date, DomainLabel(domainKey),
          FractionText(Some(t.compliant), t.total),
          FractionText(Some(t.partial), t.total),
          FractionText(Some(t.nonCompliant), t.total))
  }

  /** Rows read back through the pie chart's parser: an overriding run shows the
      reconciled counts over the override (summing to it when the tally is non-empty),
      every other run shows the raw counts over the tally's total. */
  lemma DomainRowCells(run: Run, domainKey: string, t: Tally)
    ensures var row := DomainRow(run, domainKey, t);
            var (c, ct) := ParseFraction(row.compliant);
            var (p, pt) := ParseFraction(row.partial);
            var (n, nt) := ParseFraction(row.nonCompliant);
            if Overrides(run) then
              && ct == pt == nt == Some(run.overrideTotal as int)
              && (t.total > 0 ==> c.Some? && p.Some? && n.Some? &&
                                  c.value + p.value + n.value == run.overrideTotal)
              && (t.total == 0 ==> c.None? && p.None? && n.None?)
            else
              && ct == pt == nt == Some(t.total as int)
              && c == Some(t.compliant as int) && p == Some(t.partial as int)
              && n == Some(t.nonCompliant as int)
  {
    var row := DomainRow(run, domainKey, t);
    if Overrides(run) {
      var f := Reconcile(Counts(t.compliant, t.partial, t.nonCompliant), t.total, run.overrideTotal);
      var pick := (k: nat) requires k < 3 => if f.Some? then Some(At(f.value, k)) else None;
      ParseFractionText(pick(0), run.overrideTotal);
      ParseFractionText(pick(1), run.overrideTotal);
      ParseFractionText(pick(2), run.overrideTotal);
    } else {
      ParseFractionText(Some(t.compliant), t.total);
      ParseFractionText(Some(t.partial), t.total);
      ParseFractionText(Some(t.nonCompliant), t.total);
    }
  }

  // ---------------------------------------------------------------------------
  // Traversal over runs and domains

  /** One run's visit of one domain present in the data. */
  datatype Visit = Visit(run: Run, domainKey: string, policies: seq<Visited>)

  /** The visits of one run: its domains that exist in the data, in the run's order. */
  function RunVisits(run: Run, domains: seq<string>, data: AssessmentTree): (vs: seq<Visit>)
    ensures forall i :: 0 <= i < |vs| ==> vs[i].run == run && vs[i].domainKey in domains &&
                                          HasKey(data, vs[i].domainKey)
    ensures forall d :: d in domains && HasKey(data, d) ==> exists i :: 0 <= i < |vs| && vs[i].domainKey == d
  {
    if |domains| == 0 then []
    else
      var rest := RunVisits(run, domains[1..], data);
      var d := domains[0];
      assert forall e :: e in domains[1..] ==> e in domains;
      match Get(data, d)
      case None => rest
      case Some(regs) =>
        var vs := [Visit(run, d, RunPolicies(run, d, regs))] + rest;
        assert forall i :: 1 <= i < |vs| ==> vs[i] == rest[i - 1];
        assert vs[0].domainKey == d;
        forall e | e in domains && HasKey(data, e)
          ensures exists i :: 0 <= i < |vs| && vs[i].domainKey == e
        {
          if e != d {
            assert e in domains[1..];
            var i :| 0 <= i < |rest| && rest[i].domainKey == e;
            assert vs[i + 1].domainKey == e;
          }
        }
        vs
  }

  function AllVisits(runs: seq<Run>, data: AssessmentTree): seq<Visit> {
    if |runs| == 0 then [] else RunVisits(runs[0], runs[0].domains, data) + AllVisits(runs[1..], data)
  }

  function VisitRow(v: Visit): Row {
    DomainRow(v.run, v.domainKey, TallyValidations(VisitedValidations(v.policies)))
  }

  function Rows(vs: seq<Visit>): (rows: seq<Row>)
    ensures |rows| == |vs|
    ensures forall i :: 0 <= i < |vs| ==> rows[i] == VisitRow(vs[i])
  {
    seq(|vs|, i requires 0 <= i < |vs| => VisitRow(vs[i]))
  }

  // ---------------------------------------------------------------------------
  // Deduplication across runs

  /** `${domainKey}-${regulatorKey}-${policy_code}` */
  function PolicyKey(domainKey: string, regulator: string, code: string): string {
    domainKey + "-" + regulator + "-" + code
  }

  /** `${domainKey}-${regulatorKey}-${policy_code}-${Test_case_no}` */
  function TestCaseKey(domainKey: string, regulator: string, code: string, testCaseNo: string): string {
    PolicyKey(domainKey, regulator, code) + "-" + testCaseNo
  }

  /** The policy keys added to the unique-policy set, in traversal order. */
  function PolicyKeys(vs: seq<Visit>): seq<string> {
    if |vs| == 0 then []
    else VisitPolicyKeys(vs[0].domainKey, vs[0].policies) + PolicyKeys(vs[1..])
  }

  function VisitPolicyKeys(domainKey: string, ps: seq<Visited>): seq<string> {
    if |ps| == 0 then []
    else [PolicyKey(domainKey, ps[0].regulator, ps[0].policy.policyCode)] + VisitPolicyKeys(domainKey, ps[1..])
  }

  /** A `Map.set(testCaseId, status)` call. */
  datatype Write = Write(key: string, status: string)

  /** The test-case writes, in traversal order. */
  function TestCaseWrites(vs: seq<Visit>): seq<Write> {
    if |vs| == 0 then []
    else VisitWrites(vs[0].domainKey, vs[0].policies) + TestCaseWrites(vs[1..])
  }

  function VisitWrites(domainKey: string, ps: seq<Visited>): seq<Write> {
    if |ps| == 0 then []
    else PolicyWrites(domainKey, ps[0].regulator, ps[0].policy.policyCode, ps[0].policy.validations)
         + VisitWrites(domainKey, ps[1..])
  }

  function PolicyWrites(domainKey: string, regulator: string, code: string, vs: seq<Validation>): seq<Write> {
    if |vs| == 0 then []
    else [Write(TestCaseKey(domainKey, regulator, code, vs[0].testCaseNo), vs[0].status)]
         + PolicyWrites(domainKey, regulator, code, vs[1..])
  }

  /** The map after performing the writes in order. */
  function ApplyWrites(ws: seq<Write>): map<string, string> {
    if |ws| == 0 then map[]
    else ApplyWrites(ws[..|ws| - 1])[ws[|ws| - 1].key := ws[|ws| - 1].status]
  }

  /** A key is in the map exactly when some write used it, and it holds the status
      of the last such write. */
  lemma {:induction false} ApplyWritesLastWins(ws: seq<Write>, k: string)
    ensures k in ApplyWrites(ws) <==> exists i :: 0 <= i < |ws| && ws[i].key == k
    ensures k in ApplyWrites(ws) ==>
              exists i :: 0 <= i < |ws| && ws[i].key == k && ApplyWrites(ws)[k] == ws[i].status &&
                          forall j :: i < j < |ws| ==> ws[j].key != k
  {
    if |ws| > 0 {
      var prefix := ws[..|ws| - 1];
      ApplyWritesLastWins(prefix, k);
      assert forall i :: 0 <= i < |prefix| ==> ws[i] == prefix[i];
      if ws[|ws| - 1].key != k && k in ApplyWrites(ws) {
        var i :| 0 <= i < |prefix| && prefix[i].key == k && ApplyWrites(prefix)[k] == prefix[i].status &&
                 forall j :: i < j < |prefix| ==> prefix[j].key != k;
        assert ws[i].key == k;
      }
    }
  }

  /** The number of distinct test cases is at most the number of writes. */
  lemma {:induction false} ApplyWritesSize(ws: seq<Write>)
    ensures |ApplyWrites(ws)| <= |ws|
  {
    if |ws| > 0 {
      ApplyWritesSize(ws[..|ws| - 1]);
    }
  }

  /** Number of distinct test cases whose last status is `status`. */
  function CountWithStatus(m: map<string, string>, status: string): nat {
    |set k | k in m && m[k] == status|
  }

  /** The unique-test-case counts are at most the number of distinct test cases. */
  lemma UniqueCountsBound(m: map<string, string>)
    ensures CountWithStatus(m, COMPLIANT) + CountWithStatus(m, PARTIAL_COMPLIANCE) +
            CountWithStatus(m, NON_COMPLIANT) <= |m|
  {
    var a := set k | k in m && m[k] == COMPLIANT;
    var b := set k | k in m && m[k] == PARTIAL_COMPLIANCE;
    var c := set k | k in m && m[k] == NON_COMPLIANT;
    assert a !! b && (a + b) !! c;
    assert a + b + c <= m.Keys;
    assert |a + b| == |a| + |b|;
    assert |a + b + c| == |a + b| + |c|;
    SubsetSize(a + b + c, m.Keys);
  }

  lemma SubsetSize<T>(a: set<T>, b: set<T>)
    requires a <= b
    ensures |a| <= |b|
  {
    assert b == a + (b - a);
  }

  // ---------------------------------------------------------------------------
  // The processed home data

  /** A chart slice; a NaN value (zero-total rescale) is None. */
  datatype ChartItem = ChartItem(name: string, value: Option<int>)

  /** `totalPolicies` and `totalRules` are `undefined` (None) without assessment data. */
  datatype HomeData = HomeData(
    table: seq<Row>,
    chart: seq<ChartItem>,
    totalPolicies: Option<int>,
    totalRules: Option<int>)

  /** The global chart counts: the unique test cases by last status, rescaled to
      78 with the largest-category adjustment when version 2 is not shown. */
  function ChartCounts(m: map<string, string>, showV2: bool): Option<Counts> {
    var raw := Counts(CountWithStatus(m, COMPLIANT), CountWithStatus(m, PARTIAL_COMPLIANCE),
                      CountWithStatus(m, NON_COMPLIANT));
    if showV2 then Some(raw) else Reconcile(raw, Sum(raw), OVERRIDE_TOTAL)
  }

  function ChartItems(c: Option<Counts>): seq<ChartItem> {
    [ChartItem("Compliant", if c.Some? then Some(c.value.compliant) else None),
     ChartItem("Needs Review", if c.Some? then Some(c.value.partial) else None),
     ChartItem("Non-Compliant", if c.Some? then Some(c.value.nonCompliant) else None)]
  }

  /** `processAssessmentData`: `data` is None when the assessment data or its
      `policy_validation` is missing; `policyData` is the fallback table. */
  function ProcessAssessmentData(data: Option<AssessmentTree>, policyData: seq<Row>, showV2: bool): HomeData {
    match data
    case None => HomeData(policyData, [], None, None)
    case Some(tree) =>
      var visits := AllVisits(AssessmentRuns(showV2), tree);
      var rows := Rows(visits);
      var policies := set k | k in PolicyKeys(visits);
      var testCases := ApplyWrites(TestCaseWrites(visits));
      HomeData(
        if |rows| > 0 then rows else policyData,
        ChartItems(ChartCounts(testCases, showV2)),
        Some(if showV2 then |policies| else 6),
        Some(if showV2 then |testCases| else 78))
  }

  /** Without assessment data the table falls back to `policyData`, the chart is empty
      and the totals are undefined. */
  lemma ProcessWithoutData(policyData: seq<Row>, showV2: bool)
    ensures var h := ProcessAssessmentData(None, policyData, showV2);
            h.table == policyData && h.chart == [] && h.totalPolicies.None? && h.totalRules.None?
  {
  }

  /** With data: the totals are the deduplicated set sizes for version 2 and the
      fixed 6 and 78 otherwise; the version-1 chart values sum to 78 whenever some
      test case has a known status, each between 0 and 78. */
  lemma ProcessTotals(tree: AssessmentTree, policyData: seq<Row>, showV2: bool)
    ensures var h := ProcessAssessmentData(Some(tree), policyData, showV2);
            var visits := AllVisits(AssessmentRuns(showV2), tree);
            var m := ApplyWrites(TestCaseWrites(visits));
            && (showV2 ==> h.totalPolicies == Some(|set k | k in PolicyKeys(visits)|) &&
                           h.totalRules == Some(|m|))
            && (!showV2 ==> h.totalPolicies == Some(6) && h.totalRules == Some(78))
            && |h.chart| == 3
            && (!showV2 && CountWithStatus(m, COMPLIANT) + CountWithStatus(m, PARTIAL_COMPLIANCE) +
                           CountWithStatus(m, NON_COMPLIANT) > 0 ==>
                  && h.chart[0].value.Some? && h.chart[1].value.Some? && h.chart[2].value.Some?
                  && h.chart[0].value.value + h.chart[1].value.value + h.chart[2].value.value == 78
                  && 0 <= h.chart[0].value.value && 0 <= h.chart[1].value.value
                  && 0 <= h.chart[2].value.value)
  {
    var visits := AllVisits(AssessmentRuns(showV2), tree);
    var m := ApplyWrites(TestCaseWrites(visits));
    var raw := Counts(CountWithStatus(m, COMPLIANT), CountWithStatus(m, PARTIAL_COMPLIANCE),
                      CountWithStatus(m, NON_COMPLIANT));
    if !showV2 && Sum(raw) > 0 {
      ReconcileDiffBound(raw, Sum(raw), OVERRIDE_TOTAL);
    }
  }

  /** Every table row comes from one visited (run, domain) pair, in traversal order:
      a domain of a run that is missing from the data produces no row. */
  lemma ProcessRows(tree: AssessmentTree, policyData: seq<Row>, showV2: bool)
    ensures var visits := AllVisits(AssessmentRuns(showV2), tree);
            var h := ProcessAssessmentData(Some(tree), policyData, showV2);
            && (|visits| > 0 ==> |h.table| == |visits| &&
                                 forall i :: 0 <= i < |visits| ==> h.table[i] == VisitRow(visits[i]))
            && (|visits| == 0 ==> h.table == policyData)
            && (forall i :: 0 <= i < |visits| ==> HasKey(tree, visits[i].domainKey))
  {
    var runs := AssessmentRuns(showV2);
    AllVisitsInData(runs, tree);
  }

  lemma {:induction false} AllVisitsInData(runs: seq<Run>, tree: AssessmentTree)
    ensures forall i :: 0 <= i < |AllVisits(runs, tree)| ==> HasKey(tree, AllVisits(runs, tree)[i].domainKey)
  {
    if |runs| > 0 {
      AllVisitsInData(runs[1..], tree);
      var head := RunVisits(runs[0], runs[0].domains, tree);
      var rest := AllVisits(runs[1..], tree);
      var all := head + rest;
      assert AllVisits(runs, tree) == all;
      forall i | 0 <= i < |all|
        ensures HasKey(tree, all[i].domainKey)
      {
        if i >= |head| {
          assert all[i] == rest[i - |head|];
        }
      }
    }
  }

  // ---------------------------------------------------------------------------
  // Key injectivity

  /** The joined keys identify (domain, regulator, code) when no part contains '-'. */
  lemma PolicyKeyInjective(d: string, r: string, c: string, d': string, r': string, c': string)
    requires '-' !in d && '-' !in r && '-' !in c
    requires '-' !in d' && '-' !in r' && '-' !in c'
    requires PolicyKey(d, r, c) == PolicyKey(d', r', c')
    ensures d == d' && r == r' && c == c'
  {
    PolicyKeySplits(d, r, c);
    PolicyKeySplits(d', r', c');
  }

  lemma PolicyKeySplits(d: string, r: string, c: string)
    requires '-' !in d && '-' !in r && '-' !in c
    ensures Split(PolicyKey(d, r, c), '-') == [d, r, c]
  {
    assert PolicyKey(d, r, c) == d + ['-'] + (r + ['-'] + c);
    SplitCons(d, '-', r + ['-'] + c);
    SplitCons(r, '-', c);
    SplitNoSeparator(c, '-');
  }

  /** With hyphenated parts the joined keys collide: two different regulators
      of one domain can share a policy key. */
  lemma PolicyKeyCollision()
    ensures PolicyKey("d", "a-b", "c") == PolicyKey("d", "a", "b-c")
  {
  }
}
