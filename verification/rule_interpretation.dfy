/** The rule-interpretation page: the chart statistics of one interpretation version
    (fixed figures for `v1` and `v2`, an aggregation of the interpreted test cases for
    any other version), the version-comparison statistics sorted by date, which
    versions and domains are listed, and the source-document lookup. */
module RuleInterpretation {
  import opened Wrappers
  import opened JsObjects
  import opened JsStrings
  import opened ComplianceData
  import PolicyAssessment

  const FCA := "FCA"
  const PRA := "PRA"
  const V1 := "v1"
  const V2 := "v2"

  /** regulator -> interpreted policies of one domain */
  type Regulations = Obj<seq<InterpretedPolicy>>

  /** `policy_test_cases.length` summed over a list of policies. */
  function TestCaseCount(ps: seq<InterpretedPolicy>): nat {
    if |ps| == 0 then 0 else |ps[0].testCases| + TestCaseCount(ps[1..])
  }

  // ---------------------------------------------------------------------------
  // Dashboard statistics

  datatype DomainStat = DomainStat(name: string, testCases: nat, policies: nat)

  datatype ChartStats = ChartStats(
    byDomain: seq<DomainStat>,
    byRegulator: Obj<int>,
    totalTestCases: nat,
    totalPolicies: nat)

  function DomainTestCases(ds: seq<DomainStat>): nat {
    if |ds| == 0 then 0 else DomainTestCases(ds[..|ds| - 1]) + ds[|ds| - 1].testCases
  }

  function DomainPolicies(ds: seq<DomainStat>): nat {
    if |ds| == 0 then 0 else DomainPolicies(ds[..|ds| - 1]) + ds[|ds| - 1].policies
  }

  /** With customer communications hidden only FCA and PRA are counted. */
  predicate KeepRegulator(showCC: bool, regulator: string) {
    showCC || regulator == FCA || regulator == PRA
  }

  /** What one domain's regulators add: the regulator counters (created at 0 even for
      a regulator without policies), the domain's test cases and its policies. */
  datatype DomainAcc = DomainAcc(byRegulator: Obj<int>, testCases: nat, policies: nat)

  function AddRegulations(counts: Obj<int>, regs: Regulations, showCC: bool): DomainAcc {
    if |regs| == 0 then DomainAcc(counts, 0, 0)
    else
      var acc := AddRegulations(counts, regs[..|regs| - 1], showCC);
      var last := regs[|regs| - 1];
      if !KeepRegulator(showCC, last.key) then acc
      else
        var n := TestCaseCount(last.value);
        DomainAcc(AddTo(acc.byRegulator, last.key, n), acc.testCases + n, acc.policies + |last.value|)
  }

  /** The aggregation over the visited domains: one bar per domain, even an empty one. */
  function Aggregate(domains: InterpretationTree, showCC: bool): ChartStats {
    if |domains| == 0 then ChartStats([], [], 0, 0)
    else
      var s := Aggregate(domains[..|domains| - 1], showCC);
      var last := domains[|domains| - 1];
      var acc := AddRegulations(s.byRegulator, last.value, showCC);
      ChartStats(s.byDomain + [DomainStat(UpperLabel(last.key), acc.testCases, acc.policies)],
                 acc.byRegulator, s.totalTestCases + acc.testCases, s.totalPolicies + acc.policies)
  }

  /** The statistics of `v1`. */
  function V1Stats(): ChartStats {
    ChartStats([DomainStat("OPERATIONAL RESILIENCE", 78, 6)],
               [Entry(FCA, 29), Entry(PRA, 49)], 78, 6)
  }

  /** The statistics of `v2`: the figures with eight FCA rules taken out. */
  function V2Stats(): ChartStats {
    ChartStats([DomainStat("OPERATIONAL RESILIENCE", 78 - 8, 5), DomainStat("CUSTOMER COMMUNICATIONS", 163, 20)],
               [Entry(FCA, 140 - 8), Entry(PRA, 49), Entry("ASA", 20), Entry("FSMA", 15), Entry("LSB", 10), Entry("ECR", 7)],
               241 - 8, 25)
  }

  /** `processData`: fixed figures for `v1` and `v2`, otherwise the aggregation of
      `data.Regulation_interpretation` (empty when absent) over the shown domains. */
  function ProcessData(data: Option<InterpretationTree>, showCC: bool, version: string): (s: ChartStats)
    ensures version == V1 ==> s == V1Stats()
    ensures version == V2 ==> s == V2Stats()
  {
    if version == V1 then V1Stats()
    else if version == V2 then V2Stats()
    else
      var tree := data.GetOr([]);
      Aggregate(if showCC then tree else Delete(tree, CUSTOMER_COMMUNICATIONS), showCC)
  }

  /** The fixed statistics of `v1` and `v2` agree with themselves: the domain bars and
      the regulator slices both add up to the test-case total. */
  lemma FixedStatsConsistent()
    ensures var s := V1Stats();
            && DomainTestCases(s.byDomain) == s.totalTestCases == SumValues(s.byRegulator)
            && DomainPolicies(s.byDomain) == s.totalPolicies
            && UniqueKeys(s.byRegulator)
    ensures var s := V2Stats();
            && DomainTestCases(s.byDomain) == s.totalTestCases == SumValues(s.byRegulator)
            && DomainPolicies(s.byDomain) == s.totalPolicies
            && UniqueKeys(s.byRegulator)
  {
    var s1, s2 := V1Stats(), V2Stats();
    assert s1.byDomain[..0] == [] && s2.byDomain[..1][..0] == [] && s2.byDomain[..1] == [s2.byDomain[0]];
    var o := s2.byRegulator;
    assert SumValues(o[5..]) == 7;
    assert SumValues(o[4..]) == 17 by { assert o[4..][1..] == o[5..]; }
    assert SumValues(o[3..]) == 32 by { assert o[3..][1..] == o[4..]; }
    assert SumValues(o[2..]) == 52 by { assert o[2..][1..] == o[3..]; }
    assert SumValues(o[1..]) == 101 by { assert o[1..][1..] == o[2..]; }
    assert SumValues(s1.byRegulator[1..]) == 49;
  }

  lemma {:induction false} AddRegulationsSum(counts: Obj<int>, regs: Regulations, showCC: bool)
    ensures var acc := AddRegulations(counts, regs, showCC);
            SumValues(acc.byRegulator) == SumValues(counts) + acc.testCases
  {
    if |regs| > 0 {
      AddRegulationsSum(counts, regs[..|regs| - 1], showCC);
    }
  }

  lemma {:induction false} AddRegulationsKeys(counts: Obj<int>, regs: Regulations, showCC: bool)
    requires UniqueKeys(counts)
    requires forall i :: 0 <= i < |counts| ==> KeepRegulator(showCC, counts[i].key)
    ensures var acc := AddRegulations(counts, regs, showCC);
            && UniqueKeys(acc.byRegulator)
            && forall i :: 0 <= i < |acc.byRegulator| ==> KeepRegulator(showCC, acc.byRegulator[i].key)
  {
    if |regs| > 0 {
      var prefix, last := regs[..|regs| - 1], regs[|regs| - 1];
      AddRegulationsKeys(counts, prefix, showCC);
      var before := AddRegulations(counts, prefix, showCC).byRegulator;
      if KeepRegulator(showCC, last.key) {
        var n := TestCaseCount(last.value);
        AddToKeepsUniqueKeys(before, last.key, n);
        var after := AddTo(before, last.key, n);
        forall i | 0 <= i < |after|
          ensures KeepRegulator(showCC, after[i].key)
        {
          if i < |before| {
            assert after[i].key == before[i].key;
          }
        }
      }
    }
  }

  lemma {:induction false} AggregateBars(domains: InterpretationTree, showCC: bool)
    ensures var s := Aggregate(domains, showCC);
            && |s.byDomain| == |domains|
            && (forall i :: 0 <= i < |domains| ==> s.byDomain[i].name == UpperLabel(domains[i].key))
  {
    if |domains| > 0 {
      AggregateBars(domains[..|domains| - 1], showCC);
    }
  }

  lemma {:induction false} AggregateBarSums(domains: InterpretationTree, showCC: bool)
    ensures var s := Aggregate(domains, showCC);
            && DomainTestCases(s.byDomain) == s.totalTestCases
            && DomainPolicies(s.byDomain) == s.totalPolicies
  {
    if |domains| > 0 {
      var prefix := domains[..|domains| - 1];
      AggregateBarSums(prefix, showCC);
      var s := Aggregate(prefix, showCC);
      var r := Aggregate(domains, showCC);
      assert r.byDomain[..|r.byDomain| - 1] == s.byDomain;
    }
  }

  lemma {:induction false} AggregateRegulators(domains: InterpretationTree, showCC: bool)
    ensures var s := Aggregate(domains, showCC);
            && s.totalTestCases == SumValues(s.byRegulator)
            && UniqueKeys(s.byRegulator)
            && (forall i :: 0 <= i < |s.byRegulator| ==> KeepRegulator(showCC, s.byRegulator[i].key))
  {
    if |domains| > 0 {
      var prefix := domains[..|domains| - 1];
      AggregateRegulators(prefix, showCC);
      var s := Aggregate(prefix, showCC);
      AddRegulationsSum(s.byRegulator, domains[|domains| - 1].value, showCC);
      AddRegulationsKeys(s.byRegulator, domains[|domains| - 1].value, showCC);
    }
  }

  /** In every version the totals agree with the charts: the domain bars add up to the
      test-case and policy totals, the regulator slices add up to the test-case total and
      name distinct regulators. Outside `v1` and `v2` there is one bar per visited domain
      (customer communications is not visited when hidden), and with customer
      communications hidden only FCA and PRA appear. */
  lemma ProcessDataConsistent(data: Option<InterpretationTree>, showCC: bool, version: string)
    ensures var s := ProcessData(data, showCC, version);
            && DomainTestCases(s.byDomain) == s.totalTestCases == SumValues(s.byRegulator)
            && DomainPolicies(s.byDomain) == s.totalPolicies
            && UniqueKeys(s.byRegulator)
    ensures version != V1 && version != V2 ==>
              var s := ProcessData(data, showCC, version);
              var tree := data.GetOr([]);
              && |s.byDomain| == |if showCC then tree else Delete(tree, CUSTOMER_COMMUNICATIONS)|
              && (forall i :: 0 <= i < |s.byRegulator| ==> KeepRegulator(showCC, s.byRegulator[i].key))
  {
    if version != V1 && version != V2 {
      var tree := data.GetOr([]);
      var domains := if showCC then tree else Delete(tree, CUSTOMER_COMMUNICATIONS);
      AggregateBars(domains, showCC);
      AggregateBarSums(domains, showCC);
      AggregateRegulators(domains, showCC);
    } else {
      FixedStatsConsistent();
    }
  }

  // ---------------------------------------------------------------------------
  // Version comparison statistics

  /** `regulators` is `undefined` (None) when no domain has a regulator entry. */
  datatype VersionStats = VersionStats(testCases: nat, policies: nat, regulators: Option<nat>, domains: nat)

  function TreeTestCases(tree: InterpretationTree): nat {
    if |tree| == 0 then 0 else TreeTestCases(tree[..|tree| - 1]) + RegulationsTestCases(tree[|tree| - 1].value)
  }

  function RegulationsTestCases(regs: Regulations): nat {
    if |regs| == 0 then 0 else RegulationsTestCases(regs[..|regs| - 1]) + TestCaseCount(regs[|regs| - 1].value)
  }

  function TreePolicyCount(tree: InterpretationTree): nat {
    if |tree| == 0 then 0 else TreePolicyCount(tree[..|tree| - 1]) + RegulationsPolicies(tree[|tree| - 1].value)
  }

  function RegulationsPolicies(regs: Regulations): nat {
    if |regs| == 0 then 0 else RegulationsPolicies(regs[..|regs| - 1]) + |regs[|regs| - 1].value|
  }

  function TreeRegulators(tree: InterpretationTree): set<string> {
    if |tree| == 0 then {} else TreeRegulators(tree[..|tree| - 1]) + KeySet(tree[|tree| - 1].value)
  }

  predicate HasRegulatorEntry(tree: InterpretationTree) {
    exists i :: 0 <= i < |tree| && |tree[i].value| > 0
  }

  /** `getVersionStats`: fixed for `v1` and `v2`, otherwise the counts of
      `data.Regulation_interpretation` (empty when absent). */
  function VersionStatsOf(data: Option<InterpretationTree>, version: string): (v: VersionStats)
    ensures version == V1 ==> v == VersionStats(78, 6, Some(2), 1)
    ensures version == V2 ==> v == VersionStats(233, 25, Some(6), 2)
    ensures version != V1 && version != V2 ==> v.domains == |data.GetOr([])|
    ensures v.regulators.None? <==> version != V1 && version != V2 && !HasRegulatorEntry(data.GetOr([]))
  {
    if version == V1 then VersionStats(78, 6, Some(2), 1)
    else if version == V2 then VersionStats(241 - 8, 25, Some(6), 2)
    else
      var tree := data.GetOr([]);
      VersionStats(TreeTestCases(tree), TreePolicyCount(tree),
                   if HasRegulatorEntry(tree) then Some(|TreeRegulators(tree)|) else None,
                   |tree|)
  }

  /** The fixed comparison figures of `v1` and `v2` are those of their dashboards. */
  lemma FixedStatsAgree(data: Option<InterpretationTree>, showCC: bool, version: string)
    requires version == V1 || version == V2
    ensures var s := ProcessData(data, showCC, version);
            var v := VersionStatsOf(data, version);
            && v.testCases == s.totalTestCases
            && v.policies == s.totalPolicies
            && v.regulators == Some(|s.byRegulator|)
            && v.domains == |s.byDomain|
  {
  }

  lemma {:induction false} AddRegulationsAllShown(counts: Obj<int>, regs: Regulations)
    ensures var acc := AddRegulations(counts, regs, true);
            && acc.testCases == RegulationsTestCases(regs)
            && acc.policies == RegulationsPolicies(regs)
  {
    if |regs| > 0 {
      AddRegulationsAllShown(counts, regs[..|regs| - 1]);
    }
  }

  lemma {:induction false} AddRegulationsAllKeys(counts: Obj<int>, regs: Regulations)
    ensures KeySet(AddRegulations(counts, regs, true).byRegulator) == KeySet(counts) + KeySet(regs)
  {
    if |regs| > 0 {
      var prefix, last := regs[..|regs| - 1], regs[|regs| - 1];
      AddRegulationsAllKeys(counts, prefix);
      AddToKeySet(AddRegulations(counts, prefix, true).byRegulator, last.key, TestCaseCount(last.value));
      KeySetSnoc(regs);
    }
  }

  lemma {:induction false} AggregateAllShown(tree: InterpretationTree)
    ensures var s := Aggregate(tree, true);
            && s.totalTestCases == TreeTestCases(tree)
            && s.totalPolicies == TreePolicyCount(tree)
            && KeySet(s.byRegulator) == TreeRegulators(tree)
  {
    if |tree| > 0 {
      var prefix := tree[..|tree| - 1];
      AggregateAllShown(prefix);
      AddRegulationsAllShown(Aggregate(prefix, true).byRegulator, tree[|tree| - 1].value);
      AddRegulationsAllKeys(Aggregate(prefix, true).byRegulator, tree[|tree| - 1].value);
    }
  }

  /** For any other version the comparison figures are those of the dashboard with every
      domain shown: the same test cases, policies and domains, and as many regulators as
      pie slices — except that no regulator entry at all leaves the figure undefined. */
  lemma ComputedStatsAgree(data: Option<InterpretationTree>, version: string)
    requires version != V1 && version != V2
    ensures var s := ProcessData(data, true, version);
            var v := VersionStatsOf(data, version);
            && v.testCases == s.totalTestCases
            && v.policies == s.totalPolicies
            && v.domains == |s.byDomain|
            && (v.regulators.Some? ==> v.regulators.value == |s.byRegulator|)
  {
    var tree := data.GetOr([]);
    AggregateAllShown(tree);
    AggregateBars(tree, true);
    AggregateBarSums(tree, true);
    AggregateRegulators(tree, true);
    KeySetSize(Aggregate(tree, true).byRegulator);
  }

  // ---------------------------------------------------------------------------
  // Versions sorted by date

  /** One entry of `versionsData.versions`. */
  datatype VersionEntry = VersionEntry(version: string, date: string, data: Option<InterpretationTree>)

  datatype VersionRow = VersionRow(version: string, date: string, stats: VersionStats)

  function Row(e: VersionEntry): VersionRow {
    VersionRow(e.version, e.date, VersionStatsOf(e.data, e.version))
  }

  predicate SortedByDate(rows: seq<VersionRow>) {
    forall i, j :: 0 <= i < j < |rows| ==> StrLe(rows[i].date, rows[j].date)
  }

  /** Inserts before the first row that is not earlier, so equal dates keep their order. */
  function InsertByDate(x: VersionRow, rows: seq<VersionRow>): (r: seq<VersionRow>)
    ensures |r| == |rows| + 1
  {
    if |rows| == 0 then [x]
    else if StrLe(x.date, rows[0].date) then [x] + rows
    else [rows[0]] + InsertByDate(x, rows[1..])
  }

  /** Insertion adds exactly the new row. */
  lemma {:induction false} InsertByDatePermutes(x: VersionRow, rows: seq<VersionRow>)
    ensures multiset(InsertByDate(x, rows)) == multiset(rows) + multiset{x}
  {
    if |rows| > 0 && !StrLe(x.date, rows[0].date) {
      var rest := InsertByDate(x, rows[1..]);
      InsertByDatePermutes(x, rows[1..]);
      assert multiset(InsertByDate(x, rows)) == multiset{rows[0]} + multiset(rest) by {
        assert InsertByDate(x, rows) == [rows[0]] + rest;
      }
      assert multiset(rows) == multiset{rows[0]} + multiset(rows[1..]) by {
        assert rows == [rows[0]] + rows[1..];
      }
    }
  }

  /** A lower bound of the inserted row and of every row bounds the result too. */
  lemma {:induction false} InsertByDateLowerBound(x: VersionRow, rows: seq<VersionRow>, lo: string)
    requires StrLe(lo, x.date)
    requires forall i :: 0 <= i < |rows| ==> StrLe(lo, rows[i].date)
    ensures forall i :: 0 <= i < |rows| + 1 ==> StrLe(lo, InsertByDate(x, rows)[i].date)
  {
    var r := InsertByDate(x, rows);
    if |rows| == 0 {
      assert r == [x];
    } else if StrLe(x.date, rows[0].date) {
      assert r == [x] + rows;
      forall i | 0 < i < |r|
        ensures StrLe(lo, r[i].date)
      {
        assert r[i] == rows[i - 1];
      }
    } else {
      var rest := InsertByDate(x, rows[1..]);
      InsertByDateLowerBound(x, rows[1..], lo);
      assert r == [rows[0]] + rest;
      forall i | 0 < i < |r|
        ensures StrLe(lo, r[i].date)
      {
        assert r[i] == rest[i - 1];
        assert StrLe(lo, rest[i - 1].date);
      }
    }
  }

  /** Insertion keeps a date-sorted sequence sorted. */
  lemma {:induction false} InsertByDateSorted(x: VersionRow, rows: seq<VersionRow>)
    requires SortedByDate(rows)
    ensures SortedByDate(InsertByDate(x, rows))
  {
    if |rows| > 0 {
      var r := InsertByDate(x, rows);
      if StrLe(x.date, rows[0].date) {
        forall j | 0 < j < |r|
          ensures StrLe(x.date, r[j].date)
        {
          if j > 1 {
            StrLeTrans(x.date, rows[0].date, rows[j - 1].date);
          }
        }
      } else {
        var rest := InsertByDate(x, rows[1..]);
        InsertByDateSorted(x, rows[1..]);
        StrLeTotal(x.date, rows[0].date);
        InsertByDateLowerBound(x, rows[1..], rows[0].date);
        assert r == [rows[0]] + rest;
        forall i, j | 0 <= i < j < |r|
          ensures StrLe(r[i].date, r[j].date)
        {
          assert r[j] == rest[j - 1];
          if i > 0 {
            assert r[i] == rest[i - 1];
            assert StrLe(rest[i - 1].date, rest[j - 1].date);
          } else {
            assert StrLe(rows[0].date, rest[j - 1].date);
          }
        }
      }
    }
  }

  /** The rows of one date in input order. */
  function OfDate(rows: seq<VersionRow>, d: string): seq<VersionRow> {
    if |rows| == 0 then [] else (if rows[0].date == d then [rows[0]] else []) + OfDate(rows[1..], d)
  }

  lemma OfDateCons(a: VersionRow, rest: seq<VersionRow>, d: string)
    ensures OfDate([a] + rest, d) == (if a.date == d then [a] else []) + OfDate(rest, d)
  {
    assert ([a] + rest)[1..] == rest;
  }

  /** Insertion puts the new row in front of the earlier rows of its date. */
  lemma {:induction false} InsertByDateOfDate(x: VersionRow, rows: seq<VersionRow>, d: string)
    ensures OfDate(InsertByDate(x, rows), d) == (if x.date == d then [x] else []) + OfDate(rows, d)
  {
    if |rows| == 0 {
      OfDateCons(x, [], d);
    } else if StrLe(x.date, rows[0].date) {
      OfDateCons(x, rows, d);
    } else {
      var rest := InsertByDate(x, rows[1..]);
      InsertByDateOfDate(x, rows[1..], d);
      OfDateCons(rows[0], rest, d);
      OfDateCons(rows[0], rows[1..], d);
      assert rows == [rows[0]] + rows[1..];
      StrLeReflexive(x.date);
      var head := if rows[0].date == d then [rows[0]] else [];
      var xs := if x.date == d then [x] else [];
      assert head == [] || xs == [];
      assert head + (xs + OfDate(rows[1..], d)) == xs + (head + OfDate(rows[1..], d));
    }
  }

  /** `versionStats.sort((a, b) => new Date(a.date) - new Date(b.date))`, a stable sort. */
  function SortByDate(rows: seq<VersionRow>): (r: seq<VersionRow>)
    ensures |r| == |rows|
  {
    if |rows| == 0 then [] else InsertByDate(rows[0], SortByDate(rows[1..]))
  }

  /** Sorting keeps the same rows. */
  lemma {:induction false} SortByDatePermutes(rows: seq<VersionRow>)
    ensures multiset(SortByDate(rows)) == multiset(rows)
  {
    if |rows| > 0 {
      var tail := SortByDate(rows[1..]);
      SortByDatePermutes(rows[1..]);
      assert multiset(SortByDate(rows)) == multiset(tail) + multiset{rows[0]} by {
        InsertByDatePermutes(rows[0], tail);
      }
      assert multiset(rows) == multiset{rows[0]} + multiset(rows[1..]) by {
        assert rows == [rows[0]] + rows[1..];
      }
    }
  }

  /** The sorted rows are ordered by date. */
  lemma {:induction false} SortByDateSorted(rows: seq<VersionRow>)
    ensures SortedByDate(SortByDate(rows))
  {
    if |rows| > 0 {
      SortByDateSorted(rows[1..]);
      InsertByDateSorted(rows[0], SortByDate(rows[1..]));
    }
  }

  /** Rows of one date keep their input order. */
  lemma {:induction false} SortByDateStable(rows: seq<VersionRow>, d: string)
    ensures OfDate(SortByDate(rows), d) == OfDate(rows, d)
  {
    if |rows| > 0 {
      SortByDateStable(rows[1..], d);
      InsertByDateOfDate(rows[0], SortByDate(rows[1..]), d);
      OfDateCons(rows[0], rows[1..], d);
      assert rows == [rows[0]] + rows[1..];
    }
  }

  /** The date `v2` is displayed with. */
  const V2_DISPLAY_DATE := "2025-03-07T00:00:00.000Z"

  /** One point of the comparison line charts. */
  datatype ChartPoint = ChartPoint(
    name: string,
    testCases: nat,
    policies: nat,
    regulators: Option<nat>,
    domains: nat,
    date: string,
    versionNumber: string)

  function Point(row: VersionRow): ChartPoint {
    ChartPoint(row.version, row.stats.testCases, row.stats.policies, row.stats.regulators,
               row.stats.domains, if row.version == V2 then V2_DISPLAY_DATE else row.date,
               RemoveFirst(row.version, 'v'))
  }

  /** The comparison figures of every version, in input order. */
  function Rows(versions: seq<VersionEntry>): (rows: seq<VersionRow>)
    ensures |rows| == |versions|
    ensures forall i :: 0 <= i < |versions| ==> rows[i] == Row(versions[i])
  {
    seq(|versions|, i requires 0 <= i < |versions| => Row(versions[i]))
  }

  /** The line-chart points: the versions' statistics in date order. */
  function ChartData(versions: seq<VersionEntry>): (points: seq<ChartPoint>)
    ensures |points| == |versions|
  {
    var sorted := SortByDate(Rows(versions));
    seq(|sorted|, i requires 0 <= i < |sorted| => Point(sorted[i]))
  }

  /** Every version contributes one point, in date order; `v2` always shows its fixed
      display date and `v1` its fixed figures. */
  lemma ChartDataOrdered(versions: seq<VersionEntry>)
    ensures var rows := SortByDate(Rows(versions));
            var points := ChartData(versions);
            && SortedByDate(rows)
            && (forall i :: 0 <= i < |points| ==> points[i] == Point(rows[i]))
            && (forall i :: 0 <= i < |points| && points[i].name == V2 ==> points[i].date == V2_DISPLAY_DATE)
            && (forall i :: 0 <= i < |points| && points[i].name == V1 ==>
                  points[i].testCases == 78 && points[i].policies == 6 && points[i].regulators == Some(2))
            && (forall i :: 0 <= i < |points| && points[i].name != V2 ==> points[i].date == rows[i].date)
  {
    var unsorted := Rows(versions);
    SortByDateSorted(unsorted);
    SortByDatePermutes(unsorted);
    var rows := SortByDate(unsorted);
    forall i | 0 <= i < |rows|
      ensures rows[i].version == V1 ==> rows[i].stats == VersionStats(78, 6, Some(2), 1)
    {
      assert rows[i] in multiset(unsorted);
      var k :| 0 <= k < |unsorted| && unsorted[k] == rows[i];
    }
  }

  /** Entry `i` is the first `v2` entry, the one `findIndex` picks. */
  predicate IsFirstV2(versions: seq<VersionEntry>, i: int)
    requires 0 <= i < |versions|
  {
    versions[i].version == V2 && forall j :: 0 <= j < i ==> versions[j].version != V2
  }

  /** The page's mount effect: the first `v2` entry of the fetched versions gets the
      display date, written into the fetched data itself, so every later render sorts
      `v2` by that date. The first render after loading still sees the stored date. */
  function RedateV2(versions: seq<VersionEntry>): (r: seq<VersionEntry>)
    ensures |r| == |versions|
    ensures forall i :: 0 <= i < |versions| ==>
              r[i].version == versions[i].version && r[i].data == versions[i].data
    ensures forall i :: 0 <= i < |versions| ==>
              r[i].date == if IsFirstV2(versions, i) then V2_DISPLAY_DATE else versions[i].date
  {
    if |versions| == 0 then []
    else if versions[0].version == V2 then [versions[0].(date := V2_DISPLAY_DATE)] + versions[1..]
    else
      var rest := RedateV2(versions[1..]);
      assert forall i :: 1 <= i < |versions| ==> (IsFirstV2(versions, i) <==> IsFirstV2(versions[1..], i - 1)) by {
        forall i | 1 <= i < |versions|
          ensures IsFirstV2(versions, i) <==> IsFirstV2(versions[1..], i - 1)
        {
          assert forall j :: 1 <= j < i ==> versions[j] == versions[1..][j - 1];
        }
      }
      [versions[0]] + rest
  }

  /** A leading `v2` entry is the one re-dated; the rest is untouched. */
  lemma RedateV2Head(versions: seq<VersionEntry>)
    requires |versions| > 0 && versions[0].version == V2
    ensures RedateV2(versions) == [versions[0].(date := V2_DISPLAY_DATE)] + versions[1..]
  {
  }

  /** Running the effect again changes nothing. */
  lemma {:induction false} RedateV2Idempotent(versions: seq<VersionEntry>)
    ensures RedateV2(RedateV2(versions)) == RedateV2(versions)
  {
    var once := RedateV2(versions);
    var twice := RedateV2(once);
    forall i | 0 <= i < |versions|
      ensures twice[i] == once[i]
    {
      assert IsFirstV2(once, i) <==> IsFirstV2(versions, i) by {
        assert forall j :: 0 <= j <= i ==> once[j].version == versions[j].version;
      }
    }
  }

  /** With one `v2` entry, every `v2` entry carries the display date after the effect. */
  lemma RedatedV2Dates(versions: seq<VersionEntry>)
    requires forall i, j :: 0 <= i < j < |versions| && versions[i].version == V2 ==> versions[j].version != V2
    ensures var redated := RedateV2(versions);
            forall k :: 0 <= k < |redated| && redated[k].version == V2 ==> redated[k].date == V2_DISPLAY_DATE
  {
    var redated := RedateV2(versions);
    forall k | 0 <= k < |redated| && redated[k].version == V2
      ensures redated[k].date == V2_DISPLAY_DATE
    {
      assert IsFirstV2(versions, k);
    }
  }

  /** After the effect, with one `v2` entry as fetched data has, the sorted rows are the
      displayed dates in ascending order: `v2` is placed by its display date. */
  lemma ChartDataRedatedOrdered(versions: seq<VersionEntry>)
    requires forall i, j :: 0 <= i < j < |versions| && versions[i].version == V2 ==> versions[j].version != V2
    ensures var points := ChartData(RedateV2(versions));
            forall i, j :: 0 <= i < j < |points| ==> StrLe(points[i].date, points[j].date)
  {
    var redated := RedateV2(versions);
    RedatedV2Dates(versions);
    var unsorted := Rows(redated);
    SortByDateSorted(unsorted);
    SortByDatePermutes(unsorted);
    var rows := SortByDate(unsorted);
    var points := ChartData(redated);
    forall i | 0 <= i < |rows|
      ensures points[i].date == rows[i].date
    {
      assert rows[i] in multiset(unsorted);
      var k :| 0 <= k < |unsorted| && unsorted[k] == rows[i];
      assert rows[i].version == redated[k].version && rows[i].date == redated[k].date;
    }
  }

  /** Two rows are sorted by one comparison of their dates. */
  lemma SortTwoByDate(x: VersionRow, y: VersionRow)
    ensures SortByDate([x, y]) == if StrLe(x.date, y.date) then [x, y] else [y, x]
  {
    assert [x, y][1..] == [y];
    assert SortByDate([y]) == InsertByDate(y, SortByDate([])) == [y];
    if !StrLe(x.date, y.date) {
      assert InsertByDate(x, [y]) == [y] + InsertByDate(x, []);
    }
  }

  /** The first chart point is the earliest of two versions. */
  lemma ChartDataFirstOfTwo(a: VersionEntry, b: VersionEntry)
    ensures ChartData([a, b])[0].name == if StrLe(a.date, b.date) then a.version else b.version
  {
    assert Rows([a, b]) == [Row(a), Row(b)];
    SortTwoByDate(Row(a), Row(b));
  }

  /** The display date is later than a date in February 2025. */
  lemma DisplayDateAfterFebruary()
    ensures !StrLe(V2_DISPLAY_DATE, "2025-02-01")
  {
    var d := V2_DISPLAY_DATE;
    var b := "2025-02-01";
    assert b[..6] == d[..6];
    StrLeAtDifference(b, d, 6);
    assert d != b by {
      assert |d| != |b|;
    }
    if StrLe(d, b) {
      StrLeAntisymmetric(d, b);
    }
  }

  /** The example's first render: `v2`'s stored date is the earlier one. */
  lemma FirstRenderPutsV2First(a: VersionEntry, b: VersionEntry)
    requires a == VersionEntry(V2, "2025-01-01", None) && b == VersionEntry("v3", "2025-02-01", None)
    ensures ChartData([a, b])[0].name == V2
  {
    assert a.date[..6] == b.date[..6];
    StrLeAtDifference(a.date, b.date, 6);
    ChartDataFirstOfTwo(a, b);
  }

  /** The example after the effect: `v2`'s display date is the later one. */
  lemma RedatedPutsV2Last(a: VersionEntry, b: VersionEntry)
    requires a == VersionEntry(V2, "2025-01-01", None) && b == VersionEntry("v3", "2025-02-01", None)
    ensures ChartData(RedateV2([a, b]))[0].name == "v3"
  {
    var late := a.(date := V2_DISPLAY_DATE);
    RedateV2Head([a, b]);
    assert [a, b][1..] == [b];
    assert RedateV2([a, b]) == [late, b];
    DisplayDateAfterFebruary();
    ChartDataFirstOfTwo(late, b);
  }

  /** A version dated between `v2`'s stored date and its display date comes after `v2`
      on the first render and before it once the effect has run. */
  lemma ChartDataRedatingReorders()
    ensures var versions := [VersionEntry(V2, "2025-01-01", None), VersionEntry("v3", "2025-02-01", None)];
            && ChartData(versions)[0].name == V2
            && ChartData(RedateV2(versions))[0].name == "v3"
  {
    var a := VersionEntry(V2, "2025-01-01", None);
    var b := VersionEntry("v3", "2025-02-01", None);
    FirstRenderPutsV2First(a, b);
    RedatedPutsV2Last(a, b);
  }

  // ---------------------------------------------------------------------------
  // Listed versions and domains

  /** The versions passed on: all of them, or only `v1` when `v2` is not shown. */
  function VisibleVersions(versions: seq<VersionEntry>, showV2: bool): (r: seq<VersionEntry>)
    ensures showV2 ==> r == versions
    ensures forall e :: e in r <==> e in versions && (showV2 || e.version == V1)
    ensures |r| <= |versions|
  {
    if showV2 || |versions| == 0 then (if showV2 then versions else [])
    else
      var rest := VisibleVersions(versions[1..], showV2);
      assert versions == [versions[0]] + versions[1..];
      if versions[0].version == V1 then [versions[0]] + rest else rest
  }

  /** Hiding `v2` twice is hiding it once. */
  lemma {:induction false} VisibleVersionsIdempotent(versions: seq<VersionEntry>, showV2: bool)
    ensures VisibleVersions(VisibleVersions(versions, showV2), showV2) == VisibleVersions(versions, showV2)
  {
    if !showV2 && |versions| > 0 {
      VisibleVersionsIdempotent(versions[1..], showV2);
      var rest := VisibleVersions(versions[1..], showV2);
      if versions[0].version == V1 {
        assert ([versions[0]] + rest)[1..] == rest;
      }
    }
  }

  /** The version filter keeps the survivors' order and multiplicity: it distributes over
      concatenation, and a single entry passes exactly when it is shown. */
  lemma {:induction false} VisibleVersionsAppend(a: seq<VersionEntry>, b: seq<VersionEntry>, showV2: bool)
    ensures VisibleVersions(a + b, showV2) == VisibleVersions(a, showV2) + VisibleVersions(b, showV2)
  {
    if !showV2 && |a| > 0 {
      assert (a + b)[1..] == a[1..] + b;
      VisibleVersionsAppend(a[1..], b, showV2);
    } else if |a| == 0 {
      assert a + b == b;
    }
  }

  /** The domains a version lists: only operational resilience for `v1`. */
  function ListedDomains(version: string, tree: InterpretationTree): (r: InterpretationTree)
    ensures version != V1 ==> r == tree
    ensures forall e :: e in r <==> e in tree && (version != V1 || e.key == OPERATIONAL_RESILIENCE)
  {
    if version != V1 || |tree| == 0 then (if version != V1 then tree else [])
    else
      var rest := ListedDomains(version, tree[1..]);
      assert tree == [tree[0]] + tree[1..];
      if tree[0].key == OPERATIONAL_RESILIENCE then [tree[0]] + rest else rest
  }

  /** The domain filter keeps the survivors' order and multiplicity: it distributes
      over concatenation. */
  lemma {:induction false} ListedDomainsAppend(version: string, a: InterpretationTree, b: InterpretationTree)
    ensures ListedDomains(version, a + b) == ListedDomains(version, a) + ListedDomains(version, b)
  {
    if version == V1 && |a| > 0 {
      assert (a + b)[1..] == a[1..] + b;
      ListedDomainsAppend(version, a[1..], b);
    } else if |a| == 0 {
      assert a + b == b;
    }
  }

  // ---------------------------------------------------------------------------
  // View source

  datatype SourceView = SourceView(path: string, policyCode: string, citation: string)

  /** `handleViewSource`: the policies of the first regulator object for the regulator
      in the lower-cased domain (none when missing), then the first policy whose code is
      the lower-cased code. The dialog shows the stored path as is, the code as given,
      and the citation or `''`. */
  function ViewSource(mapping: MappingTree, domain: string, regulator: string, policyCode: string,
                      citation: Option<string>): (r: Option<SourceView>)
    ensures r.Some? ==> r.value.policyCode == policyCode && r.value.citation == citation.GetOr("")
    ensures r.Some? <==>
              && Get(mapping, ToLower(domain)).Some?
              && FindGroup(Get(mapping, ToLower(domain)).value, regulator).Some?
              && FindPolicy(FindGroup(Get(mapping, ToLower(domain)).value, regulator).value.policies,
                            ToLower(policyCode)).Some?
  {
    var groups := Get(mapping, ToLower(domain)).GetOr([]);
    var policies := match FindGroup(groups, regulator)
                    case None => []
                    case Some(g) => g.policies;
    match FindPolicy(policies, ToLower(policyCode))
    case None => None
    case Some(p) => Some(SourceView(p.documentPath, policyCode, citation.GetOr("")))
  }

  /** Both pages find the same policy document: when this page finds a non-empty path,
      the assessment page resolves the lower-cased code to that path with a leading slash. */
  lemma ViewSourceAgreesWithAssessment(mapping: MappingTree, domain: string, regulator: string,
                                       policyCode: string, citation: Option<string>)
    requires ViewSource(mapping, domain, regulator, policyCode, citation).Some?
    requires ViewSource(mapping, domain, regulator, policyCode, citation).value.path != ""
    ensures PolicyAssessment.DocumentPath(mapping, domain, regulator, ToLower(policyCode)) ==
            Some(EnsureLeadingSlash(ViewSource(mapping, domain, regulator, policyCode, citation).value.path))
  {
  }
}
