/** The three JSON trees the dashboard reads, as immutable values.

    - The assessment results (`policy_validation`): domain -> regulator -> policies,
      each policy carrying its test-case validations with a `Compliance_Status`.
    - The regulation mapping (`policies`): domain -> list of single-regulator objects,
      each holding the mapped policies with their document path, `included` flag and comments.
    - A rule interpretation (`Regulation_interpretation`): domain -> regulator -> policies,
      each with its list of interpreted test cases. */
module ComplianceData {
  import opened Wrappers
  import opened JsObjects

  const COMPLIANT := "Compliant"
  const PARTIAL_COMPLIANCE := "Partial Compliance"
  const NON_COMPLIANT := "Non-Compliant"

  const OPERATIONAL_RESILIENCE := "operational_resilience"
  const CUSTOMER_COMMUNICATIONS := "customer_communications"

  /** The policy code dropped from operational resilience in the second assessment. */
  const SUP15 := "sup15"

  predicate IsKnownStatus(status: string) {
    status == COMPLIANT || status == PARTIAL_COMPLIANCE || status == NON_COMPLIANT
  }

  // ---------------------------------------------------------------------------
  // Assessment results

  /** One test-case validation; a missing `Compliance_Status` is the empty string. */
  datatype Validation = Validation(testCaseNo: string, status: string)

  datatype AssessedPolicy = AssessedPolicy(policyCode: string, validations: seq<Validation>)

  /** regulator -> assessed policies */
  type RegulatorPolicies = Obj<seq<AssessedPolicy>>

  /** domain -> regulator -> assessed policies */
  type AssessmentTree = Obj<RegulatorPolicies>

  /** Number of validations in `vs` whose status is exactly `status`. */
  function CountStatus(vs: seq<Validation>, status: string): (n: nat)
    ensures n <= |vs|
    ensures n == 0 <==> forall i :: 0 <= i < |vs| ==> vs[i].status != status
    ensures n == |vs| <==> forall i :: 0 <= i < |vs| ==> vs[i].status == status
  {
    if |vs| == 0 then 0
    else
      assert forall i :: 1 <= i < |vs| ==> vs[1..][i - 1] == vs[i];
      (if vs[0].status == status then 1 else 0) + CountStatus(vs[1..], status)
  }

  lemma {:induction false} CountStatusAppend(a: seq<Validation>, b: seq<Validation>, status: string)
    ensures CountStatus(a + b, status) == CountStatus(a, status) + CountStatus(b, status)
  {
    if |a| > 0 {
      assert (a + b)[1..] == a[1..] + b;
      CountStatusAppend(a[1..], b, status);
    } else {
      assert a + b == b;
    }
  }

  /** The validations of a list of policies, in order. */
  function PolicyValidations(ps: seq<AssessedPolicy>): seq<Validation> {
    if |ps| == 0 then [] else ps[0].validations + PolicyValidations(ps[1..])
  }

  /** The number of validations of a list of policies (`policy_validations.length` summed). */
  function ValidationCount(ps: seq<AssessedPolicy>): nat {
    if |ps| == 0 then 0 else |ps[0].validations| + ValidationCount(ps[1..])
  }

  lemma {:induction false} ValidationCountIsLength(ps: seq<AssessedPolicy>)
    ensures ValidationCount(ps) == |PolicyValidations(ps)|
  {
    if |ps| > 0 {
      ValidationCountIsLength(ps[1..]);
    }
  }

  // ---------------------------------------------------------------------------
  // Regulation mapping

  /** A mapped policy; `included` and `comments` may be absent from the JSON. */
  datatype MappedPolicy = MappedPolicy(
    policyCode: string,
    documentPath: string,
    included: Option<bool>,
    comments: Option<string>)

  /** `policy.included !== false`: an absent flag means included. */
  predicate IsIncluded(p: MappedPolicy) {
    p.included != Some(false)
  }

  /** A regulator object `{ [regulator]: policies }` of the mapping. */
  datatype RegulatorGroup = RegulatorGroup(regulator: string, policies: seq<MappedPolicy>)

  /** domain -> regulator objects */
  type MappingTree = Obj<seq<RegulatorGroup>>

  /** The first regulator object whose (only) key is `regulator`. */
  function FindGroup(groups: seq<RegulatorGroup>, regulator: string): (r: Option<RegulatorGroup>)
    ensures r.None? <==> forall i :: 0 <= i < |groups| ==> groups[i].regulator != regulator
    ensures r.Some? ==> exists i :: 0 <= i < |groups| && groups[i] == r.value && groups[i].regulator == regulator &&
                                    forall j :: 0 <= j < i ==> groups[j].regulator != regulator
  {
    if |groups| == 0 then None
    else if groups[0].regulator == regulator then Some(groups[0])
    else
      var r := FindGroup(groups[1..], regulator);
      assert forall i :: 1 <= i < |groups| ==> groups[i] == groups[1..][i - 1];
      if r.Some? then
        var i :| 0 <= i < |groups[1..]| && groups[1..][i] == r.value && groups[1..][i].regulator == regulator &&
                 forall j :: 0 <= j < i ==> groups[1..][j].regulator != regulator;
        assert groups[i + 1] == r.value;
        r
      else r
  }

  /** The first mapped policy with the given code. */
  function FindPolicy(ps: seq<MappedPolicy>, code: string): (r: Option<MappedPolicy>)
    ensures r.None? <==> forall i :: 0 <= i < |ps| ==> ps[i].policyCode != code
    ensures r.Some? ==> exists i :: 0 <= i < |ps| && ps[i] == r.value && ps[i].policyCode == code &&
                                    forall j :: 0 <= j < i ==> ps[j].policyCode != code
  {
    if |ps| == 0 then None
    else if ps[0].policyCode == code then Some(ps[0])
    else
      var r := FindPolicy(ps[1..], code);
      assert forall i :: 1 <= i < |ps| ==> ps[i] == ps[1..][i - 1];
      if r.Some? then
        var i :| 0 <= i < |ps[1..]| && ps[1..][i] == r.value && ps[1..][i].policyCode == code &&
                 forall j :: 0 <= j < i ==> ps[1..][j].policyCode != code;
        assert ps[i + 1] == r.value;
        r
      else r
  }

  // ---------------------------------------------------------------------------
  // Rule interpretation

  datatype InterpretedPolicy = InterpretedPolicy(policyCode: string, testCases: seq<string>)

  /** domain -> regulator -> interpreted policies */
  type InterpretationTree = Obj<Obj<seq<InterpretedPolicy>>>
}
