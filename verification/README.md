# Compliance dashboard aggregation, modelled in Dafny

This project models the client-side aggregation of a regulatory-compliance
dashboard. The dashboard reads nested JSON trees and turns them into the figures
shown on four pages. The assessment results map each domain to regulators, then to
policies, then to test-case validations that each carry a `Compliance_Status`. The
regulation mapping maps each domain to regulator objects, each holding mapped
policies. A rule interpretation maps each domain to regulators, then to policies and
their interpreted test cases.

Each page aggregates on its own, and the copies differ. The model keeps each copy as
written rather than merging them:

- `Home` (`home.dfy`, `home_charts.dfy`) covers `processAssessmentData`. It builds
  per-run, per-domain tallies and drops `sup15` from operational resilience in the
  `2025-03-07` run of the data it is given. That data is the object the assessment
  page also fetches, so once the assessment page has shown version 2 the
  `2025-03-04` run lacks `sup15` too (see "## Findings"). It rescales the first run to the fixed total 78 and pushes the
  rounding difference onto the largest category. It deduplicates policies by
  `domain-regulator-code` and test cases by `domain-regulator-code-testcase`, with
  the last status written winning. It also covers the global chart rescale, the
  domain labels, the "n/t" cells and their pie-chart percentages, and the bar
  chart's rounded axis maximum.
- `PolicyAssessment` covers the version filter of `policy_validation`, the
  statistics loop, the regulator distribution, the percentages, the status labels
  and colours, and the document-path lookup of "view source".
- `RuleMapping` covers the dashboard counters (unique policies keyed by
  domain and code, unique regulators, the regulator pie and the domain bars), the
  initial view, and the three editors: save an edited mapping, add a new mapping,
  and derive customer communications from operational resilience.
- `RuleInterpretation` covers the fixed `v1`/`v2` statistics and the generic
  aggregation, the version-comparison statistics sorted by date, the version and
  domain filters, and the source lookup.

Helper modules model the JavaScript the code relies on:

- `JsObjects` models an object as an insertion-ordered entry sequence. Assigning to
  an existing key keeps its place. Assigning to a new key appends it. Keys are
  never inherited member names or array indices (see "## Left out").
- `JsNumbers` models `Math.round(p/q)` as exact rational round-half-up
  `floor((2p+q)/(2q))`. It also models `Math.ceil`, decimal printing and
  `Number(...)`.
- `JsStrings` models `split`, `join`, `includes`, ASCII case mapping and the
  path-segment `replace`.
- `ComplianceData` holds the entity datatypes.

JavaScript's NaN results are modelled explicitly: `0/0`, and a rescale with a zero
total, become `None` or `NotANumber`.

Where the code's behaviour is easy to misread, the model follows the code:

- A fixed-total override with a zero total is not skipped. Every category becomes
  NaN (`Home.Reconcile` returns `None`).
- A domain percentage with a zero total is NaN. It is not 0
  (`PolicyAssessment.SharePercent`).
- Unknown statuses are not excluded everywhere. The home page counts them in a
  row's `total`, so the row's categories can sum to less than it. The assessment
  page skips them, except a status named after an inherited object member such as
  `toString` (see "## Findings").
- Policy identity differs between pages. The mapping page keys on (domain, code),
  the home page on (domain, regulator, code), and the version-1 assessment figure
  on the code alone.
- Each page keeps its own tie-breaking and totals. There is no single shared engine.

## Model

| member | source | states |
|---|---|---|
| `Home.RunPoliciesFilter` | src/components/Home.jsx:349-367 | a run visits every policy record of a domain exactly once and in order, each under its own regulator key; the visited policies are the domain's policy list, filtered of `sup15` (with the assessment page's filter) exactly in the 2025-03-07 run's operational resilience |
| `Home.SharedDataLosesSup15` | src/components/Home.jsx:349-367 | after the assessment page's version-2 render as written, the shared data's operational resilience is the `sup15`-free list, so the first run visits the filtered list where, on the fetched data, it visits every record |
| `Home.KeptPolicies` | src/components/Home.jsx:363-367 | one visit per kept record of the regulator, in order and with repeats kept: every record, or the `sup15`-filtered list where the run drops it, each tagged with the regulator key |
| `Home.RunVisits` | src/components/Home.jsx:349-353 | a run visits only its domains that are present in the data, and visits every such domain |
| `Home.TallyValidations` | src/components/Home.jsx:355-386 | `total` is the number of validations, each category counts its own status, their sum is at most `total`, with equality exactly when every status is known |
| `Home.LargestCategory` | src/components/Home.jsx:413-419 | the category chosen is at least as large as both others and is the first such in the order Compliant, Partial, Non-Compliant |
| `Home.Reconcile` | src/components/Home.jsx:397-420 | with a positive total the three final counts sum exactly to the override, and the two categories not chosen keep their rounded scaled values; a zero total gives NaN |
| `Home.ScaledNearTarget` | src/components/Home.jsx:399-405 | when the counts make up the whole total, each rounded share lies in 0..override and their sum is within one of the override |
| `Home.AdjustNonNegative` | src/components/Home.jsx:410-420 | moving a difference of at most one onto the largest non-negative category leaves every category non-negative |
| `Home.ReconcileDiffBound` | src/components/Home.jsx:399-420 | when every status is known, the rounding difference is -1, 0 or 1 and no reconciled count is negative |
| `Home.ReconcileTieGoesToCompliant` | src/components/Home.jsx:410-416 | three equal thirds of 100 become 34/33/33: a tie sends the difference to Compliant |
| `Home.DomainRowCells` | src/components/Home.jsx:396-438 | read back as "n/t", an overriding row shows counts over the override that sum to it when the tally is non-empty (NaN otherwise); any other row shows the raw counts over the tally total |
| `Home.ApplyWritesLastWins` | src/components/Home.jsx:371-376 | a test-case key is in the map exactly when some write used it, and it holds the status of the last such write |
| `Home.ApplyWritesSize` | src/components/Home.jsx:347-376 | the number of distinct test cases is at most the number of validations visited |
| `Home.UniqueCountsBound` | src/components/Home.jsx:443-456 | the unique counts of the three statuses add up to at most the number of distinct test cases |
| `Home.ProcessWithoutData` | src/components/Home.jsx:312-317 | without assessment data the table falls back to the policy data, the chart is empty and the totals are undefined |
| `Home.ProcessTotals` | src/components/Home.jsx:458-493 | with version 2 the totals are the sizes of the deduplicated policy and test-case sets, otherwise 6 and 78; the version-1 chart values are non-negative and sum to 78 whenever some test case has a known status |
| `Home.ProcessRows` | src/components/Home.jsx:349-490 | the table has one row per visited (run, domain) pair in traversal order, every such domain is present in the data, and with no row the policy data is shown |
| `Home.PolicyKeyInjective` | src/components/Home.jsx:369 | the joined policy key determines domain, regulator and code when none of them contains a hyphen |
| `Home.PolicyKeyCollision` | src/components/Home.jsx:369 | with hyphenated regulator or code names two different policies share one key |
| `HomeCharts.DomainLabelTitleCases` | src/components/Home.jsx:391-394 | the label has the key's length; underscores become spaces and the first letter of every word is upper-cased, nothing else changes |
| `HomeCharts.ParseFractionText` | src/components/Home.jsx:27-29 | parsing a printed "count/total" cell gives back exactly the count (or NaN) and the total |
| `HomeCharts.PercentOrZero` | src/components/Home.jsx:33-35 | a percentage of a positive total is the rounded share; a NaN operand and 0/0 fall back to 0 through `|| 0`; a non-zero count over a zero total is an infinity of its sign, and only that case is infinite |
| `HomeCharts.EvaluationPieOfCounts` | src/components/Home.jsx:25-35 | for cells printed from non-negative counts that add up to at most a positive total (a home row's total also counts unknown statuses), each legend percentage is the rounded share in 0..100; only when the counts make up the whole total do the three sum to 99, 100 or 101 |
| `HomeCharts.EvaluationPieUnknownStatus` | src/components/Home.jsx:25-35 | the cells "1/2", "0/2", "0/2" of a row with one unknown status give the legend 50/0/0, which sums to 50 |
| `HomeCharts.MaxOrOne` | src/components/Home.jsx:182 | the result is at least 1 and every value, and is 1 or one of the values |
| `HomeCharts.RoundedMax` | src/components/Home.jsx:182-186 | the axis maximum bounds every value and is the least multiple of 10 at or above the maximum when that is at most 50, otherwise the least multiple of 50 |
| `JsNumbers.RoundDiv` | src/components/Home.jsx:400-402 | `Math.round(p/q)` is the integer within one half of p/q, halves rounding up |
| `JsNumbers.RoundDivUnique` | src/components/Home.jsx:400-402 | any integer within one half of p/q (halves up) equals the rounded value |
| `JsNumbers.RoundDivScaledBounds` | src/components/PolicyAssessment.jsx:802-804 | a share of a positive total, scaled and rounded, lies in 0..scale |
| `JsNumbers.RoundedSharesSum` | src/components/Home.jsx:399-405 | three rounded shares of a whole sum to within one of it |
| `JsNumbers.CeilDiv` | src/components/Home.jsx:185-186 | `Math.ceil(p/q)` is the least r with p <= r*q |
| `JsNumbers.ParsePrinted` | src/components/Home.jsx:27 | `Number` of a printed integer gives the integer back |
| `JsStrings.Split` | src/components/Home.jsx:392 | splitting gives at least one part, no part contains the separator, and joining the parts with the separator gives back the string |
| `JsStrings.Contains` | src/components/RuleMapping.jsx:591 | `includes` holds exactly when the substring occurs at some index |
| `JsStrings.ReplaceLastSegment` | src/components/RuleMapping.jsx:444 | a final `/segment` is replaced by the replacement; without such a match the string is unchanged |
| `JsStrings.EnsureLeadingSlash` | src/components/PolicyAssessment.jsx:319 | the result starts with '/'; a slash is prepended exactly when one is missing |
| `JsStrings.ToLower` | src/components/RuleInterpretation.jsx:716 | ASCII lower-casing keeps the length and maps each character |
| `JsStrings.UpperLabel` | src/components/RuleMapping.jsx:219 | the bar label keeps the length, turns underscores into spaces and upper-cases the rest |
| `JsStrings.StrLeTotal` | src/components/RuleInterpretation.jsx:354 | any two date strings are comparable |
| `JsStrings.StrLeTrans` | src/components/RuleInterpretation.jsx:354 | the date order is transitive |
| `JsStrings.StrLeAntisymmetric` | src/components/RuleInterpretation.jsx:354 | two date strings ordered both ways are equal |
| `JsStrings.RemoveFirst` | src/components/RuleInterpretation.jsx:372 | `replace('v', '')` removes the first 'v' when there is one and otherwise changes nothing |
| `JsObjects.Get` | src/components/Home.jsx:351 | a lookup is undefined exactly when the key is absent |
| `JsObjects.GetPut` | src/components/PolicyAssessment.jsx:404 | after an assignment the key reads the new value and every other key reads as before |
| `JsObjects.PutAbsentAppends` | src/components/RuleMapping.jsx:192 | assigning a new key appends its entry at the end |
| `JsObjects.GetDelete` | src/components/PolicyAssessment.jsx:394 | after `delete` every other key reads as before |
| `JsObjects.DeleteRemovesOneEntry` | src/components/PolicyAssessment.jsx:394 | with distinct keys, `delete` removes exactly the entry of that key |
| `JsObjects.AddTo` | src/components/PolicyAssessment.jsx:468-473 | a counter update keeps the existing keys in place, appends a new key, and raises the value sum by the amount added |
| `JsObjects.GetAddTo` | src/components/PolicyAssessment.jsx:468-473 | the counter under the key grows by the amount (from 0 when absent) and other counters stay |
| `JsObjects.KeySetSize` | src/components/PolicyAssessment.jsx:458 | with distinct keys the number of keys is the number of entries |
| `ComplianceData.FindGroup` | src/components/PolicyAssessment.jsx:309 | the first regulator object with the regulator's key is found, and none is found exactly when no object has that key |
| `ComplianceData.FindPolicy` | src/components/PolicyAssessment.jsx:311 | the first policy with the code is found, and none is found exactly when no policy has it |
| `ComplianceData.CountStatus` | src/components/Home.jsx:379-385 | a status count is at most the number of validations; it is zero exactly when no validation has the status, and all of them exactly when every one has it |
| `ComplianceData.CountStatusAppend` | src/components/PolicyAssessment.jsx:444-449 | status counts add up over concatenated validation lists |
| `PolicyAssessment.WithoutSup15` | src/components/PolicyAssessment.jsx:405-407 | the filtered list holds exactly the policies whose code is not `sup15` |
| `PolicyAssessment.WithoutSup15Append` | src/components/PolicyAssessment.jsx:405-407 | the filter distributes over concatenation, so the survivors keep their order |
| `PolicyAssessment.WithoutSup15Idempotent` | src/components/PolicyAssessment.jsx:402-408 | filtering twice equals filtering once, and a list without `sup15` is unchanged |
| `PolicyAssessment.RegulatorPolicyListDropSup15` | src/components/PolicyAssessment.jsx:402-408 | filtering each regulator's list filters the domain's whole policy list |
| `PolicyAssessment.DropSup15` | src/components/PolicyAssessment.jsx:402-408 | every regulator keeps its key and place, and its list becomes the filtered list |
| `PolicyAssessment.DropSup15Idempotent` | src/components/PolicyAssessment.jsx:398-409 | filtering all regulator lists twice equals filtering once |
| `PolicyAssessment.FilterV1` | src/components/PolicyAssessment.jsx:390-395 | version 1 hides customer communications, leaves every other domain as it was, removes exactly that one entry, and changes nothing when it is absent |
| `PolicyAssessment.FilterV2` | src/components/PolicyAssessment.jsx:397-409 | version 2 keeps every domain key in place and changes only operational resilience, to its `sup15`-free regulator lists |
| `PolicyAssessment.FilterIdempotent` | src/components/PolicyAssessment.jsx:389-409 | applying a version filter to its own output changes nothing |
| `PolicyAssessment.ViewsAsWrittenLoseSup15` | src/components/PolicyAssessment.jsx:390-409 | showing version 2 and then version 1 loses `sup15` from the version-1 view, which the version-1 filter alone keeps |
| `PolicyAssessment.ViewsIndependentOfHistory` | src/components/PolicyAssessment.jsx:390-409 | without the write-through, every view equals the filter of its own version over the fetched data |
| `PolicyAssessment.DomainTally` | src/components/PolicyAssessment.jsx:444-451 | each category counts its own status, unknown statuses are skipped, and the domain total is the sum of the three categories |
| `PolicyAssessment.DomainTallyAsWrittenCounterexample` | src/components/PolicyAssessment.jsx:446-450 | a status named after an inherited object member passes the `in` test and raises the total above the sum of the categories |
| `PolicyAssessment.DomainTallyAsWrittenAgrees` | src/components/PolicyAssessment.jsx:444-451 | when no status is the name of an inherited object member, the tally as written equals the corrected tally |
| `PolicyAssessment.Codes` | src/components/PolicyAssessment.jsx:441 | the distinct codes are exactly the codes that occur, and there are at most as many as policy records |
| `PolicyAssessment.TotalPoliciesBound` | src/components/PolicyAssessment.jsx:440-459 | the version-2 figure is the raw number of policy records, and the version-1 figure of distinct codes never exceeds it |
| `PolicyAssessment.DomainComplianceKeys` | src/components/PolicyAssessment.jsx:428-435 | one tally per domain, in the domains' order, the last one being the tally of the last domain's validations |
| `PolicyAssessment.DomainComplianceSums` | src/components/PolicyAssessment.jsx:444-451 | the overall count of each status is the sum of the domain counts, and the sum of domain totals is at most the number of test cases; stated for the corrected tally |
| `PolicyAssessment.StatsConsistent` | src/components/PolicyAssessment.jsx:428-461 | the global counts equal the sums over domains, and their sum is at most `totalTestCases`; stated for the corrected tally |
| `PolicyAssessment.RegulatorDistributionShape` | src/components/PolicyAssessment.jsx:464-481 | the distribution has one entry per distinct regulator key, the same keys as `totalRegulators` counts, and its values sum to `totalTestCases` |
| `PolicyAssessment.SharePercent` | src/components/PolicyAssessment.jsx:802-804 | with a positive total the percentage is the rounded share, in 0..100 when the count is at most the total; with a zero total it is NaN or Infinity |
| `PolicyAssessment.DomainBreakdownSum` | src/components/PolicyAssessment.jsx:800-804 | a domain's percentages lie in 0..100 and sum to 99, 100 or 101; a domain with nothing tallied shows NaN three times; stated for the corrected tally |
| `PolicyAssessment.OverallBreakdownBounds` | src/components/PolicyAssessment.jsx:570-572 | the overall percentages lie in 0..100 once there is a test case, and sum to 99..101 when every status is known; stated for the corrected tally |
| `PolicyAssessment.DisplayNameChanges` | src/components/PolicyAssessment.jsx:484-487 | the display name differs from the status exactly for 'Partial Compliance' |
| `PolicyAssessment.ChipColor` | src/components/PolicyAssessment.jsx:265-276 | the three known statuses map to success, error and warning, each exactly, and anything else to default |
| `PolicyAssessment.DocumentPath` | src/components/PolicyAssessment.jsx:303-319 | a path is found exactly when the lower-cased domain, the regulator object and the policy code all resolve to a non-empty path; a found path starts with '/' |
| `PolicyAssessment.DocumentPathNormalised` | src/components/PolicyAssessment.jsx:318-319 | a found path is the stored one, with a slash prepended only when it lacks one |
| `RuleMapping.Shown` | src/components/RuleMapping.jsx:69-73 | with the flag off customer communications is not visited and every visited domain is from the data; with it on every domain is |
| `RuleMapping.Included` | src/components/RuleMapping.jsx:159 | the included records are exactly those whose flag is not `false`; a missing flag means included |
| `RuleMapping.HasIncludedIffCount` | src/components/RuleMapping.jsx:132-161 | a regulator has an included policy exactly when its included count is positive |
| `RuleMapping.PolicyIds` | src/components/RuleMapping.jsx:79-85 | the identifiers are exactly `domain-code` of the included policies, at most one per included record |
| `RuleMapping.TreeIds` | src/components/RuleMapping.jsx:69-112 | the unique-policy count is at most the number of included records in the shown domains |
| `RuleMapping.TreeIdsMembers` | src/components/RuleMapping.jsx:69-85 | an identifier is counted exactly when some included policy of a shown domain carries it, whatever its regulator |
| `RuleMapping.GroupIdsMembers` | src/components/RuleMapping.jsx:77-85 | within one domain, an identifier is counted exactly when some included policy of some regulator object carries it |
| `RuleMapping.TreeRegulatorsMembers` | src/components/RuleMapping.jsx:122-137 | a regulator is counted exactly when one of its objects in a shown domain has an included policy |
| `RuleMapping.GroupRegulatorsMembers` | src/components/RuleMapping.jsx:128-136 | within one domain a regulator is counted exactly when one of its objects has an included policy |
| `RuleMapping.RegulatorCountsShape` | src/components/RuleMapping.jsx:147-175 | the pie has one slice per counted regulator, so as many slices as unique regulators, and its values sum to the included records |
| `RuleMapping.RegulatorCountsValue` | src/components/RuleMapping.jsx:156-167 | a regulator's slice is its number of included records across the shown domains |
| `RuleMapping.DomainCountsEntries` | src/components/RuleMapping.jsx:186-199 | with distinct domain keys the accumulated bars are exactly one entry per shown domain, in order, holding its included records (zero included) |
| `RuleMapping.DomainCountsSum` | src/components/RuleMapping.jsx:192-199 | the domain values sum to the included records of the shown domains |
| `RuleMapping.DashboardConsistent` | src/components/RuleMapping.jsx:186-221 | unique policies are at most the included records; both charts sum to the included records; there is one slice per counted regulator and one labelled bar per shown domain |
| `RuleMapping.InitialView` | src/components/RuleMapping.jsx:400-412 | with the flag off the page's data has no customer-communications domain; with it on the data is as loaded |
| `RuleMapping.InitialViewKeepsDashboard` | src/components/RuleMapping.jsx:405-408 | removing the hidden domain up front changes no other domain and no dashboard figure |
| `RuleMapping.SavePolicies` | src/components/RuleMapping.jsx:505-521 | a policy takes the form's `included` and comments exactly when regulator, code and path all equal the selection; every other policy is unchanged |
| `RuleMapping.SaveMapping` | src/components/RuleMapping.jsx:496-528 | saving keeps the domain keys, and does nothing without data |
| `RuleMapping.SaveMappingKeepsSkeleton` | src/components/RuleMapping.jsx:502-525 | saving changes nothing but `included` and comments: domains, regulator objects, codes and paths keep their places |
| `RuleMapping.SaveMappingAt` | src/components/RuleMapping.jsx:502-525 | the policy at each position reads the form's values when selected and is unchanged otherwise |
| `RuleMapping.SaveMappingIdempotent` | src/components/RuleMapping.jsx:496-528 | saving the same form twice is the same as saving it once |
| `RuleMapping.TargetDomain` | src/components/RuleMapping.jsx:589-593 | the target is customer communications exactly when the path contains that substring, operational resilience otherwise |
| `RuleMapping.AppendToRegulator` | src/components/RuleMapping.jsx:600-615 | an existing regulator keeps its object count; a missing one gets a new object at the end holding just the new policy |
| `RuleMapping.AppendToRegulatorAt` | src/components/RuleMapping.jsx:601-615 | the policy is appended at the end of the first object of its regulator, and every other object is unchanged |
| `RuleMapping.SaveNewMappingEffect` | src/components/RuleMapping.jsx:590-615 | the target domain holds the appended objects, every other domain reads as before, and the target is appended as a new key exactly when it was absent |
| `RuleMapping.SaveNewMappingIncluded` | src/components/RuleMapping.jsx:609-615 | a new mapping adds one included record exactly when its flag is on |
| `RuleMapping.SaveNewMappingAsWritten` | src/components/RuleMapping.jsx:600-615 | with the lookup as written the result is the model's save whenever the regulation is not an inherited member name; where they differ, the code has thrown and the data stays as it was |
| `RuleMapping.DialogSaveAgrees` | src/components/RuleMapping.jsx:1094-1103 | for the regulators the dialog offers, FCA and PRA, the lookup as written gives the model's save |
| `RuleMapping.SaveNewMappingAsWrittenThrows` | src/components/RuleMapping.jsx:600-615 | the regulation `toString` with an FCA object present leaves the data unchanged as written, while the model appends a new object |
| `RuleMapping.DeriveCC` | src/components/RuleMapping.jsx:435-452 | the derived domain keeps every regulator object with its list length and order, each policy being its derived copy |
| `RuleMapping.CCPolicyFields` | src/components/RuleMapping.jsx:441-445 | a derived policy keeps its flags, gets `CC-` before its code, and its path has the final segment replaced by the customer-communications document (or is unchanged without one) |
| `RuleMapping.DeriveCCIncluded` | src/components/RuleMapping.jsx:441-445 | the derived domain has as many included records as operational resilience |
| `RuleMapping.AddCustomerCommunications` | src/components/RuleMapping.jsx:414-466 | the handler's own result on `view`, the page data and flag captured when the upload started, before the flag change re-runs the initialising effect (see "## Findings"): without operational resilience nothing changes; otherwise customer communications is present and shown |
| `RuleMapping.AddCustomerCommunicationsEffect` | src/components/RuleMapping.jsx:416-456 | the loaded customer-communications domain is used when there is one, otherwise the derived copy; every other domain of the current data stays |
| `RuleMapping.AddCustomerCommunicationsAsWritten` | src/components/RuleMapping.jsx:400-459 | as written, turning the flag on replaces the page data with the loaded data; only when the flag was already on does the handler's result stand |
| `RuleMapping.AddCustomerCommunicationsAsWrittenLosesDomain` | src/components/RuleMapping.jsx:400-459 | with the flag off and no loaded customer-communications domain, the page as written ends without that domain and without an earlier edit, which the handler's result keeps |
| `RuleInterpretation.FixedStatsConsistent` | src/components/RuleInterpretation.jsx:59-113 | the hard-coded `v1` and `v2` figures agree with themselves: the domain test cases and the regulator values both sum to the total test cases, the domain policies sum to the total policies, and no regulator is listed twice |
| `RuleInterpretation.ProcessDataConsistent` | src/components/RuleInterpretation.jsx:115-152 | in every version the domain test cases and the regulator values both sum to `totalTestCases` and the domain policies to `totalPolicies`; otherwise one bar per visited domain, and with the flag off only FCA and PRA appear |
| `RuleInterpretation.AggregateBars` | src/components/RuleInterpretation.jsx:142-146 | every visited domain gets one bar with its upper-cased label, even when all its regulators are skipped |
| `RuleInterpretation.AggregateBarSums` | src/components/RuleInterpretation.jsx:142-149 | the bars add up to the test-case and policy totals |
| `RuleInterpretation.AggregateRegulators` | src/components/RuleInterpretation.jsx:125-140 | the regulator values sum to the test-case total, name distinct regulators, and are all kept regulators |
| `RuleInterpretation.FixedStatsAgree` | src/components/RuleInterpretation.jsx:302-319 | the fixed comparison figures of `v1` and `v2` match their dashboards |
| `RuleInterpretation.ComputedStatsAgree` | src/components/RuleInterpretation.jsx:321-343 | for other versions, test cases, policies and domains equal the full dashboard's, and `regulators`, when defined, is its number of distinct regulators |
| `RuleInterpretation.SortByDatePermutes` | src/components/RuleInterpretation.jsx:354 | sorting keeps the same rows |
| `RuleInterpretation.SortByDateSorted` | src/components/RuleInterpretation.jsx:354 | the sorted rows are in ascending date order |
| `RuleInterpretation.SortByDateStable` | src/components/RuleInterpretation.jsx:354 | rows with the same date keep their input order |
| `RuleInterpretation.ChartDataOrdered` | src/components/RuleInterpretation.jsx:346-372 | on the first render, one point per version in order of the stored dates; `v2` always shows 2025-03-07 and `v1` its fixed figures |
| `RuleInterpretation.RedateV2` | src/components/RuleInterpretation.jsx:654-670 | the mount effect changes only the date of the first `v2` entry, to the display date; versions, data and other dates are kept |
| `RuleInterpretation.RedateV2Idempotent` | src/components/RuleInterpretation.jsx:654-670 | running the effect again changes nothing |
| `RuleInterpretation.ChartDataRedatedOrdered` | src/components/RuleInterpretation.jsx:346-372 | after the effect, with one `v2` entry, the points' displayed dates are in ascending order |
| `RuleInterpretation.ChartDataRedatingReorders` | src/components/RuleInterpretation.jsx:654-670 | a version dated between `v2`'s stored date and 2025-03-07 comes after `v2` on the first render and before it once the effect has run |
| `RuleInterpretation.VisibleVersions` | src/components/RuleInterpretation.jsx:871-881 | with `v2` shown the list is passed on unchanged; otherwise an entry is kept exactly when it is `v1` |
| `RuleInterpretation.VisibleVersionsAppend` | src/components/RuleInterpretation.jsx:874 | the filter distributes over concatenation, so the kept entries keep their order and their repeats |
| `RuleInterpretation.VisibleVersionsIdempotent` | src/components/RuleInterpretation.jsx:872-881 | hiding `v2` twice is hiding it once |
| `RuleInterpretation.ListedDomains` | src/components/RuleInterpretation.jsx:921-923 | a `v1` entry keeps exactly the operational-resilience domain entries; other versions list every domain unchanged |
| `RuleInterpretation.ListedDomainsAppend` | src/components/RuleInterpretation.jsx:921-923 | the domain filter distributes over concatenation, so the listed domains keep their order and multiplicity |
| `RuleInterpretation.ViewSource` | src/components/RuleInterpretation.jsx:713-741 | the dialog opens exactly when the lower-cased domain, the regulator and the lower-cased code resolve to a policy; it shows the given code and the citation or '' |
| `RuleInterpretation.ViewSourceAgreesWithAssessment` | src/components/RuleInterpretation.jsx:716-722 | when this lookup finds a non-empty path, the assessment page's lookup of the lower-cased code finds the same path with a leading slash |

## Left out

- PDF.js loading, rendering, text search and scroll-to-match: these are CDN script
  injection, DOM, canvas and asynchronous rendering, not aggregation.
- Simulated progress bars, `setTimeout`/`setInterval` and `Math.random`: these are
  timers and randomness. One timer matters: the upload's last timer
  (src/components/RuleMapping.jsx:678-696) is the only caller of
  `addCustomerCommunicationsPolicy`, about 61 seconds after the upload. It runs in
  the closure of the upload's render, so the handler works on the page data and
  flag of that moment. The model takes those as its `view` argument.
- JSX rendering, chart and component libraries, dialogs and React state hooks. A
  state setter is modelled as the function returning the new value.
- `src/services/api.js` (mock data and `fetch`), `src/context/AppContext.js`,
  `src/theme/index.js` and `src/App.js`: these are data plumbing, theme constants
  and wiring. `update_mock_data` keeps a running count in a module global and is
  not part of this model.
- IEEE floating point: `Math.round` of a ratio is exact rational round-half-up.
  Floating-point artefacts at exact halves are not modelled.
- Date parsing and `toLocaleDateString`: ISO date strings are compared
  lexicographically, which matches chronological order for one ISO format.
- Unicode case mapping: `toLowerCase`/`toUpperCase` act on ASCII letters only.
- `JSON.parse(JSON.stringify(...))` deep copies: values are immutable, so a copy is
  the value itself.
- `Number(...)` reads only the empty string and optionally signed decimal integers.
  Other numeric forms (decimals, exponents, whitespace) are read as NaN. Every cell
  the dashboard prints is an integer, `NaN`, or a sign followed by digits.
- A regulator object of the mapping is modelled as holding a single regulator key.
  The code reads only the first key in some places (`Object.keys(obj)[0]`) and every
  key in others. Objects with several keys do not occur in the mapping data and are
  not modelled.
- Crashes on malformed input are not modelled as errors: a missing
  `policy_validations`, a missing `policy_document_path`, or a `null` current mapping
  in the editors. The model's types make these fields always present.
- `handleEditClick` writes `regulation` into the selected mapping object. Only the
  resulting selection (regulator, code, path) is modelled.
- `PolicyAssessment.StatsConsistent`, `PolicyAssessment.DomainComplianceKeys`, `PolicyAssessment.DomainComplianceSums`, `RuleMapping.DashboardConsistent`, `RuleMapping.DomainCountsEntries`, `RuleMapping.DomainCountsSum`: assume distinct domain keys, which every parsed JSON object has; an entry sequence with a repeated key has no JSON counterpart.
- `PolicyAssessment.StatsConsistent`: stated for the statistics built on the corrected tally; the code as written differs only when a status is an inherited object member name (`PolicyAssessment.DomainTallyAsWrittenAgrees`).
- `PolicyAssessment.DomainComplianceSums`: stated for the corrected tally, for the same reason.
- `PolicyAssessment.DomainBreakdownSum`: stated for the corrected tally, for the same reason.
- `PolicyAssessment.OverallBreakdownBounds`: stated for the corrected tally, for the same reason.
- `RuleMapping.AddCustomerCommunications`: its `view` is the data captured when the upload started. A save made during the following 61 seconds is overwritten by the handler's result, and that interleaving is not modelled.
- `RuleMapping.AppendToRegulator`, `RuleMapping.AppendToRegulatorAt`, `RuleMapping.SaveNewMappingEffect`, `RuleMapping.SaveNewMappingIncluded`: match a regulator object by its own key. The code's `regulation in obj` also matches inherited member names such as `toString`; the dialog offers only FCA and PRA, for which the two agree (`RuleMapping.DialogSaveAgrees`). `RuleMapping.SaveNewMappingAsWritten` models the lookup as written.
- `JsObjects.AddTo`, `JsObjects.GetAddTo`: keys are never `Object.prototype` member names or canonical array indices. For an inherited name the `!o[k]` guard reads the inherited member, so `+=` builds a string or writes the prototype. `Object.entries` lists array-index keys first, in numeric order. The keys counted are regulator and domain names such as `FCA` and `operational_resilience`.
- `RuleInterpretation.ChartDataOrdered`: describes the first render after loading, which sorts `v2` by its stored date. The mount effect then writes the display date into the fetched data, and later renders sort by it; `RuleInterpretation.ChartDataRedatedOrdered` states that order.
- `Home.RunPoliciesFilter`: stated over the data the home page is given. After a version-2 render of the assessment page, that data is already filtered (`Home.SharedDataLosesSup15`). `src/hooks/useApi` is not part of this model; the sharing assumes it passes the fetched object on as it is.
- `Home.PolicyKeyInjective`: holds only for hyphen-free names, because the source joins key parts with '-'; `Home.PolicyKeyCollision` shows the collision otherwise.

## Findings

| source | as written | input that shows it | evidently intended | confidence | as-written member | corrected member |
|---|---|---|---|---|---|---|
| src/components/PolicyAssessment.jsx:446-451 | `status in stats.complianceCounts` is also true for names inherited from `Object.prototype`. Such a status raises the domain `total` but no category. | One validation 'Compliant' and one with status 'toString': domain counts 1/0/0 with total 2. | Only the three known statuses are tallied, so a domain's total equals the sum of its categories. | medium, not executed | `PolicyAssessment.DomainTallyAsWrittenCounterexample` | `PolicyAssessment.DomainTally` |
| src/components/PolicyAssessment.jsx:390-409 | The copy is shallow. The version-2 filter assigns the filtered lists into the `operational_resilience` object of the fetched data itself. The home page reads that same object, because the mock fetch in src/services/api.js:126-131 resolves one module object for both pages. | Data with one FCA policy `sup15` under operational resilience. Show version 2, then version 1: the version-1 view has no `sup15`. | Each view depends only on the selected version and the fetched data. | medium, not executed | `PolicyAssessment.ViewsAsWrittenLoseSup15` | `PolicyAssessment.ViewsIndependentOfHistory` |
| src/components/Home.jsx:349-367 | The home page drops `sup15` only in its `2025-03-07` run, but it reads the fetched object the assessment page's version-2 render writes into. | Version 2 on, the assessment page shown, then the home page: its `2025-03-04` row has no `sup15`, and the unique-policy and test-case totals lose its records. | `sup15` is dropped only in the `2025-03-07` run, whatever page was shown before. | medium, not executed | `Home.SharedDataLosesSup15` | `Home.RunPoliciesFilter` |
| src/components/RuleMapping.jsx:400-459 | The handler, called by the upload's last timer, sets the data and then turns the flag on. The flag is a dependency of the initialising effect, which then replaces the data with a fresh copy of the loaded data. | Loaded data with operational resilience only, an edited policy, and the flag off: once the upload's timer has run the handler, the page has no customer-communications domain and the edit is gone. | The derived domain is added to the current data and stays, and earlier edits are kept. | medium, not executed | `RuleMapping.AddCustomerCommunicationsAsWritten` | `RuleMapping.AddCustomerCommunications` |
