/** The chart helpers of the home page: the domain label of a table row, the
    "n/t" strings the evaluation pie chart parses back into percentages, and the
    rounded axis maximum of the compliance bar chart. */
module HomeCharts {
  import opened Wrappers
  import opened JsNumbers
  import opened JsStrings

  // ---------------------------------------------------------------------------
  // Domain labels: `key.split('_').map(w => w.charAt(0).toUpperCase() + w.slice(1)).join(' ')`

  function CapitalizeWord(w: string): (r: string)
    ensures |r| == |w|
  {
    if |w| == 0 then "" else [UpperChar(w[0])] + w[1..]
  }

  function CapitalizeAll(parts: seq<string>): (r: seq<string>)
    ensures |r| == |parts|
    ensures forall k :: 0 <= k < |parts| ==> r[k] == CapitalizeWord(parts[k])
  {
    if |parts| == 0 then [] else [CapitalizeWord(parts[0])] + CapitalizeAll(parts[1..])
  }

  function DomainLabel(key: string): string {
    Join(CapitalizeAll(Split(key, '_')), ' ')
  }

  /** The character the label shows at position `i` of the key: underscores become
      spaces, and the first character of every word is upper-cased. */
  function TitleChar(key: string, i: int): char
    requires 0 <= i < |key|
  {
    if key[i] == '_' then ' '
    else if i == 0 || key[i - 1] == '_' then UpperChar(key[i])
    else key[i]
  }

  /** The label has the key's length and shows `TitleChar` at every position. */
  lemma {:induction false} DomainLabelTitleCases(key: string)
    ensures |DomainLabel(key)| == |key|
    ensures forall i :: 0 <= i < |key| ==> DomainLabel(key)[i] == TitleChar(key, i)
    decreases |key|
  {
    var i := IndexOf(key, '_');
    if i == |key| {
      SingleWordLabel(key);
    } else {
      var b := key[i + 1..];
      DomainLabelFirstWord(key, i);
      DomainLabelTitleCases(b);
      forall j | 0 <= j < |key|
        ensures DomainLabel(key)[j] == TitleChar(key, j)
      {
        TitleCharSplit(key, i, j, DomainLabel(b));
      }
    }
  }

  /** A key without an underscore is one capitalised word. */
  lemma SingleWordLabel(key: string)
    requires IndexOf(key, '_') == |key|
    ensures DomainLabel(key) == CapitalizeWord(key)
    ensures forall j :: 0 <= j < |key| ==> DomainLabel(key)[j] == TitleChar(key, j)
  {
    assert '_' !in key by {
      assert forall j :: 0 <= j < |key| ==> key[j] != '_';
    }
    SplitNoSeparator(key, '_');
    assert CapitalizeAll([key]) == [CapitalizeWord(key)];
    assert DomainLabel(key) == Join([CapitalizeWord(key)], ' ') == CapitalizeWord(key);
    forall j | 0 <= j < |key|
      ensures CapitalizeWord(key)[j] == TitleChar(key, j)
    {
      assert key[j] != '_';
      assert j > 0 ==> key[j - 1] != '_';
    }
  }

  /** One position of a label made of the first word, a space and the rest's label. */
  lemma TitleCharSplit(key: string, i: nat, j: nat, rest: string)
    requires i == IndexOf(key, '_') < |key| && j < |key|
    requires |rest| == |key| - i - 1
    requires forall k :: 0 <= k < |rest| ==> rest[k] == TitleChar(key[i + 1..], k)
    ensures (CapitalizeWord(key[..i]) + [' '] + rest)[j] == TitleChar(key, j)
  {
    var a := key[..i];
    var shown := CapitalizeWord(a) + [' '] + rest;
    if j > i {
      TitleCharAfter(key, i, j);
      assert shown[j] == rest[j - i - 1];
    } else if j < i {
      assert shown[j] == CapitalizeWord(a)[j];
      assert j > 0 ==> key[j - 1] == a[j - 1];
    }
  }

  /** The label is the first word capitalised, a space, then the label of the rest. */
  lemma DomainLabelFirstWord(key: string, i: nat)
    requires i == IndexOf(key, '_') < |key|
    ensures DomainLabel(key) == CapitalizeWord(key[..i]) + [' '] + DomainLabel(key[i + 1..])
  {
    var a, b := key[..i], key[i + 1..];
    var tail := Split(b, '_');
    SplitAtFirst(key, '_', i);
    CapitalizeAllCons(a, tail);
    JoinCons(CapitalizeWord(a), CapitalizeAll(tail), ' ');
  }

  lemma CapitalizeAllCons(w: string, parts: seq<string>)
    ensures CapitalizeAll([w] + parts) == [CapitalizeWord(w)] + CapitalizeAll(parts)
  {
    assert ([w] + parts)[1..] == parts;
  }

  /** Past an underscore at `i`, the key shows what its remainder shows. */
  lemma TitleCharAfter(key: string, i: int, j: int)
    requires 0 <= i < j < |key| && key[i] == '_'
    ensures TitleChar(key, j) == TitleChar(key[i + 1..], j - i - 1)
  {
    var b := key[i + 1..];
    assert key[j] == b[j - i - 1];
    if j - i - 1 > 0 {
      assert key[j - 1] == b[j - i - 2];
    }
  }

  // ---------------------------------------------------------------------------
  // Evaluation strings "n/t" and the pie chart that parses them

  /** `${n}` where a NaN count prints as "NaN". */
  function CountText(n: Option<int>): string {
    match n
    case Some(v) => IntToString(v)
    case None => "NaN"
  }

  /** The "count/total" text of one evaluation cell. */
  function FractionText(n: Option<int>, total: int): string {
    CountText(n) + "/" + IntToString(total)
  }

  /** `const [num, total] = s.split('/').map(Number)`; a missing second part is NaN. */
  function ParseFraction(s: string): (Option<int>, Option<int>) {
    var parts := Split(s, '/');
    (ParseNumber(parts[0]), if |parts| > 1 then ParseNumber(parts[1]) else None)
  }

  /** The pie chart reads back exactly the count and total that were printed. */
  lemma ParseFractionText(n: Option<int>, total: int)
    ensures ParseFraction(FractionText(n, total)) == (n, Some(total))
  {
    var a := CountText(n);
    assert '/' !in a by {
      if n.None? {
        assert a == "NaN";
      }
    }
    assert FractionText(n, total) == a + ['/'] + IntToString(total);
    SplitCons(a, '/', IntToString(total));
    SplitNoSeparator(IntToString(total), '/');
    ParsePrinted(total);
    if n.Some? {
      ParsePrinted(n.value);
    } else {
      assert !AllDigits("NaN") by {
        assert !IsDigit("NaN"[0]);
      }
    }
  }

  /** A JavaScript number a percentage can evaluate to: `Math.round(n / t * 100) || 0`
      is a finite integer, or an infinity when a non-zero count meets a zero total. */
  datatype Percent = Finite(value: int) | Infinite(positive: bool)

  /** `Math.round((num / total) * 100) || 0` on exact rationals; NaN falls back to 0. */
  function PercentOrZero(num: Option<int>, total: Option<int>): (r: Percent)
    ensures num.Some? && total.Some? && total.value > 0 ==>
              r == Finite(RoundDiv(100 * num.value, total.value))
    ensures num.None? || total.None? ==> r == Finite(0)
    ensures num.Some? && total.Some? && total.value == 0 ==>
              (num.value == 0 ==> r == Finite(0)) && (num.value != 0 ==> r == Infinite(num.value > 0))
    ensures r.Infinite? <==> num.Some? && total.Some? && total.value == 0 && num.value != 0
  {
    if num.None? || total.None? then Finite(0)
    else if total.value == 0 then
      if num.value == 0 then Finite(0)
      else Infinite(num.value > 0)
    else Finite(RoundRatio(100 * num.value, total.value))
  }

  datatype PieLegend = PieLegend(compliant: Percent, partial: Percent, nonCompliant: Percent)

  /** The legend of `EvaluationPieChart`: every percentage uses the compliant cell's total. */
  function EvaluationPie(compliant: string, nonCompliant: string, partial: string): PieLegend {
    var (c, total) := ParseFraction(compliant);
    var (n, _) := ParseFraction(nonCompliant);
    var (p, _) := ParseFraction(partial);
    PieLegend(PercentOrZero(c, total), PercentOrZero(p, total), PercentOrZero(n, total))
  }

  /** The legend of printed counts is their rounded shares of the total. */
  lemma EvaluationPieParsed(c: nat, p: nat, n: nat, total: int)
    requires total > 0
    ensures EvaluationPie(FractionText(Some(c), total), FractionText(Some(n), total), FractionText(Some(p), total))
            == PieLegend(Finite(RoundDiv(100 * c, total)), Finite(RoundDiv(100 * p, total)),
                         Finite(RoundDiv(100 * n, total)))
  {
    ParseFractionText(Some(c), total);
    ParseFractionText(Some(p), total);
    ParseFractionText(Some(n), total);
  }

  /** For cells printed from three non-negative counts of a positive total that cover at
      most that total (a home row's total also counts unknown statuses), the legend shows
      finite percentages in 0..100; when the counts make up the whole total their sum is
      99, 100 or 101. */
  lemma EvaluationPieOfCounts(c: nat, p: nat, n: nat, total: int)
    requires total > 0 && c + p + n <= total
    ensures var pie := EvaluationPie(FractionText(Some(c), total), FractionText(Some(n), total),
                                     FractionText(Some(p), total));
            && pie.compliant == Finite(RoundDiv(100 * c, total))
            && pie.partial == Finite(RoundDiv(100 * p, total))
            && pie.nonCompliant == Finite(RoundDiv(100 * n, total))
            && 0 <= pie.compliant.value <= 100
            && 0 <= pie.partial.value <= 100
            && 0 <= pie.nonCompliant.value <= 100
            && (c + p + n == total ==>
                  99 <= pie.compliant.value + pie.partial.value + pie.nonCompliant.value <= 101)
  {
    EvaluationPieParsed(c, p, n, total);
    RoundDivScaledBounds(c, total, 100);
    RoundDivScaledBounds(p, total, 100);
    RoundDivScaledBounds(n, total, 100);
    if c + p + n == total {
      RoundedSharesSum(100 * c, 100 * p, 100 * n, total, 100);
    }
  }

  /** A row with one Compliant validation and one of unknown status prints "1/2", "0/2",
      "0/2", and its legend sums to 50, not to about 100. */
  lemma EvaluationPieUnknownStatus()
    ensures var pie := EvaluationPie(FractionText(Some(1), 2), FractionText(Some(0), 2), FractionText(Some(0), 2));
            pie == PieLegend(Finite(50), Finite(0), Finite(0))
  {
    EvaluationPieOfCounts(1, 0, 0, 2);
    RoundDivUnique(100, 2, 50);
    RoundDivUnique(0, 2, 0);
  }

  // ---------------------------------------------------------------------------
  // Compliance bar chart axis

  /** `Math.max(...values, 1)`. */
  function MaxOrOne(values: seq<int>): (m: int)
    ensures m >= 1
    ensures forall i :: 0 <= i < |values| ==> values[i] <= m
    ensures m == 1 || exists i :: 0 <= i < |values| && values[i] == m
  {
    if |values| == 0 then 1
    else
      var rest := MaxOrOne(values[1..]);
      assert forall i :: 1 <= i < |values| ==> values[i] == values[1..][i - 1];
      if values[0] >= rest then values[0] else rest
  }

  /** The bar chart's axis maximum: the largest value (at least 1) rounded up to a
      multiple of 10 when it is at most 50, and to a multiple of 50 otherwise. */
  function RoundedMax(values: seq<int>): (r: int)
    ensures forall i :: 0 <= i < |values| ==> values[i] <= r
    ensures MaxOrOne(values) <= r
    ensures MaxOrOne(values) <= 50 ==> r % 10 == 0 && r - 10 < MaxOrOne(values)
    ensures MaxOrOne(values) > 50 ==> r % 50 == 0 && r - 50 < MaxOrOne(values)
  {
    var m := MaxOrOne(values);
    if m <= 50 then CeilDiv(m, 10) * 10 else CeilDiv(m, 50) * 50
  }
}
