/**
 The "Calcular VALOR FINAL" handler of cambio.py: validate the four inputs,
 stop with one message per violated rule, otherwise convert the annual rate
 and compound the principal, then convert it to BRL at the exchange rate.

 The conversion `taxa_anual_para_diaria` (a fractional power) is a parameter,
 `dailyRateOf`, with the day basis of 365 fixed inside it.
 */
module Operation {
  import opened Finance
  import opened BrFormat

  /** The four form fields: `cotacao`, `taxa_aa_pct`, `dias`, `valor_usd`. */
  datatype OperationInput = OperationInput(
    exchangeRate: real,     // BRL per USD
    annualRatePct: real,    // effective annual rate, in percent
    days: int,              // calendar days of the operation
    principalUsd: real      // principal, in USD
  )

  /** The validation rules, in the order the handler checks them. */
  datatype Rule = ExchangeRatePositive | AnnualRateNonNegative | DaysNonNegative | PrincipalNonNegative

  const CheckOrder: seq<Rule> := [ExchangeRatePositive, AnnualRateNonNegative, DaysNonNegative, PrincipalNonNegative]

  /** Position of a rule in the checking order. */
  function Rank(rule: Rule): nat {
    match rule
    case ExchangeRatePositive => 0
    case AnnualRateNonNegative => 1
    case DaysNonNegative => 2
    case PrincipalNonNegative => 3
  }

  /** Whether the input satisfies a rule; a principal of zero is accepted. */
  predicate Holds(rule: Rule, op: OperationInput) {
    match rule
    case ExchangeRatePositive => op.exchangeRate > 0.0
    case AnnualRateNonNegative => op.annualRatePct >= 0.0
    case DaysNonNegative => op.days >= 0
    case PrincipalNonNegative => op.principalUsd >= 0.0
  }

  /** The message the handler reports for a violated rule. */
  function Message(rule: Rule): string {
    match rule
    case ExchangeRatePositive => "A cotação deve ser maior que zero."
    case AnnualRateNonNegative => "A taxa ao ano não pode ser negativa."
    case DaysNonNegative => "A quantidade de dias não pode ser negativa."
    case PrincipalNonNegative => "O valor da operação não pode ser negativo."
  }

  /** The rules of `rules` that `op` violates, in their original order. */
  function Violated(rules: seq<Rule>, op: OperationInput): (r: seq<Rule>)
    ensures |r| <= |rules|
    ensures forall rule :: rule in r <==> rule in rules && !Holds(rule, op)
  {
    if rules == [] then []
    else (if Holds(rules[0], op) then [] else [rules[0]]) + Violated(rules[1..], op)
  }

  /** The violated rules of an operation, in checking order. */
  function Violations(op: OperationInput): seq<Rule> {
    Violated(CheckOrder, op)
  }

  /** The messages of a list of rules, one per rule, in the same order. */
  function MessagesOf(v: seq<Rule>): (r: seq<string>)
    ensures |r| == |v|
  {
    if v == [] then [] else [Message(v[0])] + MessagesOf(v[1..])
  }

  /** Message `k` is the message of rule `k`. */
  lemma {:induction false} MessagesOfAt(v: seq<Rule>, k: nat)
    requires k < |v|
    ensures MessagesOf(v)[k] == Message(v[k])
  {
    if k > 0 {
      MessagesOfAt(v[1..], k - 1);
    }
  }

  /** Every message of `v` is the message of the rule at the same position. */
  lemma MessagesOfPointwise(v: seq<Rule>)
    ensures forall k :: 0 <= k < |v| ==> MessagesOf(v)[k] == Message(v[k])
  {
    forall k | 0 <= k < |v| ensures MessagesOf(v)[k] == Message(v[k]) {
      MessagesOfAt(v, k);
    }
  }

  /** The error list `erros` the handler builds for `op`. */
  function ErrorMessages(op: OperationInput): (r: seq<string>)
    ensures |r| == |Violations(op)|
    ensures forall k :: 0 <= k < |r| ==> r[k] == Message(Violations(op)[k])
    ensures r == [] <==> Acceptable(op)
  {
    ViolationsUnfold(op);
    MessagesOfPointwise(Violations(op));
    MessagesOf(Violations(op))
  }

  /** The message of a rule is among the messages of `v` exactly when the rule is violated. */
  lemma MessagesOfViolations(op: OperationInput, v: seq<Rule>, r: seq<string>)
    requires v == Violations(op)
    requires |r| == |v| && forall k :: 0 <= k < |r| ==> r[k] == Message(v[k])
    ensures forall rule :: Message(rule) in r <==> !Holds(rule, op)
  {
    forall rule ensures Message(rule) in r <==> !Holds(rule, op) {
      assert rule in CheckOrder by { assert CheckOrder[Rank(rule)] == rule; }
      if Message(rule) in r {
        var k :| 0 <= k < |r| && r[k] == Message(rule);
        MessageInjective(v[k], rule);
        assert v[k] in v;
      }
      if rule in v {
        var k :| 0 <= k < |v| && v[k] == rule;
        assert r[k] == Message(rule);
      }
    }
  }

  /** True when every rule holds. */
  predicate Acceptable(op: OperationInput) {
    op.exchangeRate > 0.0 && op.annualRatePct >= 0.0 && op.days >= 0 && op.principalUsd >= 0.0
  }

  /** Lines 119-127: start with an empty list and append one message per failed check. */
  method CollectErrors(op: OperationInput) returns (errors: seq<string>)
    ensures errors == ErrorMessages(op)
  {
    ghost var e0: seq<string> := if op.exchangeRate <= 0.0 then [Message(ExchangeRatePositive)] else [];
    ghost var e1: seq<string> := if op.annualRatePct < 0.0 then [Message(AnnualRateNonNegative)] else [];
    ghost var e2: seq<string> := if op.days < 0 then [Message(DaysNonNegative)] else [];
    ghost var e3: seq<string> := if op.principalUsd < 0.0 then [Message(PrincipalNonNegative)] else [];
    errors := [];
    if op.exchangeRate <= 0.0 {
      errors := errors + [Message(ExchangeRatePositive)];
    }
    assert errors == e0;
    if op.annualRatePct < 0.0 {
      errors := errors + [Message(AnnualRateNonNegative)];
    }
    assert errors == e0 + e1;
    if op.days < 0 {
      errors := errors + [Message(DaysNonNegative)];
    }
    assert errors == (e0 + e1) + e2;
    if op.principalUsd < 0.0 {
      errors := errors + [Message(PrincipalNonNegative)];
    }
    assert errors == ((e0 + e1) + e2) + e3;
    assert ((e0 + e1) + e2) + e3 == e0 + (e1 + (e2 + e3));
    ErrorMessagesUnfold(op);
  }

  /** The error list spelled out, one optional message per check. */
  lemma ErrorMessagesUnfold(op: OperationInput)
    ensures ErrorMessages(op) ==
      (if op.exchangeRate <= 0.0 then [Message(ExchangeRatePositive)] else []) +
      ((if op.annualRatePct < 0.0 then [Message(AnnualRateNonNegative)] else []) +
      ((if op.days < 0 then [Message(DaysNonNegative)] else []) +
      (if op.principalUsd < 0.0 then [Message(PrincipalNonNegative)] else [])))
  {
    ViolationsUnfold(op);
    var p0: seq<Rule> := if op.exchangeRate <= 0.0 then [ExchangeRatePositive] else [];
    var p1: seq<Rule> := if op.annualRatePct < 0.0 then [AnnualRateNonNegative] else [];
    var p2: seq<Rule> := if op.days < 0 then [DaysNonNegative] else [];
    var p3: seq<Rule> := if op.principalUsd < 0.0 then [PrincipalNonNegative] else [];
    assert MessagesOf(p0) == if op.exchangeRate <= 0.0 then [Message(ExchangeRatePositive)] else [];
    assert MessagesOf(p1) == if op.annualRatePct < 0.0 then [Message(AnnualRateNonNegative)] else [];
    assert MessagesOf(p2) == if op.days < 0 then [Message(DaysNonNegative)] else [];
    assert MessagesOf(p3) == if op.principalUsd < 0.0 then [Message(PrincipalNonNegative)] else [];
    MessagesOfAppend(p2, p3);
    MessagesOfAppend(p1, p2 + p3);
    MessagesOfAppend(p0, p1 + (p2 + p3));
  }

  /** The messages of a concatenation are the concatenation of the messages. */
  lemma {:induction false} MessagesOfAppend(a: seq<Rule>, b: seq<Rule>)
    ensures MessagesOf(a + b) == MessagesOf(a) + MessagesOf(b)
  {
    if a == [] {
      assert a + b == b;
    } else {
      assert (a + b)[1..] == a[1..] + b;
      MessagesOfAppend(a[1..], b);
    }
  }

  /** The four checks spelled out, one per rule in checking order. */
  lemma ViolationsUnfold(op: OperationInput)
    ensures Violations(op) ==
      (if op.exchangeRate <= 0.0 then [ExchangeRatePositive] else []) +
      ((if op.annualRatePct < 0.0 then [AnnualRateNonNegative] else []) +
      ((if op.days < 0 then [DaysNonNegative] else []) +
      (if op.principalUsd < 0.0 then [PrincipalNonNegative] else [])))
  {
    var o3: seq<Rule> := [PrincipalNonNegative];
    var o2 := [DaysNonNegative] + o3;
    var o1 := [AnnualRateNonNegative] + o2;
    assert CheckOrder == [ExchangeRatePositive] + o1;
    var p0: seq<Rule> := if op.exchangeRate <= 0.0 then [ExchangeRatePositive] else [];
    var p1: seq<Rule> := if op.annualRatePct < 0.0 then [AnnualRateNonNegative] else [];
    var p2: seq<Rule> := if op.days < 0 then [DaysNonNegative] else [];
    var p3: seq<Rule> := if op.principalUsd < 0.0 then [PrincipalNonNegative] else [];
    ViolatedCons(PrincipalNonNegative, [], op);
    assert o3 == [PrincipalNonNegative] + [];
    assert Violated(o3, op) == p3;
    ViolatedCons(DaysNonNegative, o3, op);
    assert Violated(o2, op) == p2 + p3;
    ViolatedCons(AnnualRateNonNegative, o2, op);
    assert Violated(o1, op) == p1 + (p2 + p3);
    ViolatedCons(ExchangeRatePositive, o1, op);
    assert Violated(CheckOrder, op) == p0 + (p1 + (p2 + p3));
  }

  /** One step of the filter. */
  lemma ViolatedCons(rule: Rule, rest: seq<Rule>, op: OperationInput)
    ensures Violated([rule] + rest, op) == (if Holds(rule, op) then [] else [rule]) + Violated(rest, op)
  {
    assert ([rule] + rest)[1..] == rest;
  }

  /** A rule is reported exactly when it is violated. */
  lemma ReportedIffViolated(op: OperationInput, rule: Rule)
    ensures rule in Violations(op) <==> !Holds(rule, op)
    ensures Message(rule) in ErrorMessages(op) <==> !Holds(rule, op)
  {
    assert rule in CheckOrder by { assert CheckOrder[Rank(rule)] == rule; }
    MessagesOfViolations(op, Violations(op), ErrorMessages(op));
  }

  /** Distinct rules have distinct messages. */
  lemma MessageInjective(a: Rule, b: Rule)
    requires Message(a) == Message(b)
    ensures a == b
  {
  }

  /** Filtering keeps the relative order: violated rules appear in strictly increasing rank. */
  lemma {:induction false} ViolatedOrdered(rules: seq<Rule>, op: OperationInput)
    requires forall i, j :: 0 <= i < j < |rules| ==> Rank(rules[i]) < Rank(rules[j])
    ensures forall i, j :: 0 <= i < j < |Violated(rules, op)| ==>
      Rank(Violated(rules, op)[i]) < Rank(Violated(rules, op)[j])
  {
    if rules != [] {
      var tail := rules[1..];
      assert forall i, j :: 0 <= i < j < |tail| ==> Rank(tail[i]) < Rank(tail[j]) by {
        forall i, j | 0 <= i < j < |tail| ensures Rank(tail[i]) < Rank(tail[j]) {
          assert tail[i] == rules[i + 1] && tail[j] == rules[j + 1];
        }
      }
      ViolatedOrdered(tail, op);
      var rest := Violated(tail, op);
      forall x | x in rest ensures Rank(rules[0]) < Rank(x) {
        var k :| 0 <= k < |tail| && tail[k] == x;
        assert rules[k + 1] == x;
      }
    }
  }

  /** Messages come in checking order, each violated rule once. */
  lemma ViolationsInCheckOrder(op: OperationInput)
    ensures forall i, j :: 0 <= i < j < |Violations(op)| ==> Rank(Violations(op)[i]) < Rank(Violations(op)[j])
    ensures |Violations(op)| <= 4
  {
    ViolatedOrdered(CheckOrder, op);
  }

  /** `Acceptable` is the conjunction of the four rules. */
  lemma AcceptableIffAllRulesHold(op: OperationInput)
    ensures Acceptable(op) <==> forall rule :: Holds(rule, op)
  {
    if !Acceptable(op) {
      if op.exchangeRate <= 0.0 {
        assert !Holds(ExchangeRatePositive, op);
      } else if op.annualRatePct < 0.0 {
        assert !Holds(AnnualRateNonNegative, op);
      } else if op.days < 0 {
        assert !Holds(DaysNonNegative, op);
      } else {
        assert !Holds(PrincipalNonNegative, op);
      }
    }
  }

  /** A zero principal with otherwise valid inputs is accepted. */
  lemma ZeroPrincipalAccepted(exchangeRate: real, annualRatePct: real, days: int)
    requires exchangeRate > 0.0 && annualRatePct >= 0.0 && days >= 0
    ensures ErrorMessages(OperationInput(exchangeRate, annualRatePct, days, 0.0)) == []
  {
  }

  /** Everything is wrong except the zero principal: three rules reported, in order. */
  lemma ThreeViolationsScenario()
    ensures Violations(OperationInput(0.0, -1.0, -5, 0.0)) ==
      [ExchangeRatePositive, AnnualRateNonNegative, DaysNonNegative]
    ensures |ErrorMessages(OperationInput(0.0, -1.0, -5, 0.0))| == 3
  {
    ViolationsUnfold(OperationInput(0.0, -1.0, -5, 0.0));
  }

  /** What the handler produces: the error list, or the computed figures. */
  datatype Outcome =
    | Rejected(errors: seq<string>)
    | Computed(annualRate: real, dailyRate: real, amountUsd: real, finalBrl: real)

  /** Lines 129-138 as a value: reject on any error, otherwise compose the computation. */
  function Simulate(op: OperationInput, dailyRateOf: real -> real): (r: Outcome)
    ensures r.Rejected? <==> !Acceptable(op)
    ensures r.Rejected? ==> r.errors == ErrorMessages(op) && r.errors != []
    ensures r.Computed? ==>
      && r.annualRate == op.annualRatePct / 100.0
      && r.dailyRate == dailyRateOf(op.annualRatePct / 100.0)
      && r.amountUsd == AmountAfterDays(op.principalUsd, r.dailyRate, op.days as nat)
      && r.finalBrl == r.amountUsd * op.exchangeRate
  {
    var errors := ErrorMessages(op);
    if errors != [] then Rejected(errors)
    else
      var annual := op.annualRatePct / 100.0;
      var daily := dailyRateOf(annual);
      var amount := AmountAfterDays(op.principalUsd, daily, op.days as nat);
      Computed(annual, daily, amount, amount * op.exchangeRate)
  }

  /** Lines 119-138: the handler, step by step. */
  method Calculate(op: OperationInput, dailyRateOf: real -> real) returns (outcome: Outcome)
    ensures outcome == Simulate(op, dailyRateOf)
  {
    var errors := CollectErrors(op);
    if errors != [] {
      return Rejected(errors);
    }
    var annualRate := op.annualRatePct / 100.0;
    var dailyRate := dailyRateOf(annualRate);
    var amountUsd := AmountAfterDays(op.principalUsd, dailyRate, op.days as nat);
    var finalBrl := amountUsd * op.exchangeRate;
    outcome := Computed(annualRate, dailyRate, amountUsd, finalBrl);
  }

  /** With a non-negative daily rate the final value is at least the principal converted. */
  lemma FinalAtLeastConvertedPrincipal(op: OperationInput, dailyRateOf: real -> real)
    requires Acceptable(op)
    requires dailyRateOf(op.annualRatePct / 100.0) >= 0.0
    ensures Simulate(op, dailyRateOf).Computed?
    ensures Simulate(op, dailyRateOf).finalBrl >= op.principalUsd * op.exchangeRate
  {
    var r := Simulate(op, dailyRateOf);
    AmountAtLeastPrincipal(op.principalUsd, r.dailyRate, op.days as nat);
    assert r.finalBrl - op.principalUsd * op.exchangeRate
        == (r.amountUsd - op.principalUsd) * op.exchangeRate;
  }

  /** Zero days: the final value is the principal times the exchange rate, whatever the rate. */
  lemma NoDaysFinalIsConvertedPrincipal(op: OperationInput, dailyRateOf: real -> real)
    requires Acceptable(op) && op.days == 0
    ensures Simulate(op, dailyRateOf).Computed?
    ensures Simulate(op, dailyRateOf).finalBrl == op.principalUsd * op.exchangeRate
  {
  }

  /** The texts of the result panel (lines 145-151). */
  datatype Display = Display(dailyRate: string, amountUsd: string, exchangeRate: string, finalBrl: string)

  /** Render a computed outcome the way the result panel does. */
  function Render(fmt: Formatter, op: OperationInput, o: Outcome): (d: Display)
    requires o.Computed?
    ensures d.dailyRate == BrDecimal(fmt, o.dailyRate * 100.0, 6) + "%"
    ensures PlaceholderFree(fmt(o.amountUsd, 2)) ==> d.amountUsd == SwapSeparators(fmt(o.amountUsd, 2))
    ensures PlaceholderFree(fmt(op.exchangeRate, 4)) ==> d.exchangeRate == SwapSeparators(fmt(op.exchangeRate, 4))
    ensures PlaceholderFree(fmt(o.finalBrl, 2)) ==> d.finalBrl == "R$ " + SwapSeparators(fmt(o.finalBrl, 2))
  {
    var daily := Pct(fmt, o.dailyRate, 6);
    assert daily == BrDecimal(fmt, o.dailyRate * 100.0, 6) + "%";
    var amount := BrDecimal(fmt, o.amountUsd, 2);
    var rate := BrDecimal(fmt, op.exchangeRate, 4);
    var final := Brl(fmt, o.finalBrl);
    Display(daily, amount, rate, final)
  }

  /** The panel's final value is the handler's figure `montante * cotacao`, shown as `brl`. */
  lemma RenderShowsComputedFinal(fmt: Formatter, op: OperationInput, dailyRateOf: real -> real)
    requires Acceptable(op)
    requires PlaceholderFree(fmt(AmountAfterDays(op.principalUsd, dailyRateOf(op.annualRatePct / 100.0), op.days as nat) * op.exchangeRate, 2))
    ensures Simulate(op, dailyRateOf).Computed?
    ensures Render(fmt, op, Simulate(op, dailyRateOf)).finalBrl == "R$ " + SwapSeparators(fmt(AmountAfterDays(op.principalUsd, dailyRateOf(op.annualRatePct / 100.0), op.days as nat) * op.exchangeRate, 2))
  {
    assert Simulate(op, dailyRateOf).finalBrl == AmountAfterDays(op.principalUsd, dailyRateOf(op.annualRatePct / 100.0), op.days as nat) * op.exchangeRate;
  }
}
