/** Declarative correlation: rules over sets of evidence keys, the confidence of a
    match, and the checks that a policy must pass. */
module CorrelationPolicy {
  import opened Core
  import opened JsonValues

  datatype Rule = Rule(
    key: string, groups: seq<seq<string>>, weights: seq<(string, real)>, groupBy: seq<string>,
    inhibits: seq<string>, scenario: string, base: real, cap: real)

  // ---- Evidence keys ----

  type Card = map<string, Json>

  /** What iterating a value yields: list elements, characters, or keys; nothing else iterates. */
  function Elements(m: map<string, Json>, key: string): Option<set<Json>> {
    if key !in m then Some({})
    else
      match m[key]
      case Arr(a) => Some(set v | v in a)
      case Str(s) => Some(set c | c in s :: Str([c]))
      case Obj(o) => Some(set k | k in o :: Str(k))
      case _ => None
  }

  function SignalKeys(printer: Printer, values: set<Json>): set<string> {
    set v | v in values && Text(v, printer) != "" :: "signal:" + Text(v, printer)
  }

  function CorrelationKeys(printer: Printer, values: set<Json>): set<string> {
    set v | v in values && v.Obj? && Text(Get(v.m, "key"), printer) != "" :: "correlation:" + Text(Get(v.m, "key"), printer)
  }

  function AlertKeys(printer: Printer, cards: seq<Card>): set<string> {
    set c | c in cards && Text(Get(c, "code"), printer) != "" :: "alert:" + Text(Get(c, "code"), printer)
  }

  /** The evidence that is available; nothing when the outlook cannot be iterated. */
  function EvidenceKeys(printer: Printer, cards: seq<Card>, outlook: map<string, Json>): Option<set<string>> {
    var signals, correlations := Elements(outlook, "active_signals"), Elements(outlook, "correlations");
    if signals.None? || correlations.None? then None
    else Some(SignalKeys(printer, signals.value) + CorrelationKeys(printer, correlations.value) + AlertKeys(printer, cards))
  }

  /** More signals, more correlations or more cards never lose evidence; their order
      and their repetition do not matter. */
  lemma MoreObservationsMoreEvidence(
      printer: Printer, cards: seq<Card>, outlook: map<string, Json>, moreCards: seq<Card>, moreOutlook: map<string, Json>)
    requires forall c :: c in cards ==> c in moreCards
    requires EvidenceKeys(printer, cards, outlook).Some? && EvidenceKeys(printer, moreCards, moreOutlook).Some?
    requires Elements(outlook, "active_signals").value <= Elements(moreOutlook, "active_signals").value
    requires Elements(outlook, "correlations").value <= Elements(moreOutlook, "correlations").value
    ensures EvidenceKeys(printer, cards, outlook).value <= EvidenceKeys(printer, moreCards, moreOutlook).value
  {
    hide Elements;
    hide Text;
  }

  lemma CardOrderDoesNotMatter(printer: Printer, cards: seq<Card>, others: seq<Card>, outlook: map<string, Json>)
    requires forall c :: c in cards <==> c in others
    ensures EvidenceKeys(printer, cards, outlook) == EvidenceKeys(printer, others, outlook)
  {
    hide Elements;
    hide Text;
    if EvidenceKeys(printer, cards, outlook).Some? {
      MoreObservationsMoreEvidence(printer, cards, outlook, others, outlook);
      MoreObservationsMoreEvidence(printer, others, outlook, cards, outlook);
      assert EvidenceKeys(printer, cards, outlook).value == EvidenceKeys(printer, others, outlook).value;
    }
  }

  // ---- Weights ----

  /** `dict(evidence_weights)`: a later weight for one key replaces an earlier one. */
  function WeightMap(pairs: seq<(string, real)>): map<string, real> {
    if pairs == [] then map[] else WeightMap(pairs[..|pairs| - 1])[pairs[|pairs| - 1].0 := pairs[|pairs| - 1].1]
  }

  ghost function SetSum(s: set<string>, w: map<string, real>): real
    requires s <= w.Keys
  {
    if s == {} then 0.0 else var k :| k in s; w[k] + SetSum(s - {k}, w)
  }

  lemma {:induction false} SetSumWithout(s: set<string>, w: map<string, real>, k: string)
    requires s <= w.Keys && k in s
    ensures SetSum(s, w) == w[k] + SetSum(s - {k}, w)
    decreases s
  {
    var first :| first in s && SetSum(s, w) == w[first] + SetSum(s - {first}, w);
    if first != k {
      SetSumWithout(s - {first}, w, k);
      SetSumWithout(s - {k}, w, first);
      assert s - {first} - {k} == s - {k} - {first};
    }
  }

  predicate PositiveWeights(w: map<string, real>) {
    forall k :: k in w ==> 0.0 < w[k] <= 1.0
  }

  lemma {:induction false} SetSumGrows(s: set<string>, t: set<string>, w: map<string, real>)
    requires s <= t <= w.Keys && PositiveWeights(w)
    ensures SetSum(s, w) <= SetSum(t, w)
    ensures s != t ==> SetSum(s, w) < SetSum(t, w)
    decreases t - s
  {
    if s != t {
      var k :| k in t && k !in s;
      SetSumWithout(t, w, k);
      assert (t - {k}) - s < t - s by { assert k in t - s && k !in (t - {k}) - s; }
      SetSumGrows(s, t - {k}, w);
    } else {
      assert s == t;
    }
  }

  // ---- Rounding ----

  /** Round half to even. */
  function RoundHalfEven(x: real): int {
    var n := x.Floor;
    var rest := x - n as real;
    if rest < 0.5 then n else if rest > 0.5 then n + 1 else if n % 2 == 0 then n else n + 1
  }

  /** `round(x, 2)`. */
  function Round2(x: real): real {
    RoundHalfEven(x * 100.0) as real / 100.0
  }

  lemma Round2Monotone(x: real, y: real)
    requires x <= y
    ensures Round2(x) <= Round2(y)
  {
    var a, b := x * 100.0, y * 100.0;
    assert a.Floor <= b.Floor;
    assert RoundHalfEven(a) <= RoundHalfEven(b);
  }

  // ---- Matching ----

  datatype Match = Match(rule: Rule, evidence: set<string>, alerts: set<string>, inhibited: seq<string>, confidence: real)

  predicate Matches(rule: Rule, available: set<string>) {
    forall g :: g in rule.groups ==> exists k :: k in g && k in available
  }

  function MatchedKeys(rule: Rule, available: set<string>): set<string> {
    available * WeightMap(rule.weights).Keys
  }

  function Min(a: real, b: real): real {
    if a <= b then a else b
  }

  /** The confidence of a match before rounding. */
  ghost function RawConfidence(rule: Rule, available: set<string>): real {
    Min(rule.cap, rule.base + SetSum(MatchedKeys(rule, available), WeightMap(rule.weights)))
  }

  function Alerts(keys: set<string>): set<string> {
    set k | k in keys && StartsWith(k, "alert:") :: k[6..]
  }

  function Inhibited(inhibits: seq<string>, alerts: set<string>): seq<string> {
    if inhibits == [] then []
    else
      var last := |inhibits| - 1;
      Inhibited(inhibits[..last], alerts) + if inhibits[last] in alerts then [inhibits[last]] else []
  }

  ghost function MatchOf(rule: Rule, available: set<string>): Match {
    var keys := MatchedKeys(rule, available);
    Match(rule, keys, Alerts(keys), Inhibited(rule.inhibits, Alerts(keys)), Round2(RawConfidence(rule, available)))
  }

  ghost function MatchesOf(rules: seq<Rule>, available: set<string>): seq<Match> {
    if rules == [] then []
    else
      var last := |rules| - 1;
      MatchesOf(rules[..last], available)
      + if Matches(rules[last], available) then [MatchOf(rules[last], available)] else []
  }

  /** Text order by code point. */
  predicate Below(a: string, b: string) {
    b != "" && (a == "" || a[0] < b[0] || (a[0] == b[0] && Below(a[1..], b[1..])))
  }

  lemma {:induction false} NotBelowItself(a: string)
    ensures !Below(a, a)
  {
    if a != "" {
      NotBelowItself(a[1..]);
    }
  }

  lemma {:induction false} BelowIsTotal(a: string, b: string)
    ensures a == b || Below(a, b) || Below(b, a)
    ensures !(Below(a, b) && Below(b, a))
  {
    if a != "" && b != "" {
      BelowIsTotal(a[1..], b[1..]);
      assert a == [a[0]] + a[1..] && b == [b[0]] + b[1..];
    }
  }

  lemma {:induction false} BelowIsTransitive(a: string, b: string, c: string)
    requires Below(a, b) && Below(b, c)
    ensures Below(a, c)
    decreases |a|
  {
    if a != "" && a[0] == b[0] == c[0] {
      BelowIsTransitive(a[1..], b[1..], c[1..]);
    }
  }

  /** The order of `(confidence, key)` pairs. */
  predicate Beats(a: Match, b: Match) {
    a.confidence > b.confidence || (a.confidence == b.confidence && Below(b.rule.key, a.rule.key))
  }

  lemma BeatsIsAnOrder(a: Match, b: Match, c: Match)
    ensures !Beats(a, a) && !(Beats(a, b) && Beats(b, a))
    ensures Beats(a, b) || Beats(b, a) || (a.confidence == b.confidence && a.rule.key == b.rule.key)
    ensures Beats(a, b) && Beats(b, c) ==> Beats(a, c)
    ensures Beats(a, b) && !Beats(c, b) ==> Beats(a, c)
  {
    hide Below;
    NotBelowItself(a.rule.key);
    BelowIsTotal(a.rule.key, b.rule.key);
    BelowIsTotal(b.rule.key, c.rule.key);
    if Below(c.rule.key, b.rule.key) && Below(b.rule.key, a.rule.key) {
      BelowIsTransitive(c.rule.key, b.rule.key, a.rule.key);
    }
  }

  /** The first of the largest. */
  function Best(matches: seq<Match>): (i: nat)
    requires matches != []
    ensures i < |matches|
  {
    var last := |matches| - 1;
    if last == 0 then 0
    else
      var i := Best(matches[..last]);
      if Beats(matches[last], matches[i]) then last else i
  }

  lemma {:induction false} BestIsUnbeaten(matches: seq<Match>, k: nat)
    requires matches != [] && k < |matches|
    ensures !Beats(matches[k], matches[Best(matches)])
  {
    hide Beats;
    var last := |matches| - 1;
    var best := matches[Best(matches)];
    BeatsIsAnOrder(best, best, best);
    if last > 0 {
      var before := matches[..last];
      var i := Best(before);
      assert before[i] == matches[i];
      if k < last {
        BestIsUnbeaten(before, k);
        assert before[k] == matches[k];
      }
      BeatsIsAnOrder(matches[k], best, matches[i]);
      BeatsIsAnOrder(matches[last], matches[i], matches[k]);
      BeatsIsAnOrder(matches[k], matches[last], matches[i]);
    }
  }

  ghost function Evaluate(rules: seq<Rule>, available: set<string>): Option<Match> {
    var matches := MatchesOf(rules, available);
    if matches == [] then None else Some(matches[Best(matches)])
  }

  method SumWeights(keys: set<string>, w: map<string, real>) returns (sum: real)
    requires keys <= w.Keys
    ensures sum == SetSum(keys, w)
  {
    sum := 0.0;
    var todo := keys;
    while todo != {}
      invariant todo <= keys && sum + SetSum(todo, w) == SetSum(keys, w)
      decreases todo
    {
      var k :| k in todo;
      SetSumWithout(todo, w, k);
      sum := sum + w[k];
      todo := todo - {k};
    }
  }

  method EvaluateRules(rules: seq<Rule>, available: set<string>) returns (winner: Option<Match>)
    ensures winner == Evaluate(rules, available)
  {
    hide Alerts;
    hide Inhibited;
    hide Round2;
    hide Beats;
    hide WeightMap;
    var matches: seq<Match> := [];
    for i := 0 to |rules|
      invariant matches == MatchesOf(rules[..i], available)
    {
      assert rules[..i + 1][..i] == rules[..i];
      var rule := rules[i];
      if forall g :: g in rule.groups ==> exists k :: k in g && k in available {
        var weights := WeightMap(rule.weights);
        var matched := available * weights.Keys;
        var sum := SumWeights(matched, weights);
        var alerts := Alerts(matched);
        matches := matches + [Match(rule, matched, alerts, Inhibited(rule.inhibits, alerts), Round2(Min(rule.cap, rule.base + sum)))];
      }
    }
    assert rules[..|rules|] == rules;
    if matches == [] { return None; }
    var best := 0;
    for i := 1 to |matches|
      invariant 0 <= best < |matches| && best == Best(matches[..i])
    {
      assert matches[..i + 1][..i] == matches[..i];
      if Beats(matches[i], matches[best]) { best := i; }
    }
    assert matches[..|matches|] == matches;
    return Some(matches[best]);
  }

  // ---- Validation ----

  datatype Problem =
    | KeyMissingOrRepeated
    | GroupsMissing
    | GroupingMissing
    | ScenarioMissing
    | BoundsInvalid
    | WeightsInvalid
    | WeightMissing
    | NamespaceMissing
    | InhibitUnknown

  datatype Error = Error(prefix: string, problem: Problem)

  function When(bad: bool, rule: Rule, problem: Problem): seq<Error> {
    if bad then [Error(if rule.key == "" then "<unnamed>" else rule.key, problem)] else []
  }

  predicate Namespaced(key: string) {
    StartsWith(key, "signal:") || StartsWith(key, "correlation:") || StartsWith(key, "alert:")
  }

  function Declared(rule: Rule): set<string> {
    set g, k | g in rule.groups && k in g :: k
  }

  function ShapeErrors(rule: Rule, seen: set<string>): seq<Error> {
    When(rule.key == "" || rule.key in seen, rule, KeyMissingOrRepeated)
    + When(|rule.groups| < 2 || exists g :: g in rule.groups && g == [], rule, GroupsMissing)
    + When(rule.groupBy == [], rule, GroupingMissing)
    + When(rule.scenario == "", rule, ScenarioMissing)
    + When(!(0.0 <= rule.base < rule.cap <= 0.99), rule, BoundsInvalid)
  }

  function WeightErrors(rule: Rule, known: set<string>): seq<Error> {
    var weights := WeightMap(rule.weights);
    When(|weights| != |rule.weights| || exists k :: k in weights && !(0.0 < weights[k] <= 1.0), rule, WeightsInvalid)
    + When(!(Declared(rule) <= weights.Keys), rule, WeightMissing)
    + When(exists k :: k in weights && !Namespaced(k), rule, NamespaceMissing)
    + When(known != {} && exists c :: c in rule.inhibits && c !in known, rule, InhibitUnknown)
  }

  function RuleErrors(rule: Rule, seen: set<string>, known: set<string>): seq<Error> {
    ShapeErrors(rule, seen) + WeightErrors(rule, known)
  }

  function Keys(rules: seq<Rule>): set<string> {
    set r | r in rules :: r.key
  }

  function Errors(rules: seq<Rule>, known: set<string>): seq<Error> {
    if rules == [] then []
    else
      var last := |rules| - 1;
      Errors(rules[..last], known) + RuleErrors(rules[last], Keys(rules[..last]), known)
  }

  method Validate(rules: seq<Rule>, known: set<string>) returns (errors: seq<Error>)
    ensures errors == Errors(rules, known)
  {
    hide RuleErrors;
    errors := [];
    var seen: set<string> := {};
    for i := 0 to |rules|
      invariant errors == Errors(rules[..i], known) && seen == Keys(rules[..i])
    {
      assert rules[..i + 1][..i] == rules[..i];
      errors := errors + RuleErrors(rules[i], seen, known);
      seen := seen + {rules[i].key};
      assert Keys(rules[..i + 1]) == seen by {
        assert rules[..i + 1] == rules[..i] + [rules[i]];
      }
    }
    assert rules[..|rules|] == rules;
  }

  predicate HasWeight(weights: seq<(string, real)>, key: string) {
    exists i :: 0 <= i < |weights| && weights[i].0 == key
  }

  predicate NamesASource(key: string) {
    "signal:" <= key || "correlation:" <= key || "alert:" <= key
  }

  lemma NamespacedExactlyWhen(key: string)
    ensures Namespaced(key) <==> NamesASource(key)
  {
  }

  /** What a sound rule is. */
  predicate ValidRule(rule: Rule, known: set<string>) {
    && rule.key != ""
    && |rule.groups| >= 2 && (forall g :: g in rule.groups ==> g != [])
    && rule.groupBy != [] && rule.scenario != ""
    && 0.0 <= rule.base < rule.cap <= 0.99
    && DistinctNames(rule.weights)
    && (forall p :: p in rule.weights ==> 0.0 < p.1 <= 1.0 && NamesASource(p.0))
    && (forall g, k :: g in rule.groups && k in g ==> HasWeight(rule.weights, k))
    && (known == {} || forall c :: c in rule.inhibits ==> c in known)
  }

  predicate DistinctKeys(rules: seq<Rule>) {
    forall i, j :: 0 <= i < j < |rules| ==> rules[i].key != rules[j].key
  }

  predicate ValidPolicy(rules: seq<Rule>, known: set<string>) {
    (forall i :: 0 <= i < |rules| ==> ValidRule(rules[i], known)) && DistinctKeys(rules)
  }

  lemma {:induction false} WeightMapKeys(pairs: seq<(string, real)>)
    ensures forall k :: k in WeightMap(pairs) <==> HasWeight(pairs, k)
    ensures forall k :: k in WeightMap(pairs) ==> (k, WeightMap(pairs)[k]) in pairs
  {
    if pairs != [] {
      var last := |pairs| - 1;
      WeightMapKeys(pairs[..last]);
      assert pairs == pairs[..last] + [pairs[last]];
      forall k
        ensures HasWeight(pairs, k) <==> HasWeight(pairs[..last], k) || pairs[last].0 == k
      {
        if HasWeight(pairs[..last], k) {
          var i :| 0 <= i < last && pairs[..last][i].0 == k;
          assert pairs[i].0 == k;
        }
        if HasWeight(pairs, k) && pairs[last].0 != k {
          var i :| 0 <= i < |pairs| && pairs[i].0 == k;
          assert pairs[..last][i].0 == k;
        }
      }
    }
  }

  predicate DistinctNames(pairs: seq<(string, real)>) {
    forall i, j :: 0 <= i < j < |pairs| ==> pairs[i].0 != pairs[j].0
  }

  /** No name repeats exactly when the dictionary keeps every pair. */
  lemma {:induction false} WeightMapSize(pairs: seq<(string, real)>)
    ensures |WeightMap(pairs)| <= |pairs|
    ensures |WeightMap(pairs)| == |pairs| <==> DistinctNames(pairs)
  {
    if pairs != [] {
      var last := |pairs| - 1;
      var before := pairs[..last];
      WeightMapSize(before);
      WeightMapKeys(before);
      hide WeightMap;
      DistinctSnoc(before, pairs[last]);
      assert pairs == before + [pairs[last]];
    }
  }

  lemma DistinctSnoc(pairs: seq<(string, real)>, p: (string, real))
    ensures DistinctNames(pairs + [p]) <==> DistinctNames(pairs) && !HasWeight(pairs, p.0)
  {
    var more := pairs + [p];
    assert forall i :: 0 <= i < |pairs| ==> more[i] == pairs[i];
    if HasWeight(pairs, p.0) {
      var i :| 0 <= i < |pairs| && pairs[i].0 == p.0;
      assert more[i].0 == more[|pairs|].0;
    }
    if DistinctNames(more) {
      assert forall i, j :: 0 <= i < j < |pairs| ==> more[i].0 != more[j].0;
    }
  }

  lemma WeightMapDistinct(pairs: seq<(string, real)>, p: (string, real))
    requires DistinctNames(pairs) && p in pairs
    ensures p.0 in WeightMap(pairs) && WeightMap(pairs)[p.0] == p.1
  {
    WeightMapKeys(pairs);
    var i :| 0 <= i < |pairs| && pairs[i] == p;
    assert HasWeight(pairs, p.0);
    var j :| 0 <= j < |pairs| && pairs[j] == (p.0, WeightMap(pairs)[p.0]);
  }

  lemma WeightsValidExactlyWhen(pairs: seq<(string, real)>)
    ensures var m := WeightMap(pairs);
            (|m| == |pairs| && (forall k :: k in m ==> 0.0 < m[k] <= 1.0 && Namespaced(k)))
            <==> (DistinctNames(pairs) && (forall p :: p in pairs ==> 0.0 < p.1 <= 1.0 && NamesASource(p.0)))
  {
    forall key
      ensures Namespaced(key) <==> NamesASource(key)
    {
      NamespacedExactlyWhen(key);
    }
    hide Namespaced;
    hide NamesASource;
    WeightMapSize(pairs);
    WeightMapKeys(pairs);
    if DistinctNames(pairs) {
      forall p | p in pairs
        ensures p.0 in WeightMap(pairs) && WeightMap(pairs)[p.0] == p.1
      {
        WeightMapDistinct(pairs, p);
      }
    }
  }

  lemma RuleValidExactlyWhen(rule: Rule, seen: set<string>, known: set<string>)
    ensures RuleErrors(rule, seen, known) == [] <==> ValidRule(rule, known) && rule.key !in seen
  {
    hide Namespaced;
    hide NamesASource;
    hide WeightMap;
    hide HasWeight;
    WeightMapKeys(rule.weights);
    WeightsValidExactlyWhen(rule.weights);
    forall g, k | g in rule.groups && k in g
      ensures k in Declared(rule)
    {
    }
  }

  lemma ValidSnoc(rules: seq<Rule>, rule: Rule, known: set<string>)
    ensures ValidPolicy(rules + [rule], known)
      <==> ValidPolicy(rules, known) && ValidRule(rule, known) && rule.key !in Keys(rules)
  {
    hide ValidRule;
    var more := rules + [rule];
    assert more[|rules|] == rule && forall i :: 0 <= i < |rules| ==> more[i] == rules[i];
    if rule.key in Keys(rules) {
      var r :| r in rules && r.key == rule.key;
      var i :| 0 <= i < |rules| && rules[i] == r;
      assert more[i].key == more[|rules|].key;
    } else {
      assert forall i :: 0 <= i < |rules| ==> rules[i] in rules && rules[i].key in Keys(rules);
    }
    if DistinctKeys(more) {
      assert forall i, j :: 0 <= i < j < |rules| ==> more[i].key != more[j].key;
    }
  }

  /** Validation reports nothing exactly for sound rules under distinct names. */
  lemma {:induction false} ValidExactlyWhen(rules: seq<Rule>, known: set<string>)
    ensures Errors(rules, known) == [] <==> ValidPolicy(rules, known)
  {
    hide ValidRule;
    hide RuleErrors;
    if rules != [] {
      var last := |rules| - 1;
      var before := rules[..last];
      ValidExactlyWhen(before, known);
      RuleValidExactlyWhen(rules[last], Keys(before), known);
      hide ValidPolicy;
      hide Keys;
      assert rules == before + [rules[last]];
      ValidSnoc(before, rules[last], known);
    }
  }

  // ---- What a valid policy guarantees ----

  lemma ValidRuleWeights(rule: Rule, known: set<string>)
    requires ValidRule(rule, known)
    ensures PositiveWeights(WeightMap(rule.weights)) && Declared(rule) <= WeightMap(rule.weights).Keys
  {
    hide Namespaced;
    WeightMapKeys(rule.weights);
  }

  /** Every match of a sound rule is more confident than its base and never above its cap. */
  lemma ConfidenceBounds(rule: Rule, known: set<string>, available: set<string>)
    requires ValidRule(rule, known) && Matches(rule, available)
    ensures rule.base < RawConfidence(rule, available) <= rule.cap
  {
    hide Namespaced;
    ValidRuleWeights(rule, known);
    var keys := MatchedKeys(rule, available);
    var g := rule.groups[0];
    assert g in rule.groups;
    var k :| k in g && k in available;
    assert k in Declared(rule) && k in keys;
    SetSumGrows({}, keys, WeightMap(rule.weights));
  }

  lemma MoreEvidenceMoreConfidence(rule: Rule, known: set<string>, fewer: set<string>, more: set<string>)
    requires ValidRule(rule, known) && fewer <= more && Matches(rule, fewer)
    ensures Matches(rule, more)
    ensures RawConfidence(rule, fewer) <= RawConfidence(rule, more)
    ensures MatchOf(rule, fewer).confidence <= MatchOf(rule, more).confidence
  {
    hide Round2;
    ValidRuleWeights(rule, known);
    SetSumGrows(MatchedKeys(rule, fewer), MatchedKeys(rule, more), WeightMap(rule.weights));
    Round2Monotone(RawConfidence(rule, fewer), RawConfidence(rule, more));
  }

  lemma {:induction false} MatchesOfHolds(rules: seq<Rule>, available: set<string>)
    ensures forall m :: m in MatchesOf(rules, available)
              ==> m.rule in rules && Matches(m.rule, available) && m == MatchOf(m.rule, available)
    ensures forall r :: r in rules && Matches(r, available) ==> MatchOf(r, available) in MatchesOf(rules, available)
  {
    hide Matches;
    if rules != [] {
      var last := |rules| - 1;
      MatchesOfHolds(rules[..last], available);
      assert rules == rules[..last] + [rules[last]];
      assert MatchOf(rules[last], available).rule == rules[last];
    }
  }

  /** With more evidence a valid policy never loses a match, and its winner is never
      less confident. */
  lemma MoreEvidenceNeverHurts(rules: seq<Rule>, known: set<string>, fewer: set<string>, more: set<string>)
    requires ValidPolicy(rules, known) && fewer <= more
    ensures forall m :: m in MatchesOf(rules, fewer) ==>
              exists n :: n in MatchesOf(rules, more) && n.rule == m.rule && m.confidence <= n.confidence
    ensures Evaluate(rules, fewer).Some? ==>
              Evaluate(rules, more).Some?
              && Evaluate(rules, fewer).value.confidence <= Evaluate(rules, more).value.confidence
  {
    hide ValidRule;
    hide Matches;
    hide MatchesOf;
    hide MatchOf;
    MatchesOfHolds(rules, fewer);
    MatchesOfHolds(rules, more);
    forall m | m in MatchesOf(rules, fewer)
      ensures MatchOf(m.rule, more) in MatchesOf(rules, more)
      ensures MatchOf(m.rule, more).rule == m.rule && m.confidence <= MatchOf(m.rule, more).confidence
    {
      MoreEvidenceMoreConfidence(m.rule, known, fewer, more);
      MatchNamesItsRule(m.rule, more);
    }
    if Evaluate(rules, fewer).Some? {
      var m := Evaluate(rules, fewer).value;
      var n := MatchOf(m.rule, more);
      var matches := MatchesOf(rules, more);
      assert m in MatchesOf(rules, fewer);
      var k :| 0 <= k < |matches| && matches[k] == n;
      BestIsUnbeaten(matches, k);
    }
  }

  lemma MatchNamesItsRule(rule: Rule, available: set<string>)
    ensures MatchOf(rule, available).rule == rule
  {
  }

  /** The winner of a valid policy is the one match that beats every other, so the
      order of the rules does not matter. */
  lemma WinnerBeatsAllOthers(rules: seq<Rule>, known: set<string>, available: set<string>)
    requires ValidPolicy(rules, known) && Evaluate(rules, available).Some?
    ensures var w := Evaluate(rules, available).value;
            && w in MatchesOf(rules, available)
            && forall m :: m in MatchesOf(rules, available) && m != w ==> Beats(w, m)
  {
    hide ValidRule;
    hide Beats;
    hide MatchesOf;
    var matches := MatchesOf(rules, available);
    var w := Evaluate(rules, available).value;
    MatchesOfHolds(rules, available);
    forall m | m in matches && m != w
      ensures Beats(w, m)
    {
      var k :| 0 <= k < |matches| && matches[k] == m;
      BestIsUnbeaten(matches, k);
      BeatsIsAnOrder(w, m, m);
      DistinctRules(rules, w.rule, m.rule);
    }
  }

  lemma DistinctRules(rules: seq<Rule>, a: Rule, b: Rule)
    requires DistinctKeys(rules) && a in rules && b in rules
    ensures a.key == b.key <==> a == b
  {
    var i :| 0 <= i < |rules| && rules[i] == a;
    var j :| 0 <= j < |rules| && rules[j] == b;
  }

  lemma RuleOrderDoesNotMatter(rules: seq<Rule>, others: seq<Rule>, known: set<string>, available: set<string>)
    requires ValidPolicy(rules, known) && ValidPolicy(others, known)
    requires forall r :: r in rules <==> r in others
    ensures Evaluate(rules, available) == Evaluate(others, available)
  {
    hide ValidRule;
    hide Matches;
    hide MatchOf;
    hide MatchesOf;
    hide Beats;
    MatchesOfHolds(rules, available);
    MatchesOfHolds(others, available);
    var first, second := Evaluate(rules, available), Evaluate(others, available);
    assert forall m :: m in MatchesOf(rules, available) <==> m in MatchesOf(others, available);
    if first.Some? { WinnerBeatsAllOthers(rules, known, available); }
    if second.Some? { WinnerBeatsAllOthers(others, known, available); }
    if first.Some? || second.Some? {
      var w := if first.Some? then first.value else second.value;
      assert w in MatchesOf(rules, available) && w in MatchesOf(others, available);
      assert first.Some? && second.Some?;
      BeatsIsAnOrder(first.value, second.value, first.value);
    }
  }

  // ---- A match, in the fields of its rule ----

  /** The sum of the listed weights whose key is available. */
  function WeightSum(weights: seq<(string, real)>, available: set<string>): real {
    if weights == [] then 0.0
    else
      var last := weights[|weights| - 1];
      WeightSum(weights[..|weights| - 1], available) + if last.0 in available then last.1 else 0.0
  }

  lemma {:induction false} SetSumOver(s: set<string>, v: map<string, real>, w: map<string, real>)
    requires s <= v.Keys && s <= w.Keys && forall k :: k in s ==> v[k] == w[k]
    ensures SetSum(s, v) == SetSum(s, w)
    decreases s
  {
    if s != {} {
      var k :| k in s;
      SetSumWithout(s, v, k);
      SetSumWithout(s, w, k);
      SetSumOver(s - {k}, v, w);
    }
  }

  lemma {:induction false} SumOfWeights(weights: seq<(string, real)>, available: set<string>)
    requires DistinctNames(weights)
    ensures SetSum(available * WeightMap(weights).Keys, WeightMap(weights)) == WeightSum(weights, available)
  {
    if weights != [] {
      var last := weights[|weights| - 1];
      var before := weights[..|weights| - 1];
      assert weights == before + [last];
      DistinctSnoc(before, last);
      SumOfWeights(before, available);
      WeightMapKeys(before);
      var v, w := WeightMap(before), WeightMap(weights);
      assert w == v[last.0 := last.1] && last.0 !in v;
      hide WeightMap;
      var s, more := available * v.Keys, available * w.Keys;
      SetSumOver(s, v, w);
      if last.0 in available {
        SetSumWithout(more, w, last.0);
        assert more - {last.0} == s;
      } else {
        assert more == s;
      }
    }
  }

  predicate AnyAvailable(group: seq<string>, available: set<string>) {
    exists j :: 0 <= j < |group| && group[j] in available
  }

  /** A rule matches exactly when every one of its groups has an available key. */
  lemma MatchesExactlyWhen(rule: Rule, available: set<string>)
    ensures Matches(rule, available) <==> forall i :: 0 <= i < |rule.groups| ==> AnyAvailable(rule.groups[i], available)
  {
    forall g: seq<string>
      ensures AnyAvailable(g, available) <==> exists k :: k in g && k in available
    {
      if k :| k in g && k in available {
        var j :| 0 <= j < |g| && g[j] == k;
      }
    }
    assert forall i :: 0 <= i < |rule.groups| ==> rule.groups[i] in rule.groups;
    if !Matches(rule, available) {
      var g :| g in rule.groups && !exists k :: k in g && k in available;
      assert !AnyAvailable(g, available);
      var i :| 0 <= i < |rule.groups| && rule.groups[i] == g;
    }
  }

  /** Rounding goes to the nearer hundredth, and to the even one half way between. */
  lemma Round2Exactly(x: real) returns (n: int)
    ensures Round2(x) == n as real / 100.0
    ensures -0.5 <= 100.0 * x - n as real <= 0.5
    ensures (100.0 * x - n as real == 0.5 || 100.0 * x - n as real == -0.5) ==> n % 2 == 0
  {
    n := RoundHalfEven(x * 100.0);
  }

  /** The match of a sound rule: the weighed keys that are available, the alerts among
      them, and the sum of their weights on top of the base, up to the cap. */
  lemma MatchExactly(rule: Rule, known: set<string>, available: set<string>)
    requires ValidRule(rule, known)
    ensures var m := MatchOf(rule, available);
            var confidence := rule.base + WeightSum(rule.weights, available);
            && m.rule == rule
            && (forall k :: k in m.evidence <==> k in available && HasWeight(rule.weights, k))
            && (forall code :: code in m.alerts <==> "alert:" + code in m.evidence)
            && m.confidence == Round2(if confidence <= rule.cap then confidence else rule.cap)
  {
    WeightMapKeys(rule.weights);
    SumOfWeights(rule.weights, available);
    AlertsAre(MatchedKeys(rule, available));
    hide WeightMap;
    hide Alerts;
    hide Inhibited;
    hide Round2;
    hide HasWeight;
  }

  lemma AlertsAre(keys: set<string>)
    ensures forall code :: code in Alerts(keys) <==> "alert:" + code in keys
  {
    forall code
      ensures code in Alerts(keys) <==> "alert:" + code in keys
    {
      if code in Alerts(keys) {
        var k :| k in keys && StartsWith(k, "alert:") && k[6..] == code;
        assert k == "alert:" + code;
      }
      if "alert:" + code in keys {
        assert ("alert:" + code)[6..] == code;
      }
    }
  }

  /** The positions of the listed codes that the match inhibits. */
  function InhibitedAt(codes: seq<string>, alerts: set<string>, n: nat): set<nat>
    requires n <= |codes|
  {
    set i: nat | i < n && codes[i] in alerts
  }

  /** The inhibited alerts are the rule's own list without the codes that did not match. */
  lemma {:induction false} InhibitedExactly(codes: seq<string>, alerts: set<string>)
    ensures |Inhibited(codes, alerts)| == |InhibitedAt(codes, alerts, |codes|)|
    ensures forall i :: 0 <= i < |codes| && codes[i] in alerts ==>
              && |InhibitedAt(codes, alerts, i)| < |Inhibited(codes, alerts)|
              && Inhibited(codes, alerts)[|InhibitedAt(codes, alerts, i)|] == codes[i]
  {
    if codes == [] {
      assert InhibitedAt(codes, alerts, 0) == {};
    } else {
      var last := |codes| - 1;
      var init := codes[..last];
      InhibitedExactly(init, alerts);
      InhibitedSnoc(init, codes[last], alerts);
      assert codes == init + [codes[last]];
      hide InhibitedAt;
    }
  }

  lemma InhibitedSnoc(codes: seq<string>, code: string, alerts: set<string>)
    ensures var more := codes + [code];
            && (forall n: nat :: n <= |codes| ==> InhibitedAt(more, alerts, n) == InhibitedAt(codes, alerts, n))
            && |InhibitedAt(more, alerts, |more|)| == |InhibitedAt(codes, alerts, |codes|)| + (if code in alerts then 1 else 0)
  {
    var more := codes + [code];
    forall n: nat | n <= |codes|
      ensures InhibitedAt(more, alerts, n) == InhibitedAt(codes, alerts, n)
    {
      assert forall i: nat :: i < n ==> more[i] == codes[i];
    }
    assert InhibitedAt(more, alerts, |more|) == InhibitedAt(more, alerts, |codes|) + if code in alerts then {|codes|} else {};
  }

  /** There is a winner exactly when some rule matches. */
  lemma WinnerExistsExactlyWhen(rules: seq<Rule>, available: set<string>)
    ensures Evaluate(rules, available).Some? <==> exists r :: r in rules && Matches(r, available)
  {
    hide Matches;
    hide MatchOf;
    MatchesOfHolds(rules, available);
    if r :| r in rules && Matches(r, available) {
      assert MatchOf(r, available) in MatchesOf(rules, available);
    }
    if Evaluate(rules, available).Some? {
      assert Evaluate(rules, available).value in MatchesOf(rules, available);
    }
  }

  /** Code-point order: at the first difference, or at the end of a shorter text. */
  predicate Before(a: string, b: string) {
    exists n :: 0 <= n < |b| && n <= |a| && a[..n] == b[..n] && (n == |a| || a[n] < b[n])
  }

  lemma {:induction false} BelowExactlyWhen(a: string, b: string)
    ensures Below(a, b) <==> Before(a, b)
  {
    if a == "" || b == "" {
      assert b != "" ==> a[..0] == b[..0];
    } else if a[0] == b[0] {
      BelowExactlyWhen(a[1..], b[1..]);
      if Before(a[1..], b[1..]) {
        var n :| 0 <= n < |b| - 1 && n <= |a| - 1 && a[1..][..n] == b[1..][..n] && (n == |a| - 1 || a[1..][n] < b[1..][n]);
        assert a[..n + 1] == [a[0]] + a[1..][..n] && b[..n + 1] == [b[0]] + b[1..][..n];
      }
      if Before(a, b) {
        var n :| 0 <= n < |b| && n <= |a| && a[..n] == b[..n] && (n == |a| || a[n] < b[n]);
        assert n > 0;
        assert a[1..][..n - 1] == a[..n][1..] && b[1..][..n - 1] == b[..n][1..];
        assert n < |a| ==> a[1..][n - 1] == a[n] && b[1..][n - 1] == b[n];
      }
    } else {
      assert a[..0] == b[..0];
      assert forall n :: 0 < n <= |a| && n <= |b| ==> a[..n][0] != b[..n][0];
    }
  }

  lemma BeatsExactlyWhen(a: Match, b: Match)
    ensures Beats(a, b) <==>
            a.confidence > b.confidence || (a.confidence == b.confidence && Before(b.rule.key, a.rule.key))
  {
    BelowExactlyWhen(b.rule.key, a.rule.key);
  }

  /** The evidence of an outlook that lists its signals and correlations. */
  lemma EvidenceExactly(printer: Printer, cards: seq<Card>, outlook: map<string, Json>, signals: seq<Json>,
                        correlations: seq<Json>, key: string)
    requires Has(outlook, "active_signals", Arr(signals)) && Has(outlook, "correlations", Arr(correlations))
    ensures var keys := EvidenceKeys(printer, cards, outlook);
            && keys.Some?
            && (key in keys.value <==>
                  || (exists i :: 0 <= i < |signals| && Names(printer, "signal:", signals[i], key))
                  || (exists i :: 0 <= i < |correlations| && correlations[i].Obj?
                                  && Names(printer, "correlation:", Get(correlations[i].m, "key"), key))
                  || (exists i :: 0 <= i < |cards| && Names(printer, "alert:", Get(cards[i], "code"), key)))
  {
    hide Text;
    var keys := EvidenceKeys(printer, cards, outlook).value;
    if key in keys {
      if key in SignalKeys(printer, set v | v in signals) {
        var v :| v in signals && Names(printer, "signal:", v, key);
        var i :| 0 <= i < |signals| && signals[i] == v;
      } else if key in CorrelationKeys(printer, set v | v in correlations) {
        var v :| v in correlations && v.Obj? && Names(printer, "correlation:", Get(v.m, "key"), key);
        var i :| 0 <= i < |correlations| && correlations[i] == v;
      } else {
        var c :| c in cards && Names(printer, "alert:", Get(c, "code"), key);
        var i :| 0 <= i < |cards| && cards[i] == c;
      }
    }
    if i :| 0 <= i < |signals| && Names(printer, "signal:", signals[i], key) {
      assert signals[i] in signals;
    }
    if i :| 0 <= i < |correlations| && correlations[i].Obj? && Names(printer, "correlation:", Get(correlations[i].m, "key"), key) {
      assert correlations[i] in correlations;
    }
    if i :| 0 <= i < |cards| && Names(printer, "alert:", Get(cards[i], "code"), key) {
      assert cards[i] in cards;
    }
  }

  /** The value reads as some text, and the key is that text behind its namespace. */
  predicate Names(printer: Printer, namespace: string, v: Json, key: string) {
    Text(v, printer) != "" && key == namespace + Text(v, printer)
  }

  /** The condition of each violation, in the rule's own fields. */
  ghost predicate Violates(rule: Rule, seen: set<string>, known: set<string>, problem: Problem) {
    match problem
    case KeyMissingOrRepeated => rule.key == "" || rule.key in seen
    case GroupsMissing => |rule.groups| < 2 || [] in rule.groups
    case GroupingMissing => rule.groupBy == []
    case ScenarioMissing => rule.scenario == ""
    case BoundsInvalid => !(0.0 <= rule.base < rule.cap <= 0.99)
    case WeightsInvalid =>
      !DistinctNames(rule.weights)
      || exists k :: k in WeightMap(rule.weights) && !(0.0 < WeightMap(rule.weights)[k] <= 1.0)
    case WeightMissing => exists g, k :: g in rule.groups && k in g && !HasWeight(rule.weights, k)
    case NamespaceMissing => exists k :: HasWeight(rule.weights, k) && !NamesASource(k)
    case InhibitUnknown => known != {} && exists c :: c in rule.inhibits && c !in known
  }

  lemma WhenExactly(bad: bool, rule: Rule, problem: Problem, e: Error)
    ensures e in When(bad, rule, problem) <==>
            bad && e == Error(if rule.key == "" then "<unnamed>" else rule.key, problem)
  {
  }

  lemma WeightViolations(rule: Rule, seen: set<string>, known: set<string>)
    ensures |WeightMap(rule.weights)| != |rule.weights| <==> !DistinctNames(rule.weights)
    ensures !(Declared(rule) <= WeightMap(rule.weights).Keys) <==> Violates(rule, seen, known, WeightMissing)
    ensures (exists k :: k in WeightMap(rule.weights) && !Namespaced(k)) <==> Violates(rule, seen, known, NamespaceMissing)
  {
    WeightMapKeys(rule.weights);
    WeightMapSize(rule.weights);
    forall k
      ensures Namespaced(k) <==> NamesASource(k)
    {
      NamespacedExactlyWhen(k);
    }
    hide WeightMap;
    hide HasWeight;
    hide Namespaced;
    hide NamesASource;
    hide DistinctNames;
    forall g, k | g in rule.groups && k in g
      ensures k in Declared(rule)
    {
    }
  }

  predicate AboutWeights(problem: Problem) {
    problem.WeightsInvalid? || problem.WeightMissing? || problem.NamespaceMissing? || problem.InhibitUnknown?
  }

  lemma ShapeViolations(rule: Rule, seen: set<string>, known: set<string>, e: Error)
    ensures e in ShapeErrors(rule, seen) <==>
            && e.prefix == (if rule.key == "" then "<unnamed>" else rule.key)
            && !AboutWeights(e.problem) && Violates(rule, seen, known, e.problem)
  {
    forall bad, problem
      ensures e in When(bad, rule, problem) <==>
              bad && e == Error(if rule.key == "" then "<unnamed>" else rule.key, problem)
    {
      WhenExactly(bad, rule, problem, e);
    }
    hide When;
  }

  lemma WeightErrorsExactly(rule: Rule, seen: set<string>, known: set<string>, e: Error)
    ensures e in WeightErrors(rule, known) <==>
            && e.prefix == (if rule.key == "" then "<unnamed>" else rule.key)
            && AboutWeights(e.problem) && Violates(rule, seen, known, e.problem)
  {
    WeightViolations(rule, seen, known);
    forall bad, problem
      ensures e in When(bad, rule, problem) <==>
              bad && e == Error(if rule.key == "" then "<unnamed>" else rule.key, problem)
    {
      WhenExactly(bad, rule, problem, e);
    }
    hide When;
    hide WeightMap;
    hide HasWeight;
    hide Namespaced;
    hide NamesASource;
    hide DistinctNames;
    hide Declared;
  }

  /** A violation is reported under the rule's name, each exactly for its own reason. */
  lemma ViolationsExactly(rule: Rule, seen: set<string>, known: set<string>, e: Error)
    ensures e in RuleErrors(rule, seen, known) <==>
            e.prefix == (if rule.key == "" then "<unnamed>" else rule.key) && Violates(rule, seen, known, e.problem)
  {
    ShapeViolations(rule, seen, known, e);
    WeightErrorsExactly(rule, seen, known, e);
    hide ShapeErrors;
    hide WeightErrors;
    hide Violates;
  }
}
