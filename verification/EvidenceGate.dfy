/** The field-evidence gate: admission of a field manifest, and the statistical
    and diversity floors that make a report eligible for field validation. */
module EvidenceGate {
  import opened Core
  import opened JsonValues
  import opened Wilson

  datatype Policy = Policy(
    confidenceZ: real,
    maxFalsePositiveUpper: real,
    minRecallLower: real,
    minPositiveRecordings: int,
    minNegativeRecordings: int,
    minSystemProfiles: int,
    minWorkloadClasses: int)

  const DEFAULT_POLICY := Policy(1.959963984540054, 0.01, 0.80, 5, 20, 2, 4)

  datatype Report = Report(truePositive: int, falseNegative: int, falsePositiveFrames: int, negativeFrames: int)

  /** The exceptions that escape the gate. */
  datatype GateError = BadCounts | NotAnObject | NotAContainer

  datatype FieldError =
    | SourceInvalid
    | PrivacyInvalid
    | CardMissing
    | AuthorityInvalid
    | ReviewStateInvalid
    | RawIdentifiersRetained
    | LabelMethodInvalid
    | UseNotAllowed
    | RetentionMissing
    | CasesMissing
    | ProfileMissing(caseId: string)
    | WorkloadMissing(caseId: string)
    | NotReviewed(caseId: string)

  // ---- validate_field_manifest ----

  /** `str(value)` of a field that defaults to the empty string. */
  function FieldText(m: map<string, Json>, key: string, printer: Printer): string {
    if key !in m then "" else if m[key].Str? then m[key].s else printer(m[key])
  }

  predicate Substring(needle: string, hay: string) {
    needle <= hay || (hay != "" && Substring(needle, hay[1..]))
  }

  /** `needle in container`, which raises for values that hold nothing. */
  function Contains(m: map<string, Json>, key: string, needle: string): Result<bool, GateError> {
    if key !in m then Ok(false)
    else match m[key]
      case Str(s) => Ok(Substring(needle, s))
      case Arr(a) => Ok(Str(needle) in a)
      case Obj(o) => Ok(needle in o)
      case _ => Err(NotAContainer)
  }

  function When(failed: bool, e: FieldError): seq<FieldError> {
    if failed then [e] else []
  }

  function CardErrors(card: map<string, Json>, printer: Printer): Result<seq<FieldError>, GateError> {
    match Contains(card, "allowed_uses", "aegis-calibration")
    case Err(e) => Err(e)
    case Ok(allowed) => Ok(
      When(Get(card, "collection_authority") != Str("operator-opt-in"), AuthorityInvalid)
      + When(Get(card, "review_state") != Str("approved"), ReviewStateInvalid)
      + When(Get(card, "raw_identifiers_retained") != Bool(false), RawIdentifiersRetained)
      + When(Get(card, "label_method") != Str("human-reviewed-incident-outcome"), LabelMethodInvalid)
      + When(!allowed, UseNotAllowed)
      + When(Strip(FieldText(card, "retention_policy", printer)) == "", RetentionMissing))
  }

  function CaseId(entry: map<string, Json>, printer: Printer): string {
    if "case_id" !in entry then "<unnamed>" else FieldText(entry, "case_id", printer)
  }

  function CaseErrors(entry: map<string, Json>, printer: Printer): seq<FieldError> {
    var id := CaseId(entry, printer);
    When(Strip(FieldText(entry, "system_profile", printer)) == "", ProfileMissing(id))
    + When(Strip(FieldText(entry, "workload_class", printer)) == "", WorkloadMissing(id))
    + When(Get(entry, "incident_reviewed") != Bool(true), NotReviewed(id))
  }

  /** The errors of the labelled cases, in order; a case that is no object raises. */
  function AllCaseErrors(cases: seq<Json>, printer: Printer): Result<seq<FieldError>, GateError> {
    if cases == [] then Ok([])
    else
      var last := cases[|cases| - 1];
      match AllCaseErrors(cases[..|cases| - 1], printer)
      case Err(e) => Err(e)
      case Ok(errors) => if last.Obj? then Ok(errors + CaseErrors(last.m, printer)) else Err(NotAnObject)
  }

  function ProvenanceErrors(manifest: map<string, Json>): seq<FieldError> {
    When(Get(manifest, "source") != Str("operator-opt-in-field"), SourceInvalid)
    + When(Get(manifest, "privacy") != Str("sanitized"), PrivacyInvalid)
  }

  function FieldErrors(manifest: map<string, Json>, printer: Printer): Result<seq<FieldError>, GateError> {
    var head := ProvenanceErrors(manifest);
    var card, cases := Get(manifest, "dataset_card"), Get(manifest, "cases");
    if !card.Obj? then Ok(head + [CardMissing])
    else match CardErrors(card.m, printer)
      case Err(e) => Err(e)
      case Ok(cardErrors) =>
        if !cases.Arr? || cases.a == [] then Ok(head + cardErrors + [CasesMissing])
        else match AllCaseErrors(cases.a, printer)
          case Err(e) => Err(e)
          case Ok(caseErrors) => Ok(head + cardErrors + caseErrors)
  }

  method ValidateFieldManifest(manifest: map<string, Json>, printer: Printer)
    returns (r: Result<seq<FieldError>, GateError>)
    ensures r == FieldErrors(manifest, printer)
  {
    var errors := [];
    if Get(manifest, "source") != Str("operator-opt-in-field") { errors := errors + [SourceInvalid]; }
    if Get(manifest, "privacy") != Str("sanitized") { errors := errors + [PrivacyInvalid]; }
    assert errors == ProvenanceErrors(manifest);
    var card, cases := Get(manifest, "dataset_card"), Get(manifest, "cases");
    if !card.Obj? { return Ok(errors + [CardMissing]); }
    var cardErrors := CardErrors(card.m, printer);
    if cardErrors.Err? { return cardErrors; }
    errors := errors + cardErrors.value;
    if !cases.Arr? || cases.a == [] { return Ok(errors + [CasesMissing]); }
    var caseErrors := ValidateCases(cases.a, printer);
    if caseErrors.Err? { return caseErrors; }
    return Ok(errors + caseErrors.value);
  }

  method ValidateCases(cases: seq<Json>, printer: Printer) returns (r: Result<seq<FieldError>, GateError>)
    ensures r == AllCaseErrors(cases, printer)
  {
    var errors := [];
    for i := 0 to |cases|
      invariant AllCaseErrors(cases[..i], printer) == Ok(errors)
    {
      assert cases[..i + 1][..i] == cases[..i];
      if !cases[i].Obj? {
        CaseErrorsStick(cases, i + 1, printer);
        return Err(NotAnObject);
      }
      errors := errors + CaseErrors(cases[i].m, printer);
    }
    assert cases[..|cases|] == cases;
    return Ok(errors);
  }

  lemma {:induction false} CaseErrorsStick(cases: seq<Json>, i: nat, printer: Printer)
    requires i <= |cases| && AllCaseErrors(cases[..i], printer).Err?
    ensures AllCaseErrors(cases, printer) == Err(NotAnObject)
    decreases |cases| - i
  {
    if i == |cases| {
      assert cases[..i] == cases;
      ErrorIsNotAnObject(cases, printer);
    } else {
      assert cases[..i + 1][..i] == cases[..i];
      CaseErrorsStick(cases, i + 1, printer);
    }
  }

  lemma ErrorIsNotAnObject(cases: seq<Json>, printer: Printer)
    ensures AllCaseErrors(cases, printer).Err? ==> AllCaseErrors(cases, printer) == Err(NotAnObject)
  {
  }

  // ---- What a manifest must say to be admitted ----

  /** The field is there, and what it prints is not blank. */
  predicate Says(m: map<string, Json>, key: string, printer: Printer) {
    key in m && Strip(if m[key].Str? then m[key].s else printer(m[key])) != ""
  }

  predicate OccursAt(needle: string, hay: string, i: int) {
    0 <= i <= |hay| - |needle| && hay[i..i + |needle|] == needle
  }

  ghost predicate Occurs(needle: string, hay: string) {
    exists i :: OccursAt(needle, hay, i)
  }

  /** The allowed uses name calibration: as an element, a key, or inside a text. */
  ghost predicate AllowsCalibration(card: map<string, Json>) {
    && "allowed_uses" in card
    && match card["allowed_uses"]
       case Str(s) => Occurs("aegis-calibration", s)
       case Arr(a) => exists i :: 0 <= i < |a| && a[i] == Str("aegis-calibration")
       case Obj(o) => "aegis-calibration" in o
       case _ => false
  }

  ghost predicate Admissible(manifest: map<string, Json>, printer: Printer) {
    && Has(manifest, "source", Str("operator-opt-in-field"))
    && Has(manifest, "privacy", Str("sanitized"))
    && "dataset_card" in manifest && manifest["dataset_card"].Obj?
    && AdmissibleCard(manifest["dataset_card"].m, printer)
    && "cases" in manifest && manifest["cases"].Arr? && manifest["cases"].a != []
    && AllAdmissible(manifest["cases"].a, printer)
  }

  ghost predicate AdmissibleCard(card: map<string, Json>, printer: Printer) {
    && Has(card, "collection_authority", Str("operator-opt-in"))
    && Has(card, "review_state", Str("approved"))
    && Has(card, "raw_identifiers_retained", Bool(false))
    && Has(card, "label_method", Str("human-reviewed-incident-outcome"))
    && AllowsCalibration(card)
    && Says(card, "retention_policy", printer)
  }

  ghost predicate AdmissibleCase(entry: Json, printer: Printer) {
    && entry.Obj?
    && Says(entry.m, "system_profile", printer) && Says(entry.m, "workload_class", printer)
    && Has(entry.m, "incident_reviewed", Bool(true))
  }

  lemma SaysText(m: map<string, Json>, key: string, printer: Printer)
    ensures Strip(FieldText(m, key, printer)) != "" <==> Says(m, key, printer)
  {
    assert Strip("") == "";
    hide Strip;
  }

  lemma {:induction false} SubstringOccurs(needle: string, hay: string)
    ensures Substring(needle, hay) <==> Occurs(needle, hay)
  {
    if needle <= hay {
      assert OccursAt(needle, hay, 0);
    } else if hay != "" {
      SubstringOccurs(needle, hay[1..]);
      if Occurs(needle, hay[1..]) {
        var i :| OccursAt(needle, hay[1..], i);
        assert OccursAt(needle, hay, i + 1);
      }
      if Occurs(needle, hay) {
        var i :| OccursAt(needle, hay, i);
        assert i != 0;
        assert OccursAt(needle, hay[1..], i - 1);
      }
    } else {
      assert forall i :: OccursAt(needle, hay, i) ==> i == 0;
    }
  }

  lemma AllowedExactlyWhen(card: map<string, Json>)
    ensures Contains(card, "allowed_uses", "aegis-calibration") == Ok(true) <==> AllowsCalibration(card)
  {
    if "allowed_uses" in card && card["allowed_uses"].Str? {
      SubstringOccurs("aegis-calibration", card["allowed_uses"].s);
    }
    hide Substring;
    hide Occurs;
  }

  lemma NoErrorsInCard(card: map<string, Json>, printer: Printer)
    ensures NoErrors(CardErrors(card, printer)) <==> AdmissibleCard(card, printer)
  {
    hide Contains;
    hide AllowsCalibration;
    hide FieldText;
    hide Says;
    hide Get;
    hide Has;
    hide Strip;
    AllowedExactlyWhen(card);
    SaysText(card, "retention_policy", printer);
    HasExactlyWhen(card, "collection_authority", Str("operator-opt-in"));
    HasExactlyWhen(card, "review_state", Str("approved"));
    HasExactlyWhen(card, "raw_identifiers_retained", Bool(false));
    HasExactlyWhen(card, "label_method", Str("human-reviewed-incident-outcome"));
  }

  lemma NoErrorsInCase(entry: Json, printer: Printer)
    ensures AdmissibleCase(entry, printer) <==> entry.Obj? && CaseErrors(entry.m, printer) == []
  {
    hide FieldText;
    hide Says;
    hide Get;
    hide Has;
    hide Strip;
    hide CaseId;
    if entry.Obj? {
      SaysText(entry.m, "system_profile", printer);
      SaysText(entry.m, "workload_class", printer);
      HasExactlyWhen(entry.m, "incident_reviewed", Bool(true));
    }
  }

  predicate NoErrors(r: Result<seq<FieldError>, GateError>) {
    r.Ok? && r.value == []
  }

  lemma OneCaseMore(cases: seq<Json>, last: Json, printer: Printer)
    ensures NoErrors(AllCaseErrors(cases + [last], printer))
       <==> NoErrors(AllCaseErrors(cases, printer)) && last.Obj? && CaseErrors(last.m, printer) == []
  {
    hide CaseErrors;
    assert (cases + [last])[..|cases|] == cases;
    if AllCaseErrors(cases, printer).Ok? && last.Obj? {
      var before, more := AllCaseErrors(cases, printer).value, CaseErrors(last.m, printer);
      assert |before + more| == |before| + |more|;
    }
  }

  ghost predicate AllAdmissible(cases: seq<Json>, printer: Printer) {
    forall i :: 0 <= i < |cases| ==> AdmissibleCase(cases[i], printer)
  }

  lemma AllAdmissibleMore(cases: seq<Json>, last: Json, printer: Printer)
    ensures AllAdmissible(cases + [last], printer) <==> AllAdmissible(cases, printer) && AdmissibleCase(last, printer)
  {
    hide AdmissibleCase;
    var more := cases + [last];
    assert more[|cases|] == last && forall i :: 0 <= i < |cases| ==> more[i] == cases[i];
  }

  lemma {:induction false} NoCaseErrors(cases: seq<Json>, printer: Printer)
    ensures NoErrors(AllCaseErrors(cases, printer)) <==> AllAdmissible(cases, printer)
  {
    if cases != [] {
      hide AllCaseErrors;
      hide AllAdmissible;
      hide CaseErrors;
      hide AdmissibleCase;
      var init, last := cases[..|cases| - 1], cases[|cases| - 1];
      assert cases == init + [last];
      NoCaseErrors(init, printer);
      OneCaseMore(init, last, printer);
      AllAdmissibleMore(init, last, printer);
      NoErrorsInCase(last, printer);
    }
  }

  /** A manifest validates without errors exactly when it is admissible. */
  lemma NoFieldErrors(manifest: map<string, Json>, printer: Printer)
    ensures FieldErrors(manifest, printer) == Ok([]) <==> Admissible(manifest, printer)
  {
    hide CardErrors;
    hide AdmissibleCard;
    hide AllCaseErrors;
    hide AllAdmissible;
    hide Has;
    var card, cases := Get(manifest, "dataset_card"), Get(manifest, "cases");
    HasExactlyWhen(manifest, "source", Str("operator-opt-in-field"));
    HasExactlyWhen(manifest, "privacy", Str("sanitized"));
    if cases.Arr? { NoCaseErrors(cases.a, printer); }
    if card.Obj? { NoErrorsInCard(card.m, printer); }
    NothingMissing(manifest, printer);
  }

  lemma NothingMissing(manifest: map<string, Json>, printer: Printer)
    ensures NoErrors(FieldErrors(manifest, printer)) <==>
            && Get(manifest, "source") == Str("operator-opt-in-field") && Get(manifest, "privacy") == Str("sanitized")
            && Get(manifest, "dataset_card").Obj? && NoErrors(CardErrors(Get(manifest, "dataset_card").m, printer))
            && Get(manifest, "cases").Arr? && Get(manifest, "cases").a != []
            && NoErrors(AllCaseErrors(Get(manifest, "cases").a, printer))
  {
    hide CardErrors;
    hide AllCaseErrors;
    hide Get;
  }

  // ---- evaluate_evidence_gate ----

  datatype Gap =
    | Field(error: FieldError)
    | PositiveFloor
    | NegativeFloor
    | ProfileFloor
    | WorkloadFloor
    | FalsePositiveBound
    | RecallBound

  datatype Gate = Gate(eligible: bool, fieldCandidate: bool, falsePositive: Interval, recall: Interval, gaps: seq<Gap>)

  /** The root a caller supplies for one interval; none is taken of zero trials. */
  predicate RootFor(successes: int, trials: int, z: real, root: real) {
    ValidCounts(successes, trials) ==> IsRoot(root, Radicand(successes, trials, z))
  }

  function MeasuredInterval(successes: int, trials: int, z: real, root: real): Result<Interval, GateError>
    requires RootFor(successes, trials, z, root)
  {
    if trials == 0 then Ok(Interval(0.0, 1.0))
    else match WilsonInterval(successes, trials, z, root)
      case Err(_) => Err(BadCounts)
      case Ok(interval) => Ok(interval)
  }

  function CaseList(manifest: map<string, Json>): seq<Json> {
    ListOrEmpty(Get(manifest, "cases"))
  }

  predicate Positive(entry: Json) {
    entry.Obj? && Truthy(Get(entry.m, "expected_shared_cooling"))
  }

  function CountPositives(cases: seq<Json>): nat {
    if cases == [] then 0 else CountPositives(cases[..|cases| - 1]) + if Positive(cases[|cases| - 1]) then 1 else 0
  }

  function Labels(cases: seq<Json>, key: string, printer: Printer): set<string> {
    (set c | c in cases && c.Obj? :: FieldText(c.m, key, printer)) - {""}
  }

  function GapWhen(failed: bool, gap: Gap): seq<Gap> {
    if failed then [gap] else []
  }

  function FieldGaps(errors: seq<FieldError>): seq<Gap> {
    seq(|errors|, i requires 0 <= i < |errors| => Field(errors[i]))
  }

  function FloorGaps(cases: seq<Json>, policy: Policy, printer: Printer): seq<Gap> {
    var positives := CountPositives(cases);
    GapWhen(positives < policy.minPositiveRecordings, PositiveFloor)
    + GapWhen(|cases| - positives < policy.minNegativeRecordings, NegativeFloor)
    + GapWhen(|Labels(cases, "system_profile", printer)| < policy.minSystemProfiles, ProfileFloor)
    + GapWhen(|Labels(cases, "workload_class", printer)| < policy.minWorkloadClasses, WorkloadFloor)
  }

  function Gaps(errors: seq<FieldError>, cases: seq<Json>, policy: Policy, fpr: Interval, recall: Interval,
                printer: Printer): seq<Gap>
  {
    FieldGaps(errors)
    + FloorGaps(cases, policy, printer)
    + GapWhen(fpr.upper > policy.maxFalsePositiveUpper, FalsePositiveBound)
    + GapWhen(recall.lower < policy.minRecallLower, RecallBound)
  }

  function Evaluate(report: Report, manifest: map<string, Json>, policy: Policy, fprRoot: real, recallRoot: real,
                    printer: Printer): Result<Gate, GateError>
    requires RootFor(report.falsePositiveFrames, report.negativeFrames, policy.confidenceZ, fprRoot)
    requires RootFor(report.truePositive, report.truePositive + report.falseNegative, policy.confidenceZ, recallRoot)
  {
    match MeasuredInterval(report.falsePositiveFrames, report.negativeFrames, policy.confidenceZ, fprRoot)
    case Err(e) => Err(e)
    case Ok(fpr) =>
      match MeasuredInterval(report.truePositive, report.truePositive + report.falseNegative, policy.confidenceZ, recallRoot)
      case Err(e) => Err(e)
      case Ok(recall) =>
        var cases := CaseList(manifest);
        if exists c :: c in cases && !c.Obj? then Err(NotAnObject)
        else match FieldErrors(manifest, printer)
          case Err(e) => Err(e)
          case Ok(errors) =>
            var gaps := Gaps(errors, cases, policy, fpr, recall, printer);
            Ok(Gate(gaps == [], gaps == [], fpr, recall, gaps))
  }

  /** The upper end of a measured interval is at most the limit, decided without a
      square root, for every z-score and limit. */
  predicate UpperTest(successes: int, trials: int, z: real, limit: real) {
    if trials == 0 then limit >= 1.0
    else
      && ValidCounts(successes, trials)
      && var p, score := Proportion(successes, trials), Score(successes, trials, z, limit);
         if z >= 0.0 then p <= limit && score >= 0.0 && (limit > 0.0 || z == 0.0) else p <= limit || score <= 0.0
  }

  /** The lower end is at least the limit. */
  predicate LowerTest(successes: int, trials: int, z: real, limit: real) {
    if trials == 0 then limit <= 0.0
    else
      && ValidCounts(successes, trials)
      && var p, score := Proportion(successes, trials), Score(successes, trials, z, limit);
         if z >= 0.0 then p >= limit && score >= 0.0 && (limit < 1.0 || z == 0.0) else p >= limit || score <= 0.0
  }

  /** The statistical half of eligibility. */
  predicate FalsePositiveTest(falsePositives: int, frames: int, policy: Policy) {
    UpperTest(falsePositives, frames, policy.confidenceZ, policy.maxFalsePositiveUpper)
  }

  predicate RecallTest(hits: int, trials: int, policy: Policy) {
    LowerTest(hits, trials, policy.confidenceZ, policy.minRecallLower)
  }

  /** The case carries this text, not an empty one, in the field. */
  predicate Carries(entry: Json, key: string, v: string, printer: Printer) {
    && entry.Obj? && key in entry.m && v != ""
    && v == if entry.m[key].Str? then entry.m[key].s else printer(entry.m[key])
  }

  /** The case is labelled as shared cooling. */
  predicate SharedCooling(entry: Json) {
    && entry.Obj? && "expected_shared_cooling" in entry.m
    && entry.m["expected_shared_cooling"] !in {Null, Bool(false), Int(0), Str(""), Arr([]), Obj(map[])}
    && (entry.m["expected_shared_cooling"].Real? ==> entry.m["expected_shared_cooling"].r != 0.0)
  }

  /** The positions and the labels that decide how diverse the cases are. */
  ghost predicate DiverseBy(cases: seq<Json>, positives: set<nat>, profiles: set<string>, workloads: set<string>,
                            policy: Policy, printer: Printer)
  {
    && (forall i: nat :: i in positives <==> i < |cases| && SharedCooling(cases[i]))
    && LabelsOf(cases, "system_profile", profiles, printer)
    && LabelsOf(cases, "workload_class", workloads, printer)
    && |positives| >= policy.minPositiveRecordings && |cases| - |positives| >= policy.minNegativeRecordings
    && |profiles| >= policy.minSystemProfiles && |workloads| >= policy.minWorkloadClasses
  }

  ghost predicate LabelsOf(cases: seq<Json>, key: string, labels: set<string>, printer: Printer) {
    forall v :: v in labels <==> exists i :: 0 <= i < |cases| && Carries(cases[i], key, v, printer)
  }

  ghost predicate Diverse(cases: seq<Json>, policy: Policy, printer: Printer) {
    exists positives, profiles, workloads :: DiverseBy(cases, positives, profiles, workloads, policy, printer)
  }

  lemma PositiveMeans(entry: Json)
    ensures Positive(entry) <==> SharedCooling(entry)
  {
  }

  lemma {:induction false} PositivesCounted(cases: seq<Json>, positives: set<nat>)
    requires forall i: nat :: i in positives <==> i < |cases| && Positive(cases[i])
    ensures CountPositives(cases) == |positives|
  {
    hide Positive;
    if cases == [] {
      assert positives == {};
    } else {
      var init, last := cases[..|cases| - 1], |cases| - 1;
      PositivesCounted(init, positives - {last});
    }
  }

  lemma LabelsCollected(cases: seq<Json>, key: string, printer: Printer)
    ensures LabelsOf(cases, key, Labels(cases, key, printer), printer)
  {
    forall v
      ensures v in Labels(cases, key, printer) <==> exists i :: 0 <= i < |cases| && Carries(cases[i], key, v, printer)
    {
      if v in Labels(cases, key, printer) {
        var c :| c in cases && c.Obj? && FieldText(c.m, key, printer) == v;
        var i :| 0 <= i < |cases| && cases[i] == c;
        assert Carries(cases[i], key, v, printer);
      }
      if i :| 0 <= i < |cases| && Carries(cases[i], key, v, printer) {
        assert cases[i] in cases && FieldText(cases[i].m, key, printer) == v;
      }
    }
  }

  lemma LabelsAreOne(cases: seq<Json>, key: string, a: set<string>, b: set<string>, printer: Printer)
    requires LabelsOf(cases, key, a, printer) && LabelsOf(cases, key, b, printer)
    ensures a == b
  {
  }

  function Positives(cases: seq<Json>): set<nat> {
    set i: nat | i < |cases| && SharedCooling(cases[i])
  }

  /** The counts of the gate are those of the positions and labels. */
  lemma DiverseExactlyWhen(cases: seq<Json>, policy: Policy, printer: Printer)
    ensures Diverse(cases, policy, printer) <==>
            && CountPositives(cases) >= policy.minPositiveRecordings
            && |cases| - CountPositives(cases) >= policy.minNegativeRecordings
            && |Labels(cases, "system_profile", printer)| >= policy.minSystemProfiles
            && |Labels(cases, "workload_class", printer)| >= policy.minWorkloadClasses
  {
    hide CountPositives;
    var profiles, workloads := Labels(cases, "system_profile", printer), Labels(cases, "workload_class", printer);
    LabelsCollected(cases, "system_profile", printer);
    LabelsCollected(cases, "workload_class", printer);
    hide Labels;
    hide LabelsOf;
    var positives := Positives(cases);
    forall i: nat | i < |cases|
      ensures Positive(cases[i]) <==> SharedCooling(cases[i])
    {
      PositiveMeans(cases[i]);
    }
    hide Positive;
    hide SharedCooling;
    PositivesCounted(cases, positives);
    if CountPositives(cases) >= policy.minPositiveRecordings && |cases| - CountPositives(cases) >= policy.minNegativeRecordings
       && |profiles| >= policy.minSystemProfiles && |workloads| >= policy.minWorkloadClasses {
      assert DiverseBy(cases, positives, profiles, workloads, policy, printer);
    }
    if p, q, w :| DiverseBy(cases, p, q, w, policy, printer) {
      assert p == positives;
      LabelsAreOne(cases, "system_profile", q, profiles, printer);
      LabelsAreOne(cases, "workload_class", w, workloads, printer);
    }
  }

  lemma MeasuredUpper(successes: int, trials: int, z: real, root: real, limit: real)
    requires RootFor(successes, trials, z, root)
    ensures
      var r := MeasuredInterval(successes, trials, z, root);
      r.Ok? && r.value.upper <= limit <==> UpperTest(successes, trials, z, limit)
  {
    hide Score;
    hide Proportion;
    hide Lower;
    hide Upper;
    if ValidCounts(successes, trials) {
      if z >= 0.0 {
        EndpointsBracketProportion(successes, trials, z, root);
        UpperMeetsLimit(successes, trials, z, root, limit);
      } else {
        NegatedCall(successes, trials, z, root);
        EndpointsBracketProportion(successes, trials, -z, root);
        SignsAt(successes, trials, -z, root, limit);
      }
      hide WilsonInterval;
    }
  }

  lemma MeasuredLower(successes: int, trials: int, z: real, root: real, limit: real)
    requires RootFor(successes, trials, z, root)
    ensures
      var r := MeasuredInterval(successes, trials, z, root);
      r.Ok? && r.value.lower >= limit <==> LowerTest(successes, trials, z, limit)
  {
    hide Score;
    hide Proportion;
    hide Lower;
    hide Upper;
    if ValidCounts(successes, trials) {
      if z >= 0.0 {
        EndpointsBracketProportion(successes, trials, z, root);
        LowerMeetsLimit(successes, trials, z, root, limit);
      } else {
        NegatedCall(successes, trials, z, root);
        EndpointsBracketProportion(successes, trials, -z, root);
        SignsAt(successes, trials, -z, root, limit);
      }
      hide WilsonInterval;
    }
  }

  lemma NoGapsExactlyWhen(errors: seq<FieldError>, cases: seq<Json>, policy: Policy, fpr: Interval, recall: Interval,
                          printer: Printer)
    ensures Gaps(errors, cases, policy, fpr, recall, printer) == []
       <==> errors == [] && Diverse(cases, policy, printer)
            && fpr.upper <= policy.maxFalsePositiveUpper && recall.lower >= policy.minRecallLower
  {
    DiverseExactlyWhen(cases, policy, printer);
    hide CountPositives;
    hide Diverse;
    hide Labels;
    assert |FieldGaps(errors)| == |errors|;
  }

  /** Eligibility, exactly and for every policy: an admissible and diverse manifest whose
      report passes both score tests. Every square root drops out. */
  lemma EligibleExactlyWhen(report: Report, manifest: map<string, Json>, policy: Policy,
                            fprRoot: real, recallRoot: real, printer: Printer)
    requires RootFor(report.falsePositiveFrames, report.negativeFrames, policy.confidenceZ, fprRoot)
    requires RootFor(report.truePositive, report.truePositive + report.falseNegative, policy.confidenceZ, recallRoot)
    ensures
      var r := Evaluate(report, manifest, policy, fprRoot, recallRoot, printer);
      r.Ok? && r.value.eligible
      <==>
      && Admissible(manifest, printer)
      && Diverse(CaseList(manifest), policy, printer)
      && FalsePositiveTest(report.falsePositiveFrames, report.negativeFrames, policy)
      && RecallTest(report.truePositive, report.truePositive + report.falseNegative, policy)
  {
    hide FieldErrors;
    hide Admissible;
    hide MeasuredInterval;
    hide UpperTest;
    hide LowerTest;
    hide RootFor;
    hide Diverse;
    hide Gaps;
    hide CaseList;
    MeasuredUpper(report.falsePositiveFrames, report.negativeFrames, policy.confidenceZ, fprRoot, policy.maxFalsePositiveUpper);
    MeasuredLower(report.truePositive, report.truePositive + report.falseNegative, policy.confidenceZ, recallRoot, policy.minRecallLower);
    NoFieldErrors(manifest, printer);
    if Admissible(manifest, printer) {
      AdmissibleCasesAreObjects(manifest, printer);
    }
    var fpr := MeasuredInterval(report.falsePositiveFrames, report.negativeFrames, policy.confidenceZ, fprRoot);
    var recall := MeasuredInterval(report.truePositive, report.truePositive + report.falseNegative, policy.confidenceZ, recallRoot);
    var errors := FieldErrors(manifest, printer);
    if fpr.Ok? && recall.Ok? && errors.Ok? {
      NoGapsExactlyWhen(errors.value, CaseList(manifest), policy, fpr.value, recall.value, printer);
    }
  }

  lemma AdmissibleCasesAreObjects(manifest: map<string, Json>, printer: Printer)
    requires Admissible(manifest, printer)
    ensures forall c :: c in CaseList(manifest) ==> c.Obj?
  {
    var cases := manifest["cases"].a;
    assert AllAdmissible(cases, printer);
    hide Admissible;
    forall c | c in cases
      ensures c.Obj?
    {
      var i :| 0 <= i < |cases| && cases[i] == c;
      assert AdmissibleCase(cases[i], printer);
    }
  }

  // ---- The sample sizes that the default policy implies ----

  const Z := DEFAULT_POLICY.confidenceZ

  /** With fewer than 381 negative frames no count of false positives passes, and
      with 381 or more a clean run passes. */
  lemma FalsePositiveFloor(frames: int)
    ensures (exists s :: FalsePositiveTest(s, frames, DEFAULT_POLICY)) <==> frames >= 381
  {
    var t := DEFAULT_POLICY.maxFalsePositiveUpper;
    if frames > 0 {
      ScoreOfZero(frames, t);
      assert FalsePositiveTest(0, frames, DEFAULT_POLICY) <==> frames >= 381 by {
        ProportionRange(0, frames);
        assert Proportion(0, frames) == 0.0;
      }
    }
    forall s | FalsePositiveTest(s, frames, DEFAULT_POLICY)
      ensures frames >= 381
    {
      ProportionRange(0, frames);
      ProportionMonotone(0, s, frames);
      ScoreMovesWithGap(frames as real, Proportion(s, frames), 0.0, Square(Z), t);
    }
  }

  lemma ScoreOfZero(frames: int, t: real)
    requires frames > 0 && t == DEFAULT_POLICY.maxFalsePositiveUpper
    ensures ScoreOf(frames as real, 0.0, Square(Z), t) >= 0.0 <==> frames >= 381
    ensures Proportion(0, frames) == 0.0
  {
  }

  lemma RecallFloor(trials: int)
    ensures (exists s :: RecallTest(s, trials, DEFAULT_POLICY)) <==> trials >= 16
  {
    var t := DEFAULT_POLICY.minRecallLower;
    if trials > 0 {
      ScoreOfAll(trials, t);
      assert RecallTest(trials, trials, DEFAULT_POLICY) <==> trials >= 16;
    }
    forall s | RecallTest(s, trials, DEFAULT_POLICY)
      ensures trials >= 16
    {
      ProportionRange(trials, trials);
      ProportionMonotone(s, trials, trials);
      ScoreMovesWithGap(trials as real, Proportion(s, trials), 1.0, Square(Z), t);
    }
  }

  lemma ScoreOfAll(trials: int, t: real)
    requires trials > 0 && t == DEFAULT_POLICY.minRecallLower
    ensures ScoreOf(trials as real, 1.0, Square(Z), t) >= 0.0 <==> trials >= 16
    ensures Proportion(trials, trials) == 1.0
  {
    Quotient(trials as real, trials as real);
    var p := Proportion(trials, trials);
    assert (p - 1.0) * trials as real == 0.0;
  }

  /** No report is eligible under the default policy with a smaller sample. */
  lemma EligibleNeedsSampleSize(report: Report, manifest: map<string, Json>, fprRoot: real, recallRoot: real,
                                printer: Printer)
    requires RootFor(report.falsePositiveFrames, report.negativeFrames, Z, fprRoot)
    requires RootFor(report.truePositive, report.truePositive + report.falseNegative, Z, recallRoot)
    ensures
      var r := Evaluate(report, manifest, DEFAULT_POLICY, fprRoot, recallRoot, printer);
      r.Ok? && r.value.eligible ==> report.negativeFrames >= 381 && report.truePositive + report.falseNegative >= 16
  {
    hide Evaluate;
    hide Admissible;
    hide Diverse;
    hide UpperTest;
    hide LowerTest;
    hide IsRoot;
    hide Radicand;
    EligibleExactlyWhen(report, manifest, DEFAULT_POLICY, fprRoot, recallRoot, printer);
    FalsePositiveFloor(report.negativeFrames);
    RecallFloor(report.truePositive + report.falseNegative);
  }

  // ---- What a wrong count would break ----

  /** An eligible report under the default policy has at least four hits for every miss. */
  lemma EligibleHitsOutnumberMisses(report: Report, manifest: map<string, Json>, fprRoot: real, recallRoot: real,
                                    printer: Printer)
    requires RootFor(report.falsePositiveFrames, report.negativeFrames, Z, fprRoot)
    requires RootFor(report.truePositive, report.truePositive + report.falseNegative, Z, recallRoot)
    ensures
      var r := Evaluate(report, manifest, DEFAULT_POLICY, fprRoot, recallRoot, printer);
      r.Ok? && r.value.eligible ==> report.truePositive >= 4 * report.falseNegative
                                    && 100 * report.falsePositiveFrames <= report.negativeFrames
  {
    hide Evaluate;
    hide Admissible;
    hide Diverse;
    hide UpperTest;
    hide LowerTest;
    hide IsRoot;
    hide Radicand;
    EligibleNeedsSampleSize(report, manifest, fprRoot, recallRoot, printer);
    EligibleExactlyWhen(report, manifest, DEFAULT_POLICY, fprRoot, recallRoot, printer);
    SharesThatPass(report);
  }

  lemma SharesThatPass(report: Report)
    ensures RecallTest(report.truePositive, report.truePositive + report.falseNegative, DEFAULT_POLICY)
            ==> report.truePositive >= 4 * report.falseNegative
    ensures FalsePositiveTest(report.falsePositiveFrames, report.negativeFrames, DEFAULT_POLICY)
            ==> 100 * report.falsePositiveFrames <= report.negativeFrames
  {
    hide Score;
    hide Proportion;
    if report.truePositive + report.falseNegative > 0 {
      ShareOf(report.truePositive, report.truePositive + report.falseNegative);
    }
    if report.negativeFrames > 0 {
      ShareOf(report.falsePositiveFrames, report.negativeFrames);
    }
  }

  lemma ShareOf(part: int, whole: int)
    requires whole > 0
    ensures Proportion(part, whole) >= 0.80 ==> 5 * part >= 4 * whole
    ensures Proportion(part, whole) <= 0.01 ==> 100 * part <= whole
  {
    var p, n, s := Proportion(part, whole), whole as real, part as real;
    Quotient(s, n);
    assert p == s / n;
    hide Proportion;
    if p >= 0.80 {
      Scaled(n, 0.80, p, s);
      assert 5.0 * s >= 4.0 * n;
    }
    if p <= 0.01 {
      Scaled(n, p, 0.01, s);
      assert 100.0 * s <= n;
    }
  }

  /** One of two ordered numbers times `n` is `s`. */
  lemma Scaled(n: real, x: real, y: real, s: real)
    requires n > 0.0 && x <= y
    ensures y * n == s ==> n * x <= s
    ensures x * n == s ==> s <= n * y
  {
    ScaleOrdered(n, x, y);
    assert n * x == x * n && n * y == y * n;
  }

  /** More misses alone never help: under a policy with a z-score that is not negative, a
      report with natural counts that is not eligible stays so. */
  lemma MoreMissesNeverHelp(report: Report, more: nat, manifest: map<string, Json>, policy: Policy,
                            fprRoot: real, recallRoot: real, moreRoot: real, printer: Printer)
    requires report.truePositive >= 0 && report.falseNegative >= 0 && policy.confidenceZ >= 0.0
    requires RootFor(report.falsePositiveFrames, report.negativeFrames, policy.confidenceZ, fprRoot)
    requires RootFor(report.truePositive, report.truePositive + report.falseNegative, policy.confidenceZ, recallRoot)
    requires RootFor(report.truePositive, report.truePositive + report.falseNegative + more, policy.confidenceZ, moreRoot)
    ensures
      var worse := report.(falseNegative := report.falseNegative + more);
      var r, w := Evaluate(report, manifest, policy, fprRoot, recallRoot, printer),
                  Evaluate(worse, manifest, policy, fprRoot, moreRoot, printer);
      w.Ok? && w.value.eligible ==> r.Ok? && r.value.eligible
  {
    hide Evaluate;
    hide Admissible;
    hide Diverse;
    hide UpperTest;
    hide LowerTest;
    hide IsRoot;
    hide Radicand;
    var worse := report.(falseNegative := report.falseNegative + more);
    EligibleExactlyWhen(report, manifest, policy, fprRoot, recallRoot, printer);
    EligibleExactlyWhen(worse, manifest, policy, fprRoot, moreRoot, printer);
    if RecallTest(worse.truePositive, worse.truePositive + worse.falseNegative, policy) {
      FewerTrialsPass(report.truePositive, report.truePositive + report.falseNegative,
                      report.truePositive + worse.falseNegative, policy.confidenceZ, policy.minRecallLower);
    }
  }

  lemma FewerTrialsPass(hits: int, trials: int, more: int, z: real, limit: real)
    requires 0 <= hits <= trials <= more && z >= 0.0 && LowerTest(hits, more, z, limit)
    ensures LowerTest(hits, trials, z, limit)
  {
    if trials > 0 {
      var s, n, m := hits as real, trials as real, more as real;
      var p, q := Proportion(hits, trials), Proportion(hits, more);
      Quotient(s, n);
      Quotient(s, m);
      assert p * n == s && q * m == s;
      assert Score(hits, trials, z, limit) == ScoreOf(n, p, Square(z), limit);
      assert Score(hits, more, z, limit) == ScoreOf(m, q, Square(z), limit);
      hide Score;
      hide Proportion;
      hide Square;
      FewerTrialsScore(s, n, m, p, q, Square(z), limit);
    } else if more > 0 {
      assert Proportion(hits, more) == 0.0;
    }
  }

  /** The score of the same hits in fewer trials. */
  lemma FewerTrialsScore(s: real, n: real, m: real, p: real, q: real, w: real, limit: real)
    requires 0.0 < n <= m && s >= 0.0 && p * n == s && q * m == s && q >= limit && w >= 0.0
    requires ScoreOf(m, q, w, limit) >= 0.0
    ensures p >= limit && ScoreOf(n, p, w, limit) >= 0.0
  {
    SameSign(m, q, s);
    ScaledOrder(n, m, q);
    SameSign(n, p - q, n * (p - q));
    if limit >= 0.0 {
      FewerTrialsWiden(s, n, m, p, q, w, limit);
    } else {
      ScoreBelowZero(n, p, w, limit);
    }
  }

  lemma FewerTrialsWiden(s: real, n: real, m: real, p: real, q: real, w: real, limit: real)
    requires 0.0 < n <= m && p * n == s && q * m == s && p >= q >= limit >= 0.0
    ensures ScoreOf(n, p, w, limit) >= ScoreOf(m, q, w, limit)
  {
    var d, e := p - limit, q - limit;
    ScaledOrder(n, m, limit);
    assert n * d == s - n * limit && m * e == s - m * limit;
    GapGrows(n, m, d, e);
  }

  lemma ScoreBelowZero(n: real, p: real, w: real, limit: real)
    requires 0.0 < n && w >= 0.0 && limit < 0.0
    ensures ScoreOf(n, p, w, limit) >= 0.0
  {
    var d := p - limit;
    ProductSign(limit, 1.0 - limit);
    ProductSign(w, limit * (1.0 - limit));
    ProductSign(d, d);
    ProductSign(n, d * d);
  }

  lemma ScaledOrder(n: real, m: real, x: real)
    requires n <= m && x >= 0.0
    ensures n * x <= m * x
  {
  }

  lemma GapGrows(n: real, m: real, d: real, e: real)
    requires 0.0 < n && 0.0 < m && 0.0 <= e <= d && m * e <= n * d
    ensures m * (e * e) <= n * (d * d)
  {
    var x, y := m * e, n * d;
    assert x >= 0.0;
    ScaledOrder(x, y, d);
    assert x * e <= x * d;
    assert x * e == m * (e * e) && y * d == n * (d * d);
  }

  // ---- What is reported ----

  /** The name under which a case's errors are reported. */
  predicate Named(entry: map<string, Json>, id: string, printer: Printer) {
    if "case_id" !in entry then id == "<unnamed>"
    else id == if entry["case_id"].Str? then entry["case_id"].s else printer(entry["case_id"])
  }

  /** What each error says is wrong. */
  ghost predicate Wrong(manifest: map<string, Json>, e: FieldError, printer: Printer) {
    var hasCard := "dataset_card" in manifest && manifest["dataset_card"].Obj?;
    var card := if hasCard then manifest["dataset_card"].m else map[];
    var cases := if "cases" in manifest && manifest["cases"].Arr? then manifest["cases"].a else [];
    match e
    case SourceInvalid => !Has(manifest, "source", Str("operator-opt-in-field"))
    case PrivacyInvalid => !Has(manifest, "privacy", Str("sanitized"))
    case CardMissing => !hasCard
    case CasesMissing => hasCard && cases == []
    case _ =>
      hasCard && (WrongCard(card, e, printer) || AnyCaseWrong(cases, e, printer))
  }

  predicate AnyCaseWrong(cases: seq<Json>, e: FieldError, printer: Printer) {
    exists i :: 0 <= i < |cases| && cases[i].Obj? && WrongCase(cases[i].m, e, printer)
  }

  ghost predicate WrongCard(card: map<string, Json>, e: FieldError, printer: Printer) {
    match e
    case AuthorityInvalid => !Has(card, "collection_authority", Str("operator-opt-in"))
    case ReviewStateInvalid => !Has(card, "review_state", Str("approved"))
    case RawIdentifiersRetained => !Has(card, "raw_identifiers_retained", Bool(false))
    case LabelMethodInvalid => !Has(card, "label_method", Str("human-reviewed-incident-outcome"))
    case UseNotAllowed => !AllowsCalibration(card)
    case RetentionMissing => !Says(card, "retention_policy", printer)
    case _ => false
  }

  predicate WrongCase(entry: map<string, Json>, e: FieldError, printer: Printer) {
    match e
    case ProfileMissing(id) => Named(entry, id, printer) && !Says(entry, "system_profile", printer)
    case WorkloadMissing(id) => Named(entry, id, printer) && !Says(entry, "workload_class", printer)
    case NotReviewed(id) => Named(entry, id, printer) && !Has(entry, "incident_reviewed", Bool(true))
    case _ => false
  }

  lemma WhenHolds(failed: bool, one: FieldError, e: FieldError)
    ensures e in When(failed, one) <==> failed && e == one
  {
  }

  lemma CaseErrorsExactly(entry: map<string, Json>, e: FieldError, printer: Printer)
    ensures e in CaseErrors(entry, printer) <==> WrongCase(entry, e, printer)
  {
    SaysText(entry, "system_profile", printer);
    SaysText(entry, "workload_class", printer);
    HasExactlyWhen(entry, "incident_reviewed", Bool(true));
    forall failed, one
      ensures e in When(failed, one) <==> failed && e == one
    {
      WhenHolds(failed, one, e);
    }
    hide When;
    hide Says;
    hide Has;
    hide Strip;
  }

  lemma {:induction false} AllCaseErrorsExactly(cases: seq<Json>, e: FieldError, printer: Printer)
    requires AllCaseErrors(cases, printer).Ok?
    ensures e in AllCaseErrors(cases, printer).value <==> AnyCaseWrong(cases, e, printer)
  {
    hide CaseErrors;
    hide WrongCase;
    if cases != [] {
      var last := |cases| - 1;
      AllCaseErrorsExactly(cases[..last], e, printer);
      CaseErrorsExactly(cases[last].m, e, printer);
      assert forall i :: 0 <= i < last ==> cases[..last][i] == cases[i];
      if i :| 0 <= i < last && cases[i].Obj? && WrongCase(cases[i].m, e, printer) {
        assert WrongCase(cases[..last][i].m, e, printer);
      }
    }
  }

  lemma CardErrorsExactly(card: map<string, Json>, e: FieldError, printer: Printer)
    requires CardErrors(card, printer).Ok?
    ensures e in CardErrors(card, printer).value <==> WrongCard(card, e, printer)
  {
    AllowedExactlyWhen(card);
    SaysText(card, "retention_policy", printer);
    HasExactlyWhen(card, "collection_authority", Str("operator-opt-in"));
    HasExactlyWhen(card, "review_state", Str("approved"));
    HasExactlyWhen(card, "raw_identifiers_retained", Bool(false));
    HasExactlyWhen(card, "label_method", Str("human-reviewed-incident-outcome"));
    forall failed, one
      ensures e in When(failed, one) <==> failed && e == one
    {
      WhenHolds(failed, one, e);
    }
    hide When;
    hide Contains;
    hide AllowsCalibration;
    hide Says;
    hide FieldText;
    hide Strip;
    hide Get;
    hide Has;
  }

  /** Each error is reported exactly when what it says is wrong. */
  lemma ErrorsExactly(manifest: map<string, Json>, e: FieldError, printer: Printer)
    requires FieldErrors(manifest, printer).Ok?
    ensures e in FieldErrors(manifest, printer).value <==> Wrong(manifest, e, printer)
  {
    hide CardErrors;
    hide AllCaseErrors;
    hide WrongCard;
    hide AnyCaseWrong;
    hide ProvenanceErrors;
    hide Has;
    ProvenanceExactly(manifest, e);
    var card, cases := Get(manifest, "dataset_card"), Get(manifest, "cases");
    if card.Obj? {
      CardErrorsExactly(card.m, e, printer);
      ErrorsApart(card.m, ListOrEmpty(cases), e, printer);
      if cases.Arr? && cases.a != [] {
        AllCaseErrorsExactly(cases.a, e, printer);
      }
    }
  }

  lemma ProvenanceExactly(manifest: map<string, Json>, e: FieldError)
    ensures e in ProvenanceErrors(manifest) <==>
            || (e.SourceInvalid? && !Has(manifest, "source", Str("operator-opt-in-field")))
            || (e.PrivacyInvalid? && !Has(manifest, "privacy", Str("sanitized")))
  {
    HasExactlyWhen(manifest, "source", Str("operator-opt-in-field"));
    HasExactlyWhen(manifest, "privacy", Str("sanitized"));
    hide Has;
    hide Get;
  }

  /** No error is about two of the provenance, the card and a case. */
  lemma ErrorsApart(card: map<string, Json>, cases: seq<Json>, e: FieldError, printer: Printer)
    ensures WrongCard(card, e, printer) || AnyCaseWrong(cases, e, printer) ==>
              !e.SourceInvalid? && !e.PrivacyInvalid? && !e.CardMissing? && !e.CasesMissing?
    ensures !AnyCaseWrong([], e, printer)
  {
  }

  /** The gate raises exactly for counts that cannot be, a case that is no object, or
      allowed uses that hold nothing. */
  lemma EvaluationRaisesExactlyWhen(report: Report, manifest: map<string, Json>, policy: Policy, fprRoot: real,
                                    recallRoot: real, printer: Printer)
    requires RootFor(report.falsePositiveFrames, report.negativeFrames, policy.confidenceZ, fprRoot)
    requires RootFor(report.truePositive, report.truePositive + report.falseNegative, policy.confidenceZ, recallRoot)
    ensures Evaluate(report, manifest, policy, fprRoot, recallRoot, printer).Err? <==>
            || (report.negativeFrames != 0 && !(0 <= report.falsePositiveFrames <= report.negativeFrames))
            || (report.truePositive + report.falseNegative != 0
                && !(report.truePositive >= 0 && report.falseNegative >= 0))
            || ("cases" in manifest && manifest["cases"].Arr?
                && exists i :: 0 <= i < |manifest["cases"].a| && !manifest["cases"].a[i].Obj?)
            || ("dataset_card" in manifest && manifest["dataset_card"].Obj?
                && var card := manifest["dataset_card"].m;
                   "allowed_uses" in card && !card["allowed_uses"].Str? && !card["allowed_uses"].Arr? && !card["allowed_uses"].Obj?)
  {
    var card, cases := Get(manifest, "dataset_card"), CaseList(manifest);
    Measurable(report.falsePositiveFrames, report.negativeFrames, policy.confidenceZ, fprRoot);
    Measurable(report.truePositive, report.truePositive + report.falseNegative, policy.confidenceZ, recallRoot);
    AllCasesRaise(cases, printer);
    assert (exists c :: c in cases && !c.Obj?) <==> exists i :: 0 <= i < |cases| && !cases[i].Obj? by {
      if i :| 0 <= i < |cases| && !cases[i].Obj? { assert cases[i] in cases; }
    }
    if card.Obj? { CardRaises(card.m, printer); }
    hide MeasuredInterval;
    hide RootFor;
    hide AllCaseErrors;
    hide CardErrors;
    hide Gaps;
  }

  lemma Measurable(successes: int, trials: int, z: real, root: real)
    requires RootFor(successes, trials, z, root)
    ensures MeasuredInterval(successes, trials, z, root).Err? <==> trials != 0 && !(0 <= successes <= trials)
  {
    hide Center;
    hide Margin;
    hide Radicand;
  }

  lemma {:induction false} AllCasesRaise(cases: seq<Json>, printer: Printer)
    ensures AllCaseErrors(cases, printer).Err? <==> exists i :: 0 <= i < |cases| && !cases[i].Obj?
  {
    hide CaseErrors;
    if cases != [] {
      var last := |cases| - 1;
      AllCasesRaise(cases[..last], printer);
      assert forall i :: 0 <= i < last ==> cases[..last][i] == cases[i];
    }
  }

  lemma CardRaises(card: map<string, Json>, printer: Printer)
    ensures CardErrors(card, printer).Err? <==>
            "allowed_uses" in card && !card["allowed_uses"].Str? && !card["allowed_uses"].Arr? && !card["allowed_uses"].Obj?
  {
    hide Substring;
    hide FieldText;
    hide Strip;
  }

  /** The condition of each gap. */
  ghost predicate Falls(errors: seq<FieldError>, cases: seq<Json>, policy: Policy, fpr: Interval, recall: Interval, gap: Gap,
                        printer: Printer)
  {
    match gap
    case Field(e) => e in errors
    case PositiveFloor => |Positives(cases)| < policy.minPositiveRecordings
    case NegativeFloor => |cases| - |Positives(cases)| < policy.minNegativeRecordings
    case ProfileFloor => forall labels :: LabelsOf(cases, "system_profile", labels, printer) ==> |labels| < policy.minSystemProfiles
    case WorkloadFloor => forall labels :: LabelsOf(cases, "workload_class", labels, printer) ==> |labels| < policy.minWorkloadClasses
    case FalsePositiveBound => fpr.upper > policy.maxFalsePositiveUpper
    case RecallBound => recall.lower < policy.minRecallLower
  }

  lemma PositivesAre(cases: seq<Json>)
    ensures CountPositives(cases) == |Positives(cases)|
  {
    forall i: nat | i < |cases|
      ensures Positive(cases[i]) <==> SharedCooling(cases[i])
    {
      PositiveMeans(cases[i]);
    }
    hide Positive;
    hide SharedCooling;
    PositivesCounted(cases, Positives(cases));
  }

  lemma FewLabels(cases: seq<Json>, key: string, least: int, printer: Printer)
    ensures |Labels(cases, key, printer)| < least
       <==> forall labels :: LabelsOf(cases, key, labels, printer) ==> |labels| < least
  {
    LabelsCollected(cases, key, printer);
    forall labels | LabelsOf(cases, key, labels, printer)
      ensures labels == Labels(cases, key, printer)
    {
      LabelsAreOne(cases, key, labels, Labels(cases, key, printer), printer);
    }
    hide Labels;
    hide LabelsOf;
  }

  lemma GapHolds(failed: bool, one: Gap, gap: Gap)
    ensures gap in GapWhen(failed, one) <==> failed && gap == one
  {
  }

  predicate AboutFloors(gap: Gap) {
    gap.PositiveFloor? || gap.NegativeFloor? || gap.ProfileFloor? || gap.WorkloadFloor?
  }

  lemma FloorsExactly(errors: seq<FieldError>, cases: seq<Json>, policy: Policy, fpr: Interval, recall: Interval, gap: Gap,
                      printer: Printer)
    ensures gap in FloorGaps(cases, policy, printer)
       <==> AboutFloors(gap) && Falls(errors, cases, policy, fpr, recall, gap, printer)
  {
    PositivesAre(cases);
    FewLabels(cases, "system_profile", policy.minSystemProfiles, printer);
    FewLabels(cases, "workload_class", policy.minWorkloadClasses, printer);
    var positives, profiles, workloads :=
      CountPositives(cases), |Labels(cases, "system_profile", printer)|, |Labels(cases, "workload_class", printer)|;
    GapHolds(positives < policy.minPositiveRecordings, PositiveFloor, gap);
    GapHolds(|cases| - positives < policy.minNegativeRecordings, NegativeFloor, gap);
    GapHolds(profiles < policy.minSystemProfiles, ProfileFloor, gap);
    GapHolds(workloads < policy.minWorkloadClasses, WorkloadFloor, gap);
    hide GapWhen;
    hide CountPositives;
    hide Positives;
    hide Labels;
    hide LabelsOf;
  }

  lemma GapsExactly(errors: seq<FieldError>, cases: seq<Json>, policy: Policy, fpr: Interval, recall: Interval, gap: Gap,
                    printer: Printer)
    ensures gap in Gaps(errors, cases, policy, fpr, recall, printer) <==> Falls(errors, cases, policy, fpr, recall, gap, printer)
  {
    FieldGapsAre(errors, gap);
    FloorsExactly(errors, cases, policy, fpr, recall, gap, printer);
    hide FieldGaps;
    hide FloorGaps;
    hide Positives;
    hide LabelsOf;
  }

  lemma FieldGapsAre(errors: seq<FieldError>, gap: Gap)
    ensures gap in FieldGaps(errors) <==> gap.Field? && gap.error in errors
  {
    var gaps := FieldGaps(errors);
    if gap in gaps {
      var i :| 0 <= i < |gaps| && gaps[i] == gap;
    }
    if gap.Field? && gap.error in errors {
      var i :| 0 <= i < |errors| && errors[i] == gap.error;
      assert gaps[i] == gap;
    }
  }

  /** The whole verdict: the measured intervals, every gap exactly for its own reason, and
      eligible exactly when there is none. */
  lemma GateExactly(report: Report, manifest: map<string, Json>, policy: Policy, fprRoot: real, recallRoot: real, gap: Gap,
                    printer: Printer)
    requires RootFor(report.falsePositiveFrames, report.negativeFrames, policy.confidenceZ, fprRoot)
    requires RootFor(report.truePositive, report.truePositive + report.falseNegative, policy.confidenceZ, recallRoot)
    requires Evaluate(report, manifest, policy, fprRoot, recallRoot, printer).Ok?
    ensures var g := Evaluate(report, manifest, policy, fprRoot, recallRoot, printer).value;
            var trials := report.truePositive + report.falseNegative;
            && (g.eligible <==> g.gaps == []) && g.fieldCandidate == g.eligible
            && (report.negativeFrames == 0 ==> g.falsePositive == Interval(0.0, 1.0))
            && (trials == 0 ==> g.recall == Interval(0.0, 1.0))
            && (report.negativeFrames != 0 ==>
                  WilsonInterval(report.falsePositiveFrames, report.negativeFrames, policy.confidenceZ, fprRoot) == Ok(g.falsePositive))
            && (trials != 0 ==> WilsonInterval(report.truePositive, trials, policy.confidenceZ, recallRoot) == Ok(g.recall))
            && FieldErrors(manifest, printer).Ok?
            && (gap in g.gaps <==>
                  Falls(FieldErrors(manifest, printer).value, CaseList(manifest), policy, g.falsePositive, g.recall, gap, printer))
  {
    var g := Evaluate(report, manifest, policy, fprRoot, recallRoot, printer).value;
    hide WilsonInterval;
    hide FieldErrors;
    hide Gaps;
    hide Falls;
    hide Radicand;
    GapsExactly(FieldErrors(manifest, printer).value, CaseList(manifest), policy, g.falsePositive, g.recall, gap, printer);
  }

  /** The diversity that the default policy asks for, in numbers. */
  lemma DefaultDiversityExactlyWhen(cases: seq<Json>, printer: Printer)
    ensures Diverse(cases, DEFAULT_POLICY, printer) <==>
            && |Positives(cases)| >= 5 && |cases| - |Positives(cases)| >= 20
            && (exists labels :: LabelsOf(cases, "system_profile", labels, printer) && |labels| >= 2)
            && (exists labels :: LabelsOf(cases, "workload_class", labels, printer) && |labels| >= 4)
  {
    hide LabelsOf;
    hide SharedCooling;
    if p, q, w :| DiverseBy(cases, p, q, w, DEFAULT_POLICY, printer) {
      assert p == Positives(cases);
    }
    if |Positives(cases)| >= 5 && |cases| - |Positives(cases)| >= 20
       && (exists labels :: LabelsOf(cases, "system_profile", labels, printer) && |labels| >= 2)
       && (exists labels :: LabelsOf(cases, "workload_class", labels, printer) && |labels| >= 4)
    {
      var q :| LabelsOf(cases, "system_profile", q, printer) && |q| >= 2;
      var w :| LabelsOf(cases, "workload_class", w, printer) && |w| >= 4;
      assert DiverseBy(cases, Positives(cases), q, w, DEFAULT_POLICY, printer);
    }
  }
}
