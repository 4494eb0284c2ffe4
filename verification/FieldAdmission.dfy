/** The workflow and the gate together: what a field workflow freezes is admitted by
    the evidence gate, and its labelled cases are what the gate counts. */
module FieldAdmission {
  import opened Core
  import opened JsonValues
  import opened FieldWorkflow
  import EvidenceGate

  predicate Filled(s: Session) {
    && Strip(s.retention) != ""
    && forall i :: 0 <= i < |s.cases| ==> FilledCase(s.cases[i])
  }

  predicate FilledCase(c: Case) {
    Strip(c.systemProfile) != "" && Strip(c.workloadClass) != ""
  }

  predicate FilledDir(d: Dir) {
    d.session.Some? ==> Filled(d.session.value)
  }

  lemma StepKeepsFilled(h: Host, d: Dir, op: Op)
    requires FilledDir(d)
    ensures FilledDir(Next(h, d, op).0)
  {
    hide Strip;
    hide SafeId;
    hide Loads;
    hide ContentOf;
    hide TotalBytes;
    match op
    case Initialize(_, retention, _) => StripTwice(retention);
    case Ingest(_, _, x) =>
      StripTwice(x.systemProfile);
      StripTwice(x.workloadClass);
    case _ =>
  }

  lemma {:induction false} EveryRunFills(h: Host, foreign: bool, ops: seq<Op>)
    ensures FilledDir(Run(h, Start(foreign), ops))
  {
    if ops != [] {
      hide Next;
      hide FilledDir;
      EveryRunFills(h, foreign, ops[..|ops| - 1]);
      StepKeepsFilled(h, Run(h, Start(foreign), ops[..|ops| - 1]), ops[|ops| - 1]);
    } else {
      assert FilledDir(Start(foreign));
    }
  }

  lemma CaseIsAdmissible(c: Case, shown: Json, printer: Printer)
    requires Shows(shown, c) && c.reviewed && FilledCase(c)
    ensures EvidenceGate.AdmissibleCase(shown, printer)
    ensures EvidenceGate.SharedCooling(shown) <==> c.sharedCooling
    ensures forall v :: EvidenceGate.Carries(shown, "system_profile", v, printer) <==> v == c.systemProfile && v != ""
    ensures forall v :: EvidenceGate.Carries(shown, "workload_class", v, printer) <==> v == c.workloadClass && v != ""
  {
    hide Strip;
  }

  lemma CardIsAdmissible(s: Session, printer: Printer)
    requires Strip(s.retention) != ""
    ensures EvidenceGate.AdmissibleCard(DatasetCard(s).m, printer)
  {
    CardShows(s);
    var card := DatasetCard(s).m;
    hide DatasetCard;
    hide Strip;
    assert [Str("aegis-calibration")][0] == Str("aegis-calibration");
  }

  lemma CasesAreAdmissible(s: Session, printer: Printer)
    requires Filled(s) && AllReviewed(s.cases)
    ensures EvidenceGate.AllAdmissible(Labels(s.cases), printer)
  {
    CasesShow(s);
    hide Shows;
    hide FilledCase;
    hide Strip;
    hide EvidenceGate.AdmissibleCase;
    forall i | 0 <= i < |s.cases|
      ensures EvidenceGate.AdmissibleCase(Labels(s.cases)[i], printer)
    {
      CaseIsAdmissible(s.cases[i], Labels(s.cases)[i], printer);
    }
  }

  lemma ManifestIsAdmissible(h: Host, s: Session, printer: Printer)
    requires Filled(s) && AllReviewed(s.cases) && s.cases != []
    ensures EvidenceGate.Admissible(ManifestOf(h, s), printer)
  {
    ManifestShows(h, s);
    LabelsAre(s.cases);
    CasesAreAdmissible(s, printer);
    CardIsAdmissible(s, printer);
    assert DatasetCard(s).Obj?;
    hide ManifestOf;
    hide Labels;
    hide DatasetCard;
    hide EvidenceGate.AdmissibleCard;
    hide EvidenceGate.AllAdmissible;
    hide Strip;
  }

  lemma ManifestIsCounted(h: Host, s: Session, printer: Printer)
    requires Filled(s) && AllReviewed(s.cases)
    ensures var cases := EvidenceGate.CaseList(ManifestOf(h, s));
            |cases| == |s.cases|
            && forall i :: 0 <= i < |s.cases| ==> (EvidenceGate.SharedCooling(cases[i]) <==> s.cases[i].sharedCooling)
  {
    ManifestShows(h, s);
    hide ManifestOf;
    CasesShow(s);
    hide Labels;
    hide Shows;
    forall i | 0 <= i < |s.cases|
      ensures EvidenceGate.SharedCooling(Labels(s.cases)[i]) <==> s.cases[i].sharedCooling
    {
      CaseIsAdmissible(s.cases[i], Labels(s.cases)[i], printer);
    }
    hide EvidenceGate.SharedCooling;
  }

  /** In every run: whatever a directory has frozen, the evidence gate admits, and it
      counts as positive exactly the cases that were ingested as shared cooling. */
  lemma FrozenManifestIsAdmissible(h: Host, foreign: bool, ops: seq<Op>, printer: Printer)
    requires var d := Run(h, Start(foreign), ops);
             d.session.Some? && !d.session.value.phase.Collecting?
    ensures var s := Run(h, Start(foreign), ops).session.value;
            var m := ManifestOf(h, s);
            && EvidenceGate.Admissible(m, printer) && EvidenceGate.FieldErrors(m, printer) == Ok([])
            && |EvidenceGate.CaseList(m)| == |s.cases|
            && forall i :: 0 <= i < |s.cases| ==>
                 (EvidenceGate.SharedCooling(EvidenceGate.CaseList(m)[i]) <==> s.cases[i].sharedCooling)
  {
    hide *;
    EveryRunFills(h, foreign, ops);
    EveryRunKeepsInv(h, foreign, ops);
    var d := Run(h, Start(foreign), ops);
    FrozenIsReady(h, d);
    ManifestIsAdmissible(h, d.session.value, printer);
    ManifestIsCounted(h, d.session.value, printer);
    EvidenceGate.NoFieldErrors(ManifestOf(h, d.session.value), printer);
  }

  lemma FrozenIsReady(h: Host, d: Dir)
    requires FilledDir(d) && Inv(h, d) && d.session.Some? && !d.session.value.phase.Collecting?
    ensures Filled(d.session.value) && AllReviewed(d.session.value.cases) && d.session.value.cases != []
  {
  }
}
