/** The field-evidence workflow: one directory taken from collecting through freezing
    to assessment by operations that may be refused, while its manifest and its
    recordings may be changed behind its back. */
module FieldWorkflow {
  import opened Core
  import opened JsonValues

  const MAX_CORPUS_CASES := 64
  const MAX_CORPUS_BYTES := 16 * 1024 * 1024
  const CONSENT := "I CONSENT TO SANITIZED AEGIS CALIBRATION"
  const REVIEWED := "I REVIEWED THIS INCIDENT OUTCOME"
  const FREEZE := "FREEZE THIS FIELD CORPUS"

  type Manifest = map<string, Json>
  type Recordings = map<string, bytes>

  datatype Receipt = Receipt(corpusId: Json, corpusSha: string, reportSha: string, eligible: bool)

  /** The operations of the host and of the corpus loader that are left open: digests,
      the frame count of a recording that is sanitised at rest, what else the loader
      demands, and what replaying a corpus concludes. */
  datatype Host = Host(
    digest: Digest,
    rawDigest: bytes -> string,
    seal: Receipt -> string,
    frames: bytes -> Option<nat>,
    admits: (Manifest, Recordings) -> bool,
    replay: (Manifest, Recordings) -> Option<(string, bool)>)

  datatype Phase = Collecting | Frozen | Assessed

  datatype Case = Case(
    caseId: string, sha256: string, byteCount: nat, frameCount: nat, sharedCooling: bool,
    challenge: string, systemProfile: string, workloadClass: string, reviewed: bool, threshold: Option<int>)

  datatype Session = Session(
    corpusId: string, retention: string, phase: Phase, cases: seq<Case>,
    manifestSha: Option<string>, assessmentSha: Option<string>)

  /** The directory. `foreign` says that something else was in it from the start. */
  datatype Dir = Dir(
    foreign: bool, session: Option<Session>, manifest: Option<Manifest>, recordings: Recordings, assessment: Option<Receipt>)

  datatype Refusal =
    | NotConfirmed
    | UnsafeId
    | RetentionMissing
    | NotEmpty
    | NoWorkflow
    | WrongState
    | DuplicateCase
    | TooManyCases
    | FieldMissing
    | TooManyBytes
    | NotSanitized
    | RecordingExists
    | UnknownCase
    | EmptyCorpus
    | UnreviewedCases
    | NotLoadable
    | ManifestChanged
    | ReplayFailed

  datatype Outcome = Done | Refused(why: Refusal)

  // ---- Pieces ----

  predicate SafeChar(c: char) {
    'a' <= c <= 'z' || '0' <= c <= '9'
  }

  predicate SafeId(s: string) {
    && 1 <= |s| <= 80 && SafeChar(s[0])
    && forall i :: 0 <= i < |s| ==> SafeChar(s[i]) || s[i] == '.' || s[i] == '_' || s[i] == '-'
  }

  function IdsOf(cases: seq<Case>): set<string> {
    set c | c in cases :: c.caseId
  }

  function TotalBytes(cases: seq<Case>): nat {
    if cases == [] then 0 else TotalBytes(cases[..|cases| - 1]) + cases[|cases| - 1].byteCount
  }

  predicate AllReviewed(cases: seq<Case>) {
    forall i :: 0 <= i < |cases| ==> cases[i].reviewed
  }

  function IndexOf(cases: seq<Case>, caseId: string): (i: nat)
    ensures i <= |cases|
    ensures i < |cases| ==> cases[i].caseId == caseId
    ensures i == |cases| ==> caseId !in IdsOf(cases)
  {
    if cases == [] then 0
    else if cases[0].caseId == caseId then 0
    else
      assert cases == [cases[0]] + cases[1..];
      1 + IndexOf(cases[1..], caseId)
  }

  /** A case as the manifest carries it: without its byte count. */
  function Label(c: Case): Json {
    var basic := map[
      "case_id" := Str(c.caseId), "recording" := Str("recordings/" + c.caseId + ".jsonl"), "sha256" := Str(c.sha256),
      "frame_count" := Int(c.frameCount), "expected_shared_cooling" := Bool(c.sharedCooling),
      "challenge" := Str(c.challenge), "system_profile" := Str(c.systemProfile),
      "workload_class" := Str(c.workloadClass), "incident_reviewed" := Bool(c.reviewed)];
    Obj(if c.threshold.Some? then basic["first_isolated_threshold_index" := Int(c.threshold.value)] else basic)
  }

  function Labels(cases: seq<Case>): seq<Json> {
    if cases == [] then [] else Labels(cases[..|cases| - 1]) + [Label(cases[|cases| - 1])]
  }

  function DatasetCard(s: Session): Json {
    Obj(map["collection_authority" := Str("operator-opt-in"), "review_state" := Str("approved"),
            "raw_identifiers_retained" := Bool(false), "label_method" := Str("human-reviewed-incident-outcome"),
            "allowed_uses" := Arr([Str("aegis-calibration")]), "retention_policy" := Str(s.retention)])
  }

  /** The manifest of a session, without its digest. */
  function ContentOf(s: Session): Manifest {
    map["schema_version" := Int(1), "corpus_id" := Str(s.corpusId), "source" := Str("operator-opt-in-field"),
        "privacy" := Str("sanitized"), "dataset_card" := DatasetCard(s), "cases" := Arr(Labels(s.cases)),
        "limitations" := Arr([Str("field admission is not production validation"),
                              Str("automated assessment cannot authorize control or deployment")])]
  }

  function ManifestOf(h: Host, s: Session): Manifest {
    ContentOf(s)["corpus_sha256" := Str(h.digest(ContentOf(s)))]
  }

  function Content(m: Manifest): Manifest {
    m - {"corpus_sha256"}
  }

  /** `load_corpus` succeeds: the declared digest is that of the rest, and the loader's
      other demands are met. */
  predicate Loads(h: Host, manifest: Option<Manifest>, recordings: Recordings) {
    && manifest.Some?
    && Get(manifest.value, "corpus_sha256") == Str(h.digest(Content(manifest.value)))
    && h.admits(manifest.value, recordings)
  }

  // ---- Operations ----

  datatype Details = Details(
    sharedCooling: bool, challenge: string, systemProfile: string, workloadClass: string, threshold: Option<int>)

  datatype Op =
    | Initialize(corpusId: string, retention: string, confirmation: string)
    | Ingest(caseId: string, raw: bytes, details: Details)
    | Review(caseId: string, confirmation: string)
    | Freeze(confirmation: string)
    | Assess
    | ReplaceManifest(manifest: Option<Manifest>)
    | ReplaceRecordings(recordings: Recordings)

  predicate IsEmpty(d: Dir) {
    !d.foreign && d.session.None? && d.manifest.None? && d.recordings == map[] && d.assessment.None?
  }

  function InitializeStep(d: Dir, corpusId: string, retention: string, confirmation: string): (Dir, Outcome) {
    if confirmation != CONSENT then (d, Refused(NotConfirmed))
    else if !SafeId(corpusId) then (d, Refused(UnsafeId))
    else if Strip(retention) == "" then (d, Refused(RetentionMissing))
    else if !IsEmpty(d) then (d, Refused(NotEmpty))
    else (d.(session := Some(Session(corpusId, Strip(retention), Collecting, [], None, None))), Done)
  }

  function CaseOf(h: Host, caseId: string, raw: bytes, frames: nat, x: Details): Case {
    Case(caseId, h.rawDigest(raw), |raw|, frames, x.sharedCooling, Strip(x.challenge), Strip(x.systemProfile),
         Strip(x.workloadClass), false, x.threshold)
  }

  function IngestRefusal(h: Host, d: Dir, caseId: string, raw: bytes, x: Details): Option<Refusal> {
    if d.session.None? then Some(NoWorkflow)
    else
      var s := d.session.value;
      if !s.phase.Collecting? then Some(WrongState)
      else if !SafeId(caseId) then Some(UnsafeId)
      else if caseId in IdsOf(s.cases) then Some(DuplicateCase)
      else if |s.cases| >= MAX_CORPUS_CASES then Some(TooManyCases)
      else if Strip(x.challenge) == "" || Strip(x.systemProfile) == "" || Strip(x.workloadClass) == "" then Some(FieldMissing)
      else if TotalBytes(s.cases) + |raw| > MAX_CORPUS_BYTES then Some(TooManyBytes)
      else if h.frames(raw).None? then Some(NotSanitized)
      else if caseId in d.recordings then Some(RecordingExists)
      else None
  }

  function IngestStep(h: Host, d: Dir, caseId: string, raw: bytes, x: Details): (Dir, Outcome) {
    var refusal := IngestRefusal(h, d, caseId, raw, x);
    if refusal.Some? then (d, Refused(refusal.value))
    else
      var s := d.session.value;
      var added := CaseOf(h, caseId, raw, h.frames(raw).value, x);
      (d.(recordings := d.recordings[caseId := raw], session := Some(s.(cases := s.cases + [added]))), Done)
  }

  function ReviewStep(d: Dir, caseId: string, confirmation: string): (Dir, Outcome) {
    if confirmation != REVIEWED then (d, Refused(NotConfirmed))
    else if d.session.None? then (d, Refused(NoWorkflow))
    else if !d.session.value.phase.Collecting? then (d, Refused(WrongState))
    else
      var s := d.session.value;
      var i := IndexOf(s.cases, caseId);
      if i == |s.cases| then (d, Refused(UnknownCase))
      else (d.(session := Some(s.(cases := s.cases[i := s.cases[i].(reviewed := true)]))), Done)
  }

  /** A refused load leaves the manifest it has just written, and the session collecting. */
  function FreezeStep(h: Host, d: Dir, confirmation: string): (Dir, Outcome) {
    if confirmation != FREEZE then (d, Refused(NotConfirmed))
    else if d.session.None? then (d, Refused(NoWorkflow))
    else if !d.session.value.phase.Collecting? then (d, Refused(WrongState))
    else
      var s := d.session.value;
      if s.cases == [] then (d, Refused(EmptyCorpus))
      else if !AllReviewed(s.cases) then (d, Refused(UnreviewedCases))
      else
        var written := d.(manifest := Some(ManifestOf(h, s)));
        if !Loads(h, written.manifest, d.recordings) then (written, Refused(NotLoadable))
        else (written.(session := Some(s.(phase := Frozen, manifestSha := Some(h.digest(ContentOf(s)))))), Done)
  }

  function AssessStep(h: Host, d: Dir): (Dir, Outcome) {
    if d.session.None? then (d, Refused(NoWorkflow))
    else if d.session.value.phase.Collecting? then (d, Refused(WrongState))
    else if !Loads(h, d.manifest, d.recordings) then (d, Refused(NotLoadable))
    else
      var s, m := d.session.value, d.manifest.value;
      var declared := h.digest(Content(m));
      if Some(declared) != s.manifestSha then (d, Refused(ManifestChanged))
      else
        var report := h.replay(m, d.recordings);
        if report.None? then (d, Refused(ReplayFailed))
        else
          var receipt := Receipt(Get(m, "corpus_id"), declared, report.value.0, report.value.1);
          (d.(assessment := Some(receipt), session := Some(s.(phase := Assessed, assessmentSha := Some(h.seal(receipt))))), Done)
  }

  function Next(h: Host, d: Dir, op: Op): (Dir, Outcome) {
    match op
    case Initialize(corpusId, retention, confirmation) => InitializeStep(d, corpusId, retention, confirmation)
    case Ingest(caseId, raw, x) => IngestStep(h, d, caseId, raw, x)
    case Review(caseId, confirmation) => ReviewStep(d, caseId, confirmation)
    case Freeze(confirmation) => FreezeStep(h, d, confirmation)
    case Assess => AssessStep(h, d)
    case ReplaceManifest(m) => (d.(manifest := m), Done)
    case ReplaceRecordings(r) => (d.(recordings := r), Done)
  }

  function Run(h: Host, d: Dir, ops: seq<Op>): Dir {
    if ops == [] then d else Next(h, Run(h, d, ops[..|ops| - 1]), ops[|ops| - 1]).0
  }

  /** The directory before the workflow. */
  function Start(foreign: bool): Dir {
    Dir(foreign, None, None, map[], None)
  }

  // ---- The directory as an object ----

  class Workspace {
    const host: Host
    const foreign: bool
    var session: Option<Session>
    var manifest: Option<Manifest>
    var recordings: Recordings
    var assessment: Option<Receipt>

    constructor (host: Host, foreign: bool)
      ensures this.host == host && Snapshot() == Start(foreign)
    {
      this.host, this.foreign := host, foreign;
      session, manifest, recordings, assessment := None, None, map[], None;
    }

    function Snapshot(): Dir
      reads this
    {
      Dir(foreign, session, manifest, recordings, assessment)
    }

    method InitializeWorkflow(corpusId: string, retention: string, confirmation: string) returns (r: Outcome)
      modifies this
      ensures (Snapshot(), r) == InitializeStep(old(Snapshot()), corpusId, retention, confirmation)
    {
      if confirmation != CONSENT { return Refused(NotConfirmed); }
      if !SafeId(corpusId) { return Refused(UnsafeId); }
      if Strip(retention) == "" { return Refused(RetentionMissing); }
      if foreign || session.Some? || manifest.Some? || recordings != map[] || assessment.Some? { return Refused(NotEmpty); }
      session := Some(Session(corpusId, Strip(retention), Collecting, [], None, None));
      return Done;
    }

    method IngestRecording(caseId: string, raw: bytes, x: Details) returns (r: Outcome)
      modifies this
      ensures (Snapshot(), r) == IngestStep(host, old(Snapshot()), caseId, raw, x)
    {
      if session.None? { return Refused(NoWorkflow); }
      var s := session.value;
      if !s.phase.Collecting? { return Refused(WrongState); }
      if !SafeId(caseId) { return Refused(UnsafeId); }
      if exists c :: c in s.cases && c.caseId == caseId { return Refused(DuplicateCase); }
      if |s.cases| >= MAX_CORPUS_CASES { return Refused(TooManyCases); }
      if Strip(x.challenge) == "" || Strip(x.systemProfile) == "" || Strip(x.workloadClass) == "" { return Refused(FieldMissing); }
      var existing := SumBytes(s.cases);
      if existing + |raw| > MAX_CORPUS_BYTES { return Refused(TooManyBytes); }
      var frames := host.frames(raw);
      if frames.None? { return Refused(NotSanitized); }
      if caseId in recordings { return Refused(RecordingExists); }
      recordings := recordings[caseId := raw];
      session := Some(s.(cases := s.cases + [CaseOf(host, caseId, raw, frames.value, x)]));
      return Done;
    }

    method SumBytes(cases: seq<Case>) returns (sum: nat)
      ensures sum == TotalBytes(cases)
    {
      sum := 0;
      for i := 0 to |cases|
        invariant sum == TotalBytes(cases[..i])
      {
        assert cases[..i + 1][..i] == cases[..i];
        sum := sum + cases[i].byteCount;
      }
      assert cases[..|cases|] == cases;
    }

    method ReviewCase(caseId: string, confirmation: string) returns (r: Outcome)
      modifies this
      ensures (Snapshot(), r) == ReviewStep(old(Snapshot()), caseId, confirmation)
    {
      if confirmation != REVIEWED { return Refused(NotConfirmed); }
      if session.None? { return Refused(NoWorkflow); }
      var s := session.value;
      if !s.phase.Collecting? { return Refused(WrongState); }
      var i := IndexOf(s.cases, caseId);
      if i == |s.cases| { return Refused(UnknownCase); }
      session := Some(s.(cases := s.cases[i := s.cases[i].(reviewed := true)]));
      return Done;
    }

    method FreezeWorkflow(confirmation: string) returns (r: Outcome)
      modifies this
      ensures (Snapshot(), r) == FreezeStep(host, old(Snapshot()), confirmation)
    {
      hide ContentOf;
      hide Loads;
      if confirmation != FREEZE { return Refused(NotConfirmed); }
      if session.None? { return Refused(NoWorkflow); }
      var s := session.value;
      if !s.phase.Collecting? { return Refused(WrongState); }
      if s.cases == [] { return Refused(EmptyCorpus); }
      if exists c :: c in s.cases && !c.reviewed { return Refused(UnreviewedCases); }
      var content := ContentOf(s);
      var sha := host.digest(content);
      manifest := Some(content["corpus_sha256" := Str(sha)]);
      if !Loads(host, manifest, recordings) { return Refused(NotLoadable); }
      session := Some(s.(phase := Frozen, manifestSha := Some(sha)));
      return Done;
    }

    method AssessWorkflow() returns (r: Outcome)
      modifies this
      ensures (Snapshot(), r) == AssessStep(host, old(Snapshot()))
    {
      if session.None? { return Refused(NoWorkflow); }
      var s := session.value;
      if s.phase.Collecting? { return Refused(WrongState); }
      if !Loads(host, manifest, recordings) { return Refused(NotLoadable); }
      var m := manifest.value;
      var declared := host.digest(Content(m));
      if Some(declared) != s.manifestSha { return Refused(ManifestChanged); }
      var report := host.replay(m, recordings);
      if report.None? { return Refused(ReplayFailed); }
      var receipt := Receipt(Get(m, "corpus_id"), declared, report.value.0, report.value.1);
      assessment := Some(receipt);
      session := Some(s.(phase := Assessed, assessmentSha := Some(host.seal(receipt))));
      return Done;
    }
  }

  // ---- The invariant over every run ----

  predicate UniqueIds(cases: seq<Case>) {
    forall i, j :: 0 <= i < j < |cases| ==> cases[i].caseId != cases[j].caseId
  }

  predicate WithinLimits(cases: seq<Case>) {
    UniqueIds(cases) && |cases| <= MAX_CORPUS_CASES && TotalBytes(cases) <= MAX_CORPUS_BYTES
  }

  predicate SessionInv(h: Host, s: Session, assessment: Option<Receipt>) {
    && WithinLimits(s.cases)
    && (s.phase.Collecting? ==> s.manifestSha.None? && s.assessmentSha.None?)
    && (!s.phase.Collecting? ==> s.cases != [] && AllReviewed(s.cases) && s.manifestSha == Some(h.digest(ContentOf(s))))
    && (s.phase.Assessed? <==> assessment.Some?)
    && (s.phase.Assessed? ==> Some(assessment.value.corpusSha) == s.manifestSha && s.assessmentSha == Some(h.seal(assessment.value)))
  }

  predicate Inv(h: Host, d: Dir) {
    if d.session.None? then d.assessment.None? else SessionInv(h, d.session.value, d.assessment)
  }

  lemma {:induction false} SameBytes(cases: seq<Case>, others: seq<Case>)
    requires |cases| == |others| && forall i :: 0 <= i < |cases| ==> cases[i].byteCount == others[i].byteCount
    ensures TotalBytes(cases) == TotalBytes(others)
  {
    if cases != [] {
      SameBytes(cases[..|cases| - 1], others[..|cases| - 1]);
    }
  }

  lemma ReviewKeepsLimits(cases: seq<Case>, i: nat)
    requires WithinLimits(cases) && i < |cases|
    ensures WithinLimits(cases[i := cases[i].(reviewed := true)])
  {
    SameBytes(cases, cases[i := cases[i].(reviewed := true)]);
  }

  lemma IngestKeepsLimits(cases: seq<Case>, added: Case)
    requires WithinLimits(cases) && added.caseId !in IdsOf(cases)
    requires |cases| < MAX_CORPUS_CASES && TotalBytes(cases) + added.byteCount <= MAX_CORPUS_BYTES
    ensures WithinLimits(cases + [added])
  {
    var more := cases + [added];
    assert more[..|cases|] == cases;
    assert forall i :: 0 <= i < |cases| ==> more[i] == cases[i] && cases[i] in cases && cases[i].caseId in IdsOf(cases);
  }

  lemma StepKeepsInv(h: Host, d: Dir, op: Op)
    requires Inv(h, d)
    ensures Inv(h, Next(h, d, op).0)
  {
    hide WithinLimits;
    hide SafeId;
    hide Strip;
    hide ContentOf;
    hide ManifestOf;
    hide Loads;
    hide AllReviewed;
    hide Label;
    if d.session.Some? {
      var s := d.session.value;
      match op
      case Ingest(caseId, raw, x) =>
        if IngestRefusal(h, d, caseId, raw, x).None? {
          IngestKeepsLimits(s.cases, CaseOf(h, caseId, raw, h.frames(raw).value, x));
        }
      case Review(caseId, _) =>
        var i := IndexOf(s.cases, caseId);
        if i < |s.cases| { ReviewKeepsLimits(s.cases, i); }
      case Freeze(_) => FrozenContent(s, h);
      case Assess => AssessedContent(s, h);
      case _ =>
    } else if op.Initialize? {
      NoCases();
    }
  }

  lemma NoCases()
    ensures WithinLimits([])
  {
  }

  /** The digest covers neither the phase nor the recorded digests. */
  lemma FrozenContent(s: Session, h: Host)
    ensures forall sha :: ContentOf(s.(phase := Frozen, manifestSha := Some(sha))) == ContentOf(s)
  {
  }

  lemma AssessedContent(s: Session, h: Host)
    ensures forall sha :: ContentOf(s.(phase := Assessed, assessmentSha := Some(sha))) == ContentOf(s)
  {
  }

  /** In every state that operations, successful or refused, and outside changes can
      reach: unique case names, the corpus limits, and the phase's promises. */
  lemma {:induction false} EveryRunKeepsInv(h: Host, foreign: bool, ops: seq<Op>)
    ensures Inv(h, Run(h, Start(foreign), ops))
  {
    if ops != [] {
      hide Next;
      hide Inv;
      EveryRunKeepsInv(h, foreign, ops[..|ops| - 1]);
      StepKeepsInv(h, Run(h, Start(foreign), ops[..|ops| - 1]), ops[|ops| - 1]);
    }
  }

  // ---- How the phases move ----

  function Rank(d: Dir): nat {
    if d.session.None? then 0
    else match d.session.value.phase case Collecting => 1 case Frozen => 2 case Assessed => 3
  }

  predicate KeepsCase(before: Case, after: Case) {
    after == before || after == before.(reviewed := true)
  }

  /** Cases are only added and reviewed; once frozen they stay as they are. */
  predicate Evolves(d: Dir, e: Dir) {
    && Rank(d) <= Rank(e)
    && (d.session.Some? ==>
          var s, u := d.session.value, e.session.value;
          && u.corpusId == s.corpusId && u.retention == s.retention
          && |s.cases| <= |u.cases| && (forall i :: 0 <= i < |s.cases| ==> KeepsCase(s.cases[i], u.cases[i]))
          && (!s.phase.Collecting? ==> u.cases == s.cases && u.manifestSha == s.manifestSha))
  }

  lemma StepEvolves(h: Host, d: Dir, op: Op)
    requires Inv(h, d)
    ensures Evolves(d, Next(h, d, op).0) && Rank(Next(h, d, op).0) <= Rank(d) + 1
  {
    hide SessionInv;
    hide SafeId;
    hide Strip;
    hide ContentOf;
    hide ManifestOf;
    hide Loads;
    hide AllReviewed;
    hide TotalBytes;
    hide IdsOf;
    hide CaseOf;
    if op.Assess? { AssessEvolves(h, d); }
  }

  lemma AssessEvolves(h: Host, d: Dir)
    ensures Evolves(d, AssessStep(h, d).0) && Rank(AssessStep(h, d).0) <= Rank(d) + 1
  {
    hide Loads;
  }

  lemma EvolvesTransitive(a: Dir, b: Dir, c: Dir)
    requires Evolves(a, b) && Evolves(b, c)
    ensures Evolves(a, c)
  {
    if a.session.Some? {
      forall i | 0 <= i < |a.session.value.cases|
        ensures KeepsCase(a.session.value.cases[i], c.session.value.cases[i])
      {
        assert KeepsCase(a.session.value.cases[i], b.session.value.cases[i]);
        assert KeepsCase(b.session.value.cases[i], c.session.value.cases[i]);
      }
    }
  }

  lemma RunSnoc(h: Host, d: Dir, ops: seq<Op>, op: Op)
    ensures Run(h, d, ops + [op]) == Next(h, Run(h, d, ops), op).0
  {
    hide Next;
    assert (ops + [op])[..|ops|] == ops;
  }

  /** From any reachable state on, the phase only moves collecting, frozen, assessed;
      no case is lost or altered but by its review, and nothing moves once frozen. */
  lemma {:induction false} EveryRunEvolves(h: Host, foreign: bool, ops: seq<Op>, more: seq<Op>)
    ensures Evolves(Run(h, Start(foreign), ops), Run(h, Start(foreign), ops + more))
  {
    var d := Run(h, Start(foreign), ops);
    if more == [] {
      assert ops + more == ops;
    } else {
      hide Next;
      hide Inv;
      hide Evolves;
      hide Run;
      var last := |more| - 1;
      var sofar := ops + more[..last];
      assert ops + more == sofar + [more[last]];
      EveryRunEvolves(h, foreign, ops, more[..last]);
      EveryRunKeepsInv(h, foreign, sofar);
      StepEvolves(h, Run(h, Start(foreign), sofar), more[last]);
      RunSnoc(h, Start(foreign), sofar, more[last]);
      EvolvesTransitive(d, Run(h, Start(foreign), sofar), Run(h, Start(foreign), ops + more));
    }
  }

  // ---- What each refusal and each success means ----

  /** A refused operation changes nothing, but for a freeze whose manifest did not load:
      the manifest stays written and the workflow goes on collecting. */
  lemma RefusalChangesNothing(h: Host, d: Dir, op: Op)
    requires Next(h, d, op).1.Refused?
    ensures var e := Next(h, d, op).0;
            || e == d
            || (op.Freeze? && Next(h, d, op).1 == Refused(NotLoadable) && d.session.Some?
                && d.session.value.phase.Collecting? && e == d.(manifest := Some(ManifestOf(h, d.session.value))))
  {
    hide Loads;
    hide ManifestOf;
    hide SafeId;
    hide Strip;
    hide Content;
    hide ContentOf;
  }

  /** A directory freezes exactly when the operator confirms, every case of a
      collecting, non-empty session is reviewed, and the manifest just written loads. */
  lemma FreezesExactlyWhen(h: Host, d: Dir, confirmation: string)
    ensures FreezeStep(h, d, confirmation).1.Done? <==>
              && confirmation == "FREEZE THIS FIELD CORPUS" && d.session.Some? && d.session.value.phase.Collecting?
              && d.session.value.cases != [] && AllReviewed(d.session.value.cases)
              && h.admits(ManifestOf(h, d.session.value), d.recordings)
  {
    hide AllReviewed;
    if d.session.Some? {
      var s := d.session.value;
      WrittenContent(h, s);
      hide ContentOf;
    }
  }

  lemma WrittenContent(h: Host, s: Session)
    ensures Content(ManifestOf(h, s)) == ContentOf(s)
    ensures Get(ManifestOf(h, s), "corpus_sha256") == Str(h.digest(ContentOf(s)))
  {
    hide Labels;
    hide DatasetCard;
    assert "corpus_sha256" !in ContentOf(s);
    assert Content(ManifestOf(h, s)) == ContentOf(s);
  }

  /** An assessment that succeeds in any reachable state has read exactly the manifest
      that was frozen, cases and all, whatever was done to the directory in between,
      unless the two contents are a collision of the digest. */
  lemma AssessmentReadsTheFrozenManifest(h: Host, foreign: bool, ops: seq<Op>)
    requires AssessStep(h, Run(h, Start(foreign), ops)).1.Done?
    requires var d := Run(h, Start(foreign), ops);
             Distinguishes(h.digest, Content(d.manifest.value), ContentOf(d.session.value))
    ensures var d := Run(h, Start(foreign), ops);
            var e := AssessStep(h, d).0;
            && d.session.Some? && d.manifest.Some? && e.assessment.Some?
            && Content(d.manifest.value) == ContentOf(d.session.value)
            && d.manifest.value == ManifestOf(h, d.session.value)
            && e.assessment.value.corpusSha == h.digest(ContentOf(d.session.value))
            && e.assessment.value.corpusId == Str(d.session.value.corpusId)
  {
    hide Labels;
    hide Run;
    EveryRunKeepsInv(h, foreign, ops);
    var d := Run(h, Start(foreign), ops);
    hide WithinLimits;
    hide AllReviewed;
    var m, s := d.manifest.value, d.session.value;
    assert h.digest(Content(m)) == h.digest(ContentOf(s));
    assert "corpus_sha256" in m;
    assert Content(m)["corpus_sha256" := m["corpus_sha256"]] == m;
    assert Get(m, "corpus_id") == Get(Content(m), "corpus_id");
  }

  /** So in every reachable assessed state the assessment on file is for the digest of
      the frozen content, and sealed in the session. */
  lemma AssessmentRefersToFrozen(h: Host, foreign: bool, ops: seq<Op>)
    requires Run(h, Start(foreign), ops).session.Some? && Run(h, Start(foreign), ops).session.value.phase.Assessed?
    ensures var d := Run(h, Start(foreign), ops);
            && d.assessment.Some?
            && d.assessment.value.corpusSha == h.digest(ContentOf(d.session.value))
            && d.session.value.assessmentSha == Some(h.seal(d.assessment.value))
            && AllReviewed(d.session.value.cases) && d.session.value.cases != []
  {
    hide ContentOf;
    hide WithinLimits;
    hide AllReviewed;
    hide Run;
    EveryRunKeepsInv(h, foreign, ops);
  }

  // ---- What each operation demands and does ----

  /** Lower-case letters, digits, and inside also dots, underscores and hyphens. */
  predicate SafeName(s: string) {
    && 1 <= |s| <= 80
    && s[0] in "abcdefghijklmnopqrstuvwxyz0123456789"
    && forall i :: 0 <= i < |s| ==> s[i] in "abcdefghijklmnopqrstuvwxyz0123456789._-"
  }

  lemma SafeCharacters(c: char)
    ensures SafeChar(c) <==> c in "abcdefghijklmnopqrstuvwxyz0123456789"
    ensures SafeChar(c) || c == '.' || c == '_' || c == '-' <==> c in "abcdefghijklmnopqrstuvwxyz0123456789._-"
  {
  }

  lemma SafeExactlyWhen(s: string)
    ensures SafeId(s) <==> SafeName(s)
  {
    forall c: char
      ensures SafeChar(c) <==> c in "abcdefghijklmnopqrstuvwxyz0123456789"
      ensures SafeChar(c) || c == '.' || c == '_' || c == '-' <==> c in "abcdefghijklmnopqrstuvwxyz0123456789._-"
    {
      SafeCharacters(c);
    }
    hide SafeChar;
  }

  lemma InitializesExactlyWhen(d: Dir, corpusId: string, retention: string, confirmation: string)
    ensures var (e, r) := InitializeStep(d, corpusId, retention, confirmation);
            && (r.Done? <==>
                  && confirmation == "I CONSENT TO SANITIZED AEGIS CALIBRATION"
                  && SafeName(corpusId) && Strip(retention) != ""
                  && d == Dir(false, None, None, map[], None))
            && (r.Done? ==> e == d.(session := Some(Session(corpusId, Strip(retention), Collecting, [], None, None))))
  {
    SafeExactlyWhen(corpusId);
    hide SafeId;
    hide SafeName;
    hide Strip;
  }

  /** The total over cases put one after the other is the sum of their totals. */
  lemma {:induction false} BytesAdd(cases: seq<Case>, more: seq<Case>)
    ensures TotalBytes([]) == 0 && forall c :: TotalBytes([c]) == c.byteCount
    ensures TotalBytes(cases + more) == TotalBytes(cases) + TotalBytes(more)
  {
    forall c: Case
      ensures TotalBytes([c]) == c.byteCount
    {
      assert [c][..0] == [];
    }
    if more == [] {
      assert cases + more == cases;
    } else {
      BytesAdd(cases, more[..|more| - 1]);
      assert (cases + more)[..|cases + more| - 1] == cases + more[..|more| - 1];
    }
  }

  lemma IngestsExactlyWhen(h: Host, d: Dir, caseId: string, raw: bytes, x: Details)
    ensures var (e, r) := IngestStep(h, d, caseId, raw, x);
            && (r.Done? <==>
                  && d.session.Some? && d.session.value.phase.Collecting? && SafeName(caseId)
                  && (forall i :: 0 <= i < |d.session.value.cases| ==> d.session.value.cases[i].caseId != caseId)
                  && |d.session.value.cases| < 64
                  && Strip(x.challenge) != "" && Strip(x.systemProfile) != "" && Strip(x.workloadClass) != ""
                  && TotalBytes(d.session.value.cases) + |raw| <= 16777216
                  && h.frames(raw).Some? && caseId !in d.recordings)
            && (r.Done? ==>
                  var s := d.session.value;
                  var added := Case(caseId, h.rawDigest(raw), |raw|, h.frames(raw).value, x.sharedCooling, Strip(x.challenge),
                                    Strip(x.systemProfile), Strip(x.workloadClass), false, x.threshold);
                  e == d.(recordings := d.recordings[caseId := raw], session := Some(s.(cases := s.cases + [added]))))
  {
    SafeExactlyWhen(caseId);
    hide SafeId;
    hide SafeName;
    hide Strip;
    hide TotalBytes;
    if d.session.Some? {
      var cases := d.session.value.cases;
      assert caseId in IdsOf(cases) <==> exists i :: 0 <= i < |cases| && cases[i].caseId == caseId by {
        if i :| 0 <= i < |cases| && cases[i].caseId == caseId { assert cases[i] in cases; }
      }
    }
  }

  /** A review marks exactly the case it names, and needs nothing but the phrase. */
  lemma ReviewsExactlyWhen(d: Dir, caseId: string, confirmation: string, k: nat)
    requires d.session.Some? && k < |d.session.value.cases|
    requires d.session.value.cases[k].caseId == caseId && UniqueIds(d.session.value.cases)
    ensures var (e, r), s := ReviewStep(d, caseId, confirmation), d.session.value;
            && (r.Done? <==> confirmation == "I REVIEWED THIS INCIDENT OUTCOME" && s.phase.Collecting?)
            && (r.Done? ==>
                  && e.session.Some? && e == d.(session := e.session)
                  && e.session.value == s.(cases := e.session.value.cases)
                  && |e.session.value.cases| == |s.cases|
                  && forall i :: 0 <= i < |s.cases| ==>
                       e.session.value.cases[i] == if i == k then s.cases[i].(reviewed := true) else s.cases[i])
  {
    var i := IndexOf(d.session.value.cases, caseId);
    assert d.session.value.cases[k] in d.session.value.cases;
    assert i == k;
  }

  lemma NoSuchCase(d: Dir, caseId: string, confirmation: string)
    requires d.session.None? || forall i :: 0 <= i < |d.session.value.cases| ==> d.session.value.cases[i].caseId != caseId
    ensures ReviewStep(d, caseId, confirmation).1.Refused?
  {
  }

  /** An assessment needs a frozen session, a manifest whose declared digest is that of
      its content and that of the freeze, a loader that admits it, and a replay. */
  lemma AssessesExactlyWhen(h: Host, d: Dir)
    ensures var (e, r) := AssessStep(h, d);
            && (r.Done? <==>
                  && d.session.Some? && (d.session.value.phase.Frozen? || d.session.value.phase.Assessed?)
                  && d.manifest.Some? && h.admits(d.manifest.value, d.recordings)
                  && Has(d.manifest.value, "corpus_sha256", Str(h.digest(d.manifest.value - {"corpus_sha256"})))
                  && d.session.value.manifestSha == Some(h.digest(d.manifest.value - {"corpus_sha256"}))
                  && h.replay(d.manifest.value, d.recordings).Some?)
            && (r.Done? ==>
                  var m, report := d.manifest.value, h.replay(d.manifest.value, d.recordings).value;
                  var receipt := Receipt(Get(m, "corpus_id"), h.digest(m - {"corpus_sha256"}), report.0, report.1);
                  && e.assessment == Some(receipt) && e.manifest == d.manifest && e.recordings == d.recordings
                  && e.session == Some(d.session.value.(phase := Assessed, assessmentSha := Some(h.seal(receipt)))))
  {
  }

  // ---- What a frozen manifest says ----

  lemma {:induction false} LabelsAre(cases: seq<Case>)
    ensures |Labels(cases)| == |cases| && forall i :: 0 <= i < |cases| ==> Labels(cases)[i] == Label(cases[i])
  {
    hide Label;
    if cases != [] {
      LabelsAre(cases[..|cases| - 1]);
    }
  }

  /** A case as the manifest shows it: every field but the byte count. */
  predicate Shows(shown: Json, c: Case) {
    && shown.Obj?
    && Has(shown.m, "case_id", Str(c.caseId)) && Has(shown.m, "recording", Str("recordings/" + c.caseId + ".jsonl"))
    && Has(shown.m, "sha256", Str(c.sha256)) && Has(shown.m, "frame_count", Int(c.frameCount))
    && Has(shown.m, "expected_shared_cooling", Bool(c.sharedCooling)) && Has(shown.m, "challenge", Str(c.challenge))
    && Has(shown.m, "system_profile", Str(c.systemProfile)) && Has(shown.m, "workload_class", Str(c.workloadClass))
    && Has(shown.m, "incident_reviewed", Bool(c.reviewed)) && "byte_count" !in shown.m
    && (if c.threshold.Some? then Has(shown.m, "first_isolated_threshold_index", Int(c.threshold.value))
        else "first_isolated_threshold_index" !in shown.m)
  }

  lemma LabelNames(c: Case)
    ensures Label(c).Obj?
    ensures var m := Label(c).m;
            && Has(m, "case_id", Str(c.caseId)) && Has(m, "recording", Str("recordings/" + c.caseId + ".jsonl"))
            && Has(m, "sha256", Str(c.sha256)) && Has(m, "frame_count", Int(c.frameCount)) && "byte_count" !in m
            && (if c.threshold.Some? then Has(m, "first_isolated_threshold_index", Int(c.threshold.value))
                else "first_isolated_threshold_index" !in m)
  {
  }

  lemma LabelLabels(c: Case)
    ensures Label(c).Obj?
    ensures var m := Label(c).m;
            && Has(m, "expected_shared_cooling", Bool(c.sharedCooling)) && Has(m, "challenge", Str(c.challenge))
            && Has(m, "system_profile", Str(c.systemProfile)) && Has(m, "workload_class", Str(c.workloadClass))
            && Has(m, "incident_reviewed", Bool(c.reviewed))
  {
  }

  lemma LabelShows(c: Case)
    ensures Shows(Label(c), c)
  {
    LabelNames(c);
    LabelLabels(c);
    hide Label;
    hide Has;
  }

  /** The manifest of a session: its own name and cases, under the fixed provenance, with
      the digest of everything else. */
  lemma ManifestShows(h: Host, s: Session)
    ensures var m := ManifestOf(h, s);
            && Has(m, "schema_version", Int(1)) && Has(m, "corpus_id", Str(s.corpusId))
            && Has(m, "source", Str("operator-opt-in-field")) && Has(m, "privacy", Str("sanitized"))
            && Has(m, "dataset_card", DatasetCard(s)) && Has(m, "cases", Arr(Labels(s.cases)))
            && Has(m, "limitations", Arr([Str("field admission is not production validation"),
                                          Str("automated assessment cannot authorize control or deployment")]))
            && Has(m, "corpus_sha256", Str(h.digest(m - {"corpus_sha256"})))
  {
    WrittenContent(h, s);
    hide Labels;
    hide DatasetCard;
  }

  lemma CasesShow(s: Session)
    ensures |Labels(s.cases)| == |s.cases| && forall i :: 0 <= i < |s.cases| ==> Shows(Labels(s.cases)[i], s.cases[i])
  {
    LabelsAre(s.cases);
    forall i | 0 <= i < |s.cases|
      ensures Shows(Label(s.cases[i]), s.cases[i])
    {
      LabelShows(s.cases[i]);
    }
    hide Label;
    hide Labels;
    hide Shows;
  }

  lemma CardShows(s: Session)
    ensures DatasetCard(s).Obj?
    ensures var card := DatasetCard(s).m;
            && Has(card, "collection_authority", Str("operator-opt-in")) && Has(card, "review_state", Str("approved"))
            && Has(card, "raw_identifiers_retained", Bool(false))
            && Has(card, "label_method", Str("human-reviewed-incident-outcome"))
            && Has(card, "allowed_uses", Arr([Str("aegis-calibration")]))
            && Has(card, "retention_policy", Str(s.retention))
  {
  }
}
