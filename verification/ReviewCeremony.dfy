/** Review bundles: building, validating, and turning one into a receipt by
    attaching detached signatures. */
module ReviewCeremony {
  import opened Core
  import opened JsonValues
  import opened Acceptance

  const BUNDLE_SCHEMA := "truepanel.aegis-review-bundle/v1"

  const BUNDLE_FIELDS := {
    "schema", "statement", "subjects", "trust_policy", "statement_sha256", "trust_policy_sha256",
    "private_key_material", "signing_authority", "promotion_authority"}

  const SUBJECTS := ["candidate", "appraisal", "predecessor", "promotion_request"]

  const AUTHORITY_FIELDS := ["private_key_material", "signing_authority", "promotion_authority"]

  /** The statement field that carries a subject's digest. */
  function DigestField(subject: string): string {
    if subject == "candidate" then "candidate_envelope_sha256"
    else if subject == "appraisal" then "appraisal_sha256"
    else if subject == "predecessor" then "predecessor_envelope_sha256"
    else "promotion_request_sha256"
  }

  type Bundle = Object

  function Build(t: Tools, receipt: Object, subjects: Object, policy: Object): Bundle {
    var statement := Statement(receipt["signatures" := Arr([])]);
    map["schema" := Str(BUNDLE_SCHEMA),
        "statement" := Obj(statement),
        "subjects" := Obj(subjects),
        "trust_policy" := Obj(policy),
        "statement_sha256" := Str(t.digest(statement)),
        "trust_policy_sha256" := Str(t.digest(policy)),
        "private_key_material" := Bool(false),
        "signing_authority" := Bool(false),
        "promotion_authority" := Bool(false)]
  }

  datatype Failure =
    | BundleFieldsInvalid
    | BundleAuthorityInvalid
    | BundleSchemaInvalid
    | StatementInvalid
    | SubjectsInvalid
    | SubjectFieldsInvalid
    | TrustPolicyInvalid
    | StatementFieldsInvalid
    | BindingInvalid(subject: string)
    | StatementDigestInvalid
    | TrustPolicyDigestInvalid
    | SeparationOfDutyInvalid

  function When(bad: bool, f: Failure): seq<Failure> {
    if bad then [f] else []
  }

  predicate Bound(t: Tools, statement: Object, subjects: Object, name: string) {
    var subject := Get(subjects, name);
    subject.Obj? && Get(statement, DigestField(name)) == Str(t.digest(subject.m))
  }

  function BindingFailures(t: Tools, statement: Object, subjects: Object, names: seq<string>): seq<Failure> {
    if names == [] then []
    else
      var last := |names| - 1;
      BindingFailures(t, statement, subjects, names[..last])
      + When(!Bound(t, statement, subjects, names[last]), BindingInvalid(names[last]))
  }

  /** The non-empty printed values of a field over a policy's key entries. */
  function Named(t: Tools, keys: seq<Object>, field: string): set<string> {
    set k | k in keys && RawText(Get(k, field), t.printer) != "" :: RawText(Get(k, field), t.printer)
  }

  predicate DutySeparated(t: Tools, policy: Object) {
    var threshold := Get(policy, "threshold");
    var keys := if Get(policy, "keys").Arr? then ObjectsOf(Get(policy, "keys").a) else [];
    && threshold.Int? && threshold.i >= 2
    && |Named(t, keys, "key_id")| >= threshold.i && |Named(t, keys, "reviewer_id")| >= threshold.i
  }

  predicate PolicyNamed(policy: Json) {
    policy.Obj? && Get(policy.m, "schema") == Str(POLICY_SCHEMA)
  }

  function FrameFailures(b: Bundle): seq<Failure> {
    When(b.Keys != BUNDLE_FIELDS, BundleFieldsInvalid)
    + When(exists f :: f in AUTHORITY_FIELDS && Get(b, f) != Bool(false), BundleAuthorityInvalid)
    + When(Get(b, "schema") != Str(BUNDLE_SCHEMA), BundleSchemaInvalid)
  }

  function ShapeFailures(statement: Json, subjects: Json, policy: Json): seq<Failure> {
    When(!(statement.Obj? && Get(statement.m, "schema") == Str(SCHEMA)), StatementInvalid)
    + When(!subjects.Obj?, SubjectsInvalid)
    + When(subjects.Obj? && subjects.m.Keys != (set s | s in SUBJECTS), SubjectFieldsInvalid)
    + When(!PolicyNamed(policy), TrustPolicyInvalid)
  }

  function StatementFailures(t: Tools, statement: Object, subjects: Object, digest: Json): seq<Failure> {
    When(statement.Keys != STATEMENT_FIELDS, StatementFieldsInvalid)
    + BindingFailures(t, statement, subjects, SUBJECTS)
    + When(digest != Str(t.digest(statement)), StatementDigestInvalid)
  }

  function PolicyFailures(t: Tools, policy: Object, digest: Json): seq<Failure> {
    When(digest != Str(t.digest(policy)), TrustPolicyDigestInvalid)
    + When(!DutySeparated(t, policy), SeparationOfDutyInvalid)
  }

  function Failures(t: Tools, b: Bundle): seq<Failure> {
    var statement, subjects, policy := Get(b, "statement"), Get(b, "subjects"), Get(b, "trust_policy");
    FrameFailures(b)
    + ShapeFailures(statement, subjects, policy)
    + (if statement.Obj? then StatementFailures(t, statement.m, ObjectOrEmpty(subjects), Get(b, "statement_sha256")) else [])
    + PolicyFailures(t, if PolicyNamed(policy) then policy.m else map[], Get(b, "trust_policy_sha256"))
  }

  method ValidateFrame(b: Bundle) returns (failures: seq<Failure>)
    ensures failures == FrameFailures(b)
  {
    failures := [];
    if b.Keys != BUNDLE_FIELDS { failures := failures + [BundleFieldsInvalid]; }
    if exists f :: f in AUTHORITY_FIELDS && Get(b, f) != Bool(false) { failures := failures + [BundleAuthorityInvalid]; }
    if Get(b, "schema") != Str(BUNDLE_SCHEMA) { failures := failures + [BundleSchemaInvalid]; }
  }

  method ValidateShape(statement: Json, subjectsField: Json, policyField: Json)
    returns (failures: seq<Failure>, subjects: Object, policy: Object)
    ensures failures == ShapeFailures(statement, subjectsField, policyField)
    ensures subjects == ObjectOrEmpty(subjectsField)
    ensures policy == if PolicyNamed(policyField) then policyField.m else map[]
  {
    failures, subjects, policy := [], map[], map[];
    if !statement.Obj? || Get(statement.m, "schema") != Str(SCHEMA) { failures := failures + [StatementInvalid]; }
    if !subjectsField.Obj? {
      failures := failures + [SubjectsInvalid];
    } else {
      subjects := subjectsField.m;
      if subjects.Keys != set s | s in SUBJECTS { failures := failures + [SubjectFieldsInvalid]; }
    }
    if !PolicyNamed(policyField) {
      failures := failures + [TrustPolicyInvalid];
    } else {
      policy := policyField.m;
    }
  }

  method ValidateBindings(t: Tools, statement: Object, subjects: Object, names: seq<string>) returns (failures: seq<Failure>)
    ensures failures == BindingFailures(t, statement, subjects, names)
  {
    hide Bound;
    failures := [];
    for i := 0 to |names|
      invariant failures == BindingFailures(t, statement, subjects, names[..i])
    {
      assert names[..i + 1][..i] == names[..i];
      if !Bound(t, statement, subjects, names[i]) { failures := failures + [BindingInvalid(names[i])]; }
    }
    assert names[..|names|] == names;
  }

  method ValidateStatement(t: Tools, statement: Object, subjects: Object, digest: Json) returns (failures: seq<Failure>)
    ensures failures == StatementFailures(t, statement, subjects, digest)
  {
    hide BindingFailures;
    failures := [];
    if statement.Keys != STATEMENT_FIELDS { failures := failures + [StatementFieldsInvalid]; }
    var bindings := ValidateBindings(t, statement, subjects, SUBJECTS);
    failures := failures + bindings;
    if digest != Str(t.digest(statement)) { failures := failures + [StatementDigestInvalid]; }
  }

  method Validate(t: Tools, b: Bundle) returns (failures: seq<Failure>)
    ensures failures == Failures(t, b)
  {
    hide DutySeparated;
    hide FrameFailures;
    hide ShapeFailures;
    hide StatementFailures;
    failures := ValidateFrame(b);
    var statement := Get(b, "statement");
    var more, subjects, policy := ValidateShape(statement, Get(b, "subjects"), Get(b, "trust_policy"));
    failures := failures + more;
    if statement.Obj? {
      more := ValidateStatement(t, statement.m, subjects, Get(b, "statement_sha256"));
      failures := failures + more;
    }
    if Get(b, "trust_policy_sha256") != Str(t.digest(policy)) { failures := failures + [TrustPolicyDigestInvalid]; }
    if !DutySeparated(t, policy) { failures := failures + [SeparationOfDutyInvalid]; }
  }

  /** Attaching signatures; a bundle that does not validate is refused with its first failure. */
  function Assemble(t: Tools, b: Bundle, signatures: seq<Object>): Result<Object, Failure> {
    if Failures(t, b) != [] then Err(Failures(t, b)[0])
    else if !Get(b, "statement").Obj? then Err(StatementInvalid)
    else Ok(Get(b, "statement").m["signatures" := Arr(seq(|signatures|, i requires 0 <= i < |signatures| => Obj(signatures[i])))])
  }

  // ---- What a valid bundle is ----

  lemma {:induction false} AllBoundExactlyWhen(t: Tools, statement: Object, subjects: Object, names: seq<string>)
    ensures BindingFailures(t, statement, subjects, names) == []
      <==> forall n :: n in names ==> Bound(t, statement, subjects, n)
  {
    hide Bound;
    if names != [] {
      AllBoundExactlyWhen(t, statement, subjects, names[..|names| - 1]);
      assert names == names[..|names| - 1] + [names[|names| - 1]];
    }
  }

  /** A bundle validates exactly when it has its fields and no authority, states an
      acceptance statement with its fields and digest, names exactly the four subjects
      with their digests, and carries a trust policy that separates duties. */
  lemma ValidExactlyWhen(t: Tools, b: Bundle)
    ensures Failures(t, b) == [] <==>
            && b.Keys == BUNDLE_FIELDS && (forall f :: f in AUTHORITY_FIELDS ==> Get(b, f) == Bool(false))
            && Get(b, "schema") == Str(BUNDLE_SCHEMA)
            && Get(b, "statement").Obj? && Get(b, "subjects").Obj? && PolicyNamed(Get(b, "trust_policy"))
            && var statement, subjects, policy := Get(b, "statement").m, Get(b, "subjects").m, Get(b, "trust_policy").m;
               && Get(statement, "schema") == Str(SCHEMA) && statement.Keys == STATEMENT_FIELDS
               && subjects.Keys == (set s | s in SUBJECTS)
               && (forall n :: n in SUBJECTS ==> Bound(t, statement, subjects, n))
               && Get(b, "statement_sha256") == Str(t.digest(statement))
               && Get(b, "trust_policy_sha256") == Str(t.digest(policy))
               && DutySeparated(t, policy)
  {
    hide Bound;
    hide DutySeparated;
    hide BindingFailures;
    var statement, subjects := Get(b, "statement"), Get(b, "subjects");
    if statement.Obj? {
      AllBoundExactlyWhen(t, statement.m, ObjectOrEmpty(subjects), SUBJECTS);
    }
  }

  /** Whatever the bundle, its assembled receipt states exactly what the bundle states:
      attaching signatures cannot change the statement they cover. */
  lemma AssembledReceiptStatesTheBundle(t: Tools, b: Bundle, signatures: seq<Object>)
    requires Assemble(t, b, signatures).Ok?
    ensures Failures(t, b) == []
    ensures Get(b, "statement") == Obj(Statement(Assemble(t, b, signatures).value))
  {
    hide Failures;
    ValidExactlyWhen(t, b);
    var statement := Get(b, "statement").m;
    var receipt := Assemble(t, b, signatures).value;
    StatementIgnoresSignatures(statement, receipt["signatures"]);
    assert receipt == statement["signatures" := receipt["signatures"]];
    assert Statement(statement) == statement;
  }

  function Subjects(candidate: Object, appraisal: Object, predecessor: Object, request: Object): Object {
    map["candidate" := Obj(candidate), "appraisal" := Obj(appraisal), "predecessor" := Obj(predecessor),
        "promotion_request" := Obj(request)]
  }

  lemma BuiltValidWhen(t: Tools, receipt: Object, subjects: Object, policy: Object)
    ensures Failures(t, Build(t, receipt, subjects, policy)) == [] <==>
              && Get(receipt, "schema") == Str(SCHEMA) && Get(policy, "schema") == Str(POLICY_SCHEMA)
              && subjects.Keys == (set s | s in SUBJECTS)
              && (forall n :: n in SUBJECTS ==> Bound(t, Statement(receipt), subjects, n))
              && DutySeparated(t, policy)
  {
    ValidExactlyWhen(t, Build(t, receipt, subjects, policy));
    BuiltFields(t, receipt, subjects, policy);
    StatementKeys(receipt);
    NamedExactlyWhen(policy);
    hide Failures;
    hide DutySeparated;
    hide Build;
    hide Bound;
    hide Statement;
    hide PolicyNamed;
  }

  /** A built bundle validates exactly when the receipt is an acceptance receipt bound
      to the four subjects and the policy names its schema and separates duties. */
  lemma BuiltBundleValidExactlyWhen(
      t: Tools, receipt: Object, candidate: Object, appraisal: Object, predecessor: Object, request: Object, policy: Object)
    ensures Failures(t, Build(t, receipt, Subjects(candidate, appraisal, predecessor, request), policy)) == [] <==>
              && Get(receipt, "schema") == Str(SCHEMA) && Get(policy, "schema") == Str(POLICY_SCHEMA)
              && Get(receipt, "candidate_envelope_sha256") == Str(t.digest(candidate))
              && Get(receipt, "appraisal_sha256") == Str(t.digest(appraisal))
              && Get(receipt, "predecessor_envelope_sha256") == Str(t.digest(predecessor))
              && Get(receipt, "promotion_request_sha256") == Str(t.digest(request))
              && DutySeparated(t, policy)
  {
    hide Failures;
    hide Build;
    hide DutySeparated;
    hide Bound;
    hide Statement;
    hide DigestField;
    var subjects := Subjects(candidate, appraisal, predecessor, request);
    SubjectNames(subjects);
    BuiltValidWhen(t, receipt, subjects, policy);
    BoundSubjects(t, Statement(receipt), subjects);
    BoundExactlyWhen(t, Statement(receipt), subjects, "candidate", candidate);
    BoundExactlyWhen(t, Statement(receipt), subjects, "appraisal", appraisal);
    BoundExactlyWhen(t, Statement(receipt), subjects, "predecessor", predecessor);
    BoundExactlyWhen(t, Statement(receipt), subjects, "promotion_request", request);
    StatementKeys(receipt);
    DigestFields();
  }

  lemma DigestFields()
    ensures DigestField("candidate") == "candidate_envelope_sha256" && DigestField("appraisal") == "appraisal_sha256"
    ensures DigestField("predecessor") == "predecessor_envelope_sha256"
    ensures DigestField("promotion_request") == "promotion_request_sha256"
  {
  }

  lemma BoundExactlyWhen(t: Tools, statement: Object, subjects: Object, name: string, subject: Object)
    requires Get(subjects, name) == Obj(subject)
    ensures Bound(t, statement, subjects, name) <==> Get(statement, DigestField(name)) == Str(t.digest(subject))
  {
  }

  lemma NamedExactlyWhen(policy: Object)
    ensures PolicyNamed(Obj(policy)) <==> Get(policy, "schema") == Str(POLICY_SCHEMA)
  {
  }

  lemma SubjectNames(subjects: Object)
    requires subjects.Keys == {"candidate", "appraisal", "predecessor", "promotion_request"}
    ensures subjects.Keys == set s | s in SUBJECTS
  {
    assert SUBJECTS[0] == "candidate" && SUBJECTS[1] == "appraisal";
    assert SUBJECTS[2] == "predecessor" && SUBJECTS[3] == "promotion_request";
  }

  lemma BuiltFields(t: Tools, receipt: Object, subjects: Object, policy: Object)
    ensures var b := Build(t, receipt, subjects, policy);
            && b.Keys == BUNDLE_FIELDS && (forall f :: f in AUTHORITY_FIELDS ==> Get(b, f) == Bool(false))
            && Get(b, "schema") == Str(BUNDLE_SCHEMA)
            && Get(b, "statement") == Obj(Statement(receipt)) && Statement(receipt).Keys == STATEMENT_FIELDS
            && Get(b, "subjects") == Obj(subjects) && Get(b, "trust_policy") == Obj(policy)
            && Get(b, "statement_sha256") == Str(t.digest(Statement(receipt)))
            && Get(b, "trust_policy_sha256") == Str(t.digest(policy))
  {
    hide Statement;
    StatementIgnoresSignatures(receipt, Arr([]));
    StatementKeys(receipt);
  }

  lemma StatementKeys(receipt: Object)
    ensures Statement(receipt).Keys == STATEMENT_FIELDS
    ensures forall f :: f in STATEMENT_FIELDS ==> Get(Statement(receipt), f) == Get(receipt, f)
  {
  }

  lemma BoundSubjects(t: Tools, statement: Object, subjects: Object)
    ensures (forall n :: n in SUBJECTS ==> Bound(t, statement, subjects, n)) <==>
            && Bound(t, statement, subjects, "candidate") && Bound(t, statement, subjects, "appraisal")
            && Bound(t, statement, subjects, "predecessor") && Bound(t, statement, subjects, "promotion_request")
  {
    hide Bound;
    assert SUBJECTS[0] == "candidate" && SUBJECTS[1] == "appraisal";
    assert SUBJECTS[2] == "predecessor" && SUBJECTS[3] == "promotion_request";
    assert forall n :: n in SUBJECTS ==> n == SUBJECTS[0] || n == SUBJECTS[1] || n == SUBJECTS[2] || n == SUBJECTS[3];
  }

  // ---- From bundle to verdict ----

  /** The case that a bundle presents. */
  function CaseOf(b: Bundle): Case {
    var subjects := ObjectOrEmpty(Get(b, "subjects"));
    Case(ObjectOrEmpty(Get(subjects, "candidate")), ObjectOrEmpty(Get(subjects, "appraisal")),
         ObjectOrEmpty(Get(subjects, "predecessor")), ObjectOrEmpty(Get(b, "trust_policy")))
  }

  /** A receipt assembled from a valid bundle and judged against what the bundle
      presents has every binding, schema and policy check already settled: it is
      eligible exactly when the decision, the appraisal and the time are right and the
      signatures make the quorum. */
  lemma AssembledReceiptEligibleExactlyWhen(t: Tools, b: Bundle, signatures: seq<Object>, now: real)
    requires Assemble(t, b, signatures).Ok?
    ensures var receipt := Assemble(t, b, signatures).value;
            Eligible(Evaluate(t, receipt, CaseOf(b), now)) <==>
              && Get(receipt, "decision") == Str(ACCEPTED)
              && Get(CaseOf(b).appraisal, "status") == Str(READY)
              && Fresh(t, receipt, now)
              && PairsOf(t, receipt, CaseOf(b).policy).Ok?
              && Quorum(CaseOf(b).policy, PairsOf(t, receipt, CaseOf(b).policy).value)
  {
    hide Failures;
    hide Evaluate;
    hide Quorum;
    hide PairsOf;
    hide Fresh;
    hide DutySeparated;
    ValidExactlyWhen(t, b);
    AssembledReceiptStatesTheBundle(t, b, signatures);
    var receipt := Assemble(t, b, signatures).value;
    StatementKeys(receipt);
    hide Statement;
    BoundSubjects(t, Get(b, "statement").m, Get(b, "subjects").m);
    EligibleExactlyWhen(t, receipt, CaseOf(b), now);
  }

  // ---- The same in the fields of the bundle ----

  /** The subject is an object, and the statement carries its digest. */
  predicate Binds(t: Tools, statement: Object, subjects: Object, subject: string, field: string) {
    subject in subjects && subjects[subject].Obj? && Has(statement, field, Str(t.digest(subjects[subject].m)))
  }

  /** The set of different names that the listed keys give in a field. */
  predicate NamesOf(t: Tools, keys: seq<Json>, field: string, names: set<string>) {
    && (forall v :: v in names ==>
          v != "" && exists i :: 0 <= i < |keys| && keys[i].Obj? && RawText(Get(keys[i].m, field), t.printer) == v)
    && (forall i :: 0 <= i < |keys| && keys[i].Obj? && RawText(Get(keys[i].m, field), t.printer) != "" ==>
          RawText(Get(keys[i].m, field), t.printer) in names)
  }

  /** At least two, and enough, different keys and different reviewers are listed. */
  ghost predicate SeparatesDuties(t: Tools, policy: Object) {
    && "threshold" in policy && policy["threshold"].Int? && policy["threshold"].i >= 2
    && "keys" in policy && policy["keys"].Arr?
    && exists ids, reviewers ::
         && NamesOf(t, policy["keys"].a, "key_id", ids) && NamesOf(t, policy["keys"].a, "reviewer_id", reviewers)
         && |ids| >= policy["threshold"].i && |reviewers| >= policy["threshold"].i
  }

  lemma NamedIs(t: Tools, keys: seq<Json>, field: string)
    ensures NamesOf(t, keys, field, Named(t, ObjectsOf(keys), field))
  {
    hide RawText;
    ObjectsHold(keys);
    hide ObjectsOf;
    forall v | v in Named(t, ObjectsOf(keys), field)
      ensures exists i :: 0 <= i < |keys| && keys[i].Obj? && RawText(Get(keys[i].m, field), t.printer) == v
    {
      var k :| k in ObjectsOf(keys) && RawText(Get(k, field), t.printer) == v;
      var i :| 0 <= i < |keys| && keys[i] == Obj(k);
    }
    forall i | 0 <= i < |keys| && keys[i].Obj? && RawText(Get(keys[i].m, field), t.printer) != ""
      ensures RawText(Get(keys[i].m, field), t.printer) in Named(t, ObjectsOf(keys), field)
    {
      assert keys[i].m in ObjectsOf(keys);
    }
  }

  lemma NamesAreOne(t: Tools, keys: seq<Json>, field: string, a: set<string>, b: set<string>)
    requires NamesOf(t, keys, field, a) && NamesOf(t, keys, field, b)
    ensures a == b
  {
    hide RawText;
  }

  lemma SeparatesExactlyWhen(t: Tools, policy: Object)
    ensures DutySeparated(t, policy) <==> SeparatesDuties(t, policy)
  {
    hide NamesOf;
    hide Named;
    hide ObjectsOf;
    if "keys" in policy && policy["keys"].Arr? {
      var keys := policy["keys"].a;
      NamedIs(t, keys, "key_id");
      NamedIs(t, keys, "reviewer_id");
      forall names
        ensures NamesOf(t, keys, "key_id", names) ==> names == Named(t, ObjectsOf(keys), "key_id")
        ensures NamesOf(t, keys, "reviewer_id", names) ==> names == Named(t, ObjectsOf(keys), "reviewer_id")
      {
        if NamesOf(t, keys, "key_id", names) {
          NamesAreOne(t, keys, "key_id", names, Named(t, ObjectsOf(keys), "key_id"));
        }
        if NamesOf(t, keys, "reviewer_id", names) {
          NamesAreOne(t, keys, "reviewer_id", names, Named(t, ObjectsOf(keys), "reviewer_id"));
        }
      }
    } else {
      NobodyNamed(t, "key_id");
    }
  }

  lemma NobodyNamed(t: Tools, field: string)
    ensures Named(t, [], field) == {}
  {
  }

  lemma BindsExactlyWhen(t: Tools, statement: Object, subjects: Object)
    ensures (forall n :: n in SUBJECTS ==> Bound(t, statement, subjects, n)) <==>
            && Binds(t, statement, subjects, "candidate", "candidate_envelope_sha256")
            && Binds(t, statement, subjects, "appraisal", "appraisal_sha256")
            && Binds(t, statement, subjects, "predecessor", "predecessor_envelope_sha256")
            && Binds(t, statement, subjects, "promotion_request", "promotion_request_sha256")
  {
    BoundSubjects(t, statement, subjects);
    DigestFields();
    BindsOne(t, statement, subjects, "candidate");
    BindsOne(t, statement, subjects, "appraisal");
    BindsOne(t, statement, subjects, "predecessor");
    BindsOne(t, statement, subjects, "promotion_request");
    hide Bound;
    hide Binds;
    hide DigestField;
  }

  lemma BindsOne(t: Tools, statement: Object, subjects: Object, subject: string)
    ensures Bound(t, statement, subjects, subject) <==> Binds(t, statement, subjects, subject, DigestField(subject))
  {
    hide DigestField;
  }

  /** The frame of a bundle: its nine fields, none of the three authorities, its schema. */
  predicate Framed(b: Bundle) {
    && b.Keys == {"schema", "statement", "subjects", "trust_policy", "statement_sha256", "trust_policy_sha256",
                  "private_key_material", "signing_authority", "promotion_authority"}
    && b["private_key_material"] == Bool(false) && b["signing_authority"] == Bool(false)
    && b["promotion_authority"] == Bool(false)
    && b["schema"] == Str("truepanel.aegis-review-bundle/v1")
  }

  /** The statement, the subjects and the policy that a bundle presents agree. */
  ghost predicate Presents(t: Tools, b: Bundle, statement: Object, subjects: Object, policy: Object) {
    && Has(b, "statement", Obj(statement)) && Has(b, "subjects", Obj(subjects)) && Has(b, "trust_policy", Obj(policy))
    && Has(statement, "schema", Str("truepanel.aegis-acceptance-receipt/v1"))
    && statement.Keys == {
         "schema", "receipt_id", "decision", "candidate_envelope_sha256", "appraisal_sha256",
         "predecessor_envelope_sha256", "issued_at", "expires_at", "environment", "promotion_request_sha256"}
    && subjects.Keys == {"candidate", "appraisal", "predecessor", "promotion_request"}
    && Binds(t, statement, subjects, "candidate", "candidate_envelope_sha256")
    && Binds(t, statement, subjects, "appraisal", "appraisal_sha256")
    && Binds(t, statement, subjects, "predecessor", "predecessor_envelope_sha256")
    && Binds(t, statement, subjects, "promotion_request", "promotion_request_sha256")
    && Has(b, "statement_sha256", Str(t.digest(statement)))
    && Has(b, "trust_policy_sha256", Str(t.digest(policy)))
    && Has(policy, "schema", Str("truepanel.aegis-reviewer-trust-policy/v1"))
    && SeparatesDuties(t, policy)
  }

  lemma FramedExactlyWhen(b: Bundle)
    ensures Framed(b) <==>
            b.Keys == BUNDLE_FIELDS && (forall f :: f in AUTHORITY_FIELDS ==> Get(b, f) == Bool(false))
            && Get(b, "schema") == Str(BUNDLE_SCHEMA)
  {
    assert AUTHORITY_FIELDS[0] == "private_key_material" && "private_key_material" in AUTHORITY_FIELDS;
    assert AUTHORITY_FIELDS[1] == "signing_authority" && "signing_authority" in AUTHORITY_FIELDS;
    assert AUTHORITY_FIELDS[2] == "promotion_authority" && "promotion_authority" in AUTHORITY_FIELDS;
    assert forall f :: f in AUTHORITY_FIELDS ==> f == AUTHORITY_FIELDS[0] || f == AUTHORITY_FIELDS[1] || f == AUTHORITY_FIELDS[2];
  }

  lemma FourSubjects()
    ensures (set s | s in SUBJECTS) == {"candidate", "appraisal", "predecessor", "promotion_request"}
  {
    var four: Object := map["candidate" := Null, "appraisal" := Null, "predecessor" := Null, "promotion_request" := Null];
    SubjectNames(four);
  }

  /** What validation asks of the statement, the subjects and the policy. */
  predicate Asked(t: Tools, b: Bundle, statement: Object, subjects: Object, policy: Object) {
    && Get(statement, "schema") == Str(SCHEMA) && statement.Keys == STATEMENT_FIELDS
    && subjects.Keys == (set s | s in SUBJECTS)
    && (forall n :: n in SUBJECTS ==> Bound(t, statement, subjects, n))
    && Get(b, "statement_sha256") == Str(t.digest(statement))
    && Get(b, "trust_policy_sha256") == Str(t.digest(policy))
    && Get(policy, "schema") == Str(POLICY_SCHEMA) && DutySeparated(t, policy)
  }

  lemma PresentsExactlyWhen(t: Tools, b: Bundle, statement: Object, subjects: Object, policy: Object)
    requires Get(b, "statement") == Obj(statement) && Get(b, "subjects") == Obj(subjects)
    requires Get(b, "trust_policy") == Obj(policy)
    ensures Presents(t, b, statement, subjects, policy) <==> Asked(t, b, statement, subjects, policy)
  {
    FourSubjects();
    BindsExactlyWhen(t, statement, subjects);
    SeparatesExactlyWhen(t, policy);
    HasExactlyWhen(statement, "schema", Str(SCHEMA));
    HasExactlyWhen(policy, "schema", Str(POLICY_SCHEMA));
    HasExactlyWhen(b, "statement_sha256", Str(t.digest(statement)));
    HasExactlyWhen(b, "trust_policy_sha256", Str(t.digest(policy)));
    HasExactlyWhen(b, "statement", Obj(statement));
    HasExactlyWhen(b, "subjects", Obj(subjects));
    HasExactlyWhen(b, "trust_policy", Obj(policy));
    hide Has;
    hide Get;
    hide Bound;
    hide Binds;
    hide DutySeparated;
    hide SeparatesDuties;
  }

  /** A bundle validates exactly when it is framed and what it presents agrees. */
  lemma BundleExactlyWhen(t: Tools, b: Bundle)
    ensures Failures(t, b) == [] <==>
            Framed(b) && exists statement, subjects, policy :: Presents(t, b, statement, subjects, policy)
  {
    ValidExactlyWhen(t, b);
    FramedExactlyWhen(b);
    hide Failures;
    hide Framed;
    hide Bound;
    hide DutySeparated;
    if Get(b, "statement").Obj? && Get(b, "subjects").Obj? && Get(b, "trust_policy").Obj? {
      var statement, subjects, policy := Get(b, "statement").m, Get(b, "subjects").m, Get(b, "trust_policy").m;
      PresentsExactlyWhen(t, b, statement, subjects, policy);
    }
    forall statement, subjects, policy | Presents(t, b, statement, subjects, policy)
      ensures Get(b, "statement") == Obj(statement) && Get(b, "subjects") == Obj(subjects)
      ensures Get(b, "trust_policy") == Obj(policy)
    {
      PresentedIs(t, b, statement, subjects, policy);
    }
    hide Presents;
  }

  lemma PresentedIs(t: Tools, b: Bundle, statement: Object, subjects: Object, policy: Object)
    requires Presents(t, b, statement, subjects, policy)
    ensures Get(b, "statement") == Obj(statement) && Get(b, "subjects") == Obj(subjects)
    ensures Get(b, "trust_policy") == Obj(policy)
  {
    hide Binds;
    hide SeparatesDuties;
  }

  /** A bundle is assembled exactly when it validates: into its statement with the given
      signatures, in their order; otherwise its first failure is the reason. */
  lemma AssemblesExactlyWhen(t: Tools, b: Bundle, signatures: seq<Object>)
    ensures Assemble(t, b, signatures).Ok? <==> Failures(t, b) == []
    ensures Assemble(t, b, signatures).Err? ==> Assemble(t, b, signatures).error == Failures(t, b)[0]
    ensures Assemble(t, b, signatures).Ok? ==>
              var receipt := Assemble(t, b, signatures).value;
              && "statement" in b && b["statement"].Obj?
              && "signatures" in receipt && receipt["signatures"].Arr? && |receipt["signatures"].a| == |signatures|
              && receipt == b["statement"].m["signatures" := receipt["signatures"]]
              && forall i :: 0 <= i < |signatures| ==> receipt["signatures"].a[i] == Obj(signatures[i])
  {
    ValidExactlyWhen(t, b);
    hide Failures;
  }

  /** A receipt is judged against the very objects that its bundle binds. */
  lemma CaseIs(t: Tools, b: Bundle, statement: Object, subjects: Object, policy: Object)
    requires Presents(t, b, statement, subjects, policy)
    ensures Obj(CaseOf(b).candidate) == subjects["candidate"] && Obj(CaseOf(b).appraisal) == subjects["appraisal"]
    ensures Obj(CaseOf(b).predecessor) == subjects["predecessor"] && CaseOf(b).policy == policy
  {
    hide SeparatesDuties;
  }
}
