/** Acceptance receipts: the statement every signature covers, and the evaluation of
    bindings, freshness and an independent signature quorum. */
module Acceptance {
  import opened Core
  import opened JsonValues

  type Object = map<string, Json>

  /** The host operations left open: printing, reading zoned timestamps, the semantic
      digest, and the signature verifier, false where it raises. */
  datatype Tools = Tools(
    printer: Printer,
    clock: string -> Option<real>,
    digest: Digest,
    verifier: (string, Object, string) -> bool)

  const SCHEMA := "truepanel.aegis-acceptance-receipt/v1"
  const POLICY_SCHEMA := "truepanel.aegis-reviewer-trust-policy/v1"
  const ACCEPTED := "ACCEPTED_FOR_OPERATOR_PROMOTION"
  const READY := "READY_FOR_OPERATOR_REVIEW"

  const STATEMENT_FIELDS := {
    "schema", "receipt_id", "decision", "candidate_envelope_sha256", "appraisal_sha256",
    "predecessor_envelope_sha256", "issued_at", "expires_at", "environment", "promotion_request_sha256"}

  /** The statement covered by every signature. */
  function Statement(receipt: Object): Object {
    map field | field in STATEMENT_FIELDS :: Get(receipt, field)
  }

  /** `str(value)`. */
  function StrOf(t: Tools, v: Json): string {
    if v.Str? then v.s else t.printer(v)
  }

  function Timestamp(t: Tools, v: Json): Option<real> {
    t.clock(StrOf(t, v))
  }

  datatype Error = NotIterable | NotComparable

  /** The objects met when iterating `value or []`; text and objects iterate over text. */
  function ObjectsIn(v: Json): Result<seq<Object>, Error> {
    if !Truthy(v) then Ok([])
    else
      match v
      case Arr(a) => Ok(ObjectsOf(a))
      case Str(_) => Ok([])
      case Obj(_) => Ok([])
      case _ => Err(NotIterable)
  }

  function ObjectsOf(items: seq<Json>): seq<Object> {
    if items == [] then []
    else
      var last := |items| - 1;
      ObjectsOf(items[..last]) + if items[last].Obj? then [items[last].m] else []
  }

  /** Keys by their printed identifier; a later key replaces an earlier one. */
  function KeyMap(t: Tools, keys: seq<Object>): map<string, Object> {
    if keys == [] then map[]
    else
      var last := keys[|keys| - 1];
      var before := KeyMap(t, keys[..|keys| - 1]);
      if Truthy(Get(last, "key_id")) then before[StrOf(t, Get(last, "key_id")) := last] else before
  }

  /** The key that a signature claims, when it is the claimed reviewer's. */
  predicate Claims(t: Tools, keys: map<string, Object>, signature: Object) {
    var keyId, reviewer := RawText(Get(signature, "key_id"), t.printer), RawText(Get(signature, "reviewer_id"), t.printer);
    keyId in keys && reviewer != "" && Get(keys[keyId], "reviewer_id") == Str(reviewer)
  }

  predicate Dated(t: Tools, key: Object) {
    Timestamp(t, Get(key, "valid_from")).Some? && Timestamp(t, Get(key, "valid_until")).Some?
  }

  /** The key is valid at the time and not revoked by then; a revocation time that
      cannot be read does not count. */
  predicate Live(t: Tools, key: Object, issued: real) {
    var from, until := Timestamp(t, Get(key, "valid_from")), Timestamp(t, Get(key, "valid_until"));
    var revoked := if Truthy(Get(key, "revoked_at")) then Timestamp(t, Get(key, "revoked_at")) else None;
    && from.Some? && until.Some? && from.value <= issued < until.value
    && (revoked.None? || issued < revoked.value)
  }

  datatype Pair = Pair(reviewer: string, keyId: string)

  function PairOf(t: Tools, signature: Object): Pair {
    Pair(RawText(Get(signature, "reviewer_id"), t.printer), RawText(Get(signature, "key_id"), t.printer))
  }

  /** The signature counts. */
  predicate Verified(t: Tools, keys: map<string, Object>, statement: Object, issued: real, signature: Object) {
    && Claims(t, keys, signature)
    && Live(t, keys[PairOf(t, signature).keyId], issued)
    && t.verifier(PairOf(t, signature).keyId, statement, RawText(Get(signature, "signature"), t.printer))
  }

  /** Comparing a key's dates with an unreadable time of issue fails. */
  predicate Blocks(t: Tools, keys: map<string, Object>, signature: Object) {
    Claims(t, keys, signature) && Dated(t, keys[PairOf(t, signature).keyId])
  }

  function VerifiedPairs(t: Tools, keys: map<string, Object>, statement: Object, issued: Option<real>, signatures: seq<Object>)
    : Result<set<Pair>, Error>
  {
    if signatures == [] then Ok({})
    else
      var last := signatures[|signatures| - 1];
      var before := VerifiedPairs(t, keys, statement, issued, signatures[..|signatures| - 1]);
      if before.Err? then before
      else if issued.None? then (if Blocks(t, keys, last) then Err(NotComparable) else before)
      else if Verified(t, keys, statement, issued.value, last) then Ok(before.value + {PairOf(t, last)})
      else before
  }

  function Reviewers(pairs: set<Pair>): set<string> {
    set p | p in pairs :: p.reviewer
  }

  function KeyIds(pairs: set<Pair>): set<string> {
    set p | p in pairs :: p.keyId
  }

  datatype Condition =
    | ReceiptSchema
    | TrustPolicySchema
    | ReviewDecision
    | CandidateBinding
    | AppraisalBinding
    | PredecessorBinding
    | AppraisalReady
    | ReceiptFresh
    | SeparationOfDuty
    | SignatureQuorum

  datatype Check = Check(condition: Condition, passed: bool)

  datatype Verdict = Verdict(eligible: bool, failed: Option<Condition>, checks: seq<Check>, reviewers: nat, required: Option<Json>)

  predicate Fresh(t: Tools, receipt: Object, now: real) {
    var issued, expires := Timestamp(t, Get(receipt, "issued_at")), Timestamp(t, Get(receipt, "expires_at"));
    && issued.Some? && expires.Some?
    && issued.value <= now < expires.value && 0.0 < expires.value - issued.value <= 86400.0
  }

  predicate PolicyValid(policy: Object) {
    Get(policy, "threshold").Int? && Get(policy, "threshold").i >= 2 && Get(policy, "keys").Arr?
  }

  predicate Quorum(policy: Object, pairs: set<Pair>) {
    && PolicyValid(policy)
    && |Reviewers(pairs)| >= Get(policy, "threshold").i && |KeyIds(pairs)| >= Get(policy, "threshold").i
  }

  /** The four things a review is about. */
  datatype Case = Case(candidate: Object, appraisal: Object, predecessor: Object, policy: Object)

  function ChecksOf(t: Tools, receipt: Object, c: Case, now: real, pairs: set<Pair>): seq<Check> {
    [Check(ReceiptSchema, Get(receipt, "schema") == Str(SCHEMA)),
     Check(TrustPolicySchema, Get(c.policy, "schema") == Str(POLICY_SCHEMA)),
     Check(ReviewDecision, Get(receipt, "decision") == Str(ACCEPTED)),
     Check(CandidateBinding, Get(receipt, "candidate_envelope_sha256") == Str(t.digest(c.candidate))),
     Check(AppraisalBinding, Get(receipt, "appraisal_sha256") == Str(t.digest(c.appraisal))),
     Check(PredecessorBinding, Get(receipt, "predecessor_envelope_sha256") == Str(t.digest(c.predecessor))),
     Check(AppraisalReady, Get(c.appraisal, "status") == Str(READY)),
     Check(ReceiptFresh, Fresh(t, receipt, now)),
     Check(SeparationOfDuty, PolicyValid(c.policy)),
     Check(SignatureQuorum, Quorum(c.policy, pairs))]
  }

  function FirstFailed(checks: seq<Check>): Option<Condition> {
    if checks == [] then None else if !checks[0].passed then Some(checks[0].condition) else FirstFailed(checks[1..])
  }

  function PairsOf(t: Tools, receipt: Object, policy: Object): Result<set<Pair>, Error> {
    var keys := ObjectsIn(Get(policy, "keys"));
    if keys.Err? then Err(keys.error)
    else
      var signatures := ObjectsIn(Get(receipt, "signatures"));
      if signatures.Err? then Err(signatures.error)
      else VerifiedPairs(t, KeyMap(t, keys.value), Statement(receipt), Timestamp(t, Get(receipt, "issued_at")), signatures.value)
  }

  function VerdictOf(t: Tools, receipt: Object, c: Case, now: real, pairs: set<Pair>): Verdict {
    var checks := ChecksOf(t, receipt, c, now, pairs);
    var threshold := Get(c.policy, "threshold");
    Verdict(FirstFailed(checks).None?, FirstFailed(checks), checks, |Reviewers(pairs)|,
            if IsInt(threshold) then Some(threshold) else None)
  }

  function Evaluate(t: Tools, receipt: Object, c: Case, now: real): Result<Verdict, Error> {
    var pairs := PairsOf(t, receipt, c.policy);
    if pairs.Err? then Err(pairs.error) else Ok(VerdictOf(t, receipt, c, now, pairs.value))
  }

  // ---- The evaluating loops ----

  method CollectKeys(t: Tools, keys: seq<Object>) returns (m: map<string, Object>)
    ensures m == KeyMap(t, keys)
  {
    m := map[];
    for i := 0 to |keys|
      invariant m == KeyMap(t, keys[..i])
    {
      assert keys[..i + 1][..i] == keys[..i];
      if Truthy(Get(keys[i], "key_id")) {
        m := m[StrOf(t, Get(keys[i], "key_id")) := keys[i]];
      }
    }
    assert keys[..|keys|] == keys;
  }

  lemma {:induction false} PairErrorStays(
      t: Tools, keys: map<string, Object>, statement: Object, issued: Option<real>, signatures: seq<Object>, k: nat)
    requires k <= |signatures| && VerifiedPairs(t, keys, statement, issued, signatures[..k]).Err?
    ensures VerifiedPairs(t, keys, statement, issued, signatures)
         == VerifiedPairs(t, keys, statement, issued, signatures[..k])
    decreases |signatures|
  {
    hide Verified;
    hide Blocks;
    if k < |signatures| {
      var last := |signatures| - 1;
      assert signatures[..last][..k] == signatures[..k];
      PairErrorStays(t, keys, statement, issued, signatures[..last], k);
    } else {
      assert signatures[..k] == signatures;
    }
  }

  /** One pass over the signatures that adds to two sets. */
  method CountSignatures(t: Tools, keys: map<string, Object>, statement: Object, issued: Option<real>, signatures: seq<Object>)
    returns (reviewers: set<string>, keyIds: set<string>, failure: Option<Error>)
    ensures var r := VerifiedPairs(t, keys, statement, issued, signatures);
            && failure == (if r.Err? then Some(r.error) else None)
            && (r.Ok? ==> reviewers == Reviewers(r.value) && keyIds == KeyIds(r.value))
  {
    hide RawText;
    hide Timestamp;
    reviewers, keyIds := {}, {};
    ghost var pairs: set<Pair> := {};
    for i := 0 to |signatures|
      invariant VerifiedPairs(t, keys, statement, issued, signatures[..i]) == Ok(pairs)
      invariant reviewers == Reviewers(pairs) && keyIds == KeyIds(pairs)
    {
      assert signatures[..i + 1][..i] == signatures[..i];
      var signature := signatures[i];
      var keyId, reviewer := RawText(Get(signature, "key_id"), t.printer), RawText(Get(signature, "reviewer_id"), t.printer);
      if keyId !in keys || reviewer == "" || Get(keys[keyId], "reviewer_id") != Str(reviewer) { continue; }
      var key := keys[keyId];
      if Timestamp(t, Get(key, "valid_from")).None? || Timestamp(t, Get(key, "valid_until")).None? { continue; }
      if issued.None? {
        PairErrorStays(t, keys, statement, issued, signatures, i + 1);
        return reviewers, keyIds, Some(NotComparable);
      }
      if Live(t, key, issued.value) && t.verifier(keyId, statement, RawText(Get(signature, "signature"), t.printer)) {
        PairAdded(pairs, Pair(reviewer, keyId));
        pairs := pairs + {Pair(reviewer, keyId)};
        reviewers := reviewers + {reviewer};
        keyIds := keyIds + {keyId};
      }
    }
    assert signatures[..|signatures|] == signatures;
    failure := None;
  }

  lemma PairAdded(pairs: set<Pair>, p: Pair)
    ensures Reviewers(pairs + {p}) == Reviewers(pairs) + {p.reviewer}
    ensures KeyIds(pairs + {p}) == KeyIds(pairs) + {p.keyId}
  {
    assert forall q :: q in pairs ==> q in pairs + {p};
    assert p in pairs + {p};
  }

  method EvaluateAcceptanceReceipt(t: Tools, receipt: Object, c: Case, now: real) returns (r: Result<Verdict, Error>)
    ensures r == Evaluate(t, receipt, c, now)
  {
    hide VerifiedPairs;
    hide Reviewers;
    hide KeyIds;
    hide KeyMap;
    hide Statement;
    hide Fresh;
    hide FirstFailed;
    var checks := [
      Check(ReceiptSchema, Get(receipt, "schema") == Str(SCHEMA)),
      Check(TrustPolicySchema, Get(c.policy, "schema") == Str(POLICY_SCHEMA)),
      Check(ReviewDecision, Get(receipt, "decision") == Str(ACCEPTED)),
      Check(CandidateBinding, Get(receipt, "candidate_envelope_sha256") == Str(t.digest(c.candidate))),
      Check(AppraisalBinding, Get(receipt, "appraisal_sha256") == Str(t.digest(c.appraisal))),
      Check(PredecessorBinding, Get(receipt, "predecessor_envelope_sha256") == Str(t.digest(c.predecessor))),
      Check(AppraisalReady, Get(c.appraisal, "status") == Str(READY))];
    checks := checks + [Check(ReceiptFresh, Fresh(t, receipt, now))];
    var threshold := Get(c.policy, "threshold");
    var policyValid := threshold.Int? && threshold.i >= 2 && Get(c.policy, "keys").Arr?;
    checks := checks + [Check(SeparationOfDuty, policyValid)];
    var keyItems := ObjectsIn(Get(c.policy, "keys"));
    if keyItems.Err? { return Err(keyItems.error); }
    var keys := CollectKeys(t, keyItems.value);
    var signatures := ObjectsIn(Get(receipt, "signatures"));
    if signatures.Err? { return Err(signatures.error); }
    var reviewers, keyIds, failure :=
      CountSignatures(t, keys, Statement(receipt), Timestamp(t, Get(receipt, "issued_at")), signatures.value);
    if failure.Some? { return Err(failure.value); }
    checks := checks + [Check(SignatureQuorum, policyValid && |reviewers| >= threshold.i && |keyIds| >= threshold.i)];
    var failed := FirstFailed(checks);
    ghost var pairs := PairsOf(t, receipt, c.policy).value;
    assert checks == ChecksOf(t, receipt, c, now, pairs);
    return Ok(Verdict(failed.None?, failed, checks, |reviewers|, if IsInt(threshold) then Some(threshold) else None));
  }

  // ---- What the verdict means ----

  predicate Eligible(r: Result<Verdict, Error>) {
    r.Ok? && r.value.eligible
  }

  lemma {:induction false} NoneFailedExactlyWhen(checks: seq<Check>)
    ensures FirstFailed(checks).None? <==> forall i :: 0 <= i < |checks| ==> checks[i].passed
  {
    if checks != [] {
      NoneFailedExactlyWhen(checks[1..]);
    }
  }

  /** Eligible exactly when every condition holds. */
  lemma EligibleExactlyWhen(t: Tools, receipt: Object, c: Case, now: real)
    ensures Eligible(Evaluate(t, receipt, c, now)) <==>
            var pairs := PairsOf(t, receipt, c.policy);
            && pairs.Ok?
            && Get(receipt, "schema") == Str(SCHEMA) && Get(c.policy, "schema") == Str(POLICY_SCHEMA)
            && Get(receipt, "decision") == Str(ACCEPTED)
            && Get(receipt, "candidate_envelope_sha256") == Str(t.digest(c.candidate))
            && Get(receipt, "appraisal_sha256") == Str(t.digest(c.appraisal))
            && Get(receipt, "predecessor_envelope_sha256") == Str(t.digest(c.predecessor))
            && Get(c.appraisal, "status") == Str(READY)
            && Fresh(t, receipt, now) && Quorum(c.policy, pairs.value)
  {
    hide Fresh;
    hide PairsOf;
    hide FirstFailed;
    hide Reviewers;
    hide KeyIds;
    var pairs := PairsOf(t, receipt, c.policy);
    if pairs.Ok? {
      var checks := ChecksOf(t, receipt, c, now, pairs.value);
      NoneFailedExactlyWhen(checks);
      assert checks[0].passed <==> Get(receipt, "schema") == Str(SCHEMA);
      assert checks[1].passed <==> Get(c.policy, "schema") == Str(POLICY_SCHEMA);
      assert checks[2].passed <==> Get(receipt, "decision") == Str(ACCEPTED);
      assert checks[3].passed <==> Get(receipt, "candidate_envelope_sha256") == Str(t.digest(c.candidate));
      assert checks[4].passed <==> Get(receipt, "appraisal_sha256") == Str(t.digest(c.appraisal));
      assert checks[5].passed <==> Get(receipt, "predecessor_envelope_sha256") == Str(t.digest(c.predecessor));
      assert checks[6].passed <==> Get(c.appraisal, "status") == Str(READY);
      assert checks[7].passed <==> Fresh(t, receipt, now);
      assert checks[9].passed <==> Quorum(c.policy, pairs.value);
      assert checks[8].passed <==> PolicyValid(c.policy);
    }
  }

  /** Which pairs count: exactly those of verified signatures. */
  lemma {:induction false} PairsAreVerified(
      t: Tools, keys: map<string, Object>, statement: Object, issued: real, signatures: seq<Object>)
    ensures VerifiedPairs(t, keys, statement, Some(issued), signatures).Ok?
    ensures forall p :: p in VerifiedPairs(t, keys, statement, Some(issued), signatures).value <==>
              exists i :: 0 <= i < |signatures| && Verified(t, keys, statement, issued, signatures[i])
                          && PairOf(t, signatures[i]) == p
  {
    hide Verified;
    hide PairOf;
    if signatures != [] {
      var last := |signatures| - 1;
      var before := signatures[..last];
      PairsAreVerified(t, keys, statement, issued, before);
      var pairs := VerifiedPairs(t, keys, statement, Some(issued), signatures).value;
      assert forall i :: 0 <= i < last ==> before[i] == signatures[i];
      forall p
        ensures p in pairs <==> exists i :: 0 <= i < |signatures| && Verified(t, keys, statement, issued, signatures[i])
                                            && PairOf(t, signatures[i]) == p
      {
        if p in VerifiedPairs(t, keys, statement, Some(issued), before).value {
          var i :| 0 <= i < last && Verified(t, keys, statement, issued, before[i]) && PairOf(t, before[i]) == p;
          assert Verified(t, keys, statement, issued, signatures[i]);
        }
      }
    }
  }

  /** Evaluation fails exactly when keys or signatures cannot be iterated, or the time
      of issue cannot be read and a signature claims a key with readable dates. */
  lemma {:induction false} UnreadableIssueFailsExactlyWhen(
      t: Tools, keys: map<string, Object>, statement: Object, signatures: seq<Object>)
    ensures VerifiedPairs(t, keys, statement, None, signatures)
         == if exists i :: 0 <= i < |signatures| && Blocks(t, keys, signatures[i]) then Err(NotComparable) else Ok({})
  {
    hide Blocks;
    if signatures != [] {
      var last := |signatures| - 1;
      UnreadableIssueFailsExactlyWhen(t, keys, statement, signatures[..last]);
      if exists i :: 0 <= i < last && Blocks(t, keys, signatures[i]) {
        var i :| 0 <= i < last && Blocks(t, keys, signatures[i]);
        assert Blocks(t, keys, signatures[..last][i]);
      }
    }
  }

  lemma EvaluationFailsExactlyWhen(t: Tools, receipt: Object, c: Case, now: real)
    ensures Evaluate(t, receipt, c, now).Err? <==>
            var keys, signatures := ObjectsIn(Get(c.policy, "keys")), ObjectsIn(Get(receipt, "signatures"));
            || keys.Err? || signatures.Err?
            || (Timestamp(t, Get(receipt, "issued_at")).None?
                && exists i :: 0 <= i < |signatures.value| && Blocks(t, KeyMap(t, keys.value), signatures.value[i]))
  {
    hide VerifiedPairs;
    hide VerdictOf;
    hide Statement;
    hide Blocks;
    hide Timestamp;
    hide KeyMap;
    var keys, signatures := ObjectsIn(Get(c.policy, "keys")), ObjectsIn(Get(receipt, "signatures"));
    var issued := Timestamp(t, Get(receipt, "issued_at"));
    if keys.Ok? && signatures.Ok? {
      if issued.None? {
        UnreadableIssueFailsExactlyWhen(t, KeyMap(t, keys.value), Statement(receipt), signatures.value);
      } else {
        PairsAreVerified(t, KeyMap(t, keys.value), Statement(receipt), issued.value, signatures.value);
      }
    }
  }

  // ---- Signatures as a set ----

  lemma {:induction false} ObjectsHold(items: seq<Json>)
    ensures forall o :: o in ObjectsOf(items) <==> Obj(o) in items
  {
    if items != [] {
      ObjectsHold(items[..|items| - 1]);
      assert items == items[..|items| - 1] + [items[|items| - 1]];
    }
  }

  lemma StatementIgnoresSignatures(receipt: Object, signatures: Json)
    ensures Statement(receipt["signatures" := signatures]) == Statement(receipt)
  {
    assert forall f :: f in STATEMENT_FIELDS ==> f != "signatures";
  }

  lemma {:induction false} MorePairs(
      t: Tools, keys: map<string, Object>, statement: Object, issued: real, fewer: seq<Object>, more: seq<Object>)
    requires forall s :: s in fewer ==> s in more
    ensures VerifiedPairs(t, keys, statement, Some(issued), fewer).Ok?
    ensures VerifiedPairs(t, keys, statement, Some(issued), more).Ok?
    ensures VerifiedPairs(t, keys, statement, Some(issued), fewer).value
         <= VerifiedPairs(t, keys, statement, Some(issued), more).value
  {
    hide Verified;
    hide PairOf;
    hide VerifiedPairs;
    PairsAreVerified(t, keys, statement, issued, fewer);
    PairsAreVerified(t, keys, statement, issued, more);
    forall p | p in VerifiedPairs(t, keys, statement, Some(issued), fewer).value
      ensures p in VerifiedPairs(t, keys, statement, Some(issued), more).value
    {
      var i :| 0 <= i < |fewer| && Verified(t, keys, statement, issued, fewer[i]) && PairOf(t, fewer[i]) == p;
      assert fewer[i] in more;
      var j :| 0 <= j < |more| && more[j] == fewer[i];
    }
  }

  lemma MorePairsKeepQuorum(policy: Object, fewer: set<Pair>, more: set<Pair>)
    requires fewer <= more && Quorum(policy, fewer)
    ensures Quorum(policy, more)
  {
    assert Reviewers(fewer) <= Reviewers(more) && KeyIds(fewer) <= KeyIds(more);
    SubsetSize(Reviewers(fewer), Reviewers(more));
    SubsetSize(KeyIds(fewer), KeyIds(more));
  }

  lemma SubsetSize(a: set<string>, b: set<string>)
    requires a <= b
    ensures |a| <= |b|
  {
    assert b == a + (b - a);
  }

  /** Permuting, repeating or adding signatures never takes eligibility away. */
  lemma MoreSignaturesKeepEligibility(t: Tools, receipt: Object, c: Case, now: real, fewer: seq<Json>, more: seq<Json>)
    requires forall s :: s in fewer ==> s in more
    requires Eligible(Evaluate(t, receipt["signatures" := Arr(fewer)], c, now))
    ensures Eligible(Evaluate(t, receipt["signatures" := Arr(more)], c, now))
  {
    hide VerifiedPairs;
    hide Quorum;
    hide Evaluate;
    hide Timestamp;
    hide KeyMap;
    hide Statement;
    var first, second := receipt["signatures" := Arr(fewer)], receipt["signatures" := Arr(more)];
    EligibleExactlyWhen(t, first, c, now);
    EligibleExactlyWhen(t, second, c, now);
    StatementIgnoresSignatures(receipt, Arr(fewer));
    StatementIgnoresSignatures(receipt, Arr(more));
    assert forall f :: f != "signatures" ==> Get(first, f) == Get(second, f);
    ObjectsHold(fewer);
    ObjectsHold(more);
    var keys := KeyMap(t, ObjectsIn(Get(c.policy, "keys")).value);
    var issued := Timestamp(t, Get(first, "issued_at")).value;
    assert ObjectsIn(Arr(fewer)) == Ok(ObjectsOf(fewer)) && ObjectsIn(Arr(more)) == Ok(ObjectsOf(more));
    MorePairs(t, keys, Statement(receipt), issued, ObjectsOf(fewer), ObjectsOf(more));
    MorePairsKeepQuorum(c.policy, PairsOf(t, first, c.policy).value, PairsOf(t, second, c.policy).value);
  }

  /** The verdict depends on the signatures through the set of verified pairs only. */
  lemma VerdictDependsOnPairs(t: Tools, first: Object, second: Object, c: Case, now: real)
    requires Statement(first) == Statement(second)
    requires PairsOf(t, first, c.policy) == PairsOf(t, second, c.policy)
    ensures Evaluate(t, first, c, now) == Evaluate(t, second, c, now)
  {
    hide PairsOf;
    hide Quorum;
    hide FirstFailed;
    forall f | f in STATEMENT_FIELDS
      ensures Get(first, f) == Get(second, f)
    {
      assert Statement(first)[f] == Statement(second)[f];
    }
  }

  // ---- What eligibility guarantees ----

  /** Each key identifier belongs to one reviewer, so counted reviewers never
      outnumber counted keys. */
  lemma {:induction false} ReviewersBoundedByKeys(pairs: set<Pair>)
    requires forall p, q :: p in pairs && q in pairs && p.keyId == q.keyId ==> p.reviewer == q.reviewer
    ensures |Reviewers(pairs)| <= |KeyIds(pairs)| == |pairs|
    decreases pairs
  {
    if pairs == {} {
      assert Reviewers(pairs) == {} && KeyIds(pairs) == {};
    } else {
      var p :| p in pairs;
      var rest := pairs - {p};
      ReviewersBoundedByKeys(rest);
      PairAdded(rest, p);
      assert rest + {p} == pairs;
      assert p.keyId !in KeyIds(rest);
    }
  }

  /** An eligible receipt carries at least two, and at least the threshold, of distinct
      reviewers with as many distinct keys; each is backed by a signature over this
      very statement, under a key of that reviewer that was live at issue. */
  lemma EligibleHasIndependentQuorum(t: Tools, receipt: Object, c: Case, now: real)
    requires Eligible(Evaluate(t, receipt, c, now))
    ensures var pairs := PairsOf(t, receipt, c.policy).value;
            var keys := KeyMap(t, ObjectsIn(Get(c.policy, "keys")).value);
            var issued := Timestamp(t, Get(receipt, "issued_at"));
            && PolicyValid(c.policy) && Get(c.policy, "threshold").i >= 2
            && Get(c.policy, "threshold").i <= |Reviewers(pairs)| <= |KeyIds(pairs)|
            && issued.Some? && issued.value <= now
            && forall p :: p in pairs ==>
                 && p.keyId in keys && Get(keys[p.keyId], "reviewer_id") == Str(p.reviewer) && p.reviewer != ""
                 && Live(t, keys[p.keyId], issued.value)
                 && exists signature :: t.verifier(p.keyId, Statement(receipt), signature)
  {
    hide VerifiedPairs;
    hide Evaluate;
    hide Timestamp;
    hide KeyMap;
    hide Statement;
    hide Live;
    hide RawText;
    EligibleExactlyWhen(t, receipt, c, now);
    var keys := KeyMap(t, ObjectsIn(Get(c.policy, "keys")).value);
    var issued := Timestamp(t, Get(receipt, "issued_at")).value;
    var signatures := ObjectsIn(Get(receipt, "signatures")).value;
    PairsAreVerified(t, keys, Statement(receipt), issued, signatures);
    var pairs := PairsOf(t, receipt, c.policy).value;
    forall p | p in pairs
      ensures p.keyId in keys && Get(keys[p.keyId], "reviewer_id") == Str(p.reviewer) && p.reviewer != ""
      ensures Live(t, keys[p.keyId], issued)
      ensures exists signature :: t.verifier(p.keyId, Statement(receipt), signature)
    {
      var i :| 0 <= i < |signatures| && Verified(t, keys, Statement(receipt), issued, signatures[i])
               && PairOf(t, signatures[i]) == p;
      assert t.verifier(p.keyId, Statement(receipt), RawText(Get(signatures[i], "signature"), t.printer));
    }
    ReviewersBoundedByKeys(pairs);
  }

  /** With a digest that never collides, one receipt is eligible for one candidate,
      one appraisal and one predecessor only. */
  lemma ReceiptBindsOneCase(t: Tools, receipt: Object, first: Case, second: Case, now: real, later: real)
    requires NeverCollides(t.digest)
    requires Eligible(Evaluate(t, receipt, first, now)) && Eligible(Evaluate(t, receipt, second, later))
    ensures first.candidate == second.candidate && first.appraisal == second.appraisal
            && first.predecessor == second.predecessor
  {
    hide Evaluate;
    hide PairsOf;
    hide Quorum;
    hide Fresh;
    EligibleExactlyWhen(t, receipt, first, now);
    EligibleExactlyWhen(t, receipt, second, later);
    assert Distinguishes(t.digest, first.candidate, second.candidate);
    assert Distinguishes(t.digest, first.appraisal, second.appraisal);
    assert Distinguishes(t.digest, first.predecessor, second.predecessor);
  }

  // ---- Eligibility in the fields of the receipt and the policy ----

  /** The field reads as this instant; a missing one reads as `None` prints. */
  predicate TimeIs(t: Tools, o: Object, key: string, at: real) {
    t.clock(if Get(o, key).Str? then Get(o, key).s else t.printer(Get(o, key))) == Some(at)
  }

  /** Valid at the time of issue, and not revoked by then. */
  ghost predicate LiveAt(t: Tools, key: Object, issued: real) {
    && (exists from, until :: TimeIs(t, key, "valid_from", from) && TimeIs(t, key, "valid_until", until)
                              && from <= issued < until)
    && forall revoked :: "revoked_at" in key && Truthy(key["revoked_at"]) && TimeIs(t, key, "revoked_at", revoked)
                         ==> issued < revoked
  }

  predicate KeyAt(t: Tools, keys: seq<Json>, j: int, keyId: string) {
    && 0 <= j < |keys| && keys[j].Obj? && "key_id" in keys[j].m && Truthy(keys[j].m["key_id"])
    && keyId == if keys[j].m["key_id"].Str? then keys[j].m["key_id"].s else t.printer(keys[j].m["key_id"])
  }

  /** The key of this identifier: the last one listed. */
  predicate LastKey(t: Tools, keys: seq<Json>, j: int, keyId: string) {
    KeyAt(t, keys, j, keyId) && forall k :: j < k < |keys| ==> !KeyAt(t, keys, k, keyId)
  }

  /** The ten fields that every signature covers. */
  function SignedFields(receipt: Object): Object {
    map field | field in {
      "schema", "receipt_id", "decision", "candidate_envelope_sha256", "appraisal_sha256",
      "predecessor_envelope_sha256", "issued_at", "expires_at", "environment", "promotion_request_sha256"}
      :: if field in receipt then receipt[field] else Null
  }

  /** The signature counts for this reviewer and key. */
  ghost predicate Counts(t: Tools, receipt: Object, keys: seq<Json>, issued: real, signature: Json, p: Pair) {
    && signature.Obj? && p.reviewer != ""
    && p.reviewer == RawText(Get(signature.m, "reviewer_id"), t.printer)
    && p.keyId == RawText(Get(signature.m, "key_id"), t.printer)
    && (exists j :: LastKey(t, keys, j, p.keyId) && Has(keys[j].m, "reviewer_id", Str(p.reviewer))
                    && LiveAt(t, keys[j].m, issued))
    && t.verifier(p.keyId, SignedFields(receipt), RawText(Get(signature.m, "signature"), t.printer))
  }

  lemma StatementIs(receipt: Object)
    ensures Statement(receipt) == SignedFields(receipt)
  {
  }

  lemma LiveExactlyWhen(t: Tools, key: Object, issued: real)
    ensures Live(t, key, issued) <==> LiveAt(t, key, issued)
  {
    var from, until := Timestamp(t, Get(key, "valid_from")), Timestamp(t, Get(key, "valid_until"));
    assert from.Some? ==> TimeIs(t, key, "valid_from", from.value);
    assert until.Some? ==> TimeIs(t, key, "valid_until", until.value);
    var revoked := Timestamp(t, Get(key, "revoked_at"));
    assert revoked.Some? ==> TimeIs(t, key, "revoked_at", revoked.value);
  }

  lemma {:induction false} KeyLookup(t: Tools, keys: seq<Json>, keyId: string)
    ensures var m := KeyMap(t, ObjectsOf(keys));
            && (keyId in m <==> exists j :: LastKey(t, keys, j, keyId))
            && forall j :: LastKey(t, keys, j, keyId) ==> m[keyId] == keys[j].m
  {
    hide StrOf;
    if keys != [] {
      var last := |keys| - 1;
      var init := keys[..last];
      KeyLookup(t, init, keyId);
      KeySnoc(t, ObjectsOf(init), keys[last], keyId);
      hide KeyMap;
      forall j
        ensures j < last ==> (KeyAt(t, init, j, keyId) <==> KeyAt(t, keys, j, keyId))
        ensures j > last ==> !KeyAt(t, keys, j, keyId)
      {
        assert 0 <= j < last ==> init[j] == keys[j];
      }
      hide KeyAt;
      if KeyAt(t, keys, last, keyId) {
        assert LastKey(t, keys, last, keyId);
        assert forall j :: LastKey(t, keys, j, keyId) ==> j == last;
      } else {
        assert forall j :: LastKey(t, keys, j, keyId) <==> LastKey(t, init, j, keyId);
      }
    }
  }

  lemma KeySnoc(t: Tools, before: seq<Object>, item: Json, keyId: string)
    ensures var m := KeyMap(t, before);
            var after := KeyMap(t, before + if item.Obj? then [item.m] else []);
            if KeyAt(t, [item], 0, keyId) then keyId in after && after[keyId] == item.m
            else (keyId in after <==> keyId in m) && (keyId in m ==> after[keyId] == m[keyId])
  {
    if item.Obj? {
      assert (before + [item.m])[..|before|] == before;
    } else {
      assert before + [] == before;
    }
  }

  lemma CountsExactlyWhen(t: Tools, receipt: Object, keys: seq<Json>, issued: real, signature: Json, p: Pair)
    ensures signature.Obj? && PairOf(t, signature.m) == p
            && Verified(t, KeyMap(t, ObjectsOf(keys)), Statement(receipt), issued, signature.m)
       <==> Counts(t, receipt, keys, issued, signature, p)
  {
    hide KeyMap;
    hide ObjectsOf;
    hide RawText;
    hide Live;
    hide LiveAt;
    hide LastKey;
    hide SignedFields;
    hide Statement;
    hide Has;
    StatementIs(receipt);
    KeyLookup(t, keys, p.keyId);
    var m := KeyMap(t, ObjectsOf(keys));
    if p.keyId in m {
      LiveExactlyWhen(t, m[p.keyId], issued);
      HasExactlyWhen(m[p.keyId], "reviewer_id", Str(p.reviewer));
    }
  }

  /** Exactly the reviewers and keys of signatures that count. */
  ghost predicate CountedPairs(t: Tools, receipt: Object, keys: seq<Json>, issued: real, signatures: seq<Json>, pairs: set<Pair>) {
    forall p :: p in pairs <==> exists i :: 0 <= i < |signatures| && Counts(t, receipt, keys, issued, signatures[i], p)
  }

  lemma PairsExactly(t: Tools, receipt: Object, keys: seq<Json>, issued: real, signatures: seq<Json>)
    ensures var r := VerifiedPairs(t, KeyMap(t, ObjectsOf(keys)), Statement(receipt), Some(issued), ObjectsOf(signatures));
            r.Ok? && CountedPairs(t, receipt, keys, issued, signatures, r.value)
  {
    hide VerifiedPairs;
    hide KeyMap;
    hide Counts;
    hide Verified;
    hide PairOf;
    hide Statement;
    var m, objects := KeyMap(t, ObjectsOf(keys)), ObjectsOf(signatures);
    PairsAreVerified(t, m, Statement(receipt), issued, objects);
    ObjectsHold(signatures);
    forall s: Json, p
      ensures s.Obj? && PairOf(t, s.m) == p && Verified(t, m, Statement(receipt), issued, s.m)
         <==> Counts(t, receipt, keys, issued, s, p)
    {
      CountsExactlyWhen(t, receipt, keys, issued, s, p);
    }
    var pairs := VerifiedPairs(t, m, Statement(receipt), Some(issued), objects).value;
    forall p
      ensures p in pairs <==> exists i :: 0 <= i < |signatures| && Counts(t, receipt, keys, issued, signatures[i], p)
    {
      if p in pairs {
        var k :| 0 <= k < |objects| && Verified(t, m, Statement(receipt), issued, objects[k]) && PairOf(t, objects[k]) == p;
        assert objects[k] in objects;
        var i :| 0 <= i < |signatures| && signatures[i] == Obj(objects[k]);
      }
      if i :| 0 <= i < |signatures| && Counts(t, receipt, keys, issued, signatures[i], p) {
        assert signatures[i].m in objects;
        var k :| 0 <= k < |objects| && objects[k] == signatures[i].m;
      }
    }
  }

  /** The receipt was issued by now, has not expired, and lasts a day at most. */
  predicate FreshAt(t: Tools, receipt: Object, now: real, issued: real, expires: real) {
    && TimeIs(t, receipt, "issued_at", issued) && TimeIs(t, receipt, "expires_at", expires)
    && issued <= now < expires && expires - issued <= 86400.0
  }

  /** What the documents must say, signatures aside. */
  predicate DocumentsAgree(t: Tools, receipt: Object, c: Case) {
    && Has(receipt, "schema", Str("truepanel.aegis-acceptance-receipt/v1"))
    && Has(c.policy, "schema", Str("truepanel.aegis-reviewer-trust-policy/v1"))
    && Has(receipt, "decision", Str("ACCEPTED_FOR_OPERATOR_PROMOTION"))
    && Has(receipt, "candidate_envelope_sha256", Str(t.digest(c.candidate)))
    && Has(receipt, "appraisal_sha256", Str(t.digest(c.appraisal)))
    && Has(receipt, "predecessor_envelope_sha256", Str(t.digest(c.predecessor)))
    && Has(c.appraisal, "status", Str("READY_FOR_OPERATOR_REVIEW"))
  }

  ghost predicate QuorumOf(t: Tools, receipt: Object, policy: Object, issued: real) {
    && "threshold" in policy && policy["threshold"].Int? && policy["threshold"].i >= 2
    && "keys" in policy && policy["keys"].Arr? && "signatures" in receipt && receipt["signatures"].Arr?
    && exists pairs :: CountedPairs(t, receipt, policy["keys"].a, issued, receipt["signatures"].a, pairs)
                       && |set p: Pair | p in pairs :: p.reviewer| >= policy["threshold"].i
                       && |set p: Pair | p in pairs :: p.keyId| >= policy["threshold"].i
  }

  lemma DocumentsAgreeExactlyWhen(t: Tools, receipt: Object, c: Case)
    ensures DocumentsAgree(t, receipt, c) <==>
            && Get(receipt, "schema") == Str(SCHEMA) && Get(c.policy, "schema") == Str(POLICY_SCHEMA)
            && Get(receipt, "decision") == Str(ACCEPTED)
            && Get(receipt, "candidate_envelope_sha256") == Str(t.digest(c.candidate))
            && Get(receipt, "appraisal_sha256") == Str(t.digest(c.appraisal))
            && Get(receipt, "predecessor_envelope_sha256") == Str(t.digest(c.predecessor))
            && Get(c.appraisal, "status") == Str(READY)
  {
  }

  lemma FreshExactlyWhen(t: Tools, receipt: Object, now: real)
    ensures Fresh(t, receipt, now) <==> exists issued, expires :: FreshAt(t, receipt, now, issued, expires)
  {
    if Fresh(t, receipt, now) {
      assert FreshAt(t, receipt, now, Timestamp(t, Get(receipt, "issued_at")).value,
                     Timestamp(t, Get(receipt, "expires_at")).value);
    }
  }

  lemma PairsOfLists(t: Tools, receipt: Object, policy: Object, issued: real)
    requires TimeIs(t, receipt, "issued_at", issued)
    requires "keys" in policy && policy["keys"].Arr? && "signatures" in receipt && receipt["signatures"].Arr?
    ensures var pairs := PairsOf(t, receipt, policy);
            pairs.Ok? && CountedPairs(t, receipt, policy["keys"].a, issued, receipt["signatures"].a, pairs.value)
  {
    PairsExactly(t, receipt, policy["keys"].a, issued, receipt["signatures"].a);
    hide VerifiedPairs;
    hide KeyMap;
    hide Statement;
    hide CountedPairs;
  }

  lemma PairsAreDetermined(t: Tools, receipt: Object, keys: seq<Json>, issued: real, signatures: seq<Json>,
                           a: set<Pair>, b: set<Pair>)
    requires CountedPairs(t, receipt, keys, issued, signatures, a) && CountedPairs(t, receipt, keys, issued, signatures, b)
    ensures a == b
  {
    hide Counts;
  }

  lemma NoSignaturesNoPairs(t: Tools, receipt: Object, policy: Object)
    requires !("signatures" in receipt && receipt["signatures"].Arr?)
    requires PairsOf(t, receipt, policy).Ok?
    ensures !Quorum(policy, PairsOf(t, receipt, policy).value)
  {
    assert Reviewers({}) == {};
    hide KeyMap;
    hide Statement;
  }

  lemma QuorumExactlyWhen(t: Tools, receipt: Object, policy: Object, issued: real)
    requires TimeIs(t, receipt, "issued_at", issued)
    ensures QuorumOf(t, receipt, policy, issued)
       <==> PairsOf(t, receipt, policy).Ok? && Quorum(policy, PairsOf(t, receipt, policy).value)
  {
    hide CountedPairs;
    hide TimeIs;
    var r := PairsOf(t, receipt, policy);
    if "signatures" !in receipt || !receipt["signatures"].Arr? {
      if r.Ok? { NoSignaturesNoPairs(t, receipt, policy); }
    } else if "keys" in policy && policy["keys"].Arr? {
      hide PairsOf;
      PairsOfLists(t, receipt, policy, issued);
      var keys, signatures := policy["keys"].a, receipt["signatures"].a;
      forall pairs | CountedPairs(t, receipt, keys, issued, signatures, pairs)
        ensures pairs == r.value
      {
        PairsAreDetermined(t, receipt, keys, issued, signatures, pairs, r.value);
      }
    }
  }

  /** Eligible exactly when the documents are bound to each other, the receipt is fresh,
      and enough different reviewers and keys have signatures that count. */
  lemma EligibleExactly(t: Tools, receipt: Object, c: Case, now: real)
    ensures Eligible(Evaluate(t, receipt, c, now)) <==>
            && DocumentsAgree(t, receipt, c)
            && exists issued, expires :: FreshAt(t, receipt, now, issued, expires) && QuorumOf(t, receipt, c.policy, issued)
  {
    EligibleExactlyWhen(t, receipt, c, now);
    DocumentsAgreeExactlyWhen(t, receipt, c);
    FreshExactlyWhen(t, receipt, now);
    hide Evaluate;
    hide DocumentsAgree;
    hide Fresh;
    hide Quorum;
    hide PairsOf;
    hide QuorumOf;
    forall issued, expires | FreshAt(t, receipt, now, issued, expires)
      ensures QuorumOf(t, receipt, c.policy, issued)
         <==> PairsOf(t, receipt, c.policy).Ok? && Quorum(c.policy, PairsOf(t, receipt, c.policy).value)
    {
      QuorumExactlyWhen(t, receipt, c.policy, issued);
    }
  }

  lemma {:induction false} FirstFailedIs(checks: seq<Check>, n: nat)
    requires n <= |checks| && forall i :: 0 <= i < n ==> checks[i].passed
    requires n < |checks| ==> !checks[n].passed
    ensures FirstFailed(checks) == if n < |checks| then Some(checks[n].condition) else None
  {
    if n > 0 {
      FirstFailedIs(checks[1..], n - 1);
    }
  }

  /** The reason of a held receipt is the first condition that fails, in this order. */
  lemma HeldForTheFirst(t: Tools, receipt: Object, c: Case, now: real, n: nat)
    requires Evaluate(t, receipt, c, now).Ok?
    ensures var v := Evaluate(t, receipt, c, now).value;
            && |v.checks| == 10
            && (n < 10 && !v.checks[n].passed && (forall i :: 0 <= i < n ==> v.checks[i].passed) ==>
                  !v.eligible && v.failed == Some(v.checks[n].condition))
            && ((forall i :: 0 <= i < 10 ==> v.checks[i].passed) ==> v.eligible && v.failed == None)
  {
    hide PairsOf;
    hide Fresh;
    hide Quorum;
    hide FirstFailed;
    var pairs := PairsOf(t, receipt, c.policy).value;
    var v := VerdictOf(t, receipt, c, now, pairs);
    ChecksInOrder(t, receipt, c, now, pairs);
    hide ChecksOf;
    if n < 10 && !v.checks[n].passed && (forall i :: 0 <= i < n ==> v.checks[i].passed) {
      FirstFailedIs(v.checks, n);
    }
    if forall i :: 0 <= i < 10 ==> v.checks[i].passed {
      FirstFailedIs(v.checks, 10);
    }
  }

  lemma ChecksInOrder(t: Tools, receipt: Object, c: Case, now: real, pairs: set<Pair>)
    ensures var checks := ChecksOf(t, receipt, c, now, pairs);
            && |checks| == 10
            && checks[0].condition == ReceiptSchema && checks[1].condition == TrustPolicySchema
            && checks[2].condition == ReviewDecision && checks[3].condition == CandidateBinding
            && checks[4].condition == AppraisalBinding && checks[5].condition == PredecessorBinding
            && checks[6].condition == AppraisalReady && checks[7].condition == ReceiptFresh
            && checks[8].condition == SeparationOfDuty && checks[9].condition == SignatureQuorum
  {
    hide Fresh;
    hide Quorum;
    hide PolicyValid;
    hide Get;
  }

  // ---- When evaluation raises, and what it counts ----

  /** A number that is not zero, or `true`: it cannot be iterated. */
  predicate Unlistable(o: Object, key: string) {
    key in o && (o[key] == Bool(true) || (o[key].Int? && o[key].i != 0) || (o[key].Real? && o[key].r != 0.0))
  }

  function Listed(o: Object, key: string): seq<Json> {
    if key in o && o[key].Arr? then o[key].a else []
  }

  lemma ObjectsInIs(o: Object, key: string)
    ensures ObjectsIn(Get(o, key)).Err? <==> Unlistable(o, key)
    ensures ObjectsIn(Get(o, key)).Ok? ==> ObjectsIn(Get(o, key)).value == ObjectsOf(Listed(o, key))
  {
  }

  /** The signature claims a listed key of its own reviewer whose dates can be read. */
  ghost predicate ClaimsDated(t: Tools, keys: seq<Json>, signature: Json) {
    && signature.Obj?
    && var reviewer, keyId := RawText(Get(signature.m, "reviewer_id"), t.printer), RawText(Get(signature.m, "key_id"), t.printer);
       && reviewer != ""
       && exists j, from, until ::
            LastKey(t, keys, j, keyId) && Has(keys[j].m, "reviewer_id", Str(reviewer))
            && TimeIs(t, keys[j].m, "valid_from", from) && TimeIs(t, keys[j].m, "valid_until", until)
  }

  lemma DatedExactlyWhen(t: Tools, key: Object)
    ensures Dated(t, key) <==> exists from, until :: TimeIs(t, key, "valid_from", from) && TimeIs(t, key, "valid_until", until)
  {
    if Dated(t, key) {
      assert TimeIs(t, key, "valid_from", Timestamp(t, Get(key, "valid_from")).value);
      assert TimeIs(t, key, "valid_until", Timestamp(t, Get(key, "valid_until")).value);
    }
  }

  lemma BlocksExactlyWhen(t: Tools, keys: seq<Json>, signature: Json)
    requires signature.Obj?
    ensures Blocks(t, KeyMap(t, ObjectsOf(keys)), signature.m) <==> ClaimsDated(t, keys, signature)
  {
    hide KeyMap;
    hide ObjectsOf;
    hide RawText;
    hide LastKey;
    hide Has;
    hide TimeIs;
    var m := KeyMap(t, ObjectsOf(keys));
    var p := PairOf(t, signature.m);
    KeyLookup(t, keys, p.keyId);
    if p.keyId in m {
      DatedExactlyWhen(t, m[p.keyId]);
      HasExactlyWhen(m[p.keyId], "reviewer_id", Str(p.reviewer));
    }
    hide Dated;
  }

  /** Evaluation raises exactly when the keys or the signatures cannot be iterated, or the
      time of issue cannot be read and some signature claims such a key. */
  lemma FailsExactly(t: Tools, receipt: Object, c: Case, now: real)
    ensures Evaluate(t, receipt, c, now).Err? <==>
            || Unlistable(c.policy, "keys") || Unlistable(receipt, "signatures")
            || ((forall at :: !TimeIs(t, receipt, "issued_at", at))
                && exists i :: 0 <= i < |Listed(receipt, "signatures")|
                               && ClaimsDated(t, Listed(c.policy, "keys"), Listed(receipt, "signatures")[i]))
  {
    EvaluationFailsExactlyWhen(t, receipt, c, now);
    ObjectsInIs(c.policy, "keys");
    ObjectsInIs(receipt, "signatures");
    var issued := Timestamp(t, Get(receipt, "issued_at"));
    assert issued.Some? <==> exists at :: TimeIs(t, receipt, "issued_at", at) by {
      if issued.Some? { assert TimeIs(t, receipt, "issued_at", issued.value); }
    }
    var keys, signatures := Listed(c.policy, "keys"), Listed(receipt, "signatures");
    hide Evaluate;
    hide Unlistable;
    hide Listed;
    hide TimeIs;
    hide Timestamp;
    hide ObjectsIn;
    hide ObjectsOf;
    hide KeyMap;
    hide Blocks;
    hide ClaimsDated;
    var m, objects := KeyMap(t, ObjectsOf(keys)), ObjectsOf(signatures);
    if k :| 0 <= k < |objects| && Blocks(t, m, objects[k]) {
      SomeClaims(t, keys, signatures, k);
    }
    if i :| 0 <= i < |signatures| && ClaimsDated(t, keys, signatures[i]) {
      SomeBlocks(t, keys, signatures, i);
    }
  }

  lemma SomeClaims(t: Tools, keys: seq<Json>, signatures: seq<Json>, k: nat)
    requires k < |ObjectsOf(signatures)| && Blocks(t, KeyMap(t, ObjectsOf(keys)), ObjectsOf(signatures)[k])
    ensures exists i :: 0 <= i < |signatures| && ClaimsDated(t, keys, signatures[i])
  {
    hide KeyMap;
    hide Blocks;
    hide ClaimsDated;
    ObjectsHold(signatures);
    var objects := ObjectsOf(signatures);
    hide ObjectsOf;
    assert objects[k] in objects;
    var i :| 0 <= i < |signatures| && signatures[i] == Obj(objects[k]);
    BlocksExactlyWhen(t, keys, signatures[i]);
  }

  lemma SomeBlocks(t: Tools, keys: seq<Json>, signatures: seq<Json>, i: nat)
    requires i < |signatures| && ClaimsDated(t, keys, signatures[i])
    ensures exists k :: 0 <= k < |ObjectsOf(signatures)| && Blocks(t, KeyMap(t, ObjectsOf(keys)), ObjectsOf(signatures)[k])
  {
    hide KeyMap;
    hide Blocks;
    ClaimsAreObjects(t, keys, signatures[i]);
    hide ClaimsDated;
    ObjectsHold(signatures);
    var objects := ObjectsOf(signatures);
    hide ObjectsOf;
    BlocksExactlyWhen(t, keys, signatures[i]);
    assert signatures[i].m in objects;
    var k :| 0 <= k < |objects| && objects[k] == signatures[i].m;
  }

  lemma ClaimsAreObjects(t: Tools, keys: seq<Json>, signature: Json)
    requires ClaimsDated(t, keys, signature)
    ensures signature.Obj?
  {
  }

  /** The reported counts: the different reviewers that have a signature that counts, and
      the threshold where it is an integer. */
  lemma VerdictCounts(t: Tools, receipt: Object, c: Case, now: real, issued: real, pairs: set<Pair>)
    requires Evaluate(t, receipt, c, now).Ok? && TimeIs(t, receipt, "issued_at", issued)
    requires "keys" in c.policy && c.policy["keys"].Arr? && "signatures" in receipt && receipt["signatures"].Arr?
    requires CountedPairs(t, receipt, c.policy["keys"].a, issued, receipt["signatures"].a, pairs)
    ensures var v := Evaluate(t, receipt, c, now).value;
            && v.reviewers == |set p: Pair | p in pairs :: p.reviewer|
            && v.required == if "threshold" in c.policy && (c.policy["threshold"].Int? || c.policy["threshold"].Bool?)
                             then Some(c.policy["threshold"]) else None
  {
    hide CountedPairs;
    hide ChecksOf;
    hide FirstFailed;
    hide TimeIs;
    var keys, signatures := c.policy["keys"].a, receipt["signatures"].a;
    PairsOfLists(t, receipt, c.policy, issued);
    PairsAreDetermined(t, receipt, keys, issued, signatures, pairs, PairsOf(t, receipt, c.policy).value);
    hide PairsOf;
  }
}
