/** The governed recovery runtime over the query cache: role check, task evidence,
    restore receipt, and the rule that stale answers never clear a recovery. */
module PassiveRuntime {
  import opened Core
  import opened JsonValues
  import opened QueryCache

  /** The host operations the program calls, left open. */
  datatype Host = Host(
    printer: Printer,
    upper: string -> string,
    lower: string -> string,
    parseInt: string -> Option<int>,
    digest: Digest)

  // ---- Roles ----

  const REQUIRED_ROLES := {"READONLY_ADMIN", "REPLICATION_TASK_READ", "CLOUD_BACKUP_READ"}

  predicate Forbidden(role: string) {
    || role in {"FULL_ADMIN", "SHARING_ADMIN", "REPLICATION_ADMIN", "FILESYSTEM_FULL_CONTROL"}
    || EndsWith(role, "_WRITE") || EndsWith(role, "_DELETE")
  }

  function Roles(h: Host, identity: Json): set<string> {
    var items := ListOrEmpty(Get(ObjectOrEmpty(Get(ObjectOrEmpty(identity), "privilege")), "roles"));
    set i | 0 <= i < |items| && Text(items[i], h.printer) != "" :: Text(items[i], h.printer)
  }

  datatype Hold =
    | Cleared
    | AuthUnavailable
    | RolesForbidden
    | RolesMissing
    | StoreUngoverned
    | NoRestoreTest
    | ReceiptInvalid
    | StaleEvidence

  function VerifyRoles(h: Host, identity: Json): Hold {
    if !Truthy(identity) then AuthUnavailable
    else if exists role :: role in Roles(h, identity) && Forbidden(role) then RolesForbidden
    else if !(REQUIRED_ROLES <= Roles(h, identity)) then RolesMissing
    else Cleared
  }

  // ---- Tasks ----

  datatype Task = Task(endpoint: string, taskId: Json, name: Json, scope: Json, enabled: bool, state: string)

  function Or(a: Json, b: Json): Json {
    if Truthy(a) then a else b
  }

  function TaskState(h: Host, task: map<string, Json>): string {
    var raw := Get(task, "state");
    var state := if raw.Obj? then Or(Get(raw.m, "state"), Get(raw.m, "status")) else raw;
    var job := ObjectOrEmpty(Get(task, "job"));
    h.upper(Text(if Truthy(state) then state else Or(Get(job, "state"), Get(job, "status")), h.printer))
  }

  function TaskOf(h: Host, endpoint: string, task: map<string, Json>): Task {
    var datasets := ListOrEmpty(Get(task, "source_datasets"));
    var state := TaskState(h, task);
    Task(endpoint, Get(task, "id"), Or(Get(task, "name"), Get(task, "description")),
         Or(Get(task, "path"), if datasets == [] then Null else datasets[0]),
         Get(task, "enabled") == Bool(true),
         if state == "" then "UNKNOWN" else state)
  }

  predicate Succeeded(t: Task) {
    t.enabled && t.state in {"SUCCESS", "FINISHED"}
  }

  /** The tasks of one `query` answer: its objects, in order. */
  function TasksOf(h: Host, endpoint: string, items: seq<Json>): seq<Task> {
    if items == [] then []
    else
      var last := |items| - 1;
      TasksOf(h, endpoint, items[..last])
      + if items[last].Obj? then [TaskOf(h, endpoint, items[last].m)] else []
  }

  // ---- Restore receipts ----

  const SCHEMA := "truepanel.restore-verification/v1"
  const RECEIPT_METHODS := {"replication.query", "cloud_backup.query"}

  type Receipt = map<string, Json>

  function Truncate(r: real): int {
    if r >= 0.0 then r.Floor else -(-r).Floor
  }

  function Integer(h: Host, v: Json): Option<int> {
    match v
    case Int(i) => Some(i)
    case Real(r) => Some(Truncate(r))
    case Str(s) => h.parseInt(s)
    case _ => None
  }

  function Unsigned(receipt: Receipt): Receipt {
    receipt - {"evidence_sha256"}
  }

  function ClaimedDigest(h: Host, receipt: Receipt): string {
    h.lower(Text(Get(receipt, "evidence_sha256"), h.printer))
  }

  predicate Matches(h: Host, t: Task, receipt: Receipt) {
    && t.endpoint == Text(Get(receipt, "method"), h.printer)
    && PyEq(t.taskId, Get(receipt, "task_id"))
    && Succeeded(t)
  }

  function Matching(h: Host, tasks: seq<Task>, receipt: Receipt): seq<Task> {
    if tasks == [] then []
    else
      var last := |tasks| - 1;
      Matching(h, tasks[..last], receipt) + if Matches(h, tasks[last], receipt) then [tasks[last]] else []
  }

  predicate ReceiptValid(h: Host, tasks: seq<Task>, receipt: Receipt, incident: string) {
    var matching := Matching(h, tasks, receipt);
    var scope := Text(Get(receipt, "scope"), h.printer);
    var count := Integer(h, Get(receipt, "objects_verified"));
    && Get(receipt, "schema") == Str(SCHEMA)
    && Text(Get(receipt, "incident_id"), h.printer) == Text(Str(incident), h.printer)
    && Text(Get(receipt, "method"), h.printer) in RECEIPT_METHODS
    && IsInt(Get(receipt, "task_id"))
    && |matching| == 1
    && scope != "" && Text(matching[0].scope, h.printer) == scope
    && Text(Get(receipt, "restore_test_id"), h.printer) != ""
    && Get(receipt, "result") == Str("PASS")
    && count.Some? && count.value > 0
    && Get(receipt, "read_only_observation") == Bool(true)
    && Get(receipt, "control_authority") == Bool(false)
    && ClaimedDigest(h, receipt) == h.digest(Unsigned(receipt))
  }

  datatype Context = Context(restoreTestId: Json, scope: Json, endpoint: string, taskId: Json, verifiedAt: Json, sha256: string)

  datatype Observation = Observation(tasks: seq<Task>, verified: bool, hold: Hold, context: Option<Context>)

  datatype Failure = CacheFault(fault: Fault) | KeyError

  /** A valid receipt without `verified_at` fails with a key error instead of clearing. */
  function Provide(h: Host, tasks: seq<Task>, receipt: Option<Receipt>, incident: string): Result<Observation, Failure> {
    if receipt.None? then Ok(Observation(tasks, false, NoRestoreTest, None))
    else
      var r := receipt.value;
      if !ReceiptValid(h, tasks, r, incident) then Ok(Observation(tasks, false, ReceiptInvalid, None))
      else if "verified_at" !in r then Err(KeyError)
      else Ok(Observation(tasks, true, Cleared,
                          Some(Context(Get(r, "restore_test_id"), Get(r, "scope"), Text(Get(r, "method"), h.printer),
                                       Get(r, "task_id"), r["verified_at"], ClaimedDigest(h, r)))))
  }

  // ---- The receipt store and the runtime ----

  /** The directory's governance, and the content of the incident's file once every
      check on the file itself has passed. */
  datatype Store = Store(governed: bool, file: Option<Json>)

  function Load(h: Host, s: Store, incident: string): Option<Receipt> {
    if s.governed && s.file.Some? && s.file.value.Obj?
       && Text(Get(s.file.value.m, "incident_id"), h.printer) == Text(Str(incident), h.printer)
    then Some(s.file.value.m) else None
  }

  /** When each middleware call of one observation is made, and what it does. */
  type World = Query -> (real, Outcome)

  const AUTH := Query("auth.me", [])
  const VERSION := Query("system.version", [])
  const REPLICATION := Query("replication.query", [Arr([]), Obj(map[])])
  const CLOUD := Query("cloud_backup.query", [Arr([]), Obj(map[])])

  function Question(w: World, q: Query): Request {
    Request(q, w(q).0, w(q).1)
  }

  function Ask(l: Limits, c: Cache, w: World, q: Query): (Cache, Result<Json, Fault>)
    requires LimitsOk(l)
  {
    Respond(l, c, Question(w, q))
  }

  datatype Report = Report(ready: bool, observation: Observation)

  function Held(hold: Hold): Report {
    Report(false, Observation([], false, hold, None))
  }

  /** Stale answers are for display only. */
  function Conclude(o: Observation, stale: bool): Report {
    if stale then Report(false, o.(verified := false, hold := StaleEvidence, context := None))
    else Report(o.verified, o)
  }

  /** The tasks of both query answers, in order. */
  function TasksRead(h: Host, replication: Json, cloud: Json): seq<Task> {
    TasksOf(h, REPLICATION.endpoint, ListOrEmpty(replication)) + TasksOf(h, CLOUD.endpoint, ListOrEmpty(cloud))
  }

  function ObserveTasks(h: Host, l: Limits, c: Cache, w: World, s: Store, incident: string, staleBefore: nat)
    : (Cache, Result<Report, Failure>)
    requires LimitsOk(l)
  {
    var (c1, replication) := Ask(l, c, w, REPLICATION);
    if replication.Err? then (c1, Err(CacheFault(replication.error)))
    else
      var (c2, cloud) := Ask(l, c1, w, CLOUD);
      if cloud.Err? then (c2, Err(CacheFault(cloud.error)))
      else
        match Provide(h, TasksRead(h, replication.value, cloud.value), Load(h, s, incident), incident)
        case Err(e) => (c2, Err(e))
        case Ok(o) => (c2, Ok(Conclude(o, c2.staleHits > staleBefore)))
  }

  /** One `observe` of the governed runtime. */
  function ObserveRuntime(h: Host, l: Limits, c: Cache, w: World, s: Store, incident: string, withVersion: bool)
    : (Cache, Result<Report, Failure>)
    requires LimitsOk(l)
  {
    var (c1, identity) := Ask(l, c, w, AUTH);
    if identity.Err? then (c1, Err(CacheFault(identity.error)))
    else
      var role := VerifyRoles(h, identity.value);
      if role != Cleared then (c1, Ok(Held(role)))
      else
        var (c2, version) := if withVersion then Ask(l, c1, w, VERSION) else (c1, Ok(Null));
        if version.Err? then (c2, Err(CacheFault(version.error)))
        else if !s.governed then (c2, Ok(Held(StoreUngoverned)))
        else ObserveTasks(h, l, c2, w, s, incident, c.staleHits)
  }

  // ---- The object ----

  class GovernedRuntime {
    const host: Host
    const client: BoundedQueryCache
    const withVersion: bool

    constructor (host: Host, client: BoundedQueryCache, withVersion: bool)
      ensures this.host == host && this.client == client && this.withVersion == withVersion
    {
      this.host, this.client, this.withVersion := host, client, withVersion;
    }

    method QueryItems(q: Query, w: World) returns (items: seq<Json>, failure: Option<Fault>)
      requires client.Valid()
      modifies client
      ensures var (c, answer) := Ask(client.limits, old(client.Snapshot()), w, q);
              && client.Snapshot() == c
              && failure == (if answer.Err? then Some(answer.error) else None)
              && (answer.Ok? ==> items == ListOrEmpty(answer.value))
    {
      var answer := client.Call(Question(w, q));
      if answer.Err? { return [], Some(answer.error); }
      return ListOrEmpty(answer.value), None;
    }

    method CollectTasks(endpoint: string, items: seq<Json>) returns (tasks: seq<Task>)
      ensures tasks == TasksOf(host, endpoint, items)
    {
      tasks := [];
      for i := 0 to |items|
        invariant tasks == TasksOf(host, endpoint, items[..i])
      {
        assert items[..i + 1][..i] == items[..i];
        if items[i].Obj? {
          tasks := tasks + [TaskOf(host, endpoint, items[i].m)];
        }
      }
      assert items[..|items|] == items;
    }

    method ObserveEvidence(w: World, store: Store, incident: string, staleBefore: nat)
      returns (report: Result<Report, Failure>)
      requires client.Valid()
      modifies client
      ensures (client.Snapshot(), report)
           == ObserveTasks(host, client.limits, old(client.Snapshot()), w, store, incident, staleBefore)
    {
      hide TasksOf;
      hide Provide;
      hide Load;
      hide Respond;
      ghost var (c1, replication) := Ask(client.limits, client.Snapshot(), w, REPLICATION);
      ghost var (c2, cloud) := Ask(client.limits, c1, w, CLOUD);
      var items, failure := QueryItems(REPLICATION, w);
      if failure.Some? { return Err(CacheFault(failure.value)); }
      var tasks := CollectTasks(REPLICATION.endpoint, items);
      items, failure := QueryItems(CLOUD, w);
      if failure.Some? { return Err(CacheFault(failure.value)); }
      var more := CollectTasks(CLOUD.endpoint, items);
      assert client.Snapshot() == c2;
      var provided := Provide(host, tasks + more, Load(host, store, incident), incident);
      if provided.Err? { return Err(provided.error); }
      var result := provided.value;
      var stale := client.staleHits > staleBefore;
      assert stale <==> c2.staleHits > staleBefore;
      if stale {
        result := result.(verified := false, hold := StaleEvidence, context := None);
      }
      return Ok(Report(result.verified, result));
    }

    method Observe(w: World, store: Store, incident: string) returns (report: Result<Report, Failure>)
      requires client.Valid()
      modifies client
      ensures (client.Snapshot(), report)
           == ObserveRuntime(host, client.limits, old(client.Snapshot()), w, store, incident, withVersion)
    {
      var staleBefore := client.staleHits;
      var identity := client.Call(Question(w, AUTH));
      if identity.Err? { return Err(CacheFault(identity.error)); }
      var role := VerifyRoles(host, identity.value);
      if role != Cleared { return Ok(Held(role)); }
      if withVersion {
        var version := client.Call(Question(w, VERSION));
        if version.Err? { return Err(CacheFault(version.error)); }
      }
      if !store.governed { return Ok(Held(StoreUngoverned)); }
      report := ObserveEvidence(w, store, incident, staleBefore);
    }
  }

  // ---- When it is ready ----

  predicate Ready(r: Result<Report, Failure>) {
    r.Ok? && r.value.ready
  }

  predicate Sound(k: Kind) {
    !k.Stale? && !k.Escaped?
  }

  lemma SoundStep(l: Limits, c: Cache, r: Request)
    requires LimitsOk(l) && Allowlisted(r.query)
    ensures var (after, answer) := Respond(l, c, r);
            && c.staleHits <= after.staleHits
            && (Sound(Classify(l, c, r)) <==> answer.Ok? && after.staleHits == c.staleHits)
  {
  }

  /** The store's file for the incident is a valid receipt over these answers. */
  predicate ReceiptClears(h: Host, s: Store, incident: string, replication: Result<Json, Fault>, cloud: Result<Json, Fault>) {
    && replication.Ok? && cloud.Ok? && s.governed && s.file.Some? && s.file.value.Obj?
    && ReceiptValid(h, TasksRead(h, replication.value, cloud.value), s.file.value.m, incident)
    && "verified_at" in s.file.value.m
  }

  lemma ProvidedExactlyWhen(h: Host, tasks: seq<Task>, s: Store, incident: string)
    ensures var p := Provide(h, tasks, Load(h, s, incident), incident);
            p.Ok? && p.value.verified <==>
              s.governed && s.file.Some? && s.file.value.Obj? && ReceiptValid(h, tasks, s.file.value.m, incident)
              && "verified_at" in s.file.value.m
  {
    hide Text;
    hide Matching;
    hide ClaimedDigest;
    hide Unsigned;
  }

  /** And it raises exactly when that receipt is valid but carries no verification time. */
  lemma ProvideRaisesExactlyWhen(h: Host, tasks: seq<Task>, s: Store, incident: string)
    ensures Provide(h, tasks, Load(h, s, incident), incident) == Err(KeyError) <==>
              s.governed && s.file.Some? && s.file.value.Obj? && ReceiptValid(h, tasks, s.file.value.m, incident)
              && "verified_at" !in s.file.value.m
  {
    hide Text;
    hide Matching;
    hide ClaimedDigest;
    hide Unsigned;
  }

  lemma TasksReadyExactlyWhen(h: Host, l: Limits, c: Cache, w: World, s: Store, incident: string, staleBefore: nat)
    requires LimitsOk(l) && staleBefore <= c.staleHits
    ensures Ready(ObserveTasks(h, l, c, w, s, incident, staleBefore).1) <==>
            var (c1, replication) := Ask(l, c, w, REPLICATION);
            var (c2, cloud) := Ask(l, c1, w, CLOUD);
            && c.staleHits == staleBefore
            && Sound(Classify(l, c, Question(w, REPLICATION)))
            && Sound(Classify(l, c1, Question(w, CLOUD)))
            && ReceiptClears(h, s, incident, replication, cloud)
  {
    hide Respond;
    hide Classify;
    hide TasksOf;
    hide Provide;
    hide Load;
    hide ReceiptValid;
    hide Sound;
    var (c1, replication) := Ask(l, c, w, REPLICATION);
    var (c2, cloud) := Ask(l, c1, w, CLOUD);
    SoundStep(l, c, Question(w, REPLICATION));
    SoundStep(l, c1, Question(w, CLOUD));
    if replication.Ok? && cloud.Ok? {
      ProvidedExactlyWhen(h, TasksRead(h, replication.value, cloud.value), s, incident);
    }
  }

  /** Ready exactly when no answer of this observation was stale or failed to come,
      the session's roles are cleared, the store is governed, and its file for the
      incident is a valid receipt over the tasks just read. */
  lemma ReadyExactlyWhen(h: Host, l: Limits, c: Cache, w: World, s: Store, incident: string, withVersion: bool)
    requires LimitsOk(l)
    ensures Ready(ObserveRuntime(h, l, c, w, s, incident, withVersion).1) <==>
            var (c1, me) := Ask(l, c, w, AUTH);
            var c2 := if withVersion then Ask(l, c1, w, VERSION).0 else c1;
            var (c3, replication) := Ask(l, c2, w, REPLICATION);
            var (c4, cloud) := Ask(l, c3, w, CLOUD);
            && Sound(Classify(l, c, Question(w, AUTH)))
            && (withVersion ==> Sound(Classify(l, c1, Question(w, VERSION))))
            && Sound(Classify(l, c2, Question(w, REPLICATION)))
            && Sound(Classify(l, c3, Question(w, CLOUD)))
            && me.Ok? && VerifyRoles(h, me.value) == Cleared
            && ReceiptClears(h, s, incident, replication, cloud)
  {
    hide Respond;
    hide Classify;
    hide VerifyRoles;
    hide ObserveTasks;
    hide Sound;
    var (c1, me) := Ask(l, c, w, AUTH);
    var c2 := if withVersion then Ask(l, c1, w, VERSION).0 else c1;
    SoundStep(l, c, Question(w, AUTH));
    if withVersion { SoundStep(l, c1, Question(w, VERSION)); }
    TasksReadyExactlyWhen(h, l, c2, w, s, incident, c.staleHits);
  }

  /** The whole observation raises on the receipt exactly when it gets as far as a valid
      receipt that carries no verification time. */
  lemma ObservationRaisesExactlyWhen(h: Host, l: Limits, c: Cache, w: World, s: Store, incident: string, withVersion: bool)
    requires LimitsOk(l)
    ensures ObserveRuntime(h, l, c, w, s, incident, withVersion).1 == Err(KeyError) <==>
            var (c1, me) := Ask(l, c, w, AUTH);
            var (c2, version) := if withVersion then Ask(l, c1, w, VERSION) else (c1, Ok(Null));
            var (c3, replication) := Ask(l, c2, w, REPLICATION);
            var (c4, cloud) := Ask(l, c3, w, CLOUD);
            && me.Ok? && VerifyRoles(h, me.value) == Cleared && version.Ok? && replication.Ok? && cloud.Ok?
            && s.governed && s.file.Some? && s.file.value.Obj?
            && ReceiptValid(h, TasksRead(h, replication.value, cloud.value), s.file.value.m, incident)
            && "verified_at" !in s.file.value.m
  {
    hide Respond;
    hide VerifyRoles;
    hide TasksOf;
    hide Provide;
    hide Load;
    hide ReceiptValid;
    var (c1, me) := Ask(l, c, w, AUTH);
    var c2 := if withVersion then Ask(l, c1, w, VERSION).0 else c1;
    var (c3, replication) := Ask(l, c2, w, REPLICATION);
    var (c4, cloud) := Ask(l, c3, w, CLOUD);
    if replication.Ok? && cloud.Ok? {
      ProvideRaisesExactlyWhen(h, TasksRead(h, replication.value, cloud.value), s, incident);
    }
  }

  // ---- Which sessions are cleared ----

  /** The answer lists its roles: an item of `privilege.roles` reads as this one. */
  ghost predicate Lists(identity: Json, role: string, printer: Printer) {
    && identity.Obj? && "privilege" in identity.m && identity.m["privilege"].Obj?
    && "roles" in identity.m["privilege"].m && identity.m["privilege"].m["roles"].Arr?
    && var items := identity.m["privilege"].m["roles"].a;
       exists i :: 0 <= i < |items| && Text(items[i], printer) == role
  }

  /** The three required roles are listed, and none that is unrestricted or writes. */
  ghost predicate ReadOnlySession(identity: Json, printer: Printer) {
    && Lists(identity, "READONLY_ADMIN", printer)
    && Lists(identity, "REPLICATION_TASK_READ", printer)
    && Lists(identity, "CLOUD_BACKUP_READ", printer)
    && forall role :: Lists(identity, role, printer) ==> Harmless(role)
  }

  ghost predicate Harmless(role: string) {
    && role !in {"FULL_ADMIN", "SHARING_ADMIN", "REPLICATION_ADMIN", "FILESYSTEM_FULL_CONTROL"}
    && (forall front: string :: role != front + "_WRITE") && (forall front: string :: role != front + "_DELETE")
  }

  lemma HarmlessExactlyWhen(role: string)
    ensures Harmless(role) <==> !Forbidden(role)
  {
    EndsWithMeans(role, "_WRITE");
    EndsWithMeans(role, "_DELETE");
  }

  lemma RoleListed(h: Host, identity: Json, role: string)
    requires role != ""
    ensures role in Roles(h, identity) <==> Lists(identity, role, h.printer)
  {
    hide Text;
  }

  lemma ListingIsTruthy(identity: Json, role: string, printer: Printer)
    ensures Lists(identity, role, printer) ==> Truthy(identity)
  {
    hide Text;
  }

  lemma BlankIsHarmless()
    ensures Harmless("")
  {
  }

  lemma NoneForbidden(h: Host, identity: Json)
    ensures (forall role :: role in Roles(h, identity) ==> !Forbidden(role))
       <==> forall role :: Lists(identity, role, h.printer) ==> Harmless(role)
  {
    assert "" !in Roles(h, identity);
    BlankIsHarmless();
    forall role
      ensures Harmless(role) <==> !Forbidden(role)
      ensures role != "" ==> (role in Roles(h, identity) <==> Lists(identity, role, h.printer))
    {
      HarmlessExactlyWhen(role);
      if role != "" { RoleListed(h, identity, role); }
    }
    hide Forbidden;
    hide Harmless;
    hide Lists;
    hide Roles;
  }

  lemma RequiredListed(h: Host, identity: Json)
    ensures REQUIRED_ROLES <= Roles(h, identity) <==>
            "READONLY_ADMIN" in Roles(h, identity) && "REPLICATION_TASK_READ" in Roles(h, identity)
            && "CLOUD_BACKUP_READ" in Roles(h, identity)
  {
    hide Roles;
  }

  /** A session is cleared exactly when it is read-only in that sense. */
  lemma SessionClearedExactlyWhen(h: Host, identity: Json)
    ensures VerifyRoles(h, identity) == Cleared <==> ReadOnlySession(identity, h.printer)
    ensures VerifyRoles(h, identity) == AuthUnavailable <==> !Truthy(identity)
  {
    RequiredListed(h, identity);
    NoneForbidden(h, identity);
    RoleListed(h, identity, "READONLY_ADMIN");
    RoleListed(h, identity, "REPLICATION_TASK_READ");
    RoleListed(h, identity, "CLOUD_BACKUP_READ");
    ListingIsTruthy(identity, "READONLY_ADMIN", h.printer);
    hide Lists;
    hide Harmless;
    hide Forbidden;
    hide Roles;
    hide Truthy;
  }

  /** Whatever the cache held, an observation that reports ready has read an identity
      answer of a read-only session. */
  lemma ReadySessionIsReadOnly(h: Host, l: Limits, c: Cache, w: World, s: Store, incident: string, withVersion: bool)
    requires LimitsOk(l) && Ready(ObserveRuntime(h, l, c, w, s, incident, withVersion).1)
    ensures var me := Respond(l, c, Request(Query("auth.me", []), w(Query("auth.me", [])).0, w(Query("auth.me", [])).1)).1;
            me.Ok? && ReadOnlySession(me.value, h.printer)
  {
    ReadyExactlyWhen(h, l, c, w, s, incident, withVersion);
    hide ObserveRuntime;
    hide Respond;
    hide Classify;
    hide VerifyRoles;
    hide ReadOnlySession;
    hide ReceiptClears;
    SessionClearedExactlyWhen(h, Ask(l, c, w, AUTH).1.value);
  }

  /** The gates ahead of the task queries, in their order: nothing further is asked
      behind one that holds. */
  lemma HeldExactly(h: Host, l: Limits, c: Cache, w: World, s: Store, incident: string, withVersion: bool)
    requires LimitsOk(l)
    ensures var (c1, me) := Ask(l, c, w, AUTH);
            var (c2, version) := if withVersion then Ask(l, c1, w, VERSION) else (c1, Ok(Null));
            var outcome := ObserveRuntime(h, l, c, w, s, incident, withVersion);
            if me.Err? then outcome == (c1, Err(CacheFault(me.error)))
            else if !ReadOnlySession(me.value, h.printer)
            then outcome.0 == c1 && outcome.1 == Ok(Held(VerifyRoles(h, me.value))) && !Ready(outcome.1)
            else if version.Err? then outcome == (c2, Err(CacheFault(version.error)))
            else if !s.governed then outcome == (c2, Ok(Report(false, Observation([], false, StoreUngoverned, None))))
            else outcome == ObserveTasks(h, l, c2, w, s, incident, c.staleHits)
  {
    hide Respond;
    hide ReadOnlySession;
    hide VerifyRoles;
    hide ObserveTasks;
    var me := Ask(l, c, w, AUTH).1;
    if me.Ok? { SessionClearedExactlyWhen(h, me.value); }
  }

  // ---- Ready means fresh, over whole runs ----

  function Questions(w: World, withVersion: bool): seq<Request> {
    [Question(w, AUTH)] + (if withVersion then [Question(w, VERSION)] else [])
    + [Question(w, REPLICATION), Question(w, CLOUD)]
  }

  /** Given by the delegate in this very call, or by its latest success for the same
      call less than the time to live ago, or no answer at all. */
  predicate FreshAnswer(l: Limits, earlier: seq<Request>, r: Request)
    requires LimitsOk(l)
  {
    var fetched := LatestAnswer(History(l, earlier), r.query);
    var answer := Respond(l, After(l, earlier), r).1;
    answer.Ok? &&
    (|| answer.value == Null
     || r.outcome == Returned(answer.value)
     || (fetched.Some? && fetched.value.0 == answer.value && 0.0 <= r.at - fetched.value.1 < l.ttl))
  }

  lemma SoundIsFresh(l: Limits, earlier: seq<Request>, r: Request)
    requires LimitsOk(l) && Allowlisted(r.query) && Sound(Classify(l, After(l, earlier), r))
    ensures FreshAnswer(l, earlier, r)
  {
    hide After;
    hide History;
    ServedAnswersAreTheLatest(l, earlier, r);
  }

  lemma AfterSnoc(l: Limits, requests: seq<Request>, r: Request)
    requires LimitsOk(l)
    ensures After(l, requests + [r]) == Respond(l, After(l, requests), r).0
  {
    assert (requests + [r])[..|requests|] == requests;
  }

  /** The state of the cache when the k-th question of an observation is asked. */
  function StateAt(l: Limits, c: Cache, asked: seq<Request>, k: nat): Cache
    requires LimitsOk(l) && k <= |asked|
  {
    if k == 0 then c else Respond(l, StateAt(l, c, asked, k - 1), asked[k - 1]).0
  }

  lemma {:induction false} StateAtAfter(l: Limits, requests: seq<Request>, asked: seq<Request>, k: nat)
    requires LimitsOk(l) && k <= |asked|
    ensures StateAt(l, After(l, requests), asked, k) == After(l, requests + asked[..k])
  {
    hide Respond;
    if k == 0 {
      assert requests + asked[..0] == requests;
    } else {
      StateAtAfter(l, requests, asked, k - 1);
      AfterSnoc(l, requests + asked[..k - 1], asked[k - 1]);
      assert requests + asked[..k] == requests + asked[..k - 1] + [asked[k - 1]];
    }
  }

  lemma StatesOf(l: Limits, c: Cache, w: World, withVersion: bool)
    requires LimitsOk(l)
    ensures var asked := Questions(w, withVersion);
            var c1 := Ask(l, c, w, AUTH).0;
            var c2 := if withVersion then Ask(l, c1, w, VERSION).0 else c1;
            var before := if withVersion then 2 else 1;
            && StateAt(l, c, asked, 0) == c && StateAt(l, c, asked, 1) == c1
            && StateAt(l, c, asked, before) == c2
            && StateAt(l, c, asked, before + 1) == Ask(l, c2, w, REPLICATION).0
  {
    hide Respond;
    var asked := Questions(w, withVersion);
    assert StateAt(l, c, asked, 1) == Respond(l, c, asked[0]).0;
    if withVersion {
      assert StateAt(l, c, asked, 2) == Respond(l, StateAt(l, c, asked, 1), asked[1]).0;
    }
  }

  lemma ReadyQuestionsSound(
      h: Host, l: Limits, c: Cache, w: World, s: Store, incident: string, withVersion: bool, k: nat)
    requires LimitsOk(l) && Ready(ObserveRuntime(h, l, c, w, s, incident, withVersion).1)
    requires k < |Questions(w, withVersion)|
    ensures Sound(Classify(l, StateAt(l, c, Questions(w, withVersion), k), Questions(w, withVersion)[k]))
  {
    ReadyExactlyWhen(h, l, c, w, s, incident, withVersion);
    StatesOf(l, c, w, withVersion);
    hide Respond;
    hide Classify;
    hide Sound;
    hide ObserveRuntime;
    hide ReceiptClears;
    hide VerifyRoles;
    hide StateAt;
    var asked := Questions(w, withVersion);
    if k == 0 {
      assert asked[0] == Question(w, AUTH);
    } else if k == |asked| - 1 {
      assert asked[k] == Question(w, CLOUD);
    } else if k == |asked| - 2 {
      assert asked[k] == Question(w, REPLICATION);
    } else {
      assert k == 1 && withVersion && asked[k] == Question(w, VERSION);
    }
  }

  /** After any earlier traffic, an observation that reports ready used only fresh
      answers: for the roles, the platform version and both task queries. */
  lemma ReadyUsesOnlyFreshAnswers(
      h: Host, l: Limits, requests: seq<Request>, w: World, s: Store, incident: string, withVersion: bool, k: nat)
    requires LimitsOk(l) && Ready(ObserveRuntime(h, l, After(l, requests), w, s, incident, withVersion).1)
    requires k < |Questions(w, withVersion)|
    ensures FreshAnswer(l, requests + Questions(w, withVersion)[..k], Questions(w, withVersion)[k])
  {
    hide Respond;
    hide Classify;
    hide ObserveRuntime;
    hide FreshAnswer;
    var asked := Questions(w, withVersion);
    ReadyQuestionsSound(h, l, After(l, requests), w, s, incident, withVersion, k);
    StateAtAfter(l, requests, asked, k);
    SoundIsFresh(l, requests + asked[..k], asked[k]);
  }

  // ---- Receipts ----

  lemma {:induction false} OneMatchExactlyWhen(h: Host, tasks: seq<Task>, receipt: Receipt)
    ensures |Matching(h, tasks, receipt)| == 1 <==>
            exists i :: 0 <= i < |tasks| && Matches(h, tasks[i], receipt)
                        && (forall j :: 0 <= j < |tasks| && Matches(h, tasks[j], receipt) ==> j == i)
                        && Matching(h, tasks, receipt) == [tasks[i]]
    ensures Matching(h, tasks, receipt) == [] <==> forall j :: 0 <= j < |tasks| ==> !Matches(h, tasks[j], receipt)
  {
    hide Matches;
    if tasks != [] {
      var last := |tasks| - 1;
      OneMatchExactlyWhen(h, tasks[..last], receipt);
      assert forall j :: 0 <= j < last ==> tasks[..last][j] == tasks[j];
      if Matches(h, tasks[last], receipt) && Matching(h, tasks[..last], receipt) == [] {
        assert Matching(h, tasks, receipt) == [tasks[last]];
      } else if |Matching(h, tasks, receipt)| == 1 {
        var i :| 0 <= i < last && Matches(h, tasks[..last][i], receipt)
                 && (forall j :: 0 <= j < last && Matches(h, tasks[..last][j], receipt) ==> j == i)
                 && Matching(h, tasks[..last], receipt) == [tasks[..last][i]];
        assert Matching(h, tasks, receipt) == [tasks[i]];
      }
    }
  }

  /** The first of two fields that says anything, or else the second. */
  function FirstOf(m: map<string, Json>, a: string, b: string): Json {
    if a in m && Truthy(m[a]) then m[a] else if b in m then m[b] else Null
  }

  /** The state a task reports: its own, or one nested in it, or that of its job. */
  function ReportedState(task: map<string, Json>): Json {
    var own := if "state" !in task then Null
               else if task["state"].Obj? then FirstOf(task["state"].m, "state", "status")
               else task["state"];
    if Truthy(own) then own
    else if "job" in task && task["job"].Obj? then FirstOf(task["job"].m, "state", "status")
    else Null
  }

  function ScopeOf(task: map<string, Json>): Json {
    if "path" in task && Truthy(task["path"]) then task["path"]
    else if "source_datasets" in task && task["source_datasets"].Arr? && task["source_datasets"].a != []
    then task["source_datasets"].a[0]
    else Null
  }

  lemma StateReported(h: Host, task: map<string, Json>)
    ensures TaskState(h, task) == h.upper(Text(ReportedState(task), h.printer))
  {
    hide Text;
    hide Truthy;
    assert !Truthy(Null) by { FalsyExactlyWhen(Null); }
  }

  /** What is kept of a middleware task. */
  lemma TaskReads(h: Host, endpoint: string, task: map<string, Json>)
    ensures var state := h.upper(Text(ReportedState(task), h.printer));
            TaskOf(h, endpoint, task)
            == Task(endpoint, if "id" in task then task["id"] else Null, FirstOf(task, "name", "description"),
                    ScopeOf(task), "enabled" in task && task["enabled"] == Bool(true),
                    if state == "" then "UNKNOWN" else state)
  {
    StateReported(h, task);
    hide TaskState;
    hide Text;
    hide ReportedState;
    hide Truthy;
    assert !Truthy(Null) by { FalsyExactlyWhen(Null); }
  }

  /** A middleware task that bears out a receipt: enabled, finished with success, and of
      the receipt's identifier. */
  predicate BearsOut(h: Host, item: Json, receipt: Receipt) {
    && item.Obj?
    && "enabled" in item.m && item.m["enabled"] == Bool(true)
    && h.upper(Text(ReportedState(item.m), h.printer)) in {"SUCCESS", "FINISHED"}
    && PyEq(Get(item.m, "id"), Get(receipt, "task_id"))
  }

  function Bearing(h: Host, endpoint: string, items: seq<Json>, receipt: Receipt): seq<Task> {
    if items == [] then []
    else
      var last := items[|items| - 1];
      Bearing(h, endpoint, items[..|items| - 1], receipt)
      + if BearsOut(h, last, receipt) then [TaskOf(h, endpoint, last.m)] else []
  }

  lemma MatchIsBearing(h: Host, endpoint: string, item: Json, receipt: Receipt)
    requires item.Obj?
    ensures Matches(h, TaskOf(h, endpoint, item.m), receipt)
       <==> Text(Get(receipt, "method"), h.printer) == endpoint && BearsOut(h, item, receipt)
    ensures TaskOf(h, endpoint, item.m).scope == ScopeOf(item.m)
  {
    TaskReads(h, endpoint, item.m);
    hide TaskOf;
    hide Text;
    hide ReportedState;
    hide ScopeOf;
    hide FirstOf;
    hide PyEq;
  }

  lemma MatchingSnoc(h: Host, tasks: seq<Task>, t: Task, receipt: Receipt)
    ensures Matching(h, tasks + [t], receipt) == Matching(h, tasks, receipt) + if Matches(h, t, receipt) then [t] else []
  {
    assert (tasks + [t])[..|tasks|] == tasks;
  }

  lemma {:induction false} MatchingAppend(h: Host, early: seq<Task>, late: seq<Task>, receipt: Receipt)
    ensures Matching(h, early + late, receipt) == Matching(h, early, receipt) + Matching(h, late, receipt)
  {
    hide Matches;
    if late == [] {
      assert early + late == early;
    } else {
      var last := |late| - 1;
      MatchingAppend(h, early, late[..last], receipt);
      assert early + late == early + late[..last] + [late[last]] && late == late[..last] + [late[last]];
      MatchingSnoc(h, early + late[..last], late[last], receipt);
      MatchingSnoc(h, late[..last], late[last], receipt);
    }
  }

  lemma {:induction false} MatchingIsBearing(h: Host, endpoint: string, items: seq<Json>, receipt: Receipt)
    ensures Matching(h, TasksOf(h, endpoint, items), receipt)
         == if Text(Get(receipt, "method"), h.printer) == endpoint then Bearing(h, endpoint, items, receipt) else []
  {
    hide Matches;
    hide BearsOut;
    hide TaskOf;
    hide Text;
    if items != [] {
      var last := items[|items| - 1];
      var before := TasksOf(h, endpoint, items[..|items| - 1]);
      MatchingIsBearing(h, endpoint, items[..|items| - 1], receipt);
      if last.Obj? {
        MatchIsBearing(h, endpoint, last, receipt);
        MatchingSnoc(h, before, TaskOf(h, endpoint, last.m), receipt);
      } else {
        assert before + [] == before;
        NotAnItem(h, last, receipt);
      }
    }
  }

  lemma NotAnItem(h: Host, item: Json, receipt: Receipt)
    ensures BearsOut(h, item, receipt) ==> item.Obj?
  {
  }

  /** The only index that bears out the receipt. */
  predicate OnlyOne(h: Host, items: seq<Json>, receipt: Receipt, i: nat) {
    && i < |items| && items[i].Obj? && BearsOut(h, items[i], receipt)
    && forall j :: 0 <= j < |items| && BearsOut(h, items[j], receipt) ==> j == i
  }

  lemma {:induction false} OneBearing(h: Host, endpoint: string, items: seq<Json>, receipt: Receipt)
    ensures Bearing(h, endpoint, items, receipt) == [] <==> forall j :: 0 <= j < |items| ==> !BearsOut(h, items[j], receipt)
    ensures |Bearing(h, endpoint, items, receipt)| == 1 ==> exists i: nat :: OnlyOne(h, items, receipt, i)
    ensures forall i: nat :: OnlyOne(h, items, receipt, i) ==>
              Bearing(h, endpoint, items, receipt) == [TaskOf(h, endpoint, items[i].m)]
  {
    hide BearsOut;
    hide TaskOf;
    if items != [] {
      var last := |items| - 1;
      var before := items[..last];
      OneBearing(h, endpoint, before, receipt);
      assert forall j :: 0 <= j < last ==> before[j] == items[j];
      NotAnItem(h, items[last], receipt);
      if |Bearing(h, endpoint, items, receipt)| == 1 {
        if Bearing(h, endpoint, before, receipt) == [] {
          assert OnlyOne(h, items, receipt, last);
        } else {
          var i: nat :| OnlyOne(h, before, receipt, i);
          assert OnlyOne(h, items, receipt, i);
        }
      }
      forall i: nat | OnlyOne(h, items, receipt, i)
        ensures Bearing(h, endpoint, items, receipt) == [TaskOf(h, endpoint, items[i].m)]
      {
        if i == last {
          assert Bearing(h, endpoint, before, receipt) == [];
        } else {
          assert OnlyOne(h, before, receipt, i);
        }
      }
    }
  }

  lemma MatchingRead(h: Host, receipt: Receipt, replication: Json, cloud: Json)
    requires Text(Get(receipt, "method"), h.printer) in RECEIPT_METHODS
    ensures Matching(h, TasksRead(h, replication, cloud), receipt)
         == Bearing(h, Text(Get(receipt, "method"), h.printer), AnswerFor(h, receipt, replication, cloud), receipt)
  {
    hide Matching;
    hide Bearing;
    hide TasksOf;
    hide Text;
    MatchingAppend(h, TasksOf(h, REPLICATION.endpoint, ListOrEmpty(replication)),
                   TasksOf(h, CLOUD.endpoint, ListOrEmpty(cloud)), receipt);
    MatchingIsBearing(h, REPLICATION.endpoint, ListOrEmpty(replication), receipt);
    MatchingIsBearing(h, CLOUD.endpoint, ListOrEmpty(cloud), receipt);
  }

  /** The answer that a receipt's method names. */
  function AnswerFor(h: Host, receipt: Receipt, replication: Json, cloud: Json): seq<Json> {
    ListOrEmpty(if Text(Get(receipt, "method"), h.printer) == "replication.query" then replication else cloud)
  }

  predicate OneTaskBears(h: Host, receipt: Receipt, replication: Json, cloud: Json) {
    var items := AnswerFor(h, receipt, replication, cloud);
    && Text(Get(receipt, "method"), h.printer) in {"replication.query", "cloud_backup.query"}
    && exists i: nat | i < |items| ::
         && OnlyOne(h, items, receipt, i)
         && Text(ScopeOf(items[i].m), h.printer) == Text(Get(receipt, "scope"), h.printer) != ""
  }

  /** One task matches and its scope is the receipt's, exactly when one item of the
      answer that the receipt names bears it out. */
  lemma FitsExactlyWhen(h: Host, receipt: Receipt, replication: Json, cloud: Json)
    ensures var matching := Matching(h, TasksRead(h, replication, cloud), receipt);
            && Text(Get(receipt, "method"), h.printer) in RECEIPT_METHODS && |matching| == 1
            && Text(matching[0].scope, h.printer) == Text(Get(receipt, "scope"), h.printer) != ""
            <==> OneTaskBears(h, receipt, replication, cloud)
  {
    hide TasksRead;
    hide Matching;
    hide Bearing;
    hide OnlyOne;
    hide BearsOut;
    hide Text;
    hide ScopeOf;
    hide AnswerFor;
    hide TaskOf;
    var endpoint := Text(Get(receipt, "method"), h.printer);
    var items := AnswerFor(h, receipt, replication, cloud);
    if endpoint in RECEIPT_METHODS {
      MatchingRead(h, receipt, replication, cloud);
      OneBearing(h, endpoint, items, receipt);
      forall i: nat | OnlyOne(h, items, receipt, i)
        ensures i < |items| && items[i].Obj? && TaskOf(h, endpoint, items[i].m).scope == ScopeOf(items[i].m)
      {
        OnlyOneIsAnItem(h, items, receipt, i);
        MatchIsBearing(h, endpoint, items[i], receipt);
      }
    }
  }

  lemma OnlyOneIsAnItem(h: Host, items: seq<Json>, receipt: Receipt, i: nat)
    requires OnlyOne(h, items, receipt, i)
    ensures i < |items| && items[i].Obj?
  {
    hide BearsOut;
  }

  /** A number that is at least one once cut down to an integer. */
  predicate AtLeastOne(h: Host, v: Json) {
    match v
    case Int(i) => i >= 1
    case Real(r) => r >= 1.0
    case Str(s) => h.parseInt(s).Some? && h.parseInt(s).value >= 1
    case _ => false
  }

  /** What the fields of a clearing receipt say. */
  predicate ReceiptSays(h: Host, receipt: Receipt, incident: string) {
    && Has(receipt, "schema", Str("truepanel.restore-verification/v1"))
    && Text(Get(receipt, "incident_id"), h.printer) == Strip(incident)
    && "task_id" in receipt && (receipt["task_id"].Int? || receipt["task_id"].Bool?)
    && Text(Get(receipt, "restore_test_id"), h.printer) != ""
    && Has(receipt, "result", Str("PASS"))
    && "objects_verified" in receipt && AtLeastOne(h, receipt["objects_verified"])
    && Has(receipt, "read_only_observation", Bool(true))
    && Has(receipt, "control_authority", Bool(false))
    && h.lower(Text(Get(receipt, "evidence_sha256"), h.printer))
       == h.digest(map key | key in receipt && key != "evidence_sha256" :: receipt[key])
  }

  lemma CountIsPositive(h: Host, receipt: Receipt)
    ensures var count := Integer(h, Get(receipt, "objects_verified"));
            count.Some? && count.value > 0 <==> "objects_verified" in receipt && AtLeastOne(h, receipt["objects_verified"])
  {
  }

  lemma IncidentText(incident: string, printer: Printer)
    ensures Text(Str(incident), printer) == Strip(incident)
  {
  }

  lemma UnsignedIs(receipt: Receipt)
    ensures Unsigned(receipt) == map key | key in receipt && key != "evidence_sha256" :: receipt[key]
  {
  }

  /** A receipt is valid over two answers exactly when its fields say so and one item bears it out. */
  lemma ReceiptValidExactlyWhen(h: Host, receipt: Receipt, incident: string, replication: Json, cloud: Json)
    ensures ReceiptValid(h, TasksRead(h, replication, cloud), receipt, incident)
       <==> ReceiptSays(h, receipt, incident) && OneTaskBears(h, receipt, replication, cloud)
  {
    HasExactlyWhen(receipt, "schema", Str(SCHEMA));
    HasExactlyWhen(receipt, "result", Str("PASS"));
    HasExactlyWhen(receipt, "read_only_observation", Bool(true));
    HasExactlyWhen(receipt, "control_authority", Bool(false));
    CountIsPositive(h, receipt);
    IncidentText(incident, h.printer);
    UnsignedIs(receipt);
    FitsExactlyWhen(h, receipt, replication, cloud);
    hide Has;
    hide Integer;
    hide AtLeastOne;
    hide OneTaskBears;
    hide Matching;
    hide TasksRead;
    hide Text;
    hide Strip;
    hide Unsigned;
  }

  /** The receipt half of readiness, in the fields of the receipt and of the two answers. */
  lemma ClearsExactlyWhen(h: Host, s: Store, incident: string, replication: Result<Json, Fault>, cloud: Result<Json, Fault>)
    ensures ReceiptClears(h, s, incident, replication, cloud) <==>
            && replication.Ok? && cloud.Ok? && s.governed && s.file.Some? && s.file.value.Obj?
            && ReceiptSays(h, s.file.value.m, incident)
            && OneTaskBears(h, s.file.value.m, replication.value, cloud.value)
            && "verified_at" in s.file.value.m
  {
    hide ReceiptSays;
    hide OneTaskBears;
    hide ReceiptValid;
    hide TasksRead;
    if replication.Ok? && cloud.Ok? && s.file.Some? && s.file.value.Obj? {
      ReceiptValidExactlyWhen(h, s.file.value.m, incident, replication.value, cloud.value);
    }
  }

  /** A ready observation has read, in the answer to the receipt's method, exactly one
      enabled successful task of the receipt's identifier, and its scope is the receipt's;
      it reports the receipt's own fields. */
  lemma ReadyHasExactlyOneTask(h: Host, l: Limits, c: Cache, w: World, s: Store, incident: string, withVersion: bool)
    requires LimitsOk(l) && Ready(ObserveRuntime(h, l, c, w, s, incident, withVersion).1)
    ensures var c1 := Ask(l, c, w, AUTH).0;
            var c2 := if withVersion then Ask(l, c1, w, VERSION).0 else c1;
            var (c3, replication) := Ask(l, c2, w, REPLICATION);
            var (c4, cloud) := Ask(l, c3, w, CLOUD);
            && replication.Ok? && cloud.Ok? && s.file.Some? && s.file.value.Obj?
            && ReceiptSays(h, s.file.value.m, incident)
            && OneTaskBears(h, s.file.value.m, replication.value, cloud.value)
  {
    ReadyExactlyWhen(h, l, c, w, s, incident, withVersion);
    hide Respond;
    hide ObserveRuntime;
    hide OneTaskBears;
    hide ReceiptSays;
    hide ReceiptClears;
    var c1 := Ask(l, c, w, AUTH).0;
    var c2 := if withVersion then Ask(l, c1, w, VERSION).0 else c1;
    var (c3, replication) := Ask(l, c2, w, REPLICATION);
    ClearsExactlyWhen(h, s, incident, replication, Ask(l, c3, w, CLOUD).1);
  }

  /** The outcome of the receipt step in full: what is reported besides the tasks read. */
  lemma ProvidedExactly(h: Host, tasks: seq<Task>, s: Store, incident: string)
    ensures var p := Provide(h, tasks, Load(h, s, incident), incident);
            var found := s.governed && s.file.Some? && s.file.value.Obj?
                         && Text(Get(s.file.value.m, "incident_id"), h.printer) == Strip(incident);
            && (p.Ok? ==> p.value.tasks == tasks)
            && (p.Err? ==> p.error == KeyError)
            && (!found ==> p == Ok(Observation(tasks, false, NoRestoreTest, None)))
            && (found && !ReceiptValid(h, tasks, s.file.value.m, incident) ==>
                  p == Ok(Observation(tasks, false, ReceiptInvalid, None)))
            && (p.Ok? && p.value.verified ==>
                  var receipt := s.file.value.m;
                  && found && "verified_at" in receipt && p.value.hold == Cleared
                  && p.value.context
                     == Some(Context(Get(receipt, "restore_test_id"), Get(receipt, "scope"),
                                     Text(Get(receipt, "method"), h.printer), Get(receipt, "task_id"),
                                     receipt["verified_at"],
                                     h.digest(map key | key in receipt && key != "evidence_sha256" :: receipt[key]))))
  {
    IncidentText(incident, h.printer);
    if s.file.Some? && s.file.value.Obj? { UnsignedIs(s.file.value.m); }
    hide Text;
    hide Strip;
    hide Matching;
    hide Unsigned;
  }

  /** How an observation that was held concludes: the stale rule comes before the receipt. */
  lemma ConcludedExactly(h: Host, l: Limits, c: Cache, w: World, s: Store, incident: string, staleBefore: nat)
    requires LimitsOk(l)
    ensures var (c1, replication) := Ask(l, c, w, REPLICATION);
            var (c2, cloud) := Ask(l, c1, w, CLOUD);
            var (after, report) := ObserveTasks(h, l, c, w, s, incident, staleBefore);
            && after == (if replication.Ok? then c2 else c1)
            && (replication.Err? ==> report == Err(CacheFault(replication.error)))
            && (replication.Ok? && cloud.Err? ==> report == Err(CacheFault(cloud.error)))
            && (replication.Ok? && cloud.Ok? ==>
                  var p := Provide(h, TasksRead(h, replication.value, cloud.value), Load(h, s, incident), incident);
                  && (report.Ok? <==> p.Ok?) && (report.Err? ==> report.error == p.error)
                  && (report.Ok? ==>
                        && report.value.observation.tasks == p.value.tasks
                        && (c2.staleHits > staleBefore ==>
                              !report.value.ready && report.value.observation.hold == StaleEvidence
                              && !report.value.observation.verified && report.value.observation.context == None)
                        && (c2.staleHits <= staleBefore ==>
                              report.value.ready == p.value.verified && report.value.observation == p.value)))
  {
    hide Provide;
    hide Load;
    hide Respond;
    hide TasksRead;
    var (c1, replication) := Ask(l, c, w, REPLICATION);
    var (c2, cloud) := Ask(l, c1, w, CLOUD);
    var (after, report) := ObserveTasks(h, l, c, w, s, incident, staleBefore);
    if replication.Ok? && cloud.Ok? {
      var p := Provide(h, TasksRead(h, replication.value, cloud.value), Load(h, s, incident), incident);
      if report.Ok? {
        assert report.value == Conclude(p.value, c2.staleHits > staleBefore);
      }
    }
  }

  /** A receipt as the verification tool issues it. */
  function Issue(h: Host, incident: string, endpoint: string, taskId: int, scope: string, testId: string,
                 verifiedAt: float, objects: int): Receipt
  {
    var body := Body(h, incident, endpoint, taskId, scope, testId, verifiedAt, objects);
    body["evidence_sha256" := Str(h.digest(body))]
  }

  function Body(h: Host, incident: string, endpoint: string, taskId: int, scope: string, testId: string,
                verifiedAt: float, objects: int): Receipt
  {
    map["schema" := Str(SCHEMA),
        "incident_id" := Str(Text(Str(incident), h.printer)),
        "method" := Str(Text(Str(endpoint), h.printer)),
        "task_id" := Int(taskId),
        "scope" := Str(Text(Str(scope), h.printer)),
        "restore_test_id" := Str(Text(Str(testId), h.printer)),
        "verified_at" := Real(verifiedAt),
        "result" := Str("PASS"),
        "objects_verified" := Int(objects),
        "read_only_observation" := Bool(true),
        "control_authority" := Bool(false)]
  }

  lemma TextTwice(s: string, printer: Printer)
    ensures Text(Str(Text(Str(s), printer)), printer) == Text(Str(s), printer)
  {
    StripTwice(s);
  }

  /** Digests print as lower-case hexadecimal. */
  predicate PlainDigest(h: Host, body: Receipt) {
    h.lower(Text(Str(h.digest(body)), h.printer)) == h.digest(body)
  }

  lemma IssuedDigest(h: Host, incident: string, endpoint: string, taskId: int, scope: string, testId: string,
                     verifiedAt: float, objects: int)
    requires PlainDigest(h, Body(h, incident, endpoint, taskId, scope, testId, verifiedAt, objects))
    ensures var r := Issue(h, incident, endpoint, taskId, scope, testId, verifiedAt, objects);
            ClaimedDigest(h, r) == h.digest(Unsigned(r))
  {
    hide Text;
    var body := Body(h, incident, endpoint, taskId, scope, testId, verifiedAt, objects);
    assert "evidence_sha256" !in body;
    hide Body;
    assert Unsigned(Issue(h, incident, endpoint, taskId, scope, testId, verifiedAt, objects)) == body;
  }

  lemma BodyTexts(h: Host, incident: string, endpoint: string, taskId: int, scope: string, testId: string,
                  verifiedAt: float, objects: int)
    ensures var r := Issue(h, incident, endpoint, taskId, scope, testId, verifiedAt, objects);
            && Get(r, "incident_id") == Str(Text(Str(incident), h.printer))
            && Get(r, "method") == Str(Text(Str(endpoint), h.printer))
            && Get(r, "scope") == Str(Text(Str(scope), h.printer))
            && Get(r, "restore_test_id") == Str(Text(Str(testId), h.printer))
  {
    hide Text;
  }

  lemma BodyMarks(h: Host, incident: string, endpoint: string, taskId: int, scope: string, testId: string,
                  verifiedAt: float, objects: int)
    ensures var r := Issue(h, incident, endpoint, taskId, scope, testId, verifiedAt, objects);
            && Get(r, "schema") == Str(SCHEMA) && Get(r, "task_id") == Int(taskId)
            && Get(r, "result") == Str("PASS") && Get(r, "objects_verified") == Int(objects)
            && Get(r, "read_only_observation") == Bool(true) && Get(r, "control_authority") == Bool(false)
            && "verified_at" in r
  {
    hide Text;
  }

  lemma IssuedFields(h: Host, incident: string, endpoint: string, taskId: int, scope: string, testId: string,
                     verifiedAt: float, objects: int)
    requires PlainDigest(h, Body(h, incident, endpoint, taskId, scope, testId, verifiedAt, objects))
    ensures var r := Issue(h, incident, endpoint, taskId, scope, testId, verifiedAt, objects);
            && ClaimedDigest(h, r) == h.digest(Unsigned(r))
            && Get(r, "schema") == Str(SCHEMA) && Get(r, "task_id") == Int(taskId)
            && Text(Get(r, "incident_id"), h.printer) == Text(Str(incident), h.printer)
            && Text(Get(r, "method"), h.printer) == Text(Str(endpoint), h.printer)
            && Text(Get(r, "scope"), h.printer) == Text(Str(scope), h.printer)
            && Text(Get(r, "restore_test_id"), h.printer) == Text(Str(testId), h.printer)
            && Get(r, "result") == Str("PASS") && Get(r, "objects_verified") == Int(objects)
            && Get(r, "read_only_observation") == Bool(true) && Get(r, "control_authority") == Bool(false)
            && "verified_at" in r
  {
    hide Text;
    hide Issue;
    hide ClaimedDigest;
    hide Unsigned;
    hide Body;
    IssuedDigest(h, incident, endpoint, taskId, scope, testId, verifiedAt, objects);
    BodyTexts(h, incident, endpoint, taskId, scope, testId, verifiedAt, objects);
    BodyMarks(h, incident, endpoint, taskId, scope, testId, verifiedAt, objects);
    TextTwice(incident, h.printer);
    TextTwice(endpoint, h.printer);
    TextTwice(scope, h.printer);
    TextTwice(testId, h.printer);
  }

  /** An issued receipt clears its own incident exactly when it names one enabled
      successful task of an allowed query with the same scope, a restore test and at
      least one verified object. */
  lemma IssuedReceiptAcceptedExactlyWhen(
      h: Host, tasks: seq<Task>, incident: string, endpoint: string, taskId: int, scope: string, testId: string,
      verifiedAt: float, objects: int)
    requires PlainDigest(h, Body(h, incident, endpoint, taskId, scope, testId, verifiedAt, objects))
    ensures var r := Issue(h, incident, endpoint, taskId, scope, testId, verifiedAt, objects);
            var o := Provide(h, tasks, Some(r), incident);
            && o.Ok?
            && (o.value.verified <==>
                  && Text(Str(endpoint), h.printer) in RECEIPT_METHODS
                  && |Matching(h, tasks, r)| == 1
                  && Text(Matching(h, tasks, r)[0].scope, h.printer) == Text(Str(scope), h.printer) != ""
                  && Text(Str(testId), h.printer) != ""
                  && objects > 0)
  {
    hide Text;
    hide Matching;
    hide Issue;
    hide Unsigned;
    hide ClaimedDigest;
    IssuedFields(h, incident, endpoint, taskId, scope, testId, verifiedAt, objects);
  }

  // ---- A receipt without a verification time ----

  lemma PlainText(s: string, printer: Printer)
    requires s != "" && !IsSpace(s[0]) && !IsSpace(s[|s| - 1])
    ensures Text(Str(s), printer) == s
  {
  }

  const UNTIMED_TASK := Task("replication.query", Int(1), Null, Str("tank"), true, "SUCCESS")

  function UntimedBody(): Receipt {
    map["schema" := Str(SCHEMA), "incident_id" := Str("incident"), "method" := Str("replication.query"),
        "task_id" := Int(1), "scope" := Str("tank"), "restore_test_id" := Str("test"), "result" := Str("PASS"),
        "objects_verified" := Int(1), "read_only_observation" := Bool(true), "control_authority" := Bool(false)]
  }

  function Untimed(h: Host): Receipt {
    UntimedBody()["evidence_sha256" := Str(h.digest(UntimedBody()))]
  }

  lemma UntimedDigest(h: Host)
    requires PlainDigest(h, UntimedBody())
    ensures ClaimedDigest(h, Untimed(h)) == h.digest(Unsigned(Untimed(h)))
  {
    hide Text;
    assert "evidence_sha256" !in UntimedBody();
    hide UntimedBody;
    assert Unsigned(Untimed(h)) == UntimedBody();
  }

  lemma UntimedFields(h: Host)
    ensures var r := Untimed(h);
            && "verified_at" !in r
            && Get(r, "schema") == Str(SCHEMA) && Get(r, "task_id") == Int(1)
            && Get(r, "incident_id") == Str("incident") && Get(r, "method") == Str("replication.query")
            && Get(r, "scope") == Str("tank") && Get(r, "restore_test_id") == Str("test")
            && Get(r, "result") == Str("PASS") && Get(r, "objects_verified") == Int(1)
            && Get(r, "read_only_observation") == Bool(true) && Get(r, "control_authority") == Bool(false)
  {
  }

  lemma UntimedMatches(h: Host)
    ensures Matching(h, [UNTIMED_TASK], Untimed(h)) == [UNTIMED_TASK]
  {
    hide Text;
    hide Untimed;
    hide UntimedBody;
    UntimedFields(h);
    PlainText("replication.query", h.printer);
    assert [UNTIMED_TASK][..0] == [];
    assert Matches(h, UNTIMED_TASK, Untimed(h));
    hide Matches;
    assert Matching(h, [UNTIMED_TASK], Untimed(h)) == [] + [UNTIMED_TASK];
  }

  lemma UntimedIsValid(h: Host)
    requires PlainDigest(h, UntimedBody())
    ensures ReceiptValid(h, [UNTIMED_TASK], Untimed(h), "incident")
  {
    hide Text;
    hide Untimed;
    hide UntimedBody;
    hide ClaimedDigest;
    hide Unsigned;
    hide Matching;
    UntimedFields(h);
    UntimedDigest(h);
    UntimedMatches(h);
    PlainText("incident", h.printer);
    PlainText("replication.query", h.printer);
    PlainText("tank", h.printer);
    PlainText("test", h.printer);
  }

  /** Such a receipt, valid in every respect that is checked, raises. */
  lemma UntimedReceiptRaises(h: Host)
    requires PlainDigest(h, UntimedBody())
    ensures ReceiptValid(h, [UNTIMED_TASK], Untimed(h), "incident")
    ensures Provide(h, [UNTIMED_TASK], Load(h, Store(true, Some(Obj(Untimed(h)))), "incident"), "incident") == Err(KeyError)
  {
    hide Provide;
    hide Load;
    hide ReceiptValid;
    hide Untimed;
    hide UntimedBody;
    UntimedFields(h);
    UntimedIsValid(h);
    ProvideRaisesExactlyWhen(h, [UNTIMED_TASK], Store(true, Some(Obj(Untimed(h)))), "incident");
  }

  /** With a digest that never collides, two accepted receipts under the same digest
      say the same thing: no field can be changed under a kept digest. */
  lemma AcceptedReceiptsAreIntact(
      h: Host, tasks: seq<Task>, first: Receipt, incident: string, others: seq<Task>, second: Receipt, other: string)
    requires NeverCollides(h.digest)
    requires ReceiptValid(h, tasks, first, incident) && ReceiptValid(h, others, second, other)
    requires ClaimedDigest(h, first) == ClaimedDigest(h, second)
    ensures Unsigned(first) == Unsigned(second)
    ensures Text(Str(incident), h.printer) == Text(Str(other), h.printer)
  {
    hide Matching;
    hide Text;
    hide ClaimedDigest;
    assert h.digest(Unsigned(first)) == h.digest(Unsigned(second));
    assert Distinguishes(h.digest, Unsigned(first), Unsigned(second));
    assert Get(first, "incident_id") == Get(Unsigned(first), "incident_id");
    assert Get(second, "incident_id") == Get(Unsigned(second), "incident_id");
  }
}
