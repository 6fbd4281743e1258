/** The child-pipeline generator: five jobs per changed service, chained
    through optional `needs` edges, assembled into a GitLab CI document whose
    key order is observable.  The detector run is a parameter: its standard
    output, or the failure or timeout that stands in for it. */
module GeneratePipeline {
  import opened Wrappers
  import opened Text

  const ServicesDir: string := "services"
  const DefaultRunnerTag: string := "talos"
  const CiImage: string := "${CI_IMAGE}"
  const TagCondition: string := "$CI_COMMIT_TAG"
  const MainCondition: string := "$CI_COMMIT_BRANCH == \"main\""

  /** The five stages, in pipeline order. */
  datatype Stage = Validate | Preflight | Backup | Deploy | Verify

  const Stages: seq<Stage> := [Validate, Preflight, Backup, Deploy, Verify]

  function StageName(st: Stage): string {
    match st
    case Validate => "validate"
    case Preflight => "preflight"
    case Backup => "backup"
    case Deploy => "deploy"
    case Verify => "verify"
  }

  const StageNames: seq<string> := ["validate", "preflight", "backup", "deploy", "verify"]

  datatype When = Always | Manual | OnSuccess | Never

  /** One entry of a `rules` list: an optional `if`, its `when`, and an optional `allow_failure`. */
  datatype Rule = Rule(condition: Option<string>, when: When, allowFailure: Option<bool>)

  datatype Need = Need(job: string, optional: bool)

  /** A job mapping; absent keys are `None`. */
  datatype Job = Job(stage: string, image: string, tags: seq<string>, script: seq<string>,
                     needs: Option<seq<Need>>, variables: Option<seq<(string, string)>>,
                     resourceGroup: Option<string>, rules: Option<seq<Rule>>)

  /** The value under one top-level key of the pipeline document. */
  datatype Node =
    | Variables(vars: seq<(string, string)>)
    | StageList(names: seq<string>)
    | Workflow(workflowRules: seq<Rule>)
    | JobNode(job: Job)

  /** A Python dict keeps insertion order, so the document is a sequence of entries. */
  type Document = seq<(string, Node)>

  function KeysOf(doc: Document): seq<string> {
    seq(|doc|, i requires 0 <= i < |doc| => doc[i].0)
  }

  predicate KeysUnique(doc: Document) {
    forall i, j :: 0 <= i < j < |doc| ==> doc[i].0 != doc[j].0
  }

  /** `doc.get(k)`. */
  function Lookup(doc: Document, k: string): Option<Node>
    decreases |doc|
  {
    if |doc| == 0 then None
    else if doc[0].0 == k then Some(doc[0].1)
    else Lookup(doc[1..], k)
  }

  /** `doc[k] = v`: an existing key keeps its place and takes the new value,
      a new key goes to the end. */
  function Put(doc: Document, k: string, v: Node): (r: Document)
    ensures k in KeysOf(doc) ==> KeysOf(r) == KeysOf(doc)
    ensures k !in KeysOf(doc) ==> KeysOf(r) == KeysOf(doc) + [k]
    ensures Lookup(r, k) == Some(v)
    ensures forall k' :: k' != k ==> Lookup(r, k') == Lookup(doc, k')
    ensures KeysUnique(doc) ==> KeysUnique(r)
  {
    if k in KeysOf(doc) then
      var r := seq(|doc|, i requires 0 <= i < |doc| => if doc[i].0 == k then (k, v) else doc[i]);
      PutLookup(doc, k, v, r);
      assert KeysOf(r) == KeysOf(doc);
      r
    else
      var r := doc + [(k, v)];
      AppendLookup(doc, k, v);
      assert forall i :: 0 <= i < |doc| ==> KeysOf(doc)[i] == doc[i].0;
      assert KeysOf(r) == KeysOf(doc) + [k];
      r
  }

  lemma {:induction false} PutLookup(doc: Document, k: string, v: Node, r: Document)
    requires k in KeysOf(doc)
    requires |r| == |doc|
    requires forall i :: 0 <= i < |doc| ==> r[i] == if doc[i].0 == k then (k, v) else doc[i]
    ensures Lookup(r, k) == Some(v)
    ensures forall k' :: k' != k ==> Lookup(r, k') == Lookup(doc, k')
    decreases |doc|
  {
    if doc[0].0 != k {
      assert k in KeysOf(doc[1..]) by {
        var i :| 0 <= i < |doc| && KeysOf(doc)[i] == k;
        assert KeysOf(doc[1..])[i - 1] == k;
      }
      PutLookup(doc[1..], k, v, r[1..]);
    }
    forall k' | k' != k ensures Lookup(r, k') == Lookup(doc, k') {
      LookupUnchanged(doc, k, v, r, k');
    }
  }

  lemma {:induction false} LookupUnchanged(doc: Document, k: string, v: Node, r: Document, k': string)
    requires k' != k && |r| == |doc|
    requires forall i :: 0 <= i < |doc| ==> r[i] == if doc[i].0 == k then (k, v) else doc[i]
    ensures Lookup(r, k') == Lookup(doc, k')
    decreases |doc|
  {
    if |doc| > 0 {
      LookupUnchanged(doc[1..], k, v, r[1..], k');
    }
  }

  lemma {:induction false} AppendLookup(doc: Document, k: string, v: Node)
    requires k !in KeysOf(doc)
    ensures Lookup(doc + [(k, v)], k) == Some(v)
    ensures forall k' :: k' != k ==> Lookup(doc + [(k, v)], k') == Lookup(doc, k')
    decreases |doc|
  {
    if |doc| > 0 {
      assert KeysOf(doc)[0] == doc[0].0;
      assert KeysOf(doc[1..]) == KeysOf(doc)[1..];
      assert (doc + [(k, v)])[1..] == doc[1..] + [(k, v)];
      AppendLookup(doc[1..], k, v);
    }
  }

  /** Putting an entry that is already present changes nothing. */
  lemma PutPresent(doc: Document, k: string, v: Node)
    requires KeysUnique(doc) && (k, v) in doc
    ensures Put(doc, k, v) == doc
  {
    var i :| 0 <= i < |doc| && doc[i] == (k, v);
    assert KeysOf(doc)[i] == k;
    var r := Put(doc, k, v);
    assert forall j :: 0 <= j < |doc| && doc[j].0 == k ==> j == i;
  }

  /** Putting a new key appends it. */
  lemma PutFresh(doc: Document, k: string, v: Node)
    requires k !in KeysOf(doc)
    ensures Put(doc, k, v) == doc + [(k, v)]
  {
  }

  /** `doc.update(entries)`. */
  function Update(doc: Document, entries: Document): Document
    decreases |entries|
  {
    if |entries| == 0 then doc
    else Update(Put(doc, entries[0].0, entries[0].1), entries[1..])
  }

  /** Updating with entries that are all present already changes nothing. */
  lemma {:induction false} UpdatePresent(doc: Document, entries: Document)
    requires KeysUnique(doc)
    requires forall e :: e in entries ==> e in doc
    ensures Update(doc, entries) == doc
    decreases |entries|
  {
    if |entries| > 0 {
      PutPresent(doc, entries[0].0, entries[0].1);
      assert forall e :: e in entries[1..] ==> e in entries;
      UpdatePresent(doc, entries[1..]);
    }
  }

  /** No key of `entries` is a key of `doc`. */
  predicate KeysDisjoint(doc: Document, entries: Document) {
    forall i, j :: 0 <= i < |entries| && 0 <= j < |doc| ==> entries[i].0 != doc[j].0
  }

  /** Moving the first fresh entry into the document keeps the rest fresh. */
  lemma FreshTail(doc: Document, entries: Document)
    requires |entries| > 0 && KeysUnique(entries) && KeysDisjoint(doc, entries)
    ensures entries[0].0 !in KeysOf(doc)
    ensures KeysUnique(entries[1..]) && KeysDisjoint(doc + [entries[0]], entries[1..])
  {
    var e := entries[0];
    var d := doc + [e];
    var rest := entries[1..];
    forall i, j | 0 <= i < |rest| && 0 <= j < |d| ensures rest[i].0 != d[j].0 {
      assert rest[i] == entries[i + 1];
      if j < |doc| {
        assert d[j] == doc[j];
      } else {
        assert d[j] == entries[0];
      }
    }
    forall i, j | 0 <= i < j < |rest| ensures rest[i].0 != rest[j].0 {
      assert rest[i] == entries[i + 1] && rest[j] == entries[j + 1];
    }
  }

  /** Updating with entries under fresh, distinct keys appends them in order. */
  lemma {:induction false} UpdateFresh(doc: Document, entries: Document)
    requires KeysUnique(entries) && KeysDisjoint(doc, entries)
    ensures Update(doc, entries) == doc + entries
    decreases |entries|
  {
    if |entries| > 0 {
      var e, rest := entries[0], entries[1..];
      FreshTail(doc, entries);
      var d := doc + [e];
      PutFresh(doc, e.0, e.1);
      assert Update(doc, entries) == Update(d, rest);
      UpdateFresh(d, rest);
      assert entries == [e] + rest;
      AppendAssoc(doc, [e], rest);
    } else {
      AppendEmpty(doc);
      assert entries == [];
    }
  }

  /** The key of a service's job in a stage: `"<stage>:<service>"`. */
  function JobKey(st: Stage, service: string): string {
    StageName(st) + ":" + service
  }

  lemma StageNameNoColon(st: Stage)
    ensures ':' !in StageName(st)
  {
  }

  /** The job key determines the stage and the service. */
  lemma JobKeyInjective(a: Stage, s: string, b: Stage, t: string)
    requires JobKey(a, s) == JobKey(b, t)
    ensures a == b && s == t
  {
    StageNameNoColon(a);
    StageNameNoColon(b);
    IndexOfCharAfter(StageName(a), ':', s);
    IndexOfCharAfter(StageName(b), ':', t);
    assert StageName(a) + ":" + s == StageName(a) + [':'] + s;
    assert StageName(b) + ":" + t == StageName(b) + [':'] + t;
    var k := JobKey(a, s);
    assert StageName(a) == k[..|StageName(a)|];
    assert StageName(b) == k[..|StageName(b)|];
    assert s == k[|StageName(a)| + 1..];
    assert t == k[|StageName(b)| + 1..];
  }

  /** Different stages or different services give different keys. */
  lemma JobKeysDiffer(a: Stage, s: string, b: Stage, t: string)
    requires a != b || s != t
    ensures JobKey(a, s) != JobKey(b, t)
  {
    if JobKey(a, s) == JobKey(b, t) {
      JobKeyInjective(a, s, b, t);
    }
  }

  lemma StagesDistinct(m1: nat, m2: nat)
    requires m1 < 5 && m2 < 5 && m1 != m2
    ensures Stages[m1] != Stages[m2]
  {
  }

  /** Every job key holds a `:`; no fixed top-level key does. */
  lemma JobKeyHasColon(st: Stage, service: string)
    ensures ':' in JobKey(st, service)
  {
    assert JobKey(st, service)[|StageName(st)|] == ':';
  }

  /** A script line `"<path> <service>"` ends with the service argument. */
  lemma EndsWithSpaced(path: string, service: string)
    ensures EndsWith(path + " " + service, " " + service)
  {
    assert (path + " " + service)[|path|..] == " " + service;
  }

  /** The script each stage's job runs, given the service as its argument. */
  const ValidateScript: string := "./scripts/ci/validate-service.sh"
  const PreflightScript: string := "./scripts/ci/preflight-check.sh"
  const BackupScript: string := "./scripts/ci/backup-service.sh"
  const DeployScript: string := "./scripts/ci/deploy_service.sh"
  const HealthCheckScript: string := "./scripts/ci/health-check.sh"

  /** The resource group that serialises deployments. */
  const ProductionGroup: string := "production"

  /** `generate_service_jobs`: five entries, keyed `"<stage>:<service>"` in stage order. */
  function GenerateServiceJobs(service: string): (jobs: Document)
    ensures |jobs| == 5
    ensures forall i :: 0 <= i < 5 ==> jobs[i].0 == JobKey(Stages[i], service)
  {
    var variables := Some([("SERVICE", service)]);
    var jobs := [
      (JobKey(Validate, service), JobNode(Job(
        "validate", CiImage, [DefaultRunnerTag], [ValidateScript + " " + service],
        None, variables, None, None))),
      (JobKey(Preflight, service), JobNode(Job(
        "preflight", CiImage, [DefaultRunnerTag], [PreflightScript + " " + service],
        Some([Need(JobKey(Validate, service), true)]), variables, None, None))),
      (JobKey(Backup, service), JobNode(Job(
        "backup", CiImage, [DefaultRunnerTag], [BackupScript + " " + service],
        Some([Need(JobKey(Preflight, service), true)]), variables, None, None))),
      (JobKey(Deploy, service), JobNode(Job(
        "deploy", CiImage, [DefaultRunnerTag], [DeployScript + " " + service],
        Some([Need(JobKey(Backup, service), true)]), variables, Some(ProductionGroup),
        Some(DeployRules)))),
      (JobKey(Verify, service), JobNode(Job(
        "verify", CiImage, [DefaultRunnerTag], [HealthCheckScript + " " + service],
        Some([Need(JobKey(Deploy, service), true)]), variables, None,
        Some(VerifyRules))))
    ];
    jobs
  }

  /** Each job sits in the stage its key names, runs on the shared image and
      runner tag, binds `SERVICE` and passes the service to its one script
      line; validate has no `needs` and every later job needs exactly the
      same service's job of the previous stage, optionally; only deploy holds
      the `production` resource group; only deploy and verify carry rules. */
  lemma ServiceJobsShape(service: string)
    ensures var jobs := GenerateServiceJobs(service);
      && (forall i :: 0 <= i < 5 ==>
        && jobs[i].1.JobNode?
        && jobs[i].1.job.stage == StageName(Stages[i])
        && jobs[i].1.job.image == CiImage
        && jobs[i].1.job.tags == [DefaultRunnerTag]
        && jobs[i].1.job.variables == Some([("SERVICE", service)])
        && |jobs[i].1.job.script| == 1 && EndsWith(jobs[i].1.job.script[0], " " + service)
        && (jobs[i].1.job.resourceGroup.Some? <==> i == 3)
        && (jobs[i].1.job.rules.Some? <==> i >= 3))
      && jobs[0].1.job.needs.None?
      && (forall i :: 1 <= i < 5 ==> jobs[i].1.job.needs == Some([Need(JobKey(Stages[i - 1], service), true)]))
      && jobs[3].1.job.resourceGroup == Some(ProductionGroup)
  {
    EndsWithSpaced(ValidateScript, service);
    EndsWithSpaced(PreflightScript, service);
    EndsWithSpaced(BackupScript, service);
    EndsWithSpaced(DeployScript, service);
    EndsWithSpaced(HealthCheckScript, service);
  }

  /** The CI variables a rule's `if` reads; an unset variable is empty. */
  datatype CiContext = CiContext(tag: string, branch: string)

  /** The two rule expressions the jobs use. */
  predicate ConditionHolds(condition: string, ctx: CiContext) {
    if condition == TagCondition then ctx.tag != ""
    else if condition == MainCondition then ctx.branch == "main"
    else false
  }

  /** GitLab evaluates `rules` in order and the first match decides; with no
      match the job is not added. */
  function DecidingRule(rules: seq<Rule>, ctx: CiContext): (r: Option<Rule>)
    ensures r.Some? ==> r.value in rules
    ensures r.Some? ==> r.value.condition.None? || ConditionHolds(r.value.condition.value, ctx)
    decreases |rules|
  {
    if |rules| == 0 then None
    else if rules[0].condition.None? || ConditionHolds(rules[0].condition.value, ctx) then Some(rules[0])
    else DecidingRule(rules[1..], ctx)
  }

  function Decide(rules: seq<Rule>, ctx: CiContext): When {
    match DecidingRule(rules, ctx)
    case Some(r) => r.when
    case None => Never
  }

  /** The deploy job's rules: on tags always, on `main` a blocking manual
      approval, otherwise never. */
  const DeployRules: seq<Rule> :=
    [Rule(Some(TagCondition), Always, None),
     Rule(Some(MainCondition), Manual, Some(false)),
     Rule(None, Never, None)]

  /** The verify job's rules: on tags always, on `main` after success, otherwise never. */
  const VerifyRules: seq<Rule> :=
    [Rule(Some(TagCondition), Always, None),
     Rule(Some(MainCondition), OnSuccess, None),
     Rule(None, Never, None)]

  lemma ConditionsDistinct()
    ensures TagCondition != MainCondition
  {
    assert |TagCondition| != |MainCondition|;
  }

  /** Deploy runs by itself on tags, waits for a blocking manual approval on
      `main`, and is never added anywhere else. */
  lemma DeployDecision(service: string, ctx: CiContext)
    ensures GenerateServiceJobs(service)[3].1.job.rules == Some(DeployRules)
    ensures Decide(DeployRules, ctx) == (if ctx.tag != "" then Always else if ctx.branch == "main" then Manual else Never)
    ensures Decide(DeployRules, ctx) == Manual ==> DecidingRule(DeployRules, ctx).value.allowFailure == Some(false)
  {
    ConditionsDistinct();
    var rest := DeployRules[1..];
    assert rest[1..] == [Rule(None, Never, None)];
    assert DecidingRule(rest[1..], ctx) == Some(Rule(None, Never, None));
    if ctx.tag == "" {
      assert !ConditionHolds(TagCondition, ctx);
      assert DecidingRule(DeployRules, ctx) == DecidingRule(rest, ctx);
    }
  }

  /** Verify runs on tags, after a successful deploy on `main`, and nowhere else. */
  lemma VerifyDecision(service: string, ctx: CiContext)
    ensures GenerateServiceJobs(service)[4].1.job.rules == Some(VerifyRules)
    ensures Decide(VerifyRules, ctx) == (if ctx.tag != "" then Always else if ctx.branch == "main" then OnSuccess else Never)
  {
    ConditionsDistinct();
    var rest := VerifyRules[1..];
    assert rest[1..] == [Rule(None, Never, None)];
    assert DecidingRule(rest[1..], ctx) == Some(Rule(None, Never, None));
    if ctx.tag == "" {
      assert !ConditionHolds(TagCondition, ctx);
      assert DecidingRule(VerifyRules, ctx) == DecidingRule(rest, ctx);
    }
  }

  /** The first stages carry no rules and so run in every pipeline. */
  lemma EarlyStagesUnruled(service: string)
    ensures forall i :: 0 <= i < 3 ==> GenerateServiceJobs(service)[i].1.job.rules.None?
  {
  }

  /** The fixed head of every child pipeline. */
  function Header(): Document {
    [("variables", Variables([("CI_IMAGE", CiImage), ("SERVICES_DIR", ServicesDir),
                              ("DOCKER_COMPOSE_DIR", "${DOCKER_COMPOSE_DIR}"), ("SSH_USER", "${SSH_USER}")])),
     ("stages", StageList(StageNames))]
  }

  const NoChangesJob: Job := Job("validate", CiImage, [DefaultRunnerTag],
    ["echo '=========================================='",
     "echo 'No service changes detected'",
     "echo 'Validation skipped'",
     "echo '=========================================='"],
    None, None, None, None)

  /** The services in order of first appearance. */
  function Dedup(xs: seq<string>): (r: seq<string>)
    ensures forall i, j :: 0 <= i < j < |r| ==> r[i] != r[j]
    ensures forall x :: x in r <==> x in xs
    decreases |xs|
  {
    if |xs| == 0 then []
    else
      var d := Dedup(xs[..|xs| - 1]);
      assert forall x :: x in xs <==> x in xs[..|xs| - 1] || x == xs[|xs| - 1] by {
        assert xs == xs[..|xs| - 1] + [xs[|xs| - 1]];
      }
      if xs[|xs| - 1] in d then d else d + [xs[|xs| - 1]]
  }

  /** A per-service job builder of the shape `generate_service_jobs` has:
      five entries per service, keyed by stage in stage order.  The document
      lemmas below hold for every such builder. */
  ghost predicate StageKeyed(build: string -> Document) {
    forall s :: |build(s)| == 5 && forall i :: 0 <= i < 5 ==> build(s)[i].0 == JobKey(Stages[i], s)
  }

  lemma ServiceJobsStageKeyed()
    ensures StageKeyed(GenerateServiceJobs)
  {
  }

  /** The blocks laid end to end. */
  function Concat(blocks: seq<Document>): Document
    decreases |blocks|
  {
    if |blocks| == 0 then [] else Concat(blocks[..|blocks| - 1]) + blocks[|blocks| - 1]
  }

  lemma {:induction false} ConcatLength(blocks: seq<Document>)
    requires forall i :: 0 <= i < |blocks| ==> |blocks[i]| == 5
    ensures |Concat(blocks)| == 5 * |blocks|
    decreases |blocks|
  {
    if |blocks| > 0 {
      ConcatLength(blocks[..|blocks| - 1]);
    }
  }

  /** Blocks of five entries each: block `k` occupies entries `5k` to `5k+4`. */
  lemma {:induction false} ConcatBlock(blocks: seq<Document>, k: nat)
    requires forall i :: 0 <= i < |blocks| ==> |blocks[i]| == 5
    requires k < |blocks|
    ensures |Concat(blocks)| == 5 * |blocks|
    ensures Concat(blocks)[5 * k..5 * k + 5] == blocks[k]
    decreases |blocks|
  {
    var n := |blocks| - 1;
    var init := blocks[..n];
    var a, b := Concat(init), blocks[n];
    ConcatLength(init);
    if k < n {
      ConcatBlock(init, k);
      assert (a + b)[5 * k..5 * k + 5] == a[5 * k..5 * k + 5];
    } else {
      assert (a + b)[|a|..|a| + 5] == b;
    }
  }

  /** Each service's jobs, grouped, in the order given. */
  function JobsFor(build: string -> Document, services: seq<string>): Document {
    Concat(seq(|services|, i requires 0 <= i < |services| => build(services[i])))
  }

  lemma JobsForLength(build: string -> Document, services: seq<string>)
    requires StageKeyed(build)
    ensures |JobsFor(build, services)| == 5 * |services|
  {
    ConcatLength(seq(|services|, i requires 0 <= i < |services| => build(services[i])));
  }

  /** The jobs of the `k`-th service occupy entries `5k` to `5k+4`. */
  lemma JobsForBlock(build: string -> Document, services: seq<string>, k: nat)
    requires StageKeyed(build) && k < |services|
    ensures |JobsFor(build, services)| == 5 * |services|
    ensures JobsFor(build, services)[5 * k..5 * k + 5] == build(services[k])
  {
    ConcatBlock(seq(|services|, i requires 0 <= i < |services| => build(services[i])), k);
  }

  /** Appending a service appends its block. */
  lemma JobsForSnoc(build: string -> Document, services: seq<string>, service: string)
    ensures JobsFor(build, services + [service]) == JobsFor(build, services) + build(service)
  {
    var all := services + [service];
    var blocks := seq(|all|, i requires 0 <= i < |all| => build(all[i]));
    assert blocks[..|services|] == seq(|services|, i requires 0 <= i < |services| => build(services[i]));
  }

  /** Entry `5k + m` of `JobsFor(build, services)` is stage `m` of service `k`. */
  lemma JobsForAt(build: string -> Document, services: seq<string>, k: nat, m: nat)
    requires StageKeyed(build) && k < |services| && m < 5
    ensures |JobsFor(build, services)| == 5 * |services|
    ensures JobsFor(build, services)[5 * k + m] == build(services[k])[m]
    ensures JobsFor(build, services)[5 * k + m].0 == JobKey(Stages[m], services[k])
  {
    var jobs := JobsFor(build, services);
    JobsForBlock(build, services, k);
    assert jobs[5 * k + m] == jobs[5 * k..5 * k + 5][m];
  }

  /** The key of entry `i` of `JobsFor(build, services)`. */
  lemma JobsForKey(build: string -> Document, services: seq<string>, i: nat)
    requires StageKeyed(build) && i < 5 * |services|
    ensures |JobsFor(build, services)| == 5 * |services|
    ensures JobsFor(build, services)[i] == build(services[i / 5])[i % 5]
    ensures JobsFor(build, services)[i].0 == JobKey(Stages[i % 5], services[i / 5])
  {
    var k, m := i / 5, i % 5;
    assert i == 5 * k + m;
    JobsForAt(build, services, k, m);
  }

  /** Distinct services give distinct job keys. */
  lemma JobsForKeysUnique(build: string -> Document, services: seq<string>)
    requires StageKeyed(build)
    requires forall i, j :: 0 <= i < j < |services| ==> services[i] != services[j]
    ensures KeysUnique(JobsFor(build, services))
  {
    JobsForLength(build, services);
    var doc := JobsFor(build, services);
    forall i, j | 0 <= i < j < |doc| ensures doc[i].0 != doc[j].0 {
      var k1, m1, k2, m2 := i / 5, i % 5, j / 5, j % 5;
      assert i == 5 * k1 + m1 && j == 5 * k2 + m2;
      assert k1 < k2 || (k1 == k2 && m1 < m2);
      JobsForKeysDiffer(build, services, k1, m1, k2, m2);
    }
  }

  /** Entries for different (service, stage) pairs have different keys. */
  lemma JobsForKeysDiffer(build: string -> Document, services: seq<string>, k1: nat, m1: nat, k2: nat, m2: nat)
    requires StageKeyed(build)
    requires forall i, j :: 0 <= i < j < |services| ==> services[i] != services[j]
    requires k1 < |services| && k2 < |services| && m1 < 5 && m2 < 5
    requires k1 < k2 || (k1 == k2 && m1 < m2)
    ensures |JobsFor(build, services)| == 5 * |services|
    ensures JobsFor(build, services)[5 * k1 + m1].0 != JobsFor(build, services)[5 * k2 + m2].0
  {
    JobsForAt(build, services, k1, m1);
    JobsForAt(build, services, k2, m2);
    if k1 == k2 {
      StagesDistinct(m1, m2);
    } else {
      assert services[k1] != services[k2];
    }
    JobKeysDiffer(Stages[m1], services[k1], Stages[m2], services[k2]);
  }

  /** The header followed by the jobs of each distinct service, in order of first appearance. */
  function Assembled(build: string -> Document, services: seq<string>): Document {
    Header() + JobsFor(build, Dedup(services))
  }

  /** Entry `2 + 5k + m` is stage `m` of the `k`-th distinct service. */
  lemma AssembledAt(build: string -> Document, services: seq<string>, k: nat, m: nat)
    requires StageKeyed(build) && k < |Dedup(services)| && m < 5
    ensures |Assembled(build, services)| == 2 + 5 * |Dedup(services)|
    ensures Assembled(build, services)[2 + 5 * k + m] == build(Dedup(services)[k])[m]
    ensures Assembled(build, services)[2 + 5 * k + m].0 == JobKey(Stages[m], Dedup(services)[k])
  {
    var d := Dedup(services);
    var h, jobs := Header(), JobsFor(build, d);
    JobsForAt(build, d, k, m);
    assert Assembled(build, services) == h + jobs;
    assert |h| == 2;
    AppendIndex(h, jobs, 2 + 5 * k + m);
  }

  /** The same, for an entry given by its index. */
  lemma AssembledEntry(build: string -> Document, services: seq<string>, i: nat)
    requires StageKeyed(build) && 2 <= i < 2 + 5 * |Dedup(services)|
    ensures |Assembled(build, services)| == 2 + 5 * |Dedup(services)|
    ensures Assembled(build, services)[i] == build(Dedup(services)[(i - 2) / 5])[(i - 2) % 5]
    ensures Assembled(build, services)[i].0 == JobKey(Stages[(i - 2) % 5], Dedup(services)[(i - 2) / 5])
  {
    var k, m := (i - 2) / 5, (i - 2) % 5;
    assert i == 2 + 5 * k + m;
    AssembledAt(build, services, k, m);
  }

  lemma AppendIndex<T>(a: seq<T>, b: seq<T>, i: nat)
    requires |a| <= i < |a| + |b|
    ensures (a + b)[i] == b[i - |a|]
  {
  }

  /** A key without `:` is never a job key. */
  lemma FixedKeyNotJobKey(k: string, st: Stage, service: string)
    requires ':' !in k
    ensures k != JobKey(st, service)
  {
    JobKeyHasColon(st, service);
  }

  /** The only keys without `:` in an assembled document are the header's. */
  lemma AssembledFixedKeys(build: string -> Document, services: seq<string>, k: string)
    requires StageKeyed(build)
    requires ':' !in k && k != "variables" && k != "stages"
    ensures k !in KeysOf(Assembled(build, services))
  {
    var doc := Assembled(build, services);
    JobsForLength(build, Dedup(services));
    forall j | 0 <= j < |doc| ensures doc[j].0 != k {
      if j >= 2 {
        AssembledEntry(build, services, j);
        FixedKeyNotJobKey(k, Stages[(j - 2) % 5], Dedup(services)[(j - 2) / 5]);
      }
    }
  }

  lemma AssembledKeysUnique(build: string -> Document, services: seq<string>)
    requires StageKeyed(build)
    ensures KeysUnique(Assembled(build, services))
  {
    var d := Dedup(services);
    var doc := Assembled(build, services);
    JobsForKeysUnique(build, d);
    JobsForLength(build, d);
    forall i, j | 0 <= i < j < |doc| ensures doc[i].0 != doc[j].0 {
      if i >= 2 {
        assert doc[i] == JobsFor(build, d)[i - 2] && doc[j] == JobsFor(build, d)[j - 2];
      } else if j >= 2 {
        AssembledEntry(build, services, j);
        FixedKeyNotJobKey(doc[i].0, Stages[(j - 2) % 5], d[(j - 2) / 5]);
      }
    }
  }

  /** A repeated service: updating with its jobs again changes nothing. */
  lemma UpdateStepSeen(build: string -> Document, prefix: seq<string>, service: string)
    requires StageKeyed(build) && service in prefix
    ensures Update(Assembled(build, prefix), build(service)) == Assembled(build, prefix + [service])
  {
    var d := Dedup(prefix);
    var all := prefix + [service];
    DedupSnoc(prefix, service);
    var doc := Assembled(build, prefix);
    AssembledKeysUnique(build, prefix);
    var k :| 0 <= k < |d| && d[k] == service;
    var jobs := build(service);
    forall e | e in jobs ensures e in doc {
      var m :| 0 <= m < 5 && jobs[m] == e;
      AssembledAt(build, prefix, k, m);
    }
    UpdatePresent(doc, jobs);
  }

  /** A new service's job keys are not yet in the document. */
  lemma NewServiceKeysDisjoint(build: string -> Document, prefix: seq<string>, service: string)
    requires StageKeyed(build) && service !in prefix
    ensures KeysDisjoint(Assembled(build, prefix), build(service))
  {
    var d := Dedup(prefix);
    var doc := Assembled(build, prefix);
    var jobs := build(service);
    JobsForLength(build, d);
    forall i, j | 0 <= i < |jobs| && 0 <= j < |doc| ensures jobs[i].0 != doc[j].0 {
      if j >= 2 {
        AssembledEntry(build, prefix, j);
        if jobs[i].0 == doc[j].0 {
          JobKeyInjective(Stages[i], service, Stages[(j - 2) % 5], d[(j - 2) / 5]);
        }
      } else {
        FixedKeyNotJobKey(doc[j].0, Stages[i], service);
      }
    }
  }

  lemma BuilderKeysUnique(build: string -> Document, service: string)
    requires StageKeyed(build)
    ensures KeysUnique(build(service))
  {
    var jobs := build(service);
    forall i, j | 0 <= i < j < 5 ensures jobs[i].0 != jobs[j].0 {
      if jobs[i].0 == jobs[j].0 {
        JobKeyInjective(Stages[i], service, Stages[j], service);
      }
    }
  }

  /** A new service: its jobs go to the end. */
  lemma UpdateStepNew(build: string -> Document, prefix: seq<string>, service: string)
    requires StageKeyed(build) && service !in prefix
    ensures Update(Assembled(build, prefix), build(service)) == Assembled(build, prefix + [service])
  {
    var d := Dedup(prefix);
    var doc := Assembled(build, prefix);
    var jobs := build(service);
    BuilderKeysUnique(build, service);
    NewServiceKeysDisjoint(build, prefix, service);
    UpdateFresh(doc, jobs);
    DedupSnoc(prefix, service);
    JobsForSnoc(build, d, service);
    var jd := JobsFor(build, d);
    assert Dedup(prefix + [service]) == d + [service];
    assert Assembled(build, prefix + [service]) == Header() + (jd + jobs);
    AppendAssoc(Header(), jd, jobs);
  }

  lemma DedupSnoc(xs: seq<string>, x: string)
    ensures Dedup(xs + [x]) == if x in xs then Dedup(xs) else Dedup(xs) + [x]
  {
    var all := xs + [x];
    assert all[..|all| - 1] == xs;
  }

  /** One step of the loop: `pipeline.update(service_jobs)`. */
  lemma UpdateStep(build: string -> Document, prefix: seq<string>, service: string)
    requires StageKeyed(build)
    ensures Update(Assembled(build, prefix), build(service)) == Assembled(build, prefix + [service])
  {
    if service in prefix {
      UpdateStepSeen(build, prefix, service);
    } else {
      UpdateStepNew(build, prefix, service);
    }
  }

  /** What `generate_child_pipeline` builds: the placeholder job when there
      are no services, the assembled jobs otherwise. */
  function ChildPipeline(services: seq<string>): Document {
    if services == [] then Header() + [("no-changes", JobNode(NoChangesJob))]
    else Assembled(GenerateServiceJobs, services)
  }

  /** `generate_child_pipeline`. */
  method GenerateChildPipeline(services: seq<string>) returns (pipeline: Document)
    ensures pipeline == ChildPipeline(services)
  {
    pipeline := Header();
    if services == [] {
      HeaderKeys();
      PutFresh(pipeline, "no-changes", JobNode(NoChangesJob));
      pipeline := Put(pipeline, "no-changes", JobNode(NoChangesJob));
      return;
    }
    ServiceJobsStageKeyed();
    AssembledNone(GenerateServiceJobs);
    for i := 0 to |services|
      invariant pipeline == Assembled(GenerateServiceJobs, services[..i])
    {
      var serviceJobs := GenerateServiceJobs(services[i]);
      UpdateStep(GenerateServiceJobs, services[..i], services[i]);
      TakeSnoc(services, i);
      pipeline := Update(pipeline, serviceJobs);
    }
    TakeAll(services);
  }

  /** The two header entries are not jobs, whatever follows them. */
  lemma HeaderNoJobs(rest: Document)
    ensures |Header() + rest| >= 2
    ensures forall i :: 0 <= i < 2 ==> !(Header() + rest)[i].1.JobNode?
  {
    var h := Header();
    assert !h[0].1.JobNode? && !h[1].1.JobNode?;
    AppendIndexFront(h, rest, 0);
    AppendIndexFront(h, rest, 1);
  }

  lemma AppendIndexFront<T>(a: seq<T>, b: seq<T>, i: nat)
    requires i < |a|
    ensures (a + b)[i] == a[i]
  {
  }

  lemma HeaderKeys()
    ensures KeysOf(Header()) == ["variables", "stages"]
  {
  }

  lemma AssembledNone(build: string -> Document)
    ensures Assembled(build, []) == Header()
  {
    AppendEmpty(Header());
  }

  lemma AppendEmpty<T>(a: seq<T>)
    ensures a + [] == a
  {
  }

  /** The keys `main` does not count as jobs. */
  predicate Reserved(k: string) {
    k == "variables" || k == "stages" || k == "workflow"
  }

  /** `len([k for k in doc.keys() if k not in ("variables", "stages", "workflow")])`. */
  function CountJobs(doc: Document): (n: nat)
    ensures n <= |doc|
    decreases |doc|
  {
    if |doc| == 0 then 0
    else CountJobs(doc[..|doc| - 1]) + (if Reserved(doc[|doc| - 1].0) then 0 else 1)
  }

  lemma {:induction false} CountJobsAppend(a: Document, b: Document)
    ensures CountJobs(a + b) == CountJobs(a) + CountJobs(b)
    decreases |b|
  {
    if |b| > 0 {
      var n := |b| - 1;
      assert (a + b)[..|a + b| - 1] == a + b[..n];
      assert (a + b)[|a + b| - 1] == b[n];
      CountJobsAppend(a, b[..n]);
    } else {
      assert a + b == a;
    }
  }

  /** A document without reserved keys holds only jobs. */
  lemma {:induction false} CountJobsAll(doc: Document)
    requires forall i :: 0 <= i < |doc| ==> !Reserved(doc[i].0)
    ensures CountJobs(doc) == |doc|
    decreases |doc|
  {
    if |doc| > 0 {
      CountJobsAll(doc[..|doc| - 1]);
    }
  }

  lemma CountJobsFor(build: string -> Document, services: seq<string>)
    requires StageKeyed(build)
    ensures CountJobs(JobsFor(build, services)) == 5 * |services|
  {
    JobsForLength(build, services);
    var doc := JobsFor(build, services);
    forall i | 0 <= i < |doc| ensures !Reserved(doc[i].0) {
      JobsForKey(build, services, i);
      JobKeyHasColon(Stages[i % 5], services[i / 5]);
    }
    CountJobsAll(doc);
  }

  /** With no services the document is the header and the `no-changes`
      job in stage `validate`, which is its one job. */
  lemma EmptyChildPipeline()
    ensures KeysOf(ChildPipeline([])) == ["variables", "stages", "no-changes"]
    ensures ChildPipeline([])[2].1.job.stage == "validate"
    ensures CountJobs(ChildPipeline([])) == 1
  {
    var doc := ChildPipeline([]);
    assert doc[..2][..1][..0] == [];
  }

  /** `n` services give five jobs per distinct service and no placeholder. */
  lemma AssembledJobCount(services: seq<string>)
    ensures CountJobs(Assembled(GenerateServiceJobs, services)) == 5 * |Dedup(services)|
    ensures "no-changes" !in KeysOf(Assembled(GenerateServiceJobs, services))
  {
    var d := Dedup(services);
    ServiceJobsStageKeyed();
    CountJobsAppend(Header(), JobsFor(GenerateServiceJobs, d));
    CountJobsFor(GenerateServiceJobs, d);
    assert Header()[..1][..0] == [];
    AssembledFixedKeys(GenerateServiceJobs, services, "no-changes");
  }

  /** Each distinct service's jobs form one contiguous block, in order of first appearance. */
  lemma ChildPipelineGrouping(services: seq<string>, k: nat)
    requires services != [] && k < |Dedup(services)|
    ensures |ChildPipeline(services)| == 2 + 5 * |Dedup(services)|
    ensures ChildPipeline(services)[2 + 5 * k..7 + 5 * k] == GenerateServiceJobs(Dedup(services)[k])
  {
    ServiceJobsStageKeyed();
    AssembledBlock(GenerateServiceJobs, services, k);
  }

  lemma AssembledBlock(build: string -> Document, services: seq<string>, k: nat)
    requires StageKeyed(build) && k < |Dedup(services)|
    ensures |Assembled(build, services)| == 2 + 5 * |Dedup(services)|
    ensures Assembled(build, services)[2 + 5 * k..7 + 5 * k] == build(Dedup(services)[k])
  {
    var d := Dedup(services);
    JobsForBlock(build, d, k);
    var jobs := JobsFor(build, d);
    assert (Header() + jobs)[2 + 5 * k..7 + 5 * k] == jobs[5 * k..5 * k + 5];
  }

  /** The number of jobs `main` counts in a child pipeline. */
  lemma ChildPipelineJobCount(services: seq<string>)
    ensures CountJobs(ChildPipeline(services)) == if services == [] then 1 else 5 * |Dedup(services)|
    ensures CountJobs(ChildPipeline(services)) >= 1
  {
    if services == [] {
      EmptyChildPipeline();
    } else {
      AssembledJobCount(services);
      assert services[0] in Dedup(services);
    }
  }

  /** Distinct services give exactly five jobs each. */
  lemma DistinctServicesJobCount(services: seq<string>)
    requires services != []
    requires forall i, j :: 0 <= i < j < |services| ==> services[i] != services[j]
    ensures CountJobs(ChildPipeline(services)) == 5 * |services|
  {
    AssembledJobCount(services);
    DedupDistinct(services);
  }

  lemma {:induction false} DedupDistinct(xs: seq<string>)
    requires forall i, j :: 0 <= i < j < |xs| ==> xs[i] != xs[j]
    ensures Dedup(xs) == xs
    decreases |xs|
  {
    if |xs| > 0 {
      var init := xs[..|xs| - 1];
      DedupDistinct(init);
      assert xs == init + [xs[|xs| - 1]];
    }
  }

  /** Every `needs` edge in the document points at the entry just before it. */
  predicate NeedsPrevious(doc: Document) {
    forall i, n :: 0 <= i < |doc| && doc[i].1.JobNode? && doc[i].1.job.needs.Some? && n in doc[i].1.job.needs.value ==>
      0 < i && doc[i - 1].0 == n.job
  }

  /** A builder whose first job needs nothing and whose later jobs each need
      only the same service's job of the previous stage. */
  ghost predicate Chained(build: string -> Document) {
    forall s, i, n ::
      (0 <= i < 5 && i < |build(s)| && build(s)[i].1.JobNode? && build(s)[i].1.job.needs.Some? && n in build(s)[i].1.job.needs.value)
      ==> 0 < i && n.job == JobKey(Stages[i - 1], s)
  }

  lemma ServiceJobsChained()
    ensures Chained(GenerateServiceJobs)
  {
    var build: string -> Document := GenerateServiceJobs;
    forall s, i, n | 0 <= i < 5 && i < |build(s)| && build(s)[i].1.JobNode?
      && build(s)[i].1.job.needs.Some? && n in build(s)[i].1.job.needs.value
      ensures 0 < i && n.job == JobKey(Stages[i - 1], s)
    {
      ServiceJobsShape(s);
      var jobs := GenerateServiceJobs(s);
      assert build(s) == jobs;
      if i > 0 {
        assert jobs[i].1.job.needs.value == [Need(JobKey(Stages[i - 1], s), true)];
      }
    }
    assert Chained(build);
  }

  lemma AssembledNeedsPrevious(build: string -> Document, services: seq<string>)
    requires StageKeyed(build) && Chained(build)
    ensures NeedsPrevious(Assembled(build, services))
  {
    var doc := Assembled(build, services);
    var d := Dedup(services);
    JobsForLength(build, d);
    HeaderNoJobs(JobsFor(build, d));
    assert doc == Header() + JobsFor(build, d);
    forall i, n | 0 <= i < |doc| && doc[i].1.JobNode? && doc[i].1.job.needs.Some? && n in doc[i].1.job.needs.value
      ensures 0 < i && doc[i - 1].0 == n.job
    {
      if i >= 2 {
        var k, m := (i - 2) / 5, (i - 2) % 5;
        assert i == 2 + 5 * k + m;
        EntryNeedsPrevious(build, services, k, m, n);
      }
    }
  }

  /** The `needs` of a job entry name the entry just before it. */
  lemma EntryNeedsPrevious(build: string -> Document, services: seq<string>, k: nat, m: nat, n: Need)
    requires StageKeyed(build) && Chained(build)
    requires k < |Dedup(services)| && m < 5 && 2 + 5 * k + m < |Assembled(build, services)|
    requires Assembled(build, services)[2 + 5 * k + m].1.JobNode?
    requires Assembled(build, services)[2 + 5 * k + m].1.job.needs.Some?
    requires n in Assembled(build, services)[2 + 5 * k + m].1.job.needs.value
    ensures 0 < m && Assembled(build, services)[1 + 5 * k + m].0 == n.job
  {
    var doc := Assembled(build, services);
    var d := Dedup(services);
    AssembledAt(build, services, k, m);
    var jobs := build(d[k]);
    assert doc[2 + 5 * k + m] == jobs[m];
    assert 0 < m && n.job == JobKey(Stages[m - 1], d[k]);
    AssembledAt(build, services, k, m - 1);
    assert doc[2 + 5 * k + (m - 1)].0 == JobKey(Stages[m - 1], d[k]);
  }

  /** Every `needs` edge leads to the same service's previous stage, which is
      the entry just before it; none crosses services or skips a stage. */
  lemma ChildPipelineNeedsPrevious(services: seq<string>)
    ensures NeedsPrevious(ChildPipeline(services))
  {
    if services != [] {
      ServiceJobsStageKeyed();
      ServiceJobsChained();
      AssembledNeedsPrevious(GenerateServiceJobs, services);
    }
  }

  /** How the detector subprocess ended. */
  datatype DetectorRun = Completed(stdout: string) | Failed | TimedOut

  /** `[s.strip() for s in lines if s.strip()]`. */
  function KeepStripped(lines: seq<string>): (r: seq<string>)
    ensures |r| <= |lines|
    ensures forall k :: 0 <= k < |r| ==> r[k] != "" && Strip(r[k]) == r[k]
    decreases |lines|
  {
    if |lines| == 0 then []
    else
      var rest := KeepStripped(lines[1..]);
      var s := Strip(lines[0]);
      if |s| == 0 then rest
      else
        StripIdempotent(lines[0]);
        ConsKept(s, rest);
        [s] + rest
  }

  lemma ConsKept(s: string, rest: seq<string>)
    requires s != [] && Strip(s) == s
    requires forall k :: 0 <= k < |rest| ==> rest[k] != "" && Strip(rest[k]) == rest[k]
    ensures forall k :: 0 <= k < |[s] + rest| ==> ([s] + rest)[k] != "" && Strip(([s] + rest)[k]) == ([s] + rest)[k]
  {
    forall k | 0 <= k < |[s] + rest|
      ensures ([s] + rest)[k] != "" && Strip(([s] + rest)[k]) == ([s] + rest)[k]
    {
      if k > 0 {
        assert ([s] + rest)[k] == rest[k - 1];
      }
    }
  }

  /** The service names read from the detector's standard output. */
  function ParseServiceLines(stdout: string): (services: seq<string>)
    ensures forall k :: 0 <= k < |services| ==> services[k] != "" && Strip(services[k]) == services[k]
  {
    KeepStripped(Split(Strip(stdout), '\n'))
  }

  lemma {:induction false} KeepStrippedFixed(lines: seq<string>)
    requires forall k :: 0 <= k < |lines| ==> lines[k] != "" && Strip(lines[k]) == lines[k]
    ensures KeepStripped(lines) == lines
    decreases |lines|
  {
    if |lines| > 0 {
      KeepStrippedFixed(lines[1..]);
    }
  }

  /** A joined list of non-empty, stripped, single-line names followed by a
      newline (what the detector writes) reads back as the same list. */
  lemma ParseJoinedLines(services: seq<string>)
    requires forall k :: 0 <= k < |services| ==> services[k] != "" && Strip(services[k]) == services[k] && '\n' !in services[k]
    ensures ParseServiceLines(Join(services, '\n') + "\n") == services
  {
    if services == [] {
      ParseLoneNewline();
    } else {
      var text := Join(services, '\n');
      var input := text + ['\n'];
      assert text + "\n" == input;
      JoinedStripped(services);
      StripAppendSpace(text, '\n');
      SplitJoin(services, '\n');
      var lines := Split(Strip(input), '\n');
      assert lines == services;
      KeepStrippedFixed(services);
      assert ParseServiceLines(input) == KeepStripped(lines);
    }
  }

  /** Joining stripped non-empty names leaves no whitespace at either end. */
  lemma JoinedStripped(services: seq<string>)
    requires |services| >= 1
    requires forall k :: 0 <= k < |services| ==> services[k] != "" && Strip(services[k]) == services[k]
    ensures var text := Join(services, '\n'); text != [] && !IsSpace(text[0]) && !IsSpace(text[|text| - 1])
  {
    StrippedEnds(services[0]);
    StrippedEnds(services[|services| - 1]);
    JoinEnds(services, '\n');
  }

  /** An empty list is written as a lone newline, which reads back as no services. */
  lemma ParseLoneNewline()
    ensures ParseServiceLines(Join([], '\n') + "\n") == []
  {
    var e: string := [];
    StripAppendSpace(e, '\n');
    assert Join([], '\n') + "\n" == e + ['\n'];
    SplitNone(e, '\n');
    assert KeepStripped([e]) == [];
  }

  /** A join of non-empty pieces begins with the first piece's first
      character and ends with the last piece's last character. */
  lemma {:induction false} JoinEnds(xs: seq<string>, c: char)
    requires |xs| >= 1 && xs[0] != "" && xs[|xs| - 1] != ""
    ensures var j := Join(xs, c); |j| > 0 && j[0] == xs[0][0] && j[|j| - 1] == xs[|xs| - 1][|xs[|xs| - 1]| - 1]
    decreases |xs|
  {
    if |xs| > 1 {
      var rest := xs[1..];
      if |rest| > 1 {
        assert rest[|rest| - 1] == xs[|xs| - 1];
        assert rest[0] == xs[1];
        JoinEndsLast(rest, c);
      }
    }
  }

  lemma {:induction false} JoinEndsLast(xs: seq<string>, c: char)
    requires |xs| >= 1 && xs[|xs| - 1] != ""
    ensures var j := Join(xs, c); |j| > 0 && j[|j| - 1] == xs[|xs| - 1][|xs[|xs| - 1]| - 1]
    decreases |xs|
  {
    if |xs| > 1 {
      JoinEndsLast(xs[1..], c);
    }
  }

  const WorkflowNode: Node := Workflow([Rule(None, Always, None)])

  const FallbackJob: Job := Job("validate", CiImage, [DefaultRunnerTag],
    ["echo 'ERROR: Pipeline generation failed - no jobs created'", "exit 1"],
    None, None, None, None)

  /** A document without jobs holds only reserved keys. */
  lemma {:induction false} CountJobsZero(doc: Document)
    requires CountJobs(doc) == 0
    ensures forall i :: 0 <= i < |doc| ==> Reserved(doc[i].0)
    decreases |doc|
  {
    if |doc| > 0 {
      CountJobsZero(doc[..|doc| - 1]);
      assert forall i :: 0 <= i < |doc| - 1 ==> doc[..|doc| - 1][i] == doc[i];
    }
  }

  /** The safety net of `main`: a document with no job gains the failing
      fallback job as its only job, and the result always holds a job. */
  function WithFallback(doc: Document): (r: Document)
    ensures CountJobs(r) >= 1
    ensures CountJobs(doc) == 0 ==> Lookup(r, "fallback-job") == Some(JobNode(FallbackJob)) && CountJobs(r) == 1
    ensures CountJobs(doc) > 0 ==> r == doc
  {
    if CountJobs(doc) == 0 then
      CountJobsZero(doc);
      assert "fallback-job" !in KeysOf(doc);
      PutFresh(doc, "fallback-job", JobNode(FallbackJob));
      CountJobsAppend(doc, [("fallback-job", JobNode(FallbackJob))]);
      assert [("fallback-job", JobNode(FallbackJob))][..0] == [];
      Put(doc, "fallback-job", JobNode(FallbackJob))
    else doc
  }

  /** A document with no job gains exactly the fallback, whose script fails;
      any other document is left alone. */
  lemma FallbackOnlyWhenEmpty(doc: Document)
    requires "fallback-job" !in KeysOf(doc)
    ensures "fallback-job" in KeysOf(WithFallback(doc)) <==> CountJobs(doc) == 0
    ensures CountJobs(doc) == 0 ==>
      && Lookup(WithFallback(doc), "fallback-job") == Some(JobNode(FallbackJob))
      && FallbackJob.script[|FallbackJob.script| - 1] == "exit 1"
      && CountJobs(WithFallback(doc)) == 1
  {
    if CountJobs(doc) == 0 {
      var r := WithFallback(doc);
      assert r == doc + [("fallback-job", JobNode(FallbackJob))];
      CountJobsAppend(doc, [("fallback-job", JobNode(FallbackJob))]);
      assert [("fallback-job", JobNode(FallbackJob))][..0] == [];
      assert KeysOf(r)[|doc|] == "fallback-job";
    }
  }

  /** Neither `workflow` nor `fallback-job` is a key of a child pipeline. */
  lemma WorkflowKeyAbsent(services: seq<string>)
    ensures "workflow" !in KeysOf(ChildPipeline(services))
    ensures "fallback-job" !in KeysOf(ChildPipeline(services))
  {
    if services != [] {
      ServiceJobsStageKeyed();
      AssembledFixedKeys(GenerateServiceJobs, services, "workflow");
      AssembledFixedKeys(GenerateServiceJobs, services, "fallback-job");
    }
  }

  /** The body of `main`: read the detector's output (none on failure or
      timeout), build the child pipeline, add the workflow rule, count the
      jobs, and add the fallback if there are none.  The count is never zero,
      so the fallback is never added. */
  method GenerateDocument(run: DetectorRun) returns (services: seq<string>, doc: Document, jobCount: nat)
    ensures services == (if run.Completed? then ParseServiceLines(run.stdout) else [])
    ensures doc == ChildPipeline(services) + [("workflow", WorkflowNode)]
    ensures jobCount == CountJobs(doc) && jobCount >= 1
    ensures jobCount == (if services == [] then 1 else 5 * |Dedup(services)|)
    ensures "fallback-job" !in KeysOf(doc)
    ensures Lookup(doc, "workflow") == Some(WorkflowNode)
  {
    match run {
      case Completed(stdout) =>
        services := ParseServiceLines(stdout);
      case Failed =>
        services := [];
      case TimedOut =>
        services := [];
    }
    var childPipeline := GenerateChildPipeline(services);
    WorkflowKeyAbsent(services);
    ChildPipelineJobCount(services);
    AddWorkflow(childPipeline);
    childPipeline := Put(childPipeline, "workflow", WorkflowNode);
    jobCount := CountJobs(childPipeline);
    doc := WithFallback(childPipeline);
  }

  /** Adding the workflow entry to a document without one appends it and
      adds no job. */
  lemma AddWorkflow(doc: Document)
    requires "workflow" !in KeysOf(doc) && "fallback-job" !in KeysOf(doc)
    ensures Put(doc, "workflow", WorkflowNode) == doc + [("workflow", WorkflowNode)]
    ensures CountJobs(doc + [("workflow", WorkflowNode)]) == CountJobs(doc)
    ensures "fallback-job" !in KeysOf(doc + [("workflow", WorkflowNode)])
    ensures Lookup(doc + [("workflow", WorkflowNode)], "workflow") == Some(WorkflowNode)
  {
    var w := [("workflow", WorkflowNode)];
    PutFresh(doc, "workflow", WorkflowNode);
    CountJobsAppend(doc, w);
    assert w[..0] == [];
  }
}
