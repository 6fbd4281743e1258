/** The inventory generator of `ansible/inventory/terraform_inventory.py`: the
    `.env` loader, the per-project backend variables, and the partition of the
    hosts Terraform reports into the project, K3s and merged inventories.

    The process environment is an explicit map threaded through the
    operations; Terraform's `ansible_info` output arrives as a map from host
    name to that host's data. */
module TerraformInventory {
  import opened Wrappers
  import opened Text
  import opened Json

  type Env = map<string, string>

  /** Unchanged entry: present in both or neither, with the same value. */
  predicate Kept(env: Env, env0: Env, k: string) {
    (k in env <==> k in env0) && (k in env ==> env[k] == env0[k])
  }

  // ---------------------------------------------------------------------
  // Variable references in `.env` values: `${NAME}` (NAME = `[^}]+`) or
  // `$NAME` (NAME = `[A-Z_][A-Z0-9_]*`).

  predicate IsNameStart(c: char) {
    'A' <= c <= 'Z' || c == '_'
  }

  predicate IsNameChar(c: char) {
    IsNameStart(c) || IsDigit(c)
  }

  /** The reference the pattern matches at the start of `s`, if any: the
      variable name and the length of the matched text. The braced form is
      tried first; `${` without a closing brace matches nothing. */
  function RefAt(s: string): (r: Option<(string, nat)>)
    ensures r.Some? ==> 2 <= r.value.1 <= |s| && |r.value.0| > 0
  {
    if |s| < 2 || s[0] != '$' then None
    else if s[1] == '{' then
      match IndexOfChar(s[2..], '}')
      case Some(k) => if k > 0 then Some((s[2..2 + k], k + 3)) else None
      case None => None
    else if IsNameStart(s[1]) then
      var n := Run(s[1..], IsNameChar);
      Some((s[1..1 + n], 1 + n))
    else None
  }

  /** `re.sub` with `expand_var`: scanning left to right, each reference is
      replaced by the variable's current value, or kept as written when the
      variable is unset; the replacement is not scanned again. */
  function Expand(s: string, env: Env): string
    decreases |s|
  {
    if |s| == 0 then ""
    else match RefAt(s)
      case Some((name, n)) => (if name in env then env[name] else s[..n]) + Expand(s[n..], env)
      case None => [s[0]] + Expand(s[1..], env)
  }

  /** Every reference in `s`, at whatever position, names an unset variable. */
  predicate RefsUnset(s: string, env: Env) {
    forall i {:trigger RefAt(s[i..])} :: 0 <= i < |s| && RefAt(s[i..]).Some? ==> RefAt(s[i..]).value.0 !in env
  }

  lemma RefsUnsetSuffix(s: string, env: Env, n: nat)
    requires RefsUnset(s, env) && n <= |s|
    ensures RefsUnset(s[n..], env)
  {
    forall i | 0 <= i < |s[n..]| && RefAt(s[n..][i..]).Some?
      ensures RefAt(s[n..][i..]).value.0 !in env
    {
      assert s[n..][i..] == s[n + i..];
    }
  }

  /** References to unset variables stay verbatim. */
  lemma {:induction false} ExpandUnset(s: string, env: Env)
    requires RefsUnset(s, env)
    ensures Expand(s, env) == s
    decreases |s|
  {
    if |s| > 0 {
      assert s[0..] == s;
      var r := RefAt(s);
      if r.Some? {
        var n := r.value.1;
        assert r.value.0 !in env;
        RefsUnsetSuffix(s, env, n);
        ExpandUnset(s[n..], env);
        assert Expand(s, env) == s[..n] + Expand(s[n..], env);
        assert s == s[..n] + s[n..];
      } else {
        RefsUnsetSuffix(s, env, 1);
        ExpandUnset(s[1..], env);
        assert Expand(s, env) == [s[0]] + Expand(s[1..], env);
        assert s == [s[0]] + s[1..];
      }
    }
  }

  /** `${NAME}` is replaced by the value of a set variable. */
  lemma ExpandBraced(name: string, rest: string, env: Env)
    requires |name| > 0 && '}' !in name && name in env
    ensures Expand("${" + name + "}" + rest, env) == env[name] + Expand(rest, env)
  {
    var s := "${" + name + "}" + rest;
    assert s[2..] == name + ['}'] + rest;
    IndexOfCharAfter(name, '}', rest);
    assert s[2..2 + |name|] == name;
    assert s[|name| + 3..] == rest;
  }

  /** `$NAME` takes the longest run of name characters. */
  lemma ExpandBare(name: string, rest: string, env: Env)
    requires |name| > 0 && IsNameStart(name[0])
    requires forall i :: 0 <= i < |name| ==> IsNameChar(name[i])
    requires rest == [] || !IsNameChar(rest[0])
    ensures Expand("$" + name + rest, env) == (if name in env then env[name] else "$" + name) + Expand(rest, env)
  {
    var s := "$" + name + rest;
    assert s[1..] == name + rest;
    if rest == [] {
      assert name + rest == name;
    } else {
      RunStops(name, rest[0], rest[1..], IsNameChar);
      assert name + rest == name + [rest[0]] + rest[1..];
    }
    assert s[1..1 + |name|] == name;
    assert s[..1 + |name|] == "$" + name;
    assert s[1 + |name|..] == rest;
  }

  // ---------------------------------------------------------------------
  // load_dotenv

  /** One line of the file: skipped (`None`) when blank after `strip()`, a
      comment, or without `=`; otherwise split at the first `=` into the
      trimmed key and the value trimmed, then stripped of `"` and then of `'`. */
  function ParseDotenvLine(raw: string): (r: Option<(string, string)>)
    ensures Strip(raw) == "" ==> r.None?
    ensures r.Some? ==> '=' in raw && '=' !in r.value.0 && Strip(r.value.0) == r.value.0
  {
    var line := Strip(raw);
    if line == "" || line[0] == '#' then None
    else match IndexOfChar(line, '=')
      case None => None
      case Some(i) =>
        StripWithin(raw, '=');
        StripIdempotent(line[..i]);
        StripFree(line[..i], '=');
        Some((Strip(line[..i]), StripChar(StripChar(Strip(line[i + 1..]), '"'), '\'')))
  }

  lemma StripCharFixed(s: string, c: char)
    requires s == [] || (s[0] != c && s[|s| - 1] != c)
    ensures StripChar(s, c) == s
  {
  }

  /** A plain `KEY=value` line reads back as its key and value. */
  lemma DotenvLineRoundTrip(key: string, value: string)
    requires |key| > 0 && key[0] != '#' && '=' !in key
    requires !IsSpace(key[0]) && !IsSpace(key[|key| - 1])
    requires value == [] || (!IsSpace(value[0]) && !IsSpace(value[|value| - 1]))
    requires value == [] || (value[0] != '"' && value[|value| - 1] != '"'
                             && value[0] != '\'' && value[|value| - 1] != '\'')
    ensures ParseDotenvLine(key + "=" + value) == Some((key, value))
  {
    var line := key + "=" + value;
    assert line[0] == key[0];
    assert line[|line| - 1] == if value == [] then '=' else value[|value| - 1];
    StripFixed(line);
    IndexOfCharAfter(key, '=', value);
    assert line[..|key|] == key;
    assert line[|key| + 1..] == value;
    StripFixed(key);
    StripFixed(value);
    StripCharFixed(value, '"');
    StripCharFixed(value, '\'');
  }

  /** Setting a variable with an empty name or a NUL character raises, which
      ends the loading (the exception is caught around the whole loop). */
  predicate IllegalEnv(key: string, value: string) {
    key == "" || '\0' in key || '\0' in value
  }

  /** `os.environ.setdefault(key, value)`: `None` when it raises, which
      only a new, illegal variable does. It keeps every variable already
      set, adds at most `key`, and leaves `key` set. */
  function SetDefault(env: Env, key: string, value: string): (r: Option<Env>)
    ensures r.None? <==> key !in env && IllegalEnv(key, value)
    ensures r.Some? ==> forall k :: k in env ==> k in r.value && r.value[k] == env[k]
    ensures r.Some? ==> forall k :: k in r.value ==> k in env || k == key
    ensures r.Some? ==> key in r.value && (key !in env ==> r.value[key] == value)
  {
    if key in env then Some(env)
    else if IllegalEnv(key, value) then None
    else Some(env[key := value])
  }

  /** One line of the file applied to the environment. */
  function DotenvStep(env: Env, raw: string): Option<Env> {
    match ParseDotenvLine(raw)
    case None => Some(env)
    case Some((key, value)) => SetDefault(env, key, Expand(value, env))
  }

  /** A line never overwrites a variable already set. */
  lemma StepKeeps(env: Env, raw: string)
    ensures DotenvStep(env, raw).Some? ==>
      forall k :: k in env ==> k in DotenvStep(env, raw).value && DotenvStep(env, raw).value[k] == env[k]
  {
    StepOfParsed(env, raw);
    var parsed := ParseDotenvLine(raw);
    if parsed.Some? {
    }
  }

  /** The lines from index `i` on applied in order, stopping at the first
      that raises. */
  function DotenvFrom(env: Env, lines: seq<string>, i: nat): Env
    requires i <= |lines|
    decreases |lines| - i
  {
    if i == |lines| then env
    else match DotenvStep(env, lines[i])
      case None => env
      case Some(next) => DotenvFrom(next, lines, i + 1)
  }

  /** The whole file applied to the environment. */
  function DotenvFold(env: Env, lines: seq<string>): Env {
    DotenvFrom(env, lines, 0)
  }

  lemma {:induction false} KeepsFrom(env: Env, lines: seq<string>, i: nat)
    requires i <= |lines|
    ensures forall k :: k in env ==> k in DotenvFrom(env, lines, i) && DotenvFrom(env, lines, i)[k] == env[k]
    decreases |lines| - i
  {
    if i < |lines| {
      var step := DotenvStep(env, lines[i]);
      if step.Some? {
        StepKeeps(env, lines[i]);
        KeepsFrom(step.value, lines, i + 1);
      }
    }
  }

  /** A variable already set is never overwritten by the file. */
  lemma DotenvKeeps(env: Env, lines: seq<string>)
    ensures forall k :: k in env ==> k in DotenvFold(env, lines) && DotenvFold(env, lines)[k] == env[k]
  {
    KeepsFrom(env, lines, 0);
  }

  /** A line adds at most the variable it names. */
  lemma StepAddsParsedKey(env: Env, raw: string, k: string)
    requires DotenvStep(env, raw).Some? && k in DotenvStep(env, raw).value && k !in env
    ensures ParseDotenvLine(raw).Some? && ParseDotenvLine(raw).value.0 == k
  {
    var parsed := ParseDotenvLine(raw);
    if parsed.Some? {
      var key := parsed.value.0;
      assert DotenvStep(env, raw) == SetDefault(env, key, Expand(parsed.value.1, env));
    }
  }

  /** The keys the lines of a file name, whether or not they take effect. */
  function DeclaredKeys(lines: seq<string>): set<string> {
    set j | 0 <= j < |lines| && ParseDotenvLine(lines[j]).Some? :: ParseDotenvLine(lines[j]).value.0
  }

  lemma {:induction false} AddsFrom(env: Env, lines: seq<string>, i: nat, k: string)
    requires i <= |lines| && k in DotenvFrom(env, lines, i) && k !in env
    ensures k in DeclaredKeys(lines)
    decreases |lines| - i
  {
    var step := DotenvStep(env, lines[i]);
    assert step.Some?;
    var next := step.value;
    if k in next {
      StepAddsParsedKey(env, lines[i], k);
      assert ParseDotenvLine(lines[i]).value.0 in DeclaredKeys(lines);
    } else {
      AddsFrom(next, lines, i + 1, k);
    }
  }

  /** Every variable the file adds is the key of one of its lines. */
  lemma DotenvAddsParsedKeys(env: Env, lines: seq<string>, k: string)
    requires k in DotenvFold(env, lines) && k !in env
    ensures k in DeclaredKeys(lines)
  {
    AddsFrom(env, lines, 0, k);
  }

  /** `load_dotenv`: nothing happens without the file; otherwise its lines
      are applied in order until one raises. */
  method LoadDotenv(env0: Env, file: Option<seq<string>>) returns (env: Env)
    ensures file.None? ==> env == env0
    ensures file.Some? ==> env == DotenvFold(env0, file.value)
  {
    env := env0;
    if file.None? {
      return;
    }
    var lines := file.value;
    var i := 0;
    while i < |lines|
      invariant 0 <= i <= |lines|
      invariant DotenvFrom(env, lines, i) == DotenvFold(env0, lines)
    {
      FromStep(env, lines, i);
      StepOfParsed(env, lines[i]);
      var parsed := ParseDotenvLine(lines[i]);
      if parsed.Some? {
        var key, value := parsed.value.0, parsed.value.1;
        var next := SetDefault(env, key, Expand(value, env));
        if next.None? {
          return;
        }
        env := next.value;
      }
      i := i + 1;
    }
  }

  /** The fold from line `i` on, one step unrolled. */
  lemma FromStep(env: Env, lines: seq<string>, i: nat)
    requires i < |lines|
    ensures DotenvStep(env, lines[i]).None? ==> DotenvFrom(env, lines, i) == env
    ensures DotenvStep(env, lines[i]).Some? ==>
      DotenvFrom(env, lines, i) == DotenvFrom(DotenvStep(env, lines[i]).value, lines, i + 1)
  {
  }

  /** A step is `setdefault` of the parsed line, or nothing for a skipped line. */
  lemma StepOfParsed(env: Env, raw: string)
    ensures ParseDotenvLine(raw).None? ==> DotenvStep(env, raw) == Some(env)
    ensures ParseDotenvLine(raw).Some? ==>
      DotenvStep(env, raw) == SetDefault(env, ParseDotenvLine(raw).value.0, Expand(ParseDotenvLine(raw).value.1, env))
  {
  }

  // ---------------------------------------------------------------------
  // apply_project_backend_env

  const BackendSuffixes: seq<string> := ["ADDRESS", "LOCK_ADDRESS", "UNLOCK_ADDRESS", "USERNAME", "PASSWORD", "HEADERS"]
  const BackendTarget: string := "TF_HTTP_"

  /** The six `TF_HTTP_*` variables, in mapping order. */
  const Targets: seq<string> := [
    "TF_HTTP_ADDRESS", "TF_HTTP_LOCK_ADDRESS", "TF_HTTP_UNLOCK_ADDRESS",
    "TF_HTTP_USERNAME", "TF_HTTP_PASSWORD", "TF_HTTP_HEADERS"]

  function Source(prefix: string, i: nat): string
    requires i < 6
  {
    prefix + BackendSuffixes[i]
  }

  /** Mapping `i` copies when its source is set and non-empty. */
  predicate Copies(env: Env, prefix: string, i: nat)
    requires i < 6
  {
    Source(prefix, i) in env && env[Source(prefix, i)] != ""
  }

  /** Target `i` after the copy, judged against the environment before it. */
  predicate BackendApplied(env: Env, env0: Env, prefix: string, i: nat)
    requires i < 6
  {
    if Copies(env0, prefix, i) then Targets[i] in env && env[Targets[i]] == env0[Source(prefix, i)]
    else Kept(env, env0, Targets[i])
  }

  /** Two strings whose `d`-th characters from the end differ are different. */
  lemma EndCharsDiffer(p: string, x: string, y: string, d: nat)
    requires d < |x| && d < |y| && x[|x| - 1 - d] != y[|y| - 1 - d]
    ensures p + x != y
  {
    var s := p + x;
    assert s[|s| - 1 - d] == x[|x| - 1 - d];
    if |s| == |y| {
      assert s[|s| - 1 - d] != y[|y| - 1 - d];
    }
  }

  /** No mapping reads a variable an earlier mapping wrote, whatever the
      prefix: the loop sees the original values. */
  lemma SourceNotEarlierTarget(prefix: string, i: nat, j: nat)
    requires j < i < 6
    ensures Source(prefix, i) != Targets[j]
  {
    var d := if i <= 2 then (if i == 2 && j == 1 then 12 else 8) else if i == 5 && j <= 2 then 1 else 0;
    EndCharsDiffer(prefix, BackendSuffixes[i], Targets[j], d);
  }

  lemma TargetsDistinct(i: nat, j: nat)
    requires j < i < 6
    ensures Targets[i] != Targets[j]
  {
    SourceNotEarlierTarget(BackendTarget, i, j);
  }

  /** `apply_project_backend_env`: with an empty prefix nothing changes;
      otherwise each `TF_HTTP_X` whose `PREFIX+X` is set and non-empty takes
      that value, and every other variable is untouched. */
  method ApplyProjectBackendEnv(env0: Env, prefix: string) returns (env: Env)
    ensures prefix == "" ==> env == env0
    ensures forall k :: k !in Targets ==> Kept(env, env0, k)
    ensures prefix != "" ==> forall i :: 0 <= i < 6 ==> BackendApplied(env, env0, prefix, i)
  {
    env := env0;
    if prefix == "" {
      return;
    }
    for i := 0 to 6
      invariant forall k :: k !in Targets[..i] ==> Kept(env, env0, k)
      invariant forall j :: 0 <= j < i ==> BackendApplied(env, env0, prefix, j)
    {
      var src := Source(prefix, i);
      forall j | 0 <= j < i
        ensures src != Targets[..i][j] && Targets[i] != Targets[..i][j] && Targets[i] != Targets[j]
      {
        SourceNotEarlierTarget(prefix, i, j);
        TargetsDistinct(i, j);
      }
      assert Kept(env, env0, src);
      assert Kept(env, env0, Targets[i]);
      ghost var before := env;
      if src in env && env[src] != "" {
        env := env[Targets[i] := env[src]];
      }
      assert BackendApplied(env, env0, prefix, i);
      forall j | 0 <= j < i
        ensures BackendApplied(env, env0, prefix, j)
      {
        assert BackendApplied(before, env0, prefix, j);
        assert Targets[i] != Targets[j];
      }
      assert Targets[..i + 1] == Targets[..i] + [Targets[i]];
    }
    assert Targets[..6] == Targets;
  }

  // ---------------------------------------------------------------------
  // Host variables

  /** The data Terraform reports for one host. */
  type HostData = map<string, Value>

  /** `host_data.get(key)`: `None` when the key is absent. */
  function Get(data: HostData, key: string): Value {
    if key in data then data[key] else Null
  }

  /** The connection variables every host carries, even when null. */
  const ConnectionKeys: seq<string> := ["ansible_host", "ansible_user", "ansible_ssh_private_key_file"]

  /** The keys the extra-variables loop never copies. */
  const ReservedKeys: seq<string> := ConnectionKeys + ["type", "groups", "k3s_role"]

  /** A key of the host's variables: a connection key always; any other key
      except `type` and `groups` when its value is neither null nor empty. */
  predicate HostVarKey(data: HostData, k: string) {
    k in ConnectionKeys || (k != "type" && k != "groups" && Present(Get(data, k)))
  }

  /** The variables written for one host, each with the value the host data
      gives it (null for a missing connection key). */
  function HostVars(data: HostData): (vars: map<string, Value>)
    ensures forall k :: k in vars <==> HostVarKey(data, k)
    ensures forall k :: k in vars ==> vars[k] == Get(data, k)
  {
    map k | k in data.Keys + {"ansible_host", "ansible_user", "ansible_ssh_private_key_file"} && HostVarKey(data, k) :: Get(data, k)
  }

  /** A key of the variables once the keys outside `remaining` have been
      through the extra-variables loop. */
  predicate CopiedSoFar(data: HostData, remaining: set<string>, k: string) {
    k in ConnectionKeys || (k == "k3s_role" && Present(Get(data, k)))
    || (k in data && k !in remaining && k !in ReservedKeys && Present(data[k]))
  }

  /** After the whole loop the keys are exactly those of `HostVars`. */
  lemma CopiedAll(data: HostData, vars: map<string, Value>)
    requires forall k :: k in vars <==> CopiedSoFar(data, {}, k)
    requires forall k :: k in vars ==> vars[k] == Get(data, k)
    ensures vars == HostVars(data)
  {
    forall k
      ensures k in vars <==> k in HostVars(data)
    {
      assert k in ReservedKeys <==> k in ConnectionKeys || k == "type" || k == "groups" || k == "k3s_role";
    }
  }

  /** The `host_vars` construction: the three connection keys, `k3s_role`
      when present, then every non-reserved key whose value is present. */
  method BuildHostVars(data: HostData) returns (vars: map<string, Value>)
    ensures vars == HostVars(data)
  {
    vars := map[
      "ansible_host" := Get(data, "ansible_host"),
      "ansible_user" := Get(data, "ansible_user"),
      "ansible_ssh_private_key_file" := Get(data, "ansible_ssh_private_key_file")];
    var role := Get(data, "k3s_role");
    if Present(role) {
      vars := vars["k3s_role" := role];
    }
    var remaining := data.Keys;
    while remaining != {}
      invariant remaining <= data.Keys
      invariant forall k :: k in vars <==> CopiedSoFar(data, remaining, k)
      invariant forall k :: k in vars ==> vars[k] == Get(data, k)
      decreases remaining
    {
      var k :| k in remaining;
      if k !in ReservedKeys && Present(data[k]) {
        vars := vars[k := data[k]];
      }
      remaining := remaining - {k};
    }
    CopiedAll(data, vars);
  }

  // ---------------------------------------------------------------------
  // K3s classification

  const MasterPrefix: string := "k3s-master-"
  const WorkerPrefix: string := "k3s-worker-"
  const MasterRoles: seq<string> := ["master", "control-plane", "server"]
  const WorkerRoles: seq<string> := ["worker", "agent", "node"]

  /** A K3s node: its `k3s_role` is neither null nor empty, or its name has
      a K3s master or worker prefix. */
  predicate IsK3s(hostname: string, data: HostData) {
    Present(Get(data, "k3s_role")) || StartsWith(hostname, MasterPrefix) || StartsWith(hostname, WorkerPrefix)
  }

  datatype Role = Master | Worker | Undetermined

  /** The role of a K3s node: a truthy `k3s_role` decides by its lower-cased
      text, otherwise the host name's prefix does. `None` when the role is
      truthy but not a string, where `.lower()` raises. */
  function K3sRole(hostname: string, data: HostData): Option<Role> {
    var role := Get(data, "k3s_role");
    if Truthy(role) then
      if !role.Str? then None
      else if Lower(role.s) in MasterRoles then Some(Master)
      else if Lower(role.s) in WorkerRoles then Some(Worker)
      else Some(Undetermined)
    else if StartsWith(hostname, MasterPrefix) then Some(Master)
    else if StartsWith(hostname, WorkerPrefix) then Some(Worker)
    else Some(Undetermined)
  }

  /** Where a host's variables go besides the merged inventory. */
  datatype Group = Masters | Workers | ProjectHosts

  /** Non-K3s hosts go to their project; K3s masters to `masters`; every
      other K3s node, undetermined ones included, to `workers`. A host stays
      in its project exactly when it is not a K3s node, and the script fails
      on it exactly when a K3s node's truthy role is not text. */
  function Placement(hostname: string, data: HostData): (r: Option<Group>)
    ensures r == Some(ProjectHosts) <==> !IsK3s(hostname, data)
    ensures r.None? <==> IsK3s(hostname, data) && Truthy(Get(data, "k3s_role")) && !Get(data, "k3s_role").Str?
  {
    if !IsK3s(hostname, data) then Some(ProjectHosts)
    else
      var role := K3sRole(hostname, data);
      if role.None? then None
      else if role.value == Master then Some(Masters)
      else Some(Workers)
  }

  /** A non-empty textual role decides, case-insensitively, over the host
      name: `master`, `control-plane` and `server` are masters, anything else
      a worker. */
  lemma RoleDecides(hostname: string, data: HostData, role: string)
    requires Get(data, "k3s_role") == Str(role) && role != ""
    ensures Placement(hostname, data) == Some(if Lower(role) in MasterRoles then Masters else Workers)
  {
  }

  /** Without a truthy role the host-name prefix decides, and a K3s node with
      neither defaults to a worker. */
  lemma HostnameDecides(hostname: string, data: HostData)
    requires IsK3s(hostname, data) && !Truthy(Get(data, "k3s_role"))
    ensures Placement(hostname, data) == Some(if StartsWith(hostname, MasterPrefix) then Masters else Workers)
  {
  }

  /** The role text is compared case-insensitively and beats the host name. */
  lemma RoleExamples()
    ensures Placement("node-1", map["k3s_role" := Str("Control-Plane")]) == Some(Masters)
    ensures Placement("k3s-master-1", map["k3s_role" := Str("Agent")]) == Some(Workers)
    ensures Placement("k3s-master-2", map["k3s_role" := Str("gpu")]) == Some(Workers)
    ensures Placement("k3s-master-3", map["k3s_role" := Bool(false)]) == Some(Masters)
  {
    assert Lower("Control-Plane") == "control-plane";
    assert Lower("Agent") == "agent";
    assert Lower("gpu") == "gpu";
    assert StartsWith("k3s-master-3", MasterPrefix);
  }

  // ---------------------------------------------------------------------
  // Partition of the hosts

  /** Host name to variables, as each inventory file lists them. */
  type Hosts = map<string, map<string, Value>>

  /** A project's `ansible_info` as the loop visits it: the (host name, host
      data) pairs in the dictionary's order. */
  type HostTable = seq<(string, HostData)>

  /** The host names of a table. */
  function Names(table: HostTable): set<string> {
    set k | 0 <= k < |table| :: table[k].0
  }

  lemma NamesSnoc(table: HostTable)
    requires |table| > 0
    ensures Names(table) == Names(table[..|table| - 1]) + {table[|table| - 1].0}
  {
    var init := table[..|table| - 1];
    forall h | h in Names(table)
      ensures h in Names(init) + {table[|table| - 1].0}
    {
      var k :| 0 <= k < |table| && table[k].0 == h;
      if k < |init| {
        assert init[k] == table[k];
      }
    }
    forall h | h in Names(init)
      ensures h in Names(table)
    {
      var k :| 0 <= k < |init| && init[k].0 == h;
      assert table[k] == init[k];
    }
  }

  /** A dictionary names each host once. */
  predicate UniqueNames(table: HostTable) {
    forall a, b :: 0 <= a < b < |table| ==> table[a].0 != table[b].0
  }

  lemma UniqueLast(table: HostTable)
    requires UniqueNames(table) && |table| > 0
    ensures UniqueNames(table[..|table| - 1])
    ensures table[|table| - 1].0 !in Names(table[..|table| - 1])
  {
    var init := table[..|table| - 1];
    forall a, b | 0 <= a < b < |init|
      ensures init[a].0 != init[b].0
    {
      assert init[a] == table[a] && init[b] == table[b];
    }
    forall k | 0 <= k < |init|
      ensures init[k].0 != table[|table| - 1].0
    {
      assert init[k] == table[k];
    }
  }

  /** The three maps that span all projects. */
  datatype Partition = Partition(all: Hosts, masters: Hosts, workers: Hosts)

  /** The loop body for one host: its variables go into `all` and into the
      map its placement names; `None` when its placement fails. */
  function Enter(q: Partition, projectHosts: Hosts, h: string, data: HostData): (r: Option<(Partition, Hosts)>)
    ensures r.None? <==> Placement(h, data).None?
  {
    var g := Placement(h, data);
    if g.None? then None
    else
      var vars := HostVars(data);
      Some((
        Partition(
          q.all[h := vars],
          if g.value == Masters then q.masters[h := vars] else q.masters,
          if g.value == Workers then q.workers[h := vars] else q.workers),
        if g.value == ProjectHosts then projectHosts[h := vars] else projectHosts))
  }

  /** The hosts of a table entered in order; `None` from the first host that
      fails. */
  function EnterAll(q: Partition, projectHosts: Hosts, table: HostTable): Option<(Partition, Hosts)>
    decreases |table|
  {
    if |table| == 0 then Some((q, projectHosts))
    else
      var prev := EnterAll(q, projectHosts, table[..|table| - 1]);
      if prev.None? then None
      else Enter(prev.value.0, prev.value.1, table[|table| - 1].0, table[|table| - 1].1)
  }

  lemma EnterAllSnoc(q: Partition, projectHosts: Hosts, table: HostTable, i: nat)
    requires i < |table|
    ensures EnterAll(q, projectHosts, table[..i + 1]) ==
      var prev := EnterAll(q, projectHosts, table[..i]);
      if prev.None? then None else Enter(prev.value.0, prev.value.1, table[i].0, table[i].1)
  {
    assert table[..i + 1][..i] == table[..i];
  }

  /** Some host of the table makes the script fail. */
  predicate Fails(table: HostTable) {
    exists k :: 0 <= k < |table| && Placement(table[k].0, table[k].1).None?
  }

  lemma FailsSnoc(table: HostTable)
    requires |table| > 0
    ensures Fails(table) <==>
      Fails(table[..|table| - 1]) || Placement(table[|table| - 1].0, table[|table| - 1].1).None?
  {
    var init := table[..|table| - 1];
    if Fails(init) {
      var k :| 0 <= k < |init| && Placement(init[k].0, init[k].1).None?;
      assert table[k] == init[k];
    }
    if Fails(table) {
      var k :| 0 <= k < |table| && Placement(table[k].0, table[k].1).None?;
      if k < |init| {
        assert init[k] == table[k];
      }
    }
  }

  /** Entering the hosts fails exactly when one of them fails. */
  lemma {:induction false} EnterAllFails(q: Partition, projectHosts: Hosts, table: HostTable)
    ensures EnterAll(q, projectHosts, table).None? <==> Fails(table)
    decreases |table|
  {
    if |table| > 0 {
      EnterAllFails(q, projectHosts, table[..|table| - 1]);
      FailsSnoc(table);
    }
  }

  /** A failing prefix makes the whole table fail. */
  lemma FailsPrefix(table: HostTable, i: nat)
    requires i <= |table| && Fails(table[..i])
    ensures Fails(table)
  {
    var k :| 0 <= k < i && Placement(table[..i][k].0, table[..i][k].1).None?;
    assert table[k] == table[..i][k];
  }

  /** One project's hosts entered into the partition, with the project's own
      hosts returned beside it; `None` when a host fails. */
  function Absorb(p: Partition, table: HostTable): (r: Option<(Partition, Hosts)>)
    ensures r.None? <==> Fails(table)
  {
    EnterAllFails(p, map[], table);
    EnterAll(p, map[], table)
  }

  /** `h` has the same entries in `r` as in the maps `q` and `projectHosts`. */
  predicate Untouched(q: Partition, projectHosts: Hosts, r: (Partition, Hosts), h: string) {
    && (h in r.0.all <==> h in q.all)
    && (h in q.all ==> r.0.all[h] == q.all[h])
    && (h in r.0.masters <==> h in q.masters)
    && (h in q.masters ==> r.0.masters[h] == q.masters[h])
    && (h in r.0.workers <==> h in q.workers)
    && (h in q.workers ==> r.0.workers[h] == q.workers[h])
    && (h in r.1 <==> h in projectHosts)
    && (h in projectHosts ==> r.1[h] == projectHosts[h])
  }

  /** A host the table does not name keeps its entries. */
  lemma {:induction false} EnterAllUnnamed(q: Partition, projectHosts: Hosts, table: HostTable, h: string)
    requires EnterAll(q, projectHosts, table).Some? && h !in Names(table)
    ensures Untouched(q, projectHosts, EnterAll(q, projectHosts, table).value, h)
    decreases |table|
  {
    if |table| > 0 {
      NamesSnoc(table);
      EnterAllUnnamed(q, projectHosts, table[..|table| - 1], h);
    }
  }

  /** `h`, placed by `data`, has its variables in the merged map and is in
      each other map exactly when it was before or its placement names it;
      the map its placement names holds the same variables. */
  predicate EnteredAt(q: Partition, projectHosts: Hosts, r: (Partition, Hosts), h: string, data: HostData) {
    var g := Placement(h, data);
    && h in r.0.all && r.0.all[h] == HostVars(data)
    && (h in r.0.masters <==> h in q.masters || g == Some(Masters))
    && (g == Some(Masters) ==> r.0.masters[h] == HostVars(data))
    && (h in r.0.workers <==> h in q.workers || g == Some(Workers))
    && (g == Some(Workers) ==> r.0.workers[h] == HostVars(data))
    && (h in r.1 <==> h in projectHosts || g == Some(ProjectHosts))
    && (g == Some(ProjectHosts) ==> r.1[h] == HostVars(data))
  }

  /** Each host of a table with distinct names is entered where its own
      data places it. */
  lemma {:induction false} EnterAllNamed(q: Partition, projectHosts: Hosts, table: HostTable, k: nat)
    requires EnterAll(q, projectHosts, table).Some? && UniqueNames(table) && k < |table|
    ensures EnteredAt(q, projectHosts, EnterAll(q, projectHosts, table).value, table[k].0, table[k].1)
    decreases |table|
  {
    var n := |table|;
    var init := table[..n - 1];
    UniqueLast(table);
    if k == n - 1 {
      EnterAllUnnamed(q, projectHosts, init, table[k].0);
    } else {
      assert init[k] == table[k];
      EnterAllNamed(q, projectHosts, init, k);
      assert table[k].0 in Names(init);
    }
  }

  /** The merged map gains exactly the table's host names. */
  lemma {:induction false} EnterAllKeys(q: Partition, projectHosts: Hosts, table: HostTable)
    requires EnterAll(q, projectHosts, table).Some?
    ensures forall h :: h in EnterAll(q, projectHosts, table).value.0.all <==> h in q.all || h in Names(table)
    decreases |table|
  {
    if |table| > 0 {
      NamesSnoc(table);
      EnterAllKeys(q, projectHosts, table[..|table| - 1]);
    }
  }

  /** The other maps lie within the merged map, and every merged entry is in
      one of them or in `others`. */
  predicate CoveredBy(q: Partition, projectHosts: Hosts, others: set<string>) {
    && (forall h :: h in q.masters ==> h in q.all)
    && (forall h :: h in q.workers ==> h in q.all)
    && (forall h :: h in projectHosts ==> h in q.all)
    && (forall h :: h in q.all ==> h in q.masters || h in q.workers || h in projectHosts || h in others)
  }

  /** Entering hosts keeps the maps covered. */
  lemma {:induction false} EnterAllCovered(q: Partition, projectHosts: Hosts, table: HostTable, others: set<string>)
    requires CoveredBy(q, projectHosts, others) && EnterAll(q, projectHosts, table).Some?
    ensures var r := EnterAll(q, projectHosts, table).value; CoveredBy(r.0, r.1, others)
    decreases |table|
  {
    if |table| > 0 {
      EnterAllCovered(q, projectHosts, table[..|table| - 1], others);
    }
  }

  /** The loop of `main` over one project's hosts. */
  method PartitionProject(p: Partition, table: HostTable) returns (r: Option<(Partition, Hosts)>)
    ensures r == Absorb(p, table)
  {
    var all, masters, workers, projectHosts := p.all, p.masters, p.workers, map[];
    for i := 0 to |table|
      invariant EnterAll(p, map[], table[..i]) == Some((Partition(all, masters, workers), projectHosts))
    {
      EnterAllSnoc(p, map[], table, i);
      var (hostname, data) := table[i];
      var vars := BuildHostVars(data);
      var group := Placement(hostname, data);
      if group.None? {
        EnterAllFails(p, map[], table[..i + 1]);
        FailsPrefix(table, i + 1);
        return None;
      }
      if group.value == Masters {
        masters := masters[hostname := vars];
      } else if group.value == Workers {
        workers := workers[hostname := vars];
      } else {
        projectHosts := projectHosts[hostname := vars];
      }
      all := all[hostname := vars];
    }
    TakeAll(table);
    r := Some((Partition(all, masters, workers), projectHosts));
  }

  // ---------------------------------------------------------------------
  // All projects

  /** The state after the loop over the projects: the three shared maps,
      each processed project's own hosts (empty when it was skipped), and
      whether a host made the script fail. */
  datatype Outcome = Outcome(part: Partition, projects: seq<Hosts>, failed: bool)

  /** The projects' outputs processed in order: a project without
      `ansible_info`, or with an empty one, is skipped; the first host that
      makes the script fail stops everything. */
  function Collect(infos: seq<Option<HostTable>>): (r: Outcome)
    ensures |r.projects| <= |infos|
    ensures !r.failed ==> |r.projects| == |infos|
    decreases |infos|
  {
    if |infos| == 0 then Outcome(Partition(map[], map[], map[]), [], false)
    else Next(Collect(infos[..|infos| - 1]), infos[|infos| - 1])
  }

  /** One more project's output processed. */
  function Next(prev: Outcome, info: Option<HostTable>): (r: Outcome)
    ensures |r.projects| <= |prev.projects| + 1
    ensures !r.failed ==> !prev.failed && |r.projects| == |prev.projects| + 1
  {
    if prev.failed then prev
    else if info.None? || |info.value| == 0 then prev.(projects := prev.projects + [map[]])
    else
      var step := Absorb(prev.part, info.value);
      if step.None? then prev.(failed := true)
      else Outcome(step.value.0, prev.projects + [step.value.1], false)
  }

  /** A host named in some processed project's output. */
  predicate Reported(infos: seq<Option<HostTable>>, h: string) {
    exists i :: 0 <= i < |infos| && infos[i].Some? && h in Names(infos[i].value)
  }

  /** The host names in the processed projects' own maps. */
  function ProjectKeys(projects: seq<Hosts>): set<string>
    decreases |projects|
  {
    if |projects| == 0 then {}
    else ProjectKeys(projects[..|projects| - 1]) + projects[|projects| - 1].Keys
  }

  lemma {:induction false} ProjectKeysIff(projects: seq<Hosts>, h: string)
    ensures h in ProjectKeys(projects) <==> exists i :: 0 <= i < |projects| && h in projects[i]
    decreases |projects|
  {
    if |projects| > 0 {
      var init := projects[..|projects| - 1];
      ProjectKeysIff(init, h);
      if h in ProjectKeys(init) {
        var i :| 0 <= i < |init| && h in init[i];
        assert projects[i] == init[i];
      }
      if exists i :: 0 <= i < |projects| && h in projects[i] {
        var i :| 0 <= i < |projects| && h in projects[i];
        if i < |init| {
          assert init[i] == projects[i];
        }
      }
    }
  }

  lemma ProjectKeysSnoc(projects: seq<Hosts>, last: Hosts)
    ensures ProjectKeys(projects + [last]) == ProjectKeys(projects) + last.Keys
  {
    assert (projects + [last])[..|projects|] == projects;
  }

  /** Every K3s or project entry is also in the merged map, and every entry
      of the merged map is in the masters, the workers or a project's map. */
  predicate Covered(o: Outcome) {
    CoveredBy(o.part, map[], ProjectKeys(o.projects)) && ProjectKeys(o.projects) <= o.part.all.Keys
  }

  /** A skipped project keeps the maps covered. */
  lemma CoveredSkip(prev: Outcome)
    requires Covered(prev)
    ensures Covered(prev.(projects := prev.projects + [map[]]))
  {
    ProjectKeysSnoc(prev.projects, map[]);
  }

  /** An absorbed project keeps the maps covered. */
  lemma CoveredAbsorb(prev: Outcome, table: HostTable)
    requires Covered(prev) && !Fails(table)
    ensures var step := Absorb(prev.part, table).value;
      Covered(Outcome(step.0, prev.projects + [step.1], false))
  {
    var step := Absorb(prev.part, table).value;
    var others := ProjectKeys(prev.projects);
    EnterAllCovered(prev.part, map[], table, others);
    EnterAllKeys(prev.part, map[], table);
    ProjectKeysSnoc(prev.projects, step.1);
    assert CoveredBy(step.0, map[], others + step.1.Keys);
  }

  /** Whatever happens, the merged map covers every other map and is
      covered by them. */
  lemma {:induction false} CollectCovered(infos: seq<Option<HostTable>>)
    ensures Covered(Collect(infos))
    decreases |infos|
  {
    if |infos| > 0 {
      var prev := Collect(infos[..|infos| - 1]);
      var info := infos[|infos| - 1];
      CollectCovered(infos[..|infos| - 1]);
      if prev.failed {
      } else if info.None? || |info.value| == 0 {
        CoveredSkip(prev);
      } else if !Fails(info.value) {
        CoveredAbsorb(prev, info.value);
      }
    }
  }

  /** Processing a project adds its hosts to the merged map. */
  lemma NextAll(prev: Outcome, info: Option<HostTable>)
    requires !Next(prev, info).failed
    ensures forall h :: h in Next(prev, info).part.all <==> h in prev.part.all || (info.Some? && h in Names(info.value))
  {
    if info.Some? && |info.value| > 0 {
      EnterAllKeys(prev.part, map[], info.value);
    }
  }

  lemma ReportedSnoc(infos: seq<Option<HostTable>>, h: string)
    requires |infos| > 0
    ensures Reported(infos, h) <==>
      Reported(infos[..|infos| - 1], h) || (infos[|infos| - 1].Some? && h in Names(infos[|infos| - 1].value))
  {
    var init := infos[..|infos| - 1];
    if Reported(infos, h) {
      var i :| 0 <= i < |infos| && infos[i].Some? && h in Names(infos[i].value);
      if i < |init| {
        assert init[i] == infos[i];
      }
    }
    if Reported(init, h) {
      var i :| 0 <= i < |init| && init[i].Some? && h in Names(init[i].value);
      assert infos[i] == init[i];
    }
  }

  /** Without a failure the merged map holds exactly the reported hosts. */
  lemma {:induction false} CollectReported(infos: seq<Option<HostTable>>)
    requires !Collect(infos).failed
    ensures forall h :: h in Collect(infos).part.all <==> Reported(infos, h)
    decreases |infos|
  {
    if |infos| > 0 {
      var init := infos[..|infos| - 1];
      var info := infos[|infos| - 1];
      NextAll(Collect(init), info);
      CollectReported(init);
      forall h
        ensures h in Collect(infos).part.all <==> Reported(infos, h)
      {
        ReportedSnoc(infos, h);
      }
    }
  }

  /** Host `h` is in the merged map with variables `vars`, and in exactly
      one of the masters, the workers and the hosts of project `i`, as the
      placement `g` says, with the same variables there. */
  predicate PlacedIn(o: Outcome, h: string, i: nat, vars: map<string, Value>, g: Option<Group>) {
    && h in o.part.all && o.part.all[h] == vars
    && (h in o.part.masters <==> g == Some(Masters))
    && (h in o.part.masters ==> o.part.masters[h] == vars)
    && (h in o.part.workers <==> g == Some(Workers))
    && (h in o.part.workers ==> o.part.workers[h] == vars)
    && (forall j :: 0 <= j < |o.projects| ==> (h in o.projects[j] <==> j == i && g == Some(ProjectHosts)))
    && (i < |o.projects| && h in o.projects[i] ==> o.projects[i][h] == vars)
  }

  /** A host first named by the next project is placed there. */
  lemma PlacedLast(prev: Outcome, table: HostTable, k: nat)
    requires Covered(prev) && UniqueNames(table) && k < |table| && table[k].0 !in prev.part.all
    requires !Next(prev, Some(table)).failed
    ensures PlacedIn(Next(prev, Some(table)), table[k].0, |prev.projects|, HostVars(table[k].1), Placement(table[k].0, table[k].1))
  {
    var r := Next(prev, Some(table));
    var h := table[k].0;
    var step := Absorb(prev.part, table).value;
    assert r == Outcome(step.0, prev.projects + [step.1], false);
    assert h !in prev.part.masters && h !in prev.part.workers;
    ProjectKeysIff(prev.projects, h);
    EnterAllNamed(prev.part, map[], table, k);
    forall j | 0 <= j < |prev.projects|
      ensures h !in r.projects[j]
    {
      assert r.projects[j] == prev.projects[j];
    }
  }

  /** A placed host the next project does not name stays placed. */
  lemma PlacedKept(prev: Outcome, info: Option<HostTable>, h: string, i: nat, vars: map<string, Value>, g: Option<Group>)
    requires PlacedIn(prev, h, i, vars, g) && i < |prev.projects|
    requires !Next(prev, info).failed && !(info.Some? && h in Names(info.value))
    ensures PlacedIn(Next(prev, info), h, i, vars, g)
  {
    var r := Next(prev, info);
    if info.Some? && |info.value| > 0 {
      EnterAllUnnamed(prev.part, map[], info.value, h);
    }
    forall j | 0 <= j < |prev.projects|
      ensures r.projects[j] == prev.projects[j]
    {
    }
  }

  /** No host name is reported by two projects. */
  predicate DistinctHosts(infos: seq<Option<HostTable>>) {
    forall i, j :: 0 <= i < j < |infos| && infos[i].Some? && infos[j].Some? ==> Names(infos[i].value) !! Names(infos[j].value)
  }

  /** Distinct host names stay distinct without the last project. */
  lemma DistinctInit(infos: seq<Option<HostTable>>)
    requires DistinctHosts(infos) && |infos| > 0
    ensures DistinctHosts(infos[..|infos| - 1])
  {
    var init := infos[..|infos| - 1];
    forall a, b | 0 <= a < b < |init| && init[a].Some? && init[b].Some?
      ensures Names(init[a].value) !! Names(init[b].value)
    {
      assert init[a] == infos[a] && init[b] == infos[b];
    }
  }

  /** The projects before the last do not name a host the last one names. */
  lemma DistinctLast(infos: seq<Option<HostTable>>, h: string)
    requires DistinctHosts(infos) && |infos| > 0
    requires infos[|infos| - 1].Some? && h in Names(infos[|infos| - 1].value)
    ensures !Reported(infos[..|infos| - 1], h)
  {
    var init := infos[..|infos| - 1];
    forall i | 0 <= i < |init| && init[i].Some?
      ensures h !in Names(init[i].value)
    {
      assert init[i] == infos[i];
    }
  }

  /** When no host name is shared between projects and nothing fails, every
      reported host is in the merged map with its own variables, and in
      exactly one of the masters, the workers and its own project's hosts,
      as its placement says. */
  lemma {:induction false} CollectPlacement(infos: seq<Option<HostTable>>, i: nat, k: nat)
    requires DistinctHosts(infos) && !Collect(infos).failed
    requires i < |infos| && infos[i].Some? && UniqueNames(infos[i].value) && k < |infos[i].value|
    ensures var (h, data) := infos[i].value[k];
      PlacedIn(Collect(infos), h, i, HostVars(data), Placement(h, data))
    decreases |infos|
  {
    var n := |infos|;
    var init := infos[..n - 1];
    var last := infos[n - 1];
    var (h, data) := infos[i].value[k];
    assert h in Names(infos[i].value);
    assert Collect(infos) == Next(Collect(init), last);
    DistinctInit(infos);
    if i == n - 1 {
      DistinctLast(infos, h);
      CollectReported(init);
      CollectCovered(init);
      PlacedLast(Collect(init), last.value, k);
    } else {
      assert init[i] == infos[i];
      CollectPlacement(init, i, k);
      PlacedKept(Collect(init), last, h, i, HostVars(data), Placement(h, data));
    }
  }

  // ---------------------------------------------------------------------
  // Inventory files

  /** One entry of `TERRAFORM_PROJECTS`. */
  datatype Project = Project(path: string, envPrefix: string, outputFile: string, groupName: string)

  const TerraformProjects: seq<Project> := [
    Project("../../terraform/lxc", "LXC_TF_", "../lxc/inventory/hosts.yml", "lxc_containers"),
    Project("../../terraform/linux-vms", "LINUX_TF_", "../linux-vms/inventory/hosts.yml", "linux_vms"),
    Project("../../terraform/talos-vms", "TALOS_TF_", "../talos/inventory/hosts.yml", "talos_cluster"),
    Project("../../terraform/windows-vms", "WIN_TF_", "../windows-vms/inventory/hosts.yml", "windows_vms")]

  const K3sOutput: string := "../k3s/inventory/hosts.yml"
  const MergedOutput: string := "all-hosts.yml"

  /** The inventory files, by the group structure under
      `all.children.proxmox_hosts`: a project group's hosts, the
      `k3s_cluster` subgroups, or the merged hosts. */
  datatype InventoryFile =
    | GroupFile(path: string, group: string, hosts: Hosts)
    | K3sFile(path: string, subgroups: seq<(string, Hosts)>)
    | MergedFile(path: string, hosts: Hosts)

  /** The host names a file lists. */
  function Listed(f: InventoryFile): set<string> {
    match f
    case GroupFile(_, _, hosts) => hosts.Keys
    case K3sFile(_, subgroups) => SubgroupHosts(subgroups)
    case MergedFile(_, hosts) => hosts.Keys
  }

  function SubgroupHosts(subgroups: seq<(string, Hosts)>): set<string>
    decreases |subgroups|
  {
    if |subgroups| == 0 then {}
    else SubgroupHosts(subgroups[..|subgroups| - 1]) + subgroups[|subgroups| - 1].1.Keys
  }

  /** `write_yaml_inventory`: the project file and the count it reports,
      which is the number of hosts the file lists. */
  function WriteYamlInventory(hosts: Hosts, path: string, group: string): (r: (InventoryFile, nat))
    ensures r.0 == GroupFile(path, group, hosts)
    ensures r.1 == |Listed(r.0)|
  {
    (GroupFile(path, group, hosts), |hosts|)
  }

  /** The `k3s_cluster` children: a `masters` subgroup exactly when there
      are masters and a `workers` subgroup exactly when there are workers. */
  function K3sSubgroups(masters: Hosts, workers: Hosts): (r: seq<(string, Hosts)>)
    ensures ("masters", masters) in r <==> masters != map[]
    ensures ("workers", workers) in r <==> workers != map[]
    ensures forall c :: c in r ==> c == ("masters", masters) || c == ("workers", workers)
  {
    (if masters != map[] then [("masters", masters)] else [])
    + (if workers != map[] then [("workers", workers)] else [])
  }

  /** `write_k3s_yaml_inventory`: the K3s file lists the masters and the
      workers, and the count it reports is their number, which is the number
      of hosts the file lists when no host is both a master and a worker. */
  function WriteK3sInventory(masters: Hosts, workers: Hosts, path: string): (r: (InventoryFile, nat))
    ensures r.0.K3sFile? && r.0.path == path
    ensures Listed(r.0) == masters.Keys + workers.Keys
    ensures r.1 == |masters| + |workers|
    ensures masters.Keys !! workers.Keys ==> r.1 == |Listed(r.0)|
  {
    var m, w := ("masters", masters), ("workers", workers);
    var subgroups := K3sSubgroups(masters, workers);
    if masters == map[] then
      assert masters.Keys == {};
      if workers == map[] then
        assert subgroups == [];
        (K3sFile(path, subgroups), |masters| + |workers|)
      else
        assert subgroups == [w];
        SubgroupHostsOne(w);
        (K3sFile(path, subgroups), |masters| + |workers|)
    else if workers == map[] then
      assert workers.Keys == {};
      assert subgroups == [m];
      SubgroupHostsOne(m);
      (K3sFile(path, subgroups), |masters| + |workers|)
    else
      assert subgroups == [m, w];
      SubgroupHostsTwo(m, w);
      if masters.Keys !! workers.Keys then
        DisjointUnionSize(masters.Keys, workers.Keys);
        (K3sFile(path, subgroups), |masters| + |workers|)
      else
        (K3sFile(path, subgroups), |masters| + |workers|)
  }

  lemma SubgroupHostsOne(c: (string, Hosts))
    ensures SubgroupHosts([c]) == c.1.Keys
  {
    assert [c][..0] == [];
  }

  lemma SubgroupHostsTwo(c: (string, Hosts), d: (string, Hosts))
    ensures SubgroupHosts([c, d]) == c.1.Keys + d.1.Keys
  {
    assert [c, d][..1] == [c];
    SubgroupHostsOne(c);
  }

  lemma DisjointUnionSize<T>(a: set<T>, b: set<T>)
    requires a !! b
    ensures |a + b| == |a| + |b|
  {
    assert a * b == {};
  }

  /** The project files written, in project order: one for each processed
      project with at least one non-K3s host. */
  function ProjectFiles(projects: seq<Hosts>): (r: seq<InventoryFile>)
    requires |projects| <= |TerraformProjects|
    ensures forall f :: f in r ==> f.GroupFile? && f.hosts != map[]
    ensures |r| <= |projects|
    decreases |projects|
  {
    if |projects| == 0 then []
    else
      var i := |projects| - 1;
      var project := TerraformProjects[i];
      ProjectFiles(projects[..i])
      + (if projects[i] != map[] then [WriteYamlInventory(projects[i], project.outputFile, project.groupName).0] else [])
  }

  lemma ProjectFilesSnoc(projects: seq<Hosts>, hosts: Hosts)
    requires |projects| < |TerraformProjects|
    ensures var project := TerraformProjects[|projects|];
      ProjectFiles(projects + [hosts]) == ProjectFiles(projects)
        + (if hosts != map[] then [WriteYamlInventory(hosts, project.outputFile, project.groupName).0] else [])
  {
    assert (projects + [hosts])[..|projects|] == projects;
  }

  /** The files written once every project is in: the K3s file when there
      is a master or a worker, then the merged file when there is any host. */
  function SharedFiles(part: Partition): seq<InventoryFile>
  {
    var k3s := if part.masters != map[] || part.workers != map[]
      then [WriteK3sInventory(part.masters, part.workers, K3sOutput).0] else [];
    var merged := if part.all != map[] then [MergedFile(MergedOutput, part.all)] else [];
    k3s + merged
  }

  /** Every file `main` writes, in order: the project files as the loop
      reaches them, then, unless a host made the script fail, the shared
      files. */
  function Written(o: Outcome): seq<InventoryFile>
    requires |o.projects| <= |TerraformProjects|
  {
    ProjectFiles(o.projects) + (if o.failed then [] else SharedFiles(o.part))
  }

  method WriteSharedFiles(part: Partition) returns (shared: seq<InventoryFile>)
    ensures shared == SharedFiles(part)
  {
    var k3s: seq<InventoryFile> := [];
    if part.masters != map[] || part.workers != map[] {
      var written := WriteK3sInventory(part.masters, part.workers, K3sOutput);
      k3s := [written.0];
    }
    var merged: seq<InventoryFile> := [];
    if part.all != map[] {
      merged := [MergedFile(MergedOutput, part.all)];
    }
    shared := k3s + merged;
  }

  lemma CollectNext(infos: seq<Option<HostTable>>, i: nat)
    requires i < |infos|
    ensures Collect(infos[..i + 1]) == Next(Collect(infos[..i]), infos[i])
  {
    assert infos[..i + 1][..i] == infos[..i];
  }

  /** Once a project fails, later projects change nothing. */
  lemma {:induction false} FailedStays(infos: seq<Option<HostTable>>, i: nat)
    requires i <= |infos| && Collect(infos[..i]).failed
    ensures Collect(infos) == Collect(infos[..i])
    decreases |infos|
  {
    if i < |infos| {
      var init := infos[..|infos| - 1];
      assert init[..i] == infos[..i];
      FailedStays(init, i);
    } else {
      assert infos[..i] == infos;
    }
  }

  /** The loop of `main` over the projects followed by the K3s and merged
      files; `failed` tells whether a host made the script fail. */
  method GenerateInventories(outputs: seq<Option<HostTable>>) returns (files: seq<InventoryFile>, failed: bool)
    requires |outputs| == |TerraformProjects|
    ensures failed == Collect(outputs).failed
    ensures files == Written(Collect(outputs))
  {
    var part := Partition(map[], map[], map[]);
    ghost var projects: seq<Hosts> := [];
    files := [];
    for i := 0 to |outputs|
      invariant Collect(outputs[..i]) == Outcome(part, projects, false)
      invariant |projects| == i
      invariant files == ProjectFiles(projects)
    {
      CollectNext(outputs, i);
      var info := outputs[i];
      if info.None? || |info.value| == 0 {
        ProjectFilesSnoc(projects, map[]);
        projects := projects + [map[]];
        continue;
      }
      var step := PartitionProject(part, info.value);
      if step.None? {
        FailedStays(outputs, i + 1);
        failed := true;
        return;
      }
      var projectHosts := step.value.1;
      part := step.value.0;
      ProjectFilesSnoc(projects, projectHosts);
      projects := projects + [projectHosts];
      if projectHosts != map[] {
        var project := TerraformProjects[i];
        var written := WriteYamlInventory(projectHosts, project.outputFile, project.groupName);
        files := files + [written.0];
      }
    }
    assert outputs[..|outputs|] == outputs;
    failed := false;
    var shared := WriteSharedFiles(part);
    files := files + shared;
  }
}
