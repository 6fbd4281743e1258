# Homelab CI and inventory scripts, modelled in Dafny

This project models five Python scripts of a homelab infrastructure
repository. They keep its GitLab pipelines and its Ansible and Terraform
state in step:

- `scripts/ci/detect_services.py` works out which services under
  `services/` a push or merge request changed. Module `DetectServices`.
- `scripts/ci/generate_pipeline.py` turns that list into a child pipeline
  with five chained jobs per service (validate, preflight, backup, deploy,
  verify). Module `GeneratePipeline`.
- `scripts/ci/lint_yaml.py` runs yamllint and converts its parsable output
  into GitLab Code Quality issues. Module `LintYaml`.
- `ansible/inventory/terraform_inventory.py` loads a `.env` file, maps
  per-project backend credentials to `TF_HTTP_*`, and splits the hosts that
  Terraform reports into project, K3s and merged Ansible inventories.
  Module `TerraformInventory`.
- `terraform/scripts/import_proxmox.py` reads a Proxmox resource
  configuration, fills a Terraform host block (network fields, largest
  disk, tags) and inserts it before the closing bracket of a `.auto.tfvars`
  host list. Module `ImportProxmox`.

Shared definitions live in `Wrappers` (`Option`), `Text` (strip, split,
join, find, ordering of strings) and `Json` (the JSON values the scripts
read).

Everything outside the scripts is a parameter:

- the process environment is a `map<string, string>`;
- the services root is the set of directory entries `iterdir()` lists;
- a git, terraform, yamllint or detector run is its output, or the failure
  or timeout that stands in for it;
- a file is its lines, or `None` when it is missing.

A Python dict keeps insertion order, and the scripts' output shows that
order. So the pipeline document and the Proxmox config are sequences of
entries, not maps. Code that updates variables in a loop (the service scan,
the dict `update`, the `.env` loop, the backend copy, the host loop, the
largest-disk scan, the bracket search) is a method with loop invariants.
Each such method is proved equal to a specification function. The
properties of the scripts are lemmas about those functions.

## Model

| member | source | states |
|---|---|---|
| DetectServices.ExtractServicesFromFiles | scripts/ci/detect_services.py:86-114 | the result is strictly sorted and holds exactly the services some changed path is attributed to |
| DetectServices.AttributedSnoc | scripts/ci/detect_services.py:90-107 | one more changed path adds its own service, if it has one, and nothing else |
| DetectServices.ServiceOf | scripts/ci/detect_services.py:90-107 | a path names a service only when it starts with `services/` and carries no skip pattern; the service is then one path component, a directory, and not `_templates` |
| DetectServices.PathDirs | scripts/ci/detect_services.py:104-106 | the names for which `is_dir()` holds: none without the services root; with it, every listed subdirectory and also `""`, `.` and `..` |
| DetectServices.DotComponentAttributed | scripts/ci/detect_services.py:99-107 | with the services root present, a path `services/<c>/...` whose component `c` is `""`, `.` or `..` is attributed to `c`, since `is_dir()` holds for it |
| DetectServices.ExtractIsDeterministic | scripts/ci/detect_services.py:114 | two strictly sorted lists of the same attributed services are equal, so the output order is fixed |
| DetectServices.ServiceOfAnyDepth | scripts/ci/detect_services.py:99-107 | a file at any depth under a service directory is attributed to that service |
| DetectServices.OutsidePathsIgnored | scripts/ci/detect_services.py:92-93 | changed paths outside `services/` never add a service |
| DetectServices.NotADirectory | scripts/ci/detect_services.py:100-107 | a path with no second component, or whose second component is not a directory, is attributed to nothing |
| DetectServices.FileUnderRootIgnored | scripts/ci/detect_services.py:104-112 | a plain file directly under `services/` is not a service |
| DetectServices.NonDirectoryExcluded | scripts/ci/detect_services.py:99-112 | a change inside a service plus a change to a top-level file yields just that service |
| DetectServices.TemplateNeverAttributed | scripts/ci/detect_services.py:104-107 | `_templates` is never reported, whatever changed |
| DetectServices.ListAllServices | scripts/ci/detect_services.py:66-78 | sorted, exactly the directories under `services/` except `_templates`, and empty when `services/` is missing |
| DetectServices.ChooseComparison | scripts/ci/detect_services.py:118-166 | all services exactly when `CI_COMMIT_TAG` or `DEPLOY_ALL` is non-empty; every diff range ends at `HEAD`; the warning is given only for the `HEAD~1` fallback off the trunk |
| DetectServices.FallbackEndsWithHead | scripts/ci/detect_services.py:161-162 | the fallback range `HEAD~1..HEAD` ends at `HEAD` |
| DetectServices.ChangedFiles | scripts/ci/detect_services.py:80-84 | no files exactly when the stripped output is empty; otherwise the files joined by newlines give back the stripped output, and no file holds a newline |
| DetectServices.DetectChangedServices | scripts/ci/detect_services.py:116-172 | the result is the specification `Detected`: all services, or the services of the chosen diff, or a failure when `git diff` fails |
| DetectServices.Run | scripts/ci/detect_services.py:174-205 | exit code 0 or 1, and 1 exactly when detection fails or the output file cannot be written; nothing is emitted for no services; otherwise the emitted text is the services, one per line, with a final newline |
| GeneratePipeline.Put | scripts/ci/generate_pipeline.py:179 | dict assignment: an existing key keeps its place, a new key goes last, the key reads the new value, other keys read what they did, and unique keys stay unique |
| GeneratePipeline.PutPresent | scripts/ci/generate_pipeline.py:133 | assigning an entry the dict already holds changes nothing |
| GeneratePipeline.UpdatePresent | scripts/ci/generate_pipeline.py:133 | `update` with entries the dict already holds changes nothing |
| GeneratePipeline.UpdateFresh | scripts/ci/generate_pipeline.py:133 | `update` with distinct new keys appends them in order |
| GeneratePipeline.JobKeyInjective | scripts/ci/generate_pipeline.py:31-83 | the job key `<stage>:<service>` determines both the stage and the service |
| GeneratePipeline.JobKeysDiffer | scripts/ci/generate_pipeline.py:31-83 | different stages or services give different job keys |
| GeneratePipeline.GenerateServiceJobs | scripts/ci/generate_pipeline.py:26-100 | five jobs, keyed `validate:`, `preflight:`, `backup:`, `deploy:`, `verify:` plus the service, in that order |
| GeneratePipeline.ServiceJobsShape | scripts/ci/generate_pipeline.py:26-100 | each job runs in its own stage with the CI image, the `talos` tag, `SERVICE=<service>` and one script ending in the service; the first has no `needs`, each later one needs the previous job, optionally; only deploy has the `production` resource group; only deploy and verify have rules |
| GeneratePipeline.DecidingRule | scripts/ci/generate_pipeline.py:68-97 | the rule GitLab applies is one of the listed rules, and its condition holds or it has none |
| GeneratePipeline.DeployDecision | scripts/ci/generate_pipeline.py:59-80 | deploy runs always on a tag, manually on `main` (with failure not allowed), and never otherwise |
| GeneratePipeline.VerifyDecision | scripts/ci/generate_pipeline.py:82-98 | verify runs always on a tag, on success on `main`, and never otherwise |
| GeneratePipeline.EarlyStagesUnruled | scripts/ci/generate_pipeline.py:30-57 | validate, preflight and backup carry no rules |
| GeneratePipeline.Dedup | scripts/ci/generate_pipeline.py:131-133 | the order in which repeated `update`s leave the services: each service once, and exactly the services given |
| GeneratePipeline.DedupSnoc | scripts/ci/generate_pipeline.py:131-133 | a repeated service adds nothing; a new one goes last |
| GeneratePipeline.DedupDistinct | scripts/ci/generate_pipeline.py:131-133 | distinct services keep their order |
| GeneratePipeline.JobsForBlock | scripts/ci/generate_pipeline.py:131-133 | the `k`-th block of five jobs is the `k`-th service's jobs |
| GeneratePipeline.JobsForKeysUnique | scripts/ci/generate_pipeline.py:131-133 | the jobs of distinct services have distinct keys |
| GeneratePipeline.AssembledAt | scripts/ci/generate_pipeline.py:105-133 | after the two header entries, entry `2+5k+m` is job `m` of the `k`-th distinct service |
| GeneratePipeline.AssembledFixedKeys | scripts/ci/generate_pipeline.py:105-135 | no job key equals a key without a colon, such as `workflow` or `fallback-job` |
| GeneratePipeline.AssembledKeysUnique | scripts/ci/generate_pipeline.py:103-135 | the assembled pipeline has no repeated key |
| GeneratePipeline.UpdateStep | scripts/ci/generate_pipeline.py:131-133 | one `update` with a service's jobs turns the pipeline of the earlier services into the pipeline of one more service |
| GeneratePipeline.GenerateChildPipeline | scripts/ci/generate_pipeline.py:103-135 | the pipeline built by the header and the `update` loop is the specification `ChildPipeline` |
| GeneratePipeline.HeaderKeys | scripts/ci/generate_pipeline.py:105-113 | the pipeline starts with `variables` and `stages` |
| GeneratePipeline.EmptyChildPipeline | scripts/ci/generate_pipeline.py:115-128 | with no services the pipeline is `variables`, `stages` and one `no-changes` job in the validate stage |
| GeneratePipeline.CountJobs | scripts/ci/generate_pipeline.py:182-188 | the count of keys other than `variables`, `stages` and `workflow` is at most the number of entries |
| GeneratePipeline.CountJobsAppend | scripts/ci/generate_pipeline.py:182-188 | the job count of two documents laid end to end is the sum of their counts |
| GeneratePipeline.ChildPipelineGrouping | scripts/ci/generate_pipeline.py:131-133 | each distinct service's five jobs sit together, in the order the services first appear |
| GeneratePipeline.ChildPipelineJobCount | scripts/ci/generate_pipeline.py:115-188 | one job with no services, otherwise five per distinct service; never zero |
| GeneratePipeline.DistinctServicesJobCount | scripts/ci/generate_pipeline.py:131-188 | with distinct services the count is five per service |
| GeneratePipeline.ServiceJobsChained | scripts/ci/generate_pipeline.py:45-88 | each job of a service needs only the job right before it |
| GeneratePipeline.EntryNeedsPrevious | scripts/ci/generate_pipeline.py:40-133 | a `needs` entry of a pipeline job names the entry just before it, and the first stage needs nothing |
| GeneratePipeline.ChildPipelineNeedsPrevious | scripts/ci/generate_pipeline.py:103-135 | every `needs` in the child pipeline points to the previous job of the same service |
| GeneratePipeline.KeepStripped | scripts/ci/generate_pipeline.py:155 | every kept line is non-empty and already stripped |
| GeneratePipeline.ParseServiceLines | scripts/ci/generate_pipeline.py:155 | every parsed service is non-empty and already stripped |
| GeneratePipeline.ParseJoinedLines | scripts/ci/generate_pipeline.py:155 | reading back what the detector writes (the services one per line, final newline) gives the same services |
| GeneratePipeline.ParseLoneNewline | scripts/ci/generate_pipeline.py:155 | an output that is only a newline gives no services |
| GeneratePipeline.KeepStrippedFixed | scripts/ci/generate_pipeline.py:155 | lines already non-empty and stripped are all kept, in order |
| GeneratePipeline.WithFallback | scripts/ci/generate_pipeline.py:189-199 | the result always holds a job; a document with no job gets `fallback-job` as its only job; any other document is left unchanged |
| GeneratePipeline.FallbackOnlyWhenEmpty | scripts/ci/generate_pipeline.py:189-199 | `fallback-job` appears exactly when there was no job; it is then the only job and its script ends in `exit 1` |
| GeneratePipeline.WorkflowKeyAbsent | scripts/ci/generate_pipeline.py:103-135 | the child pipeline has neither `workflow` nor `fallback-job` |
| GeneratePipeline.AddWorkflow | scripts/ci/generate_pipeline.py:179 | adding `workflow` appends it, adds no job and adds no fallback |
| GeneratePipeline.GenerateDocument | scripts/ci/generate_pipeline.py:146-199 | a failed or timed-out detector means no services; the document is the child pipeline plus `workflow: always`; the job count is one with no services and five per distinct service otherwise, so the fallback is never added |
| LintYaml.BuildCommand | scripts/ci/lint_yaml.py:42-52 | always `yamllint . --strict`; `--format parsable` is added for the parsable and gitlab formats and nothing for standard |
| LintYaml.ReadRun | scripts/ci/lint_yaml.py:58 | a matched `\d+` or `\w+` group is non-empty and made only of its characters |
| LintYaml.ReadRunSound | scripts/ci/lint_yaml.py:58 | a matched group and its separator rebuild the text read |
| LintYaml.ReadRunComplete | scripts/ci/lint_yaml.py:58 | a run of group characters followed by its separator is always read |
| LintYaml.FirstOpen | scripts/ci/lint_yaml.py:58 | the lazy `(.+?) \(` match takes the earliest ` (` that can start the rule |
| LintYaml.SplitMessage | scripts/ci/lint_yaml.py:58 | the message and the rule are both non-empty |
| LintYaml.SplitMessageSound | scripts/ci/lint_yaml.py:58 | message and rule rebuild `message (rule)` |
| LintYaml.SplitMessageLeast | scripts/ci/lint_yaml.py:58 | any text of the form `message (rule)` is split, with the shortest message, as the lazy group does |
| LintYaml.ParseTail | scripts/ci/lint_yaml.py:58 | a parsed tail has numeric line and column, a word severity, and non-empty message and rule |
| LintYaml.ParseTailSound | scripts/ci/lint_yaml.py:58 | the parsed fields rebuild the tail exactly |
| LintYaml.ParseTailComplete | scripts/ci/lint_yaml.py:58 | every well-formed tail is parsed, with its line, column and severity, and a message no longer than any other reading |
| LintYaml.FindFile | scripts/ci/lint_yaml.py:58 | the lazy `(.+?):` group ends at the first colon after which the rest of the line matches |
| LintYaml.ParseLine | scripts/ci/lint_yaml.py:58-65 | a matched line gives well-formed fields: non-empty file, numeric line and column, word severity, non-empty message and rule |
| LintYaml.ParseLineSound | scripts/ci/lint_yaml.py:58-65 | the matched fields print back as the line, `file:line:col: [severity] message (rule)` |
| LintYaml.ParseLineLeast | scripts/ci/lint_yaml.py:58-65 | every line yamllint can print is matched, with the shortest file and then the shortest message, which is the regular expression's choice |
| LintYaml.NoColonNoMatch | scripts/ci/lint_yaml.py:58-64 | a line without a colon matches nothing |
| LintYaml.IssueRecoversLine | scripts/ci/lint_yaml.py:66-76 | the issue's path is the line's prefix before a colon, its description ends the line, it is `major` exactly for severity `error`, and it begins at the line number |
| LintYaml.IssuesOfLine | scripts/ci/lint_yaml.py:60-77 | one line contributes at most one issue |
| LintYaml.IssuesOfSnoc | scripts/ci/lint_yaml.py:60-77 | the issues of one more line are appended after the earlier ones |
| LintYaml.IssuesOfAppend | scripts/ci/lint_yaml.py:60-77 | the issues of two blocks of lines are the issues of each, in order |
| LintYaml.IssuesOfBound | scripts/ci/lint_yaml.py:60-77 | there are never more issues than lines |
| LintYaml.NoMatchNoIssues | scripts/ci/lint_yaml.py:60-77 | output with no matching line gives no issues |
| LintYaml.ConvertToGitlab | scripts/ci/lint_yaml.py:54-79 | the loop over the stripped output's lines collects exactly the specification's issues, in line order |
| LintYaml.RunYamllint | scripts/ci/lint_yaml.py:81-156 | when yamllint is missing, or `yamllint --version` cannot start: exit status 1, nothing run and no report; otherwise the command run is `yamllint . --strict`, with `--format parsable` for the parsable and gitlab formats; the exit code is 1 on a timeout or a failed start and yamllint's own code otherwise; a report exists exactly for a completed gitlab run, and it is the conversion of yamllint's stripped output |
| TerraformInventory.RefAt | ansible/inventory/terraform_inventory.py:35 | a matched reference has a non-empty name and covers at least `$` and one more character |
| TerraformInventory.ExpandUnset | ansible/inventory/terraform_inventory.py:32-35 | a value whose references all name unset variables comes back unchanged |
| TerraformInventory.ExpandBraced | ansible/inventory/terraform_inventory.py:32-35 | `${NAME}` of a set variable is replaced by its value and the rest is expanded on |
| TerraformInventory.ExpandBare | ansible/inventory/terraform_inventory.py:32-35 | `$NAME` takes the longest upper-case name and becomes its value, or stays as written when unset |
| TerraformInventory.DotenvLineRoundTrip | ansible/inventory/terraform_inventory.py:21-28 | a line `KEY=value` with trimmed key and unquoted trimmed value parses back to that key and value |
| TerraformInventory.ParseDotenvLine | ansible/inventory/terraform_inventory.py:21-28 | a blank line is skipped; a parsed line holds an `=`, and its key holds no `=` and is already trimmed |
| TerraformInventory.SetDefault | ansible/inventory/terraform_inventory.py:37 | `setdefault` fails exactly for a new key that is illegal in the environment; otherwise it keeps every variable already set, adds at most the given key, and sets a new key to the given value |
| TerraformInventory.StepKeeps | ansible/inventory/terraform_inventory.py:20-37 | one line of `.env` never overrides a variable already set |
| TerraformInventory.DotenvKeeps | ansible/inventory/terraform_inventory.py:14-39 | loading `.env` never overrides a variable already set |
| TerraformInventory.StepAddsParsedKey | ansible/inventory/terraform_inventory.py:20-37 | a variable one line adds is the key that line declares |
| TerraformInventory.DotenvAddsParsedKeys | ansible/inventory/terraform_inventory.py:14-39 | every variable loading adds is a key some line of the file declares |
| TerraformInventory.LoadDotenv | ansible/inventory/terraform_inventory.py:14-39 | a missing file changes nothing; otherwise the environment after the loop is the line-by-line fold, stopping at the first `setdefault` that raises |
| TerraformInventory.SourceNotEarlierTarget | ansible/inventory/terraform_inventory.py:77-88 | whatever the prefix, no mapping reads a `TF_HTTP_*` variable that an earlier mapping wrote |
| TerraformInventory.TargetsDistinct | ansible/inventory/terraform_inventory.py:77-84 | the six `TF_HTTP_*` targets are distinct |
| TerraformInventory.ApplyProjectBackendEnv | ansible/inventory/terraform_inventory.py:69-88 | an empty prefix changes nothing; each `TF_HTTP_X` whose `<prefix>X` is set and non-empty takes that value, the others keep theirs, and no other variable changes |
| TerraformInventory.HostVars | ansible/inventory/terraform_inventory.py:237-251 | the three connection keys always (null when absent), plus every other key except `type` and `groups` whose value is neither null nor empty, each with the host's value |
| TerraformInventory.BuildHostVars | ansible/inventory/terraform_inventory.py:237-251 | the loop over the host data builds exactly `HostVars` |
| TerraformInventory.Placement | ansible/inventory/terraform_inventory.py:233-281 | a host stays in its project exactly when it is not a K3s node; the script fails on a host exactly when it is a K3s node whose truthy `k3s_role` is not text |
| TerraformInventory.RoleDecides | ansible/inventory/terraform_inventory.py:259-281 | a non-empty text role decides, ignoring case: `master`, `control-plane`, `server` go to masters, anything else to workers |
| TerraformInventory.HostnameDecides | ansible/inventory/terraform_inventory.py:266-281 | without a truthy role, `k3s-master-` names go to masters and every other K3s node to workers |
| TerraformInventory.RoleExamples | ansible/inventory/terraform_inventory.py:259-281 | `Control-Plane` makes a master, `Agent` a worker even on a master name, `gpu` a worker, and a false role falls back to the name |
| TerraformInventory.Enter | ansible/inventory/terraform_inventory.py:231-286 | entering a host fails exactly when its placement fails |
| TerraformInventory.EnterAllFails | ansible/inventory/terraform_inventory.py:231-286 | a project's loop fails exactly when one of its hosts fails |
| TerraformInventory.Absorb | ansible/inventory/terraform_inventory.py:230-286 | a project's hosts fail to enter exactly when one of them fails |
| TerraformInventory.EnterAllUnnamed | ansible/inventory/terraform_inventory.py:231-286 | a host the project does not name is left as it was in every map |
| TerraformInventory.EnterAllNamed | ansible/inventory/terraform_inventory.py:231-286 | each named host ends up in the merged map with its variables, and in exactly the map its placement names, also with its variables |
| TerraformInventory.EnterAllKeys | ansible/inventory/terraform_inventory.py:286 | the merged map gains exactly the project's host names |
| TerraformInventory.EnterAllCovered | ansible/inventory/terraform_inventory.py:274-286 | every host in the masters, the workers or a project's map is also in the merged map |
| TerraformInventory.PartitionProject | ansible/inventory/terraform_inventory.py:230-286 | the host loop of one project computes `Absorb` |
| TerraformInventory.Collect | ansible/inventory/terraform_inventory.py:216-290 | one project map per project reached, and all of them unless a host failed |
| TerraformInventory.Next | ansible/inventory/terraform_inventory.py:217-290 | a skipped or processed project adds one project map; a failure is final |
| TerraformInventory.CollectCovered | ansible/inventory/terraform_inventory.py:216-290 | every K3s or project host is in the merged map, and every merged host is a master, a worker or in a project's map |
| TerraformInventory.CollectReported | ansible/inventory/terraform_inventory.py:219-286 | after a run without failure, the merged hosts are exactly the hosts some project reported |
| TerraformInventory.CollectPlacement | ansible/inventory/terraform_inventory.py:216-290 | with host names distinct across projects, each host is in the merged map and in exactly one of masters, workers or its own project's map, as its placement says, and each map that holds it holds its variables |
| TerraformInventory.FailedStays | ansible/inventory/terraform_inventory.py:216-290 | once a host fails, later projects change nothing |
| TerraformInventory.WriteYamlInventory | ansible/inventory/terraform_inventory.py:130-158 | the project file lists the hosts under the group, and the count it returns is the number of hosts listed |
| TerraformInventory.K3sSubgroups | ansible/inventory/terraform_inventory.py:176-186 | a `masters` subgroup exactly when there are masters, a `workers` subgroup exactly when there are workers, and nothing else |
| TerraformInventory.WriteK3sInventory | ansible/inventory/terraform_inventory.py:160-200 | the file lists exactly the masters and the workers; the count is masters plus workers, which is the number of hosts listed when no host is both |
| TerraformInventory.ProjectFiles | ansible/inventory/terraform_inventory.py:287-290 | only projects with their own hosts get a file, and no file is empty |
| TerraformInventory.WriteSharedFiles | ansible/inventory/terraform_inventory.py:292-322 | the K3s file when there are masters or workers, then the merged file when there are any hosts |
| TerraformInventory.GenerateInventories | ansible/inventory/terraform_inventory.py:210-322 | the loop over the projects fails exactly when `Collect` does, and writes exactly the files `Written` names: the project files, then the shared files unless a host failed |
| ImportProxmox.DecimalString | terraform/scripts/import_proxmox.py:22-70 | the decimal text of a count is non-empty and all digits |
| ImportProxmox.ParseSizeToBytes | terraform/scripts/import_proxmox.py:22-70 | a size other than 0 comes from a digit of the text, and only a minus sign in the text makes it negative |
| ImportProxmox.DecimalRoundTrip | terraform/scripts/import_proxmox.py:58-67 | reading the decimal text of `n` gives `n` |
| ImportProxmox.MantissaOfDigits | terraform/scripts/import_proxmox.py:58-67 | a run of digits reads as its decimal value |
| ImportProxmox.SizeRoundTrip | terraform/scripts/import_proxmox.py:46-64 | `<n>T`, `<n>G`, `<n>M`, `<n>K`, in either case, is `n` times 1024 to the fourth, third, second or first power |
| ImportProxmox.BytesRoundTrip | terraform/scripts/import_proxmox.py:65-67 | a size without a unit is a count of bytes |
| ImportProxmox.SizeExampleGiB | terraform/scripts/import_proxmox.py:38-39 | `100G` is 107374182400 bytes |
| ImportProxmox.SizeExampleMiB | terraform/scripts/import_proxmox.py:40-41 | `4M` is 4194304 bytes |
| ImportProxmox.SizeExampleLower | terraform/scripts/import_proxmox.py:54-60 | the unit is read ignoring case: `8g` is 8 GiB |
| ImportProxmox.Extract | terraform/scripts/import_proxmox.py:123-141 | a field is read exactly when its separator occurs, and the value read holds no comma |
| ImportProxmox.ExtractSkips | terraform/scripts/import_proxmox.py:124 | text before the first separator does not change what is read |
| ImportProxmox.FieldOfMatch | terraform/scripts/import_proxmox.py:124-129 | `key=` reads the value of a setting whose name ends in `key`, up to the next comma |
| ImportProxmox.FieldOfUnmatched | terraform/scripts/import_proxmox.py:123-135 | a setting whose name does not end in `key` gives no value |
| ImportProxmox.FieldSkipsSetting | terraform/scripts/import_proxmox.py:123-135 | a leading setting that does not match is passed over |
| ImportProxmox.FieldOfOptionString | terraform/scripts/import_proxmox.py:116-209 | in a Proxmox option string, `key=` reads the value of the first setting whose name ends in `key` (so `ip=` also finds `vip=`) |
| ImportProxmox.Get | terraform/scripts/import_proxmox.py:117-153 | `config.get(key)` gives a value stored under `key`, or nothing when no entry has that key |
| ImportProxmox.OptionText | terraform/scripts/import_proxmox.py:117-141 | a missing option reads as `""`; the read fails exactly when the value is not text and one of the tested markers is a member of it or the `in` test raises (null, boolean, number); a list or object without a marker reads as `""` |
| ImportProxmox.KeepTags | terraform/scripts/import_proxmox.py:166 | no kept tag is empty |
| ImportProxmox.KeepTagsFree | terraform/scripts/import_proxmox.py:166 | a character absent from every piece is absent from every kept tag |
| ImportProxmox.TagList | terraform/scripts/import_proxmox.py:165-166 | every tag read is non-empty, stripped and free of its separator; with a `;` in the text no tag holds a `;` |
| ImportProxmox.TagsOf | terraform/scripts/import_proxmox.py:162-169 | an error exactly for a true value that is not text, where `in` or `split` raises; every tag listed is non-empty and stripped |
| ImportProxmox.TagsOfFalsy | terraform/scripts/import_proxmox.py:162-169 | a missing or false `tags` value gives the empty tag list |
| ImportProxmox.TagsRoundTrip | terraform/scripts/import_proxmox.py:162-169 | clean tags joined by `;` or `,` are read back as the same list |
| ImportProxmox.GenerateLxc | terraform/scripts/import_proxmox.py:111-175 | the block is built unless reading `net0` or `rootfs` fails or the tags are true but not text, which are the cases where Python raises |
| ImportProxmox.LxcDefaults | terraform/scripts/import_proxmox.py:118-157 | `start` and `onboot` follow `onboot == 1`; missing cores, memory and swap are 1, 512 and 512; no `size=` gives `8G`; no `ip=` gives `dhcp` |
| ImportProxmox.LxcFromSettings | terraform/scripts/import_proxmox.py:116-141 | ip, gw, MAC, VLAN tag and disk size are the values of the first matching settings of `net0` and `rootfs`, with their defaults |
| ImportProxmox.LxcContainerNet | terraform/scripts/import_proxmox.py:116-159 | a list or object `net0` without any tested marker gives a block with `ip` `dhcp` and no gateway, MAC or VLAN tag |
| ImportProxmox.Offers | terraform/scripts/import_proxmox.py:216-221 | one possible disk per config entry |
| ImportProxmox.BestEarliest | terraform/scripts/import_proxmox.py:211-224 | the chosen disk weighs at least as much as every disk; it is the earliest of the heaviest; the default stays when no disk has a positive size |
| ImportProxmox.LargestDisk | terraform/scripts/import_proxmox.py:213-224 | the scan fails exactly when a disk entry is neither text nor a list or object without `size=`; otherwise it returns the size of the specification's choice |
| ImportProxmox.GenerateVm | terraform/scripts/import_proxmox.py:177-344 | the Linux and Windows VM blocks are the specification `VmBlockOf`, failing exactly where Python raises |
| ImportProxmox.VmDefaults | terraform/scripts/import_proxmox.py:234-325 | `start` and `onboot` follow `onboot == 1`; missing cores and memory are 2 and 2048 for Linux and 4 and 8192 for Windows; with no sized disk the size is `32G` or `100G` |
| ImportProxmox.VmDisk | terraform/scripts/import_proxmox.py:211-236 | with some sized disk, the block's size is the earliest largest disk's size |
| ImportProxmox.MacFromSettings | terraform/scripts/import_proxmox.py:201-205 | for `net0 = model=mac,...` with a colon in the MAC, the MAC is that value upper-cased |
| ImportProxmox.MacOf | terraform/scripts/import_proxmox.py:201-205 | a MAC read holds a `:` and no `,`, is upper-case, and needs an `=` in `net0` |
| ImportProxmox.ReadIpconfig | terraform/scripts/import_proxmox.py:192-199 | the address and gateway steps give the specification's `IpOf` and `GwOf` of `ipconfig0` |
| ImportProxmox.ReadNet | terraform/scripts/import_proxmox.py:201-209 | the MAC and VLAN steps give the specification's `MacOf` and `VlanTagOf` of `net0` |
| ImportProxmox.LastBracketBelow | terraform/scripts/import_proxmox.py:356-361 | a line found below `n` holds a `]` |
| ImportProxmox.LastBracket | terraform/scripts/import_proxmox.py:356-361 | a line found holds a `]` |
| ImportProxmox.LastBracketIsLast | terraform/scripts/import_proxmox.py:356-365 | no later line holds a `]`, and when nothing is found no line holds one |
| ImportProxmox.LastBracketAt | terraform/scripts/import_proxmox.py:356-361 | the last line holding a `]` is the one found |
| ImportProxmox.FindLastBracket | terraform/scripts/import_proxmox.py:356-361 | the backward scan returns the last line holding a `]` |
| ImportProxmox.CloseLineAbove | terraform/scripts/import_proxmox.py:382-388 | the line above the bracket gets a trailing comma when its stripped text is non-empty and ends in neither `,` nor `[`; nothing else changes |
| ImportProxmox.OpenEmptyList | terraform/scripts/import_proxmox.py:367-380 | `name = []` becomes `name = [` and a line `]`, and the line above the bracket then needs no comma |
| ImportProxmox.InsertAtEmptyList | terraform/scripts/import_proxmox.py:366-390 | for a one-line empty list, the edit gives the specification's lines |
| ImportProxmox.InsertAtList | terraform/scripts/import_proxmox.py:382-390 | for a multi-line list, the edit gives the specification's lines |
| ImportProxmox.AppendToFile | terraform/scripts/import_proxmox.py:346-395 | a missing file fails; otherwise the lines written are `Appended`, or nothing when no line holds a `]` |
| ImportProxmox.AroundEmptyList | terraform/scripts/import_proxmox.py:366-390 | two lines are added; the lines before the bracket line are kept; the opened list line, the entry and `]` follow each other; the lines after the bracket move down by two |
| ImportProxmox.AroundList | terraform/scripts/import_proxmox.py:382-390 | one line is added; the lines before the line above the bracket are kept; the line above is closed, the entry follows it, and the bracket line and everything after move down by one |
| ImportProxmox.AroundFront | terraform/scripts/import_proxmox.py:384-390 | with the bracket on the first line, one line is added: the entry comes first and every line of the file follows it, moved down by one |
| ImportProxmox.ClosedEnds | terraform/scripts/import_proxmox.py:385-388 | a closed line never needs another comma |
| ImportProxmox.AppendedClosesPrevious | terraform/scripts/import_proxmox.py:366-390 | the line before the inserted entry never needs a comma: it is closed, or it opens the list |
| ImportProxmox.KeepsBracketEmptyList | terraform/scripts/import_proxmox.py:366-390 | after opening an empty list, the last `]` is the new closing line two lines down, so a second append goes into the same list |
| ImportProxmox.KeepsBracketList | terraform/scripts/import_proxmox.py:382-390 | the last `]` is still the bracket line, one line down |
| ImportProxmox.KeepsBracketFront | terraform/scripts/import_proxmox.py:384-390 | with the bracket on the first line, the last `]` moves to the second line |

## Left out

- Subprocesses become their outcomes: `git`, `terraform output -json`, `yamllint` and the detector run by the pipeline generator. Their arguments, working directories and timeouts are not modelled; a timeout is one of the failure outcomes.
- Log and `print` output, the stderr warnings, the argument parsers and the `main` wrappers that only call the modelled functions.
- File writes and YAML/JSON/HCL text layout: the model states which files are written and what data each holds, not their text. The fixed header comments of the inventory files and the constant lines of the HCL blocks (`unprivileged`, `preserve_ssh_key`, `nesting`) are left out.
- DetectServices.Run: the output file is modelled only by whether it can be written; printing and writing emit the same text, one service per line with a final newline.
- DetectServices.ChooseComparison: `git fetch` of the target branch is left out, since its failure is ignored; whether `origin/<target>` resolves is a parameter.
- GeneratePipeline.GenerateDocument: the detector's stderr is not echoed and the file `child-pipeline.yml` is the returned document. A detector that cannot start at all (for example, no `python3`) raises an `OSError` that the script does not catch, so it stops without writing a pipeline; that outcome is not modelled.
- The variables of the pipeline header and the scripts of the `no-changes` job are constants of the model, not proved about.
- LintYaml.RunYamllint: of the version check only whether `yamllint --version` can start is modelled. Its failure or timeout only prints a warning; its output is not modelled. The JSON text of the report is the returned list of issues.
- LintYaml.ParseLine: `\w` and `\d` are read as ASCII, while Python's `re` also accepts other Unicode letters and digits.
- TerraformInventory.LoadDotenv: `os.path.isfile` is the `Option` parameter, and the only exception modelled inside the loop is `setdefault` raising on an empty key or a NUL character; other I/O errors are left out.
- TerraformInventory.GenerateInventories: `get_terraform_output` is not modelled; each project's `ansible_info` (missing, empty or a host table) is a parameter. `ApplyProjectBackendEnv`, which it calls, is modelled on its own.
- TerraformInventory.CollectPlacement: requires host names to be distinct across projects; with a repeated name the later project overwrites the merged entry, and that case is not stated.
- TerraformInventory.K3sRole: lower-casing is ASCII only.
- ImportProxmox.ParseSizeToBytes: the number before the unit is an optionally signed run of ASCII digits, read exactly. Python reads it with `float`, and the two differ here:
  - a decimal point, an exponent or a `_` between digits reads as 0 in the model, while Python scales the value;
  - `nan` reads as 0 in both;
  - `inf`, or a run of more than about 309 digits, makes `int` raise `OverflowError`, which the `except` does not catch, so the script stops; the model gives 0 for `inf` and the exact value for the long run;
  - a number above 2^53 is rounded by `float` in Python and kept exact in the model;
  - non-ASCII decimal digits (such as `٣`) are numbers to `float`, while the model reads them as 0.
- ImportProxmox.GenerateLxc, ImportProxmox.GenerateVm, ImportProxmox.LargestDisk: where Python raises, the model returns `None`. That is a null, boolean or number value under an `in` test, or `.split` on a list or object holding a tested marker. The exception's type and message are not modelled.
- ImportProxmox.MacOf: `upper()` is ASCII only, while Python also maps other Unicode letters.
- Json: JSON numbers are integers; floating-point values are not modelled.
- `get_resource_config_api` (HTTPS to the Proxmox API) and the `main` of `import_proxmox.py` (hostname, target file choice, printing) are not modelled; the config is a parameter.
- ImportProxmox.AppendToFile: `readlines` gives lines that keep their newlines; the model's lines are the strings `readlines` returns. `Some(None)` stands for the missing-bracket case, which writes nothing and returns `False`; the write itself is the returned lines.
