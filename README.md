# dask-jobqueue: the worker-slot bookkeeping of `JobQueueCluster`

This project models the core of `JobQueueCluster` in `dask_jobqueue/core.py` and
proves properties of it. `JobQueueCluster` launches Dask workers as batch jobs on a
job-queue scheduler such as PBS or SLURM, and its state has two parts:

- a slot counter `n` that only grows: every job script rendered mints a fresh slot;
- a registry `jobs` that maps each submitted slot to the scheduler job id that its
  submission echoed.

The operations that the model covers:

- construction, which refuses to build a cluster without both scheduler commands and
  bakes the `dask-worker` command line once;
- `job_script`, which renders a script for the next slot;
- `start_workers`, which submits slots one after the other and records their ids;
- `stop_workers`, which cancels a batch of slots with a single command;
- `scale_up` and `scale_down`, which reconcile the registry with a target size or a
  set of worker names;
- `__exit__`, which stops every tracked slot;
- `adapt`, which binds an adaptive controller at most once.

Files:

- `errors.dfy` (module `Errors`): `Option`, `Result`, `Outcome`, and one `Error`
  constructor per exception that the modelled code raises.
- `strings.dfy` (module `Strings`):
  - Python's `str.split` with a one-character separator, and `join`;
  - the job-id rule `out.split('.')[0]`;
  - the worker-name rule `name.split('-')[-2]`;
  - decimal text for `%d` and `int()`.
- `script.dfy` (module `Script`):
  - the command template, written as fixed pieces and `%(n)d` placeholders;
  - its per-slot fill;
  - the fixed script layout;
  - the construction options, and the command line built from them.
- `shell.dfy` (module `Shell`): the command runner behind `_calls` and `_call`. It is a
  class whose answers are a fixed function `respond` of the command's position among
  all commands issued and of the command itself. A ghost `log` records every argument
  vector in order, so the model can state "exactly one cancel command carrying these
  ids".
- `cluster.dfy` (module `Cluster`): the class `JobQueueCluster`. Its mutable fields are
  `jobs`, `n`, `jobHeader` and `adaptive`; the command strings, the command template,
  the runner and the temporary-file naming are `const`. A ghost `scripts` records the
  script rendered for every minted slot.

The class invariant `Valid()` says three things:

- every registered slot lies in `1..n`, so a fresh slot is never already registered;
- one script has been rendered per minted slot;
- the runner's log has one entry per command issued.

The pure specification functions are:

- `Recorded`, `Submissions`, `Rendered` and `Slots`: what `start_workers` does to the
  registry, the log, the scripts and its result;
- `Stops`: a relation describing what `stop_workers` does.

`StartWorkers` and `ScaleUp` are proved against `Recorded`, `Submissions`, `Rendered`
and `Slots`; `StopWorkers`, `ScaleDown` and `Exit` against `Stops`. The other methods
have their own reference functions: `JobScript`, `JobFile` and `SubmitSlot` are proved
against `RenderScript` and `SubmitArgv`, `Create` against `CommandTemplate` and
`ExtraWithInterface`, and `Adapt` against `Bind`. The lemmas beside these functions
state what they mean.

Two behaviours are kept exactly as the code has them:

- An unset `job_header` renders as the text `None` in the script, because of Python's
  `'%s' % None`. It is not a configuration error.
- The `--interface` flag is appended to `extra` with two spaces, exactly as
  core.py:91 writes it.

A Python dict iterates in insertion order. Slots are inserted as they are minted, so
`__exit__` passes the registered slots in ascending order; `KeysUpTo` gives that
order. Python's set iteration order is left open: `Enumerate` may return any order,
and `ScaleDown` states its result for every order.

A note on worker names. `scale_down` reads the slot as the second-to-last `-` segment
of each worker's name. That works as long as `dask-worker` appends a process index to
the name given with `--name`. The lemma `RequestsOfWorkerNames` proves that workers
named `<prefix>-<slot>-<process>` are requested as exactly their slots. A name without
the process suffix (`dask-worker-3`) yields `worker` instead, which `int()` rejects; the
lemma `UnsuffixedWorkerName` states this. When `dask-worker` names workers that way
depends on `dask-worker`, which is not part of this model.

## Model

| member | source | states |
|---|---|---|
| Strings.Split | dask_jobqueue/core.py:139 | `str.split` with a one-character separator gives at least one piece, and no piece contains the separator |
| Strings.JoinSplit | dask_jobqueue/core.py:139 | joining the pieces of a split with the separator gives back the original text |
| Strings.SplitJoin | dask_jobqueue/core.py:209 | splitting a join of separator-free pieces gives back exactly those pieces |
| Strings.SplitAround | dask_jobqueue/core.py:209 | a separator between two texts splits them apart: the pieces of `a + sep + b` are the pieces of `a` followed by those of `b` |
| Strings.SplitSingle | dask_jobqueue/core.py:209 | a split yields a single piece exactly when the separator does not occur (both directions) |
| Strings.SplitHead | dask_jobqueue/core.py:139 | the first piece is a prefix of the text, and is followed by the separator when it is shorter than the text |
| Strings.JobId | dask_jobqueue/core.py:139 | the job id is a prefix of the submission output that contains no '.', and it is the whole output unless a '.' immediately follows it |
| Strings.JobIdOfEcho | dask_jobqueue/core.py:139 | an output `<id>.<host>` with a dot-free id yields exactly `<id>` |
| Strings.SlotSegment | dask_jobqueue/core.py:209 | `name.split('-')[-2]` is missing (IndexError) exactly when the name has no '-', and when present it contains no '-' |
| Strings.SlotSegmentOfPair | dask_jobqueue/core.py:209 | a name with exactly one `-` gives the part before it as `split('-')[-2]` |
| Strings.SlotSegmentOfName | dask_jobqueue/core.py:209 | for any prefix, the segment between the last two '-' is found |
| Strings.NatToString | dask_jobqueue/core.py:111 | the `%d` text of a natural number is non-empty, all digits, and has no leading zero |
| Strings.ParseNatToString | dask_jobqueue/core.py:196 | `int()` of the `%d` text of a natural number gives back that number |
| Strings.SlotOfWorkerName | dask_jobqueue/core.py:209 | a name `<prefix>-<slot>-<process>` yields the slot's text, and `int()` of it gives back the slot |
| Script.FillNoHole | dask_jobqueue/core.py:121-122 | a template without a slot placeholder renders to its fixed text for every slot |
| Script.FillOneHole | dask_jobqueue/core.py:122 | a template with one placeholder renders as the text before it, the decimal slot number, and the text after it |
| Script.HolesAppend | dask_jobqueue/core.py:102-117 | appending templates adds up their placeholders |
| Script.ScriptCarriesSlot | dask_jobqueue/core.py:57-63 | the script is `#!/bin/bash`, a blank line, the header (`None` when unset), a blank line, the command with the slot number at the placeholder, and a final newline |
| Script.ScriptDeterminesSlot | dask_jobqueue/core.py:119-123 | with the placeholder in the command, scripts of two slots are equal only when the slots are |
| Script.ExtraWithInterface | dask_jobqueue/core.py:89-91 | with a non-empty interface it is a TypeError exactly when extra is None; otherwise the result is the user's `extra` followed by ` --interface  <iface> ` (prefix, suffix and length); without an interface, extra is unchanged |
| Script.LeadingFlagsFixed | dask_jobqueue/core.py:102-108 | the executable, thread, process and memory flags carry no slot placeholder |
| Script.TrailingFlagsFixed | dask_jobqueue/core.py:112-117 | the death-timeout and local-directory flags and `extra` carry no slot placeholder |
| Script.CommandTemplateHoles | dask_jobqueue/core.py:102-117 | the command has exactly one slot placeholder when a worker name is set, and none otherwise |
| Script.CommandTemplateSlot | dask_jobqueue/core.py:109-111 | with a name, the text before the placeholder ends with ` --name <name>-` |
| Script.CommandNamesWorker | dask_jobqueue/core.py:109-111 | the command filled for slot n is the text before the placeholder, which ends with ` --name <name>-`, then the slot number, then the text after the placeholder; so ` --name <name>-<n>` appears right at the placeholder (what follows it depends on the later flags and `extra`) |
| Script.DefaultCommand | dask_jobqueue/core.py:69-77 | with the constructor's defaults the interface leaves `extra` as `''`, and the command has exactly one slot placeholder, right after ` --name dask-worker-` |
| Script.Fill | dask_jobqueue/core.py:122 | definition: `template % {'n': n}`, every placeholder replaced by the decimal slot number (its properties are `FillNoHole` and `FillOneHole`) |
| Script.HeaderText | dask_jobqueue/core.py:121 | definition: `'%s' % job_header`, the text `None` for an unset header |
| Script.RenderScript | dask_jobqueue/core.py:57-63 | definition: the script template of core.py:57-63 filled with the header text and the filled command (its properties are `ScriptCarriesSlot` and `ScriptDeterminesSlot`) |
| Script.JoinPath | dask_jobqueue/core.py:102 | definition: `os.path.join(dirname, rest)` for a relative `rest`, adding one `/` unless the directory is empty or already ends with one |
| Script.OptionFlag | dask_jobqueue/core.py:103-117 | definition: a flag followed by its value's text, or nothing when the option is None |
| Script.LeadingFlags | dask_jobqueue/core.py:102-108 | definition: the executable `dask-worker <address>` joined to the interpreter's directory, then `--nthreads`, `--nprocs`, `--memory-limit` |
| Script.NameFlag | dask_jobqueue/core.py:109-111 | definition: ` --name <name>`, then `-` and the slot placeholder, or nothing when the name is None |
| Script.TrailingFlags | dask_jobqueue/core.py:112-117 | definition: `--death-timeout`, `--local-directory`, then `extra` itself |
| Script.CommandTemplate | dask_jobqueue/core.py:102-117 | definition: leading flags, name flag and trailing flags in the constructor's order (its properties are `CommandTemplateHoles`, `CommandTemplateSlot` and `CommandNamesWorker`; `BuildCommandTemplate` is proved to build it) |
| Strings.IntToString | dask_jobqueue/core.py:104-106 | definition: `'%d' % i`, a `-` before the digits of a negative number |
| Strings.ParseNat | dask_jobqueue/core.py:196 | definition: `int(s)` for a non-empty run of decimal digits, None (ValueError) otherwise (its round trip is `ParseNatToString`) |
| Script.Truthy | dask_jobqueue/core.py:83-89 | definition: Python's truth value of an optional string, set and not empty; `Create` refuses with NotImplementedError when `cancel_command` or `submit_command` is not truthy, and a truthy `interface` appends the interface flag |
| Cluster.RangeLength | dask_jobqueue/core.py:136 | definition: the number of passes of `for _ in range(count)`, zero for a negative count |
| Cluster.JobQueueCluster.SubmitArgv | dask_jobqueue/core.py:138 | definition: the argument vector `[submit_command, fn]` for a slot's script file |
| Cluster.JobQueueCluster.Submissions | dask_jobqueue/core.py:136-138 | definition: the argument vectors `[submit_command, fn]` of the k slots after `from`, one per pass and in minting order; `StartWorkers` states the runner's log through it |
| Cluster.JobQueueCluster.Recorded | dask_jobqueue/core.py:137-141 | definition: the registry after k passes, each slot mapped to the job id of its own submission (its properties are `RecordedSlots`, `RecordedEntries` and `StartedJobs`) |
| Cluster.JobQueueCluster.Stops | dask_jobqueue/core.py:193-201 | definition: what `stop_workers` does, as a relation between the state before and after; `StopWorkers`, `ScaleDown` and `Exit` are proved against it |
| Shell.Runner.Calls | dask_jobqueue/core.py:176-187 | one output per command, in command order, each the runner's answer at that command's position; all commands are logged in order |
| Shell.Runner.Call | dask_jobqueue/core.py:189-191 | one command, logged, and its single output |
| Cluster.Bind | dask_jobqueue/core.py:225-229 | once a controller is bound it is kept, and afterwards one is always bound |
| Cluster.BindIdempotent | dask_jobqueue/core.py:225-229 | adapting a second time changes nothing |
| Cluster.SlotsAfter | dask_jobqueue/core.py:133-142 | the k slots after `from` are `from+1, ..., from+k`, in order |
| Cluster.Lookup | dask_jobqueue/core.py:197 | the lookup succeeds exactly when every requested slot is registered, and then yields their jobs in request order; otherwise it raises KeyError for the first missing slot |
| Cluster.KeysUpTo | dask_jobqueue/core.py:216 | iterating the registry gives exactly its slots in `1..n`, in ascending (insertion) order |
| Cluster.Requests | dask_jobqueue/core.py:208-209 | KeyError exactly when a worker has no name; otherwise IndexError exactly when a name has no '-'; otherwise the set of every name's slot segment, and nothing else |
| Cluster.ParseSlots | dask_jobqueue/core.py:196 | `int()` of every segment, in order, or ValueError exactly when some segment is not a decimal number |
| Cluster.RequestsOfWorkerNames | dask_jobqueue/core.py:206-210 | workers named `<prefix>-<slot>-<process>` are requested as exactly their slots, whatever order the set is iterated in |
| Cluster.ExampleWorkerName | dask_jobqueue/core.py:209 | the name `dask-worker-42-abc` yields slot 42 |
| Cluster.UnsuffixedWorkerName | dask_jobqueue/core.py:209 | the name `dask-worker-3` yields the segment `worker`, which `int()` rejects |
| Cluster.Enumerate | dask_jobqueue/core.py:209-210 | a set is iterated with each element exactly once, in some order |
| Cluster.AppendFlag | dask_jobqueue/core.py:103-117 | a flag with its value is appended only when the option is set |
| Cluster.BuildCommandTemplate | dask_jobqueue/core.py:102-117 | the successive appends build `CommandTemplate`: the executable with the scheduler address, then `--nthreads`, `--nprocs`, `--memory-limit`, `--name <name>-%(n)d`, `--death-timeout`, `--local-directory` and `extra`, each only when set |
| Cluster.JobQueueCluster.RecordedSlots | dask_jobqueue/core.py:137-141 | recording k submissions keeps every earlier entry, and adds exactly the k slots after `from`, one new entry each |
| Cluster.JobQueueCluster.RecordedEntries | dask_jobqueue/core.py:138-140 | each new slot holds the job id echoed by its own submission, the command issued for that slot |
| Cluster.JobQueueCluster.EchoedAt | dask_jobqueue/core.py:138-139 | the i-th echoed id is the job id of the i-th submission's output |
| Cluster.JobQueueCluster.StartedJobs | dask_jobqueue/core.py:133-142 | stopping the slots just started finds every one of them and cancels exactly the ids their submissions echoed, in start order |
| Cluster.JobQueueCluster.RenderedIndex | dask_jobqueue/core.py:119-123 | k slots render k scripts, and the i-th script rendered by start_workers is the script of slot `from+1+i` |
| Cluster.JobQueueCluster.RenderedDistinct | dask_jobqueue/core.py:119-123 | with the slot placeholder in the command, the scripts of distinct slots are distinct |
| Cluster.JobQueueCluster.MintStep | dask_jobqueue/core.py:136-141 | one more loop pass extends the registry, the log, the scripts and the result by that slot's entry |
| Cluster.JobQueueCluster.Create | dask_jobqueue/core.py:83-117 | NotImplementedError unless both commands are set and non-empty; then TypeError when an interface is given with extra None; otherwise a fresh valid cluster with an empty registry, counter 0, no header, no controller and the command template built from the options |
| Cluster.JobQueueCluster.constructor | dask_jobqueue/core.py:97-117 | the initial state and the command template |
| Cluster.JobQueueCluster.JobScript | dask_jobqueue/core.py:119-123 | mints exactly one slot and returns its script, rendered for the new counter value; the registry is untouched |
| Cluster.JobQueueCluster.JobFile | dask_jobqueue/core.py:125-131 | mints one slot, renders its script and names its temporary file |
| Cluster.JobQueueCluster.SubmitSlot | dask_jobqueue/core.py:137-141 | one pass: a fresh slot is minted, its script file is submitted, and the slot is registered with the job id of the output |
| Cluster.JobQueueCluster.StartWorkers | dask_jobqueue/core.py:133-142 | returns `n0+1, ..., n0+k` (none for a negative count), none of them registered before; leaves `n = n0+k`; the registry becomes `Recorded`, the log gains one submission per slot in order, and one script is rendered per slot |
| Cluster.JobQueueCluster.StopWorkers | dask_jobqueue/core.py:193-201 | `Stops`: an empty request does nothing; an unknown slot raises KeyError before any cancel and changes nothing; otherwise one cancel `[cancel_command] + jobs` in request order is issued, and exactly the requested slots (duplicates tolerated) leave the registry, other entries unchanged |
| Cluster.JobQueueCluster.ScaleUp | dask_jobqueue/core.py:203-204 | it is `start_workers(target - len(jobs))`: the registry grows to the target when below it, `n` grows by the number of slots returned, and the registry, log and scripts gain exactly those slots' entries; at or above the target nothing is submitted, `[]` is returned, and registry, counter, log and scripts are unchanged; existing entries are always kept |
| Cluster.JobQueueCluster.ScaleDown | dask_jobqueue/core.py:206-210 | a non-dict does nothing; a name error raises before any cancel; otherwise the deduplicated slot segments, in set order, are parsed (ValueError otherwise) and stopped as `Stops` describes |
| Cluster.JobQueueCluster.Exit | dask_jobqueue/core.py:215-216 | every registered slot is cancelled with one command, in registry order, and the registry ends empty |
| Cluster.JobQueueCluster.Adapt | dask_jobqueue/core.py:219-229 | binds the adaptive controller (startup cost 5, grouped by host) only when none is bound; nothing else changes |

## Left out

- Process execution, stderr logging and byte decoding in `_calls` (core.py:152-191) are not modelled. The runner is an oracle that answers each command with a string; `out.decode()` is taken as that string.
- Writing the script to a temporary file (`job_file`, `tmpfile`) is not modelled. A slot's file name is a fixed function `tempPath` of the slot.
- `LocalCluster`, the scheduler address, `socket.gethostname` and `get_ip_interface` are foreign calls. The scheduler address is an opaque string given at construction; the host is not modelled.
- The internals of `distributed.deploy.Adaptive` are external. The controller is a value holding its startup cost and its grouping-by-host choice.
- Logging and concurrency are not modelled. The code has no locking.
- `__enter__` (core.py:212-213) only returns the cluster itself, and the `self.cluster.__exit__` call (core.py:217) belongs to the foreign `LocalCluster`; neither is modelled.
- Strings.ParseNat: `int()` is modelled for plain ASCII decimal digits only. Signs, surrounding whitespace, underscores and other Unicode digits are not accepted, so a segment such as `+7` is rejected here while Python accepts it.
- Script.Fill: Python's `%` formatting of the command template is modelled as filling placeholders. A literal `%` inside option text, which Python would misread at render time, is not modelled.
- Script.Options: options that the source formats with `%s` (memory, death timeout, local directory) arrive as their text. `str()` of non-string values is not modelled.
- Cluster.JobQueueCluster.StartWorkers: an exception raised by the runner in the middle of the loop, which would leave some slots registered, is not modelled. The runner always answers.
- Cluster.Requests: the worker info dicts keep only their string entries. A `name` entry that is not a string is not modelled.
- Cluster.JobQueueCluster.StartWorkers: the default argument `n=1` of `start_workers` is not a default here; a caller passes the count, and the default call is `StartWorkers(1)`.
