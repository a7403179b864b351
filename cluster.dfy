/** The worker-slot bookkeeping of a job-queue cluster: a slot counter that only grows,
    a registry from slot to scheduler job id, and the operations that submit job
    scripts, cancel jobs, reconcile the registry with a target size and bind the
    adaptive controller once. */
module Cluster {
  import opened Errors
  import opened Strings
  import opened Script
  import opened Shell

  /** The adaptive controller the cluster binds: startup cost 5, demand grouped by host. */
  datatype Controller = Adaptive(startupCost: int, groupByHost: bool)

  const AdaptiveController := Adaptive(5, true)

  /** What `adapt` leaves bound: a controller once bound is kept, so at most one is
      ever constructed. */
  function Bind(current: Option<Controller>): (bound: Option<Controller>)
    ensures bound.Some?
    ensures current.Some? ==> bound == current
  {
    if current.Some? then current else Some(AdaptiveController)
  }

  /** Adapting again changes nothing. */
  lemma BindIdempotent(current: Option<Controller>)
    ensures Bind(Bind(current)) == Bind(current)
  {
  }

  /** The argument of scale_down: a dict from worker handles to worker info dicts
      (only their string entries matter here), or any other value. */
  datatype Workers = NotADict | Dict(entries: map<string, map<string, string>>)

  /** How many passes `for _ in range(count)` makes. */
  function RangeLength(count: int): nat
  {
    if count < 0 then 0 else count
  }

  /** The `k` slots after `from`, in minting order. */
  function Slots(from: nat, k: nat): seq<int>
    decreases k
  {
    if k == 0 then [] else Slots(from, k - 1) + [from + k]
  }

  lemma {:induction false} SlotsAfter(from: nat, k: nat)
    ensures |Slots(from, k)| == k
    ensures forall i :: 0 <= i < k ==> Slots(from, k)[i] == from + 1 + i
    decreases k
  {
    if k > 0 {
      SlotsAfter(from, k - 1);
    }
  }

  /** One more element of a sequence joins its prefix. */
  lemma PrefixStep(ws: seq<int>, i: nat)
    requires i < |ws|
    ensures forall s :: s in ws[..i + 1] <==> s in ws[..i] || s == ws[i]
  {
    assert ws[..i + 1] == ws[..i] + [ws[i]];
  }

  /** `[jobs[w] for w in slots]`: the job of every requested slot, in request order, or
      the KeyError for the first requested slot that has no job. */
  function Lookup(jobs: map<int, string>, slots: seq<int>): (r: Result<seq<string>>)
    ensures r.Ok? <==> forall i :: 0 <= i < |slots| ==> slots[i] in jobs
    ensures r.Ok? ==> |r.value| == |slots| && forall i :: 0 <= i < |slots| ==> r.value[i] == jobs[slots[i]]
    ensures r.Err? ==> exists i :: 0 <= i < |slots| && slots[i] !in jobs && r.error == UnknownSlot(slots[i])
                                   && forall j :: 0 <= j < i ==> slots[j] in jobs
    decreases |slots|
  {
    if slots == [] then Ok([])
    else if slots[0] !in jobs then Err(UnknownSlot(slots[0]))
    else match Lookup(jobs, slots[1..])
      case Err(e) => Err(e)
      case Ok(ids) => Ok([jobs[slots[0]]] + ids)
  }

  /** The slots of `jobs` among 1..k in ascending order. Iterating the registry dict
      visits its keys in insertion order, which is ascending slot order because slots
      are inserted as they are minted. */
  function KeysUpTo(jobs: map<int, string>, k: nat): (keys: seq<int>)
    ensures forall i, j :: 0 <= i < j < |keys| ==> keys[i] < keys[j]
    ensures forall s :: s in keys <==> s in jobs && 1 <= s <= k
    decreases k
  {
    if k == 0 then []
    else
      var prev := KeysUpTo(jobs, k - 1);
      assert forall i :: 0 <= i < |prev| ==> prev[i] in prev && prev[i] <= k - 1;
      prev + (if k in jobs then [k] else [])
  }

  /** The slot segments scale_down requests:
      `{name.split('-')[-2] for name in {v['name'] for v in workers.values()}}`.
      KeyError when a descriptor has no name, IndexError when a name has no '-'. */
  function Requests(entries: map<string, map<string, string>>): (r: Result<set<string>>)
    ensures r == Err(MissingName) <==> exists h :: h in entries && "name" !in entries[h]
    ensures r == Err(NoSlotSegment) <==>
              (forall h :: h in entries ==> "name" in entries[h])
              && exists h :: h in entries && '-' !in entries[h]["name"]
    ensures r.Err? ==> r == Err(MissingName) || r == Err(NoSlotSegment)
    ensures r.Ok? ==> forall h :: h in entries ==>
              "name" in entries[h] && SlotSegment(entries[h]["name"]).Some?
              && SlotSegment(entries[h]["name"]).value in r.value
    ensures r.Ok? ==> forall seg :: seg in r.value ==>
              exists h :: h in entries && "name" in entries[h] && SlotSegment(entries[h]["name"]) == Some(seg)
  {
    if exists h :: h in entries && "name" !in entries[h] then Err(MissingName)
    else
      var names := set h | h in entries :: entries[h]["name"];
      if exists nm :: nm in names && '-' !in nm then Err(NoSlotSegment)
      else Ok(set nm | nm in names :: SlotSegment(nm).value)
  }

  /** `list(map(int, segments))`: the slot numbers in the order given, or ValueError
      when a segment is not a decimal number. */
  function ParseSlots(segs: seq<string>): (r: Result<seq<int>>)
    ensures r.Ok? <==> forall i :: 0 <= i < |segs| ==> ParseNat(segs[i]).Some?
    ensures r.Err? ==> r.error == NotAnInteger
    ensures r.Ok? ==> |r.value| == |segs| && forall i :: 0 <= i < |segs| ==> ParseNat(segs[i]) == Some(r.value[i])
    decreases |segs|
  {
    if segs == [] then Ok([])
    else match ParseNat(segs[0])
      case None => Err(NotAnInteger)
      case Some(v) =>
        match ParseSlots(segs[1..])
        case Err(e) => Err(e)
        case Ok(vs) => Ok([v as int] + vs)
  }

  /** Workers named the way the cluster names them, `<prefix>-<slot>-<process>`, are
      requested by scale_down as exactly their slots, whatever order the set of
      segments is iterated in. */
  lemma {:induction false} RequestsOfWorkerNames(entries: map<string, map<string, string>>, prefix: string,
                                                 slot: map<string, nat>, process: map<string, string>,
                                                 order: seq<string>)
    requires forall h :: h in entries ==>
               && h in slot && h in process && '-' !in process[h] && "name" in entries[h]
               && entries[h]["name"] == prefix + "-" + NatToString(slot[h]) + "-" + process[h]
    requires forall seg :: seg in order <==> exists h :: h in entries && seg == NatToString(slot[h])
    ensures Requests(entries).Ok?
    ensures forall seg :: seg in Requests(entries).value <==> seg in order
    ensures ParseSlots(order).Ok?
    ensures forall w :: w in ParseSlots(order).value <==> exists h :: h in entries && w == slot[h]
  {
    forall h | h in entries
      ensures SlotSegment(entries[h]["name"]) == Some(NatToString(slot[h]))
      ensures ParseNat(NatToString(slot[h])) == Some(slot[h])
    {
      SlotOfWorkerName(prefix, slot[h], process[h]);
    }
    var r := Requests(entries);
    assert r.Ok?;
    forall seg | seg in r.value
      ensures seg in order
    {
      var h :| h in entries && "name" in entries[h] && SlotSegment(entries[h]["name"]) == Some(seg);
      assert seg == NatToString(slot[h]);
    }
    forall i | 0 <= i < |order|
      ensures ParseNat(order[i]).Some?
    {
      assert order[i] in order;
      var h :| h in entries && order[i] == NatToString(slot[h]);
    }
    var ws := ParseSlots(order).value;
    forall w | w in ws
      ensures exists h :: h in entries && w == slot[h]
    {
      var i :| 0 <= i < |ws| && ws[i] == w;
      assert order[i] in order;
      var h :| h in entries && order[i] == NatToString(slot[h]);
      assert Some(w) == Some(slot[h]);
    }
    forall h | h in entries
      ensures slot[h] in ws
    {
      var seg := NatToString(slot[h]);
      assert seg in order;
      var i :| 0 <= i < |order| && order[i] == seg;
      assert ws[i] == slot[h];
    }
  }

  /** The worker name `dask-worker-42-abc` yields slot 42. */
  lemma ExampleWorkerName()
    ensures SlotSegment("dask-worker-42-abc") == Some("42")
    ensures ParseNat("42") == Some(42)
  {
    assert NatToString(42) == "42";
    SlotOfWorkerName("dask-worker", 42, "abc");
    assert "dask-worker" + "-" + NatToString(42) + "-" + "abc" == "dask-worker-42-abc";
  }

  /** A name without the process suffix, as a single-process worker is named, yields
      the last segment of the cluster name instead of the slot, and int() rejects it. */
  lemma UnsuffixedWorkerName()
    ensures SlotSegment("dask-worker-3") == Some("worker")
    ensures ParseNat("worker") == None
  {
    SlotSegmentOfName("dask", "worker", "3");
    assert "dask" + "-" + "worker" + "-" + "3" == "dask-worker-3";
    assert !IsDigit("worker"[0]);
  }

  /** Iterating a Python set: each element once, in an order the model leaves open. */
  method Enumerate(s: set<string>) returns (xs: seq<string>)
    ensures |xs| == |s|
    ensures forall x :: x in xs <==> x in s
    ensures forall i, j :: 0 <= i < j < |xs| ==> xs[i] != xs[j]
  {
    xs := [];
    var rest := s;
    while rest != {}
      invariant rest <= s
      invariant |xs| + |rest| == |s|
      invariant forall x :: x in xs <==> x in s && x !in rest
      invariant forall i, j :: 0 <= i < j < |xs| ==> xs[i] != xs[j]
      decreases |rest|
    {
      var x :| x in rest;
      xs := xs + [x];
      rest := rest - {x};
    }
  }

  /** `template += flag % value` when the value is not None. */
  method AppendFlag(t: Template, flag: string, value: Option<string>) returns (t': Template)
    ensures t' == t + OptionFlag(flag, value)
  {
    t' := t;
    if value.Some? {
      t' := t' + [Lit(flag + value.value)];
    }
  }

  /** The constructor's command line build: the executable with the scheduler address,
      then each configured flag appended in turn; `extra` already holds the interface
      flag when one was given. */
  method BuildCommandTemplate(binDir: string, address: string, o: Options, extra: Option<string>)
    returns (t: Template)
    ensures t == CommandTemplate(binDir, address, o, extra)
  {
    t := [Lit(JoinPath(binDir, "dask-worker " + address))];
    t := AppendFlag(t, " --nthreads ", IntOption(o.threads));
    t := AppendFlag(t, " --nprocs ", IntOption(o.processes));
    t := AppendFlag(t, " --memory-limit ", o.memory);
    if o.name.Some? {
      t := t + [Lit(" --name " + o.name.value)];
      t := t + [Lit("-"), SlotNumber];
    }
    assert t == LeadingFlags(binDir, address, o) + NameFlag(o.name);
    ghost var upToName := t;
    t := AppendFlag(t, " --death-timeout ", o.deathTimeout);
    t := AppendFlag(t, " --local-directory ", o.localDirectory);
    t := AppendFlag(t, "", extra);
    assert t == upToName + TrailingFlags(o, extra);
  }

  class JobQueueCluster {
    const submitCommand: string
    const cancelCommand: string
    /** The worker launch command, with the slot placeholder. */
    const commandTemplate: Template
    /** The command runner the cluster issues its scheduler commands through. */
    const runner: Runner
    /** The temporary file a slot's script is written to. */
    const tempPath: nat -> string
    /** Scheduler-specific resource directives; None until a scheduler variant installs them. */
    var jobHeader: Option<string>
    /** The registry: slot -> scheduler job id. */
    var jobs: map<int, string>
    /** The last slot minted. */
    var n: nat
    /** The adaptive controller, once bound. */
    var adaptive: Option<Controller>
    /** The script rendered for every slot minted so far: scripts[s - 1] for slot s. */
    ghost var scripts: seq<string>

    /** Every registered slot has been minted, and exactly one script was rendered per minted slot. */
    ghost predicate Valid()
      reads this, runner
    {
      && runner.Valid()
      && |scripts| == n
      && (forall s :: s in jobs ==> 1 <= s <= n)
    }

    /** `[submit_command, fn]` for the script file of a slot. */
    function SubmitArgv(slot: nat): seq<string>
    {
      [submitCommand, tempPath(slot)]
    }

    /** The submissions for the `k` slots after `from`, in minting order. */
    function Submissions(from: nat, k: nat): seq<seq<string>>
      decreases k
    {
      if k == 0 then [] else Submissions(from, k - 1) + [SubmitArgv(from + k)]
    }

    /** The registry `jobs0` after recording the `k` slots that follow `from`, when
        the first of their submissions was the runner's command number `issued0`:
        each slot maps to the job id echoed by its own submission. */
    function Recorded(jobs0: map<int, string>, issued0: nat, from: nat, k: nat): map<int, string>
      decreases k
    {
      if k == 0 then jobs0
      else Recorded(jobs0, issued0, from, k - 1)[from + k := JobId(runner.respond(issued0 + k - 1, SubmitArgv(from + k)))]
    }

    /** The scripts rendered for the `k` slots after `from`. */
    function Rendered(header: Option<string>, from: nat, k: nat): seq<string>
      decreases k
    {
      if k == 0 then [] else Rendered(header, from, k - 1) + [RenderScript(header, commandTemplate, from + k)]
    }

    /** Recording keeps the earlier entries, when all their slots are at most `from`,
        and adds exactly the `k` slots after `from`, one more entry each. */
    lemma {:induction false} RecordedSlots(jobs0: map<int, string>, issued0: nat, from: nat, k: nat)
      requires forall s :: s in jobs0 ==> s <= from
      ensures forall s :: s in Recorded(jobs0, issued0, from, k) <==> s in jobs0 || from < s <= from + k
      ensures forall s :: s in jobs0 ==> Recorded(jobs0, issued0, from, k)[s] == jobs0[s]
      ensures |Recorded(jobs0, issued0, from, k)| == |jobs0| + k
      decreases k
    {
      if k > 0 {
        RecordedSlots(jobs0, issued0, from, k - 1);
      }
    }

    /** The job ids echoed by the `k` submissions after command number `issued0`. */
    function Echoed(issued0: nat, from: nat, k: nat): seq<string>
      decreases k
    {
      if k == 0 then [] else Echoed(issued0, from, k - 1) + [JobId(runner.respond(issued0 + k - 1, SubmitArgv(from + k)))]
    }

    /** Each recorded slot holds the job id that its own submission echoed; the
        submission of slot from + 1 + i was command number issued0 + i. */
    lemma {:induction false} RecordedEntries(jobs0: map<int, string>, issued0: nat, from: nat, k: nat)
      ensures forall s: nat :: from < s <= from + k ==>
                && s in Recorded(jobs0, issued0, from, k)
                && Recorded(jobs0, issued0, from, k)[s] == JobId(runner.respond(issued0 + (s - from - 1), SubmitArgv(s)))
      decreases k
    {
      if k > 0 {
        RecordedEntries(jobs0, issued0, from, k - 1);
      }
    }

    lemma {:induction false} EchoedAt(issued0: nat, from: nat, k: nat)
      ensures |Echoed(issued0, from, k)| == k
      ensures forall i :: 0 <= i < k ==>
                Echoed(issued0, from, k)[i] == JobId(runner.respond(issued0 + i, SubmitArgv(from + 1 + i)))
      decreases k
    {
      if k > 0 {
        EchoedAt(issued0, from, k - 1);
      }
    }

    /** Stopping the slots just started finds all of them, and cancels exactly the job
        ids their submissions echoed, in start order. */
    lemma StartedJobs(jobs0: map<int, string>, issued0: nat, from: nat, k: nat)
      ensures Lookup(Recorded(jobs0, issued0, from, k), Slots(from, k)) == Ok(Echoed(issued0, from, k))
    {
      SlotsAfter(from, k);
      RecordedEntries(jobs0, issued0, from, k);
      EchoedAt(issued0, from, k);
      var r := Lookup(Recorded(jobs0, issued0, from, k), Slots(from, k));
      assert r.Ok?;
      assert r.value == Echoed(issued0, from, k);
    }

    lemma {:induction false} RenderedLength(header: Option<string>, from: nat, k: nat)
      ensures |Rendered(header, from, k)| == k
      decreases k
    {
      if k > 0 {
        RenderedLength(header, from, k - 1);
      }
    }

    /** The i-th script rendered is the script of slot from + 1 + i. */
    lemma {:induction false} RenderedIndex(header: Option<string>, from: nat, k: nat, i: nat)
      requires i < k
      ensures |Rendered(header, from, k)| == k
      ensures Rendered(header, from, k)[i] == RenderScript(header, commandTemplate, from + 1 + i)
      decreases k
    {
      if i < k - 1 {
        RenderedIndex(header, from, k - 1, i);
      } else {
        RenderedLength(header, from, k - 1);
      }
    }

    /** With the slot placeholder in the command, every rendered script is distinct. */
    lemma RenderedDistinct(header: Option<string>, from: nat, k: nat)
      requires Holes(commandTemplate) == 1
      ensures |Rendered(header, from, k)| == k
      ensures forall i, j :: 0 <= i < j < k ==> Rendered(header, from, k)[i] != Rendered(header, from, k)[j]
    {
      RenderedLength(header, from, k);
      forall i, j | 0 <= i < j < k
        ensures Rendered(header, from, k)[i] != Rendered(header, from, k)[j]
      {
        RenderedIndex(header, from, k, i);
        RenderedIndex(header, from, k, j);
        if Rendered(header, from, k)[i] == Rendered(header, from, k)[j] {
          ScriptDeterminesSlot(header, commandTemplate, from + 1 + i, from + 1 + j);
        }
      }
    }

    /** One more slot extends each record by that slot's entry. */
    lemma MintStep(jobs0: map<int, string>, issued0: nat, from: nat, i: nat, slot: nat, command: nat)
      requires slot == from + i + 1 && command == issued0 + i
      ensures Recorded(jobs0, issued0, from, i + 1)
        == Recorded(jobs0, issued0, from, i)[slot := JobId(runner.respond(command, SubmitArgv(slot)))]
      ensures Slots(from, i + 1) == Slots(from, i) + [slot]
      ensures Submissions(from, i + 1) == Submissions(from, i) + [SubmitArgv(slot)]
      ensures forall h :: Rendered(h, from, i + 1) == Rendered(h, from, i) + [RenderScript(h, commandTemplate, slot)]
    {
    }

    /** What stop_workers does, as a relation between the registry and the runner log
        before (jobs0, log0) and after (jobs1, log1) the call. An empty request changes
        nothing. A request naming a slot without a job raises at the lookup, before any
        cancel is issued, and changes nothing. Otherwise exactly one cancel command is
        issued, carrying the requested slots' jobs in request order, and exactly the
        requested slots leave the registry; a slot requested twice is tolerated. */
    ghost predicate Stops(jobs0: map<int, string>, log0: seq<seq<string>>, workers: seq<int>,
                          jobs1: map<int, string>, log1: seq<seq<string>>, r: Outcome)
    {
      if workers == [] then r == Pass && jobs1 == jobs0 && log1 == log0
      else match Lookup(jobs0, workers)
        case Err(e) => r == Fail(e) && jobs1 == jobs0 && log1 == log0
        case Ok(ids) =>
          && r == Pass
          && log1 == log0 + [[cancelCommand] + ids]
          && (forall s :: s in jobs1 <==> s in jobs0 && s !in workers)
          && (forall s :: s in jobs1 ==> jobs1[s] == jobs0[s])
    }

    /** Builds the worker command by appending each configured flag in turn; `extra`
        already holds the interface flag when one was given. */
    constructor Init(submitCommand: string, cancelCommand: string, binDir: string, address: string,
                     o: Options, extra: Option<string>, runner: Runner, tempPath: nat -> string)
      requires runner.Valid()
      ensures Valid()
      ensures this.submitCommand == submitCommand && this.cancelCommand == cancelCommand
      ensures this.runner == runner && this.tempPath == tempPath
      ensures commandTemplate == CommandTemplate(binDir, address, o, extra)
      ensures jobHeader == None && jobs == map[] && n == 0 && adaptive == None
    {
      this.submitCommand := submitCommand;
      this.cancelCommand := cancelCommand;
      this.runner := runner;
      this.tempPath := tempPath;
      jobHeader := None;
      jobs := map[];
      n := 0;
      adaptive := None;
      scripts := [];
      var t := BuildCommandTemplate(binDir, address, o, extra);
      commandTemplate := t;
    }

    /** Construction: refused with NotImplementedError unless both scheduler commands
        are set and non-empty, then with TypeError when an interface is given while
        extra is None; otherwise an empty registry, a zero counter, no header and no
        controller. */
    static method Create(submitCommand: Option<string>, cancelCommand: Option<string>, binDir: string,
                         address: string, o: Options, runner: Runner, tempPath: nat -> string)
      returns (r: Result<JobQueueCluster>)
      requires runner.Valid()
      ensures !Truthy(cancelCommand) || !Truthy(submitCommand) ==> r == Err(NotImplemented)
      ensures Truthy(cancelCommand) && Truthy(submitCommand) && ExtraWithInterface(o).Err? ==>
                r == Err(NoneConcatenation)
      ensures Truthy(cancelCommand) && Truthy(submitCommand) && ExtraWithInterface(o).Ok? ==>
                && r.Ok? && fresh(r.value) && r.value.Valid()
                && r.value.submitCommand == submitCommand.value
                && r.value.cancelCommand == cancelCommand.value
                && r.value.runner == runner && r.value.tempPath == tempPath
                && r.value.commandTemplate == CommandTemplate(binDir, address, o, ExtraWithInterface(o).value)
                && r.value.jobs == map[] && r.value.n == 0
                && r.value.jobHeader == None && r.value.adaptive == None
    {
      if !Truthy(cancelCommand) || !Truthy(submitCommand) {
        return Err(NotImplemented);
      }
      var extra := ExtraWithInterface(o);
      if extra.Err? {
        return Err(extra.error);
      }
      var c := new JobQueueCluster.Init(submitCommand.value, cancelCommand.value, binDir, address,
                                        o, extra.value, runner, tempPath);
      return Ok(c);
    }

    /** `job_script`: mints the next slot and renders its script. */
    method JobScript() returns (script: string)
      requires Valid()
      modifies this
      ensures Valid()
      ensures n == old(n) + 1
      ensures script == RenderScript(jobHeader, commandTemplate, n)
      ensures scripts == old(scripts) + [script]
      ensures jobs == old(jobs) && jobHeader == old(jobHeader) && adaptive == old(adaptive)
    {
      n := n + 1;
      script := RenderScript(jobHeader, commandTemplate, n);
      scripts := scripts + [script];
    }

    /** `job_file`: the script of a newly minted slot, written to that slot's temporary
        file (the writing itself is not modelled). */
    method JobFile() returns (path: string)
      requires Valid()
      modifies this
      ensures Valid()
      ensures n == old(n) + 1
      ensures path == tempPath(n)
      ensures scripts == old(scripts) + [RenderScript(jobHeader, commandTemplate, n)]
      ensures jobs == old(jobs) && jobHeader == old(jobHeader) && adaptive == old(adaptive)
    {
      var script := JobScript();
      path := tempPath(n);
    }

    /** One pass of start_workers' loop: mints a slot, submits its script and records
        the job id the submission echoes. */
    method SubmitSlot() returns (slot: int)
      requires Valid()
      modifies this, runner
      ensures Valid()
      ensures n == old(n) + 1 && slot == n
      ensures slot !in old(jobs)
      ensures jobs == old(jobs)[slot := JobId(runner.respond(old(runner.issued), SubmitArgv(slot)))]
      ensures |jobs| == |old(jobs)| + 1
      ensures runner.log == old(runner.log) + [SubmitArgv(slot)]
      ensures scripts == old(scripts) + [RenderScript(jobHeader, commandTemplate, slot)]
      ensures jobHeader == old(jobHeader) && adaptive == old(adaptive)
    {
      var path := JobFile();
      var out := runner.Call([submitCommand, path]);
      var job := JobId(out);
      jobs := jobs[n := job];
      slot := n;
    }

    /** `start_workers`: submits `count` fresh slots (none when count is negative)
        one after the other, and records each slot's job id. */
    method StartWorkers(count: int) returns (workers: seq<int>)
      requires Valid()
      modifies this, runner
      ensures Valid()
      ensures n == old(n) + RangeLength(count)
      ensures |workers| == RangeLength(count)
      ensures forall i :: 0 <= i < |workers| ==> workers[i] == old(n) + 1 + i
      ensures forall i :: 0 <= i < |workers| ==> workers[i] !in old(jobs)
      ensures jobs == Recorded(old(jobs), old(runner.issued), old(n), RangeLength(count))
      ensures runner.log == old(runner.log) + Submissions(old(n), RangeLength(count))
      ensures scripts == old(scripts) + Rendered(jobHeader, old(n), RangeLength(count))
      ensures jobHeader == old(jobHeader) && adaptive == old(adaptive)
    {
      var k := RangeLength(count);
      workers := [];
      var i := 0;
      while i < k
        invariant 0 <= i <= k
        invariant Valid()
        invariant n == old(n) + i
        invariant runner.issued == old(runner.issued) + i
        invariant workers == Slots(old(n), i)
        invariant jobs == Recorded(old(jobs), old(runner.issued), old(n), i)
        invariant runner.log == old(runner.log) + Submissions(old(n), i)
        invariant scripts == old(scripts) + Rendered(jobHeader, old(n), i)
        invariant jobHeader == old(jobHeader) && adaptive == old(adaptive)
      {
        ghost var command := runner.issued;
        var slot := SubmitSlot();
        MintStep(old(jobs), old(runner.issued), old(n), i, slot, command);
        workers := workers + [slot];
        i := i + 1;
      }
      SlotsAfter(old(n), k);
    }

    /** `stop_workers`: cancels the jobs of the requested slots in one batch and drops
        the slots from the registry, as `Stops` describes. */
    method StopWorkers(workers: seq<int>) returns (r: Outcome)
      requires Valid()
      modifies this, runner
      ensures Valid()
      ensures Stops(old(jobs), old(runner.log), workers, jobs, runner.log, r)
      ensures n == old(n) && scripts == old(scripts) && jobHeader == old(jobHeader) && adaptive == old(adaptive)
    {
      if workers == [] {
        return Pass;
      }
      var ids: seq<string> := [];
      var i := 0;
      while i < |workers|
        invariant 0 <= i <= |workers|
        invariant |ids| == i
        invariant forall j :: 0 <= j < i ==> workers[j] in jobs && ids[j] == jobs[workers[j]]
      {
        if workers[i] !in jobs {
          return Fail(UnknownSlot(workers[i]));
        }
        ids := ids + [jobs[workers[i]]];
        i := i + 1;
      }
      assert Lookup(jobs, workers).Ok?;
      assert Lookup(jobs, workers).value == ids;
      var out := runner.Call([cancelCommand] + ids);
      ghost var before := jobs;
      i := 0;
      while i < |workers|
        invariant 0 <= i <= |workers|
        invariant Valid()
        invariant runner.log == old(runner.log) + [[cancelCommand] + ids]
        invariant forall s :: s in jobs <==> s in before && s !in workers[..i]
        invariant forall s :: s in jobs ==> jobs[s] == before[s]
        invariant n == old(n) && scripts == old(scripts) && jobHeader == old(jobHeader) && adaptive == old(adaptive)
      {
        PrefixStep(workers, i);
        jobs := jobs - {workers[i]};
        i := i + 1;
      }
      assert workers[..|workers|] == workers;
      r := Pass;
    }

    /** `scale_up`: starts as many workers as the registry lacks to reach `target`;
        nothing when it already holds that many. */
    method ScaleUp(target: int) returns (workers: seq<int>)
      requires Valid()
      modifies this, runner
      ensures Valid()
      ensures |jobs| == if target <= |old(jobs)| then |old(jobs)| else target
      ensures target <= |old(jobs)| ==>
                && workers == [] && jobs == old(jobs) && n == old(n)
                && runner.log == old(runner.log) && scripts == old(scripts)
      ensures target > |old(jobs)| ==>
                && |workers| == target - |old(jobs)|
                && runner.log == old(runner.log) + Submissions(old(n), |workers|)
                && forall i :: 0 <= i < |workers| ==>
                     workers[i] == old(n) + 1 + i && workers[i] in jobs && workers[i] !in old(jobs)
      ensures n == old(n) + |workers|
      ensures jobs == Recorded(old(jobs), old(runner.issued), old(n), |workers|)
      ensures scripts == old(scripts) + Rendered(jobHeader, old(n), |workers|)
      ensures forall s :: s in old(jobs) ==> s in jobs && jobs[s] == old(jobs)[s]
      ensures jobHeader == old(jobHeader) && adaptive == old(adaptive)
    {
      ghost var k := RangeLength(target - |jobs|);
      workers := StartWorkers(target - |jobs|);
      RecordedSlots(old(jobs), old(runner.issued), old(n), k);
      if target <= |old(jobs)| {
        assert runner.log == old(runner.log) + [];
        assert scripts == old(scripts) + [];
      }
    }

    /** `scale_down`: stops the slots named by the workers' names; a non-dict argument
        is ignored. The segments are passed on in set iteration order, returned as the
        ghost `order`. */
    method ScaleDown(arg: Workers) returns (r: Outcome, ghost order: seq<string>)
      requires Valid()
      modifies this, runner
      ensures Valid()
      ensures n == old(n) && scripts == old(scripts) && jobHeader == old(jobHeader) && adaptive == old(adaptive)
      ensures arg.NotADict? ==> r == Pass && jobs == old(jobs) && runner.log == old(runner.log)
      ensures arg.Dict? && Requests(arg.entries).Err? ==>
                r == Fail(Requests(arg.entries).error) && jobs == old(jobs) && runner.log == old(runner.log)
      ensures arg.Dict? && Requests(arg.entries).Ok? ==>
                && |order| == |Requests(arg.entries).value|
                && (forall seg :: seg in order <==> seg in Requests(arg.entries).value)
                && (ParseSlots(order).Err? ==>
                      r == Fail(NotAnInteger) && jobs == old(jobs) && runner.log == old(runner.log))
                && (ParseSlots(order).Ok? ==>
                      Stops(old(jobs), old(runner.log), ParseSlots(order).value, jobs, runner.log, r))
    {
      order := [];
      if arg.NotADict? {
        return Pass, order;
      }
      var segs := Requests(arg.entries);
      if segs.Err? {
        return Fail(segs.error), order;
      }
      var listed := Enumerate(segs.value);
      order := listed;
      var slots := ParseSlots(listed);
      if slots.Err? {
        return Fail(slots.error), order;
      }
      r := StopWorkers(slots.value);
    }

    /** `__exit__`: stops every tracked slot, in registry order, leaving the registry empty. */
    method Exit()
      requires Valid()
      modifies this, runner
      ensures Valid()
      ensures jobs == map[]
      ensures Stops(old(jobs), old(runner.log), KeysUpTo(old(jobs), old(n)), jobs, runner.log, Pass)
      ensures n == old(n) && scripts == old(scripts) && jobHeader == old(jobHeader) && adaptive == old(adaptive)
    {
      var keys := KeysUpTo(jobs, n);
      assert Lookup(jobs, keys).Ok?;
      var r := StopWorkers(keys);
      assert forall s :: s !in jobs;
      assert jobs.Keys == {};
    }

    /** `adapt`: binds the adaptive controller unless one is already bound. */
    method Adapt()
      requires Valid()
      modifies this
      ensures Valid()
      ensures adaptive == Bind(old(adaptive))
      ensures old(adaptive).None? ==> adaptive == Some(AdaptiveController)
      ensures jobs == old(jobs) && n == old(n) && scripts == old(scripts) && jobHeader == old(jobHeader)
    {
      if adaptive.Some? {
        return;
      }
      adaptive := Some(AdaptiveController);
    }
  }
}
