/** The job script builder: the worker command template baked at construction, its
    per-slot substitution, and the fixed script layout around it. */
module Script {
  import opened Errors
  import opened Strings

  /** A command template is fixed text with `%(n)d` placeholders for the slot number. */
  datatype Piece = Lit(text: string) | SlotNumber

  type Template = seq<Piece>

  /** `template % {'n': n}`: every placeholder replaced by the decimal slot number. */
  function Fill(t: Template, n: nat): string
    decreases |t|
  {
    if t == [] then ""
    else (match t[0] case Lit(s) => s case SlotNumber => NatToString(n)) + Fill(t[1..], n)
  }

  function Holes(t: Template): nat
    decreases |t|
  {
    if t == [] then 0 else (if t[0] == SlotNumber then 1 else 0) + Holes(t[1..])
  }

  /** The fixed text of a template, placeholders dropped. */
  function Literal(t: Template): string
    decreases |t|
  {
    if t == [] then "" else (match t[0] case Lit(s) => s case SlotNumber => "") + Literal(t[1..])
  }

  /** The fixed text ahead of the first placeholder. */
  function Before(t: Template): string
    decreases |t|
  {
    if t == [] then ""
    else match t[0]
      case Lit(s) => s + Before(t[1..])
      case SlotNumber => ""
  }

  /** The fixed text behind the first placeholder. */
  function After(t: Template): string
    decreases |t|
  {
    if t == [] then ""
    else match t[0]
      case Lit(_) => After(t[1..])
      case SlotNumber => Literal(t[1..])
  }

  /** A template without placeholders renders to its fixed text for every slot. */
  lemma {:induction false} FillNoHole(t: Template, n: nat)
    requires Holes(t) == 0
    ensures Fill(t, n) == Literal(t)
    decreases |t|
  {
    if t != [] {
      FillNoHole(t[1..], n);
    }
  }

  /** A template with one placeholder renders to the fixed text around exactly one
      occurrence of the slot number. */
  lemma {:induction false} FillOneHole(t: Template, n: nat)
    requires Holes(t) == 1
    ensures Fill(t, n) == Before(t) + NatToString(n) + After(t)
    decreases |t|
  {
    if t[0] == SlotNumber {
      FillNoHole(t[1..], n);
    } else {
      FillOneHole(t[1..], n);
      ConcatRegroup(t[0].text, Before(t[1..]), NatToString(n), After(t[1..]));
    }
  }

  lemma ConcatRegroup(a: string, b: string, c: string, d: string)
    ensures a + (b + c + d) == (a + b) + c + d
  {
  }

  lemma {:induction false} HolesAppend(a: Template, b: Template)
    ensures Holes(a + b) == Holes(a) + Holes(b)
    decreases |a|
  {
    if a != [] {
      assert (a + b)[1..] == a[1..] + b;
      HolesAppend(a[1..], b);
    } else {
      assert a + b == b;
    }
  }

  lemma {:induction false} LiteralsHaveNoHoles(t: Template)
    requires forall i :: 0 <= i < |t| ==> t[i].Lit?
    ensures Holes(t) == 0
    decreases |t|
  {
    if t != [] {
      assert forall i :: 0 <= i < |t[1..]| ==> t[1..][i] == t[i + 1];
      LiteralsHaveNoHoles(t[1..]);
    }
  }

  lemma {:induction false} BeforeAppend(a: Template, b: Template)
    requires Holes(a) == 0
    ensures Before(a + b) == Literal(a) + Before(b)
    decreases |a|
  {
    if a != [] {
      assert (a + b)[1..] == a[1..] + b;
      BeforeAppend(a[1..], b);
    } else {
      assert a + b == b;
    }
  }

  // ---------------------------------------------------------------------------
  // The script layout
  // ---------------------------------------------------------------------------

  /** `'%s' % job_header`: an unset header renders as the text "None". */
  function HeaderText(header: Option<string>): string
  {
    match header
    case None => "None"
    case Some(h) => h
  }

  /** The script template `#!/bin/bash`, blank line, header, blank line, the worker
      command, final newline, filled for slot n. */
  function RenderScript(header: Option<string>, t: Template, n: nat): string
  {
    "#!/bin/bash\n\n" + HeaderText(header) + "\n\n" + Fill(t, n) + "\n"
  }

  /** A script carries its slot number exactly at the command's placeholder, framed by
      the fixed boilerplate, the header and the fixed text of the command. */
  lemma ScriptCarriesSlot(header: Option<string>, t: Template, n: nat)
    requires Holes(t) == 1
    ensures RenderScript(header, t, n)
         == "#!/bin/bash\n\n" + HeaderText(header) + "\n\n" + Before(t) + NatToString(n) + After(t) + "\n"
  {
    FillOneHole(t, n);
  }

  /** The slot number can be read back from a script: scripts rendered for two slots
      are equal only when the slots are. */
  lemma ScriptDeterminesSlot(header: Option<string>, t: Template, n1: nat, n2: nat)
    requires Holes(t) == 1
    requires RenderScript(header, t, n1) == RenderScript(header, t, n2)
    ensures n1 == n2
  {
    var p := "#!/bin/bash\n\n" + HeaderText(header) + "\n\n" + Before(t);
    var q := After(t) + "\n";
    var a, b := NatToString(n1), NatToString(n2);
    ScriptCarriesSlot(header, t, n1);
    ScriptCarriesSlot(header, t, n2);
    var x := p + a + q;
    assert x == RenderScript(header, t, n1);
    assert x == p + b + q;
    assert |a| == |b|;
    assert a == x[|p|..|p| + |a|];
    assert b == x[|p|..|p| + |b|];
    ParseNatToString(n1);
    ParseNatToString(n2);
  }

  // ---------------------------------------------------------------------------
  // The worker command template
  // ---------------------------------------------------------------------------

  /** The worker options fixed at construction; None is Python's None. Values the
      source formats with `%s` arrive as their text. */
  datatype Options = Options(
    name: Option<string>,
    threads: Option<int>,
    processes: Option<int>,
    memory: Option<string>,
    interface: Option<string>,
    deathTimeout: Option<string>,
    localDirectory: Option<string>,
    extra: Option<string>)

  /** The constructor's default arguments. */
  const Defaults := Options(Some("dask-worker"), Some(4), Some(6), Some("16GB"), None, Some("60"), None, Some(""))

  /** Python's truth value of an optional string: set and not empty. */
  predicate Truthy(s: Option<string>)
  {
    s.Some? && s.value != ""
  }

  /** `extra += ' --interface  %s ' % interface` when an interface is given; Python
      raises TypeError when extra is None at that point. */
  function ExtraWithInterface(o: Options): (r: Result<Option<string>>)
    ensures r.Err? <==> Truthy(o.interface) && o.extra.None?
    ensures r.Ok? && Truthy(o.interface) ==>
              && o.extra.Some? && r.value.Some?
              && |r.value.value| == |o.extra.value| + |" --interface  " + o.interface.value + " "|
              && r.value.value[..|o.extra.value|] == o.extra.value
              && EndsWith(r.value.value, " --interface  " + o.interface.value + " ")
    ensures !Truthy(o.interface) ==> r == Ok(o.extra)
  {
    if Truthy(o.interface) then
      match o.extra
      case None => Err(NoneConcatenation)
      case Some(e) => Ok(Some(e + " --interface  " + o.interface.value + " "))
    else Ok(o.extra)
  }

  predicate EndsWith(s: string, suffix: string)
  {
    |suffix| <= |s| && s[|s| - |suffix|..] == suffix
  }

  /** `os.path.join(dir, rest)` for a relative `rest`. */
  function JoinPath(dir: string, rest: string): string
  {
    if dir == [] then rest
    else if dir[|dir| - 1] == '/' then dir + rest
    else dir + "/" + rest
  }

  /** A flag and its value, present only when the option is set. */
  function OptionFlag(flag: string, value: Option<string>): Template
  {
    match value
    case Some(v) => [Lit(flag + v)]
    case None => []
  }

  /** `'%d' % v` for an optional integer option. */
  function IntOption(value: Option<int>): Option<string>
  {
    match value
    case Some(v) => Some(IntToString(v))
    case None => None
  }

  /** The part of the command ahead of the worker name: the executable with the
      scheduler address, then threads, processes and memory limit. */
  function LeadingFlags(binDir: string, address: string, o: Options): Template
  {
    [Lit(JoinPath(binDir, "dask-worker " + address))]
    + OptionFlag(" --nthreads ", IntOption(o.threads))
    + OptionFlag(" --nprocs ", IntOption(o.processes))
    + OptionFlag(" --memory-limit ", o.memory)
  }

  /** The worker name flag, followed by `-` and the slot placeholder. */
  function NameFlag(name: Option<string>): Template
  {
    match name
    case Some(nm) => [Lit(" --name " + nm), Lit("-"), SlotNumber]
    case None => []
  }

  /** The part of the command behind the worker name: death timeout, local directory
      and the extra text appended as it is. */
  function TrailingFlags(o: Options, extra: Option<string>): Template
  {
    OptionFlag(" --death-timeout ", o.deathTimeout)
    + OptionFlag(" --local-directory ", o.localDirectory)
    + OptionFlag("", extra)
  }

  /** The worker command template, flags in the order the constructor appends them,
      each only when its option is set; `extra` is the value after the interface flag
      was added to it. */
  function CommandTemplate(binDir: string, address: string, o: Options, extra: Option<string>): Template
  {
    LeadingFlags(binDir, address, o) + NameFlag(o.name) + TrailingFlags(o, extra)
  }

  lemma LeadingFlagsFixed(binDir: string, address: string, o: Options)
    ensures Holes(LeadingFlags(binDir, address, o)) == 0
  {
    LiteralsHaveNoHoles(LeadingFlags(binDir, address, o));
  }

  lemma TrailingFlagsFixed(o: Options, extra: Option<string>)
    ensures Holes(TrailingFlags(o, extra)) == 0
  {
    LiteralsHaveNoHoles(TrailingFlags(o, extra));
  }

  /** The template has a slot placeholder exactly when a worker name is configured. */
  lemma CommandTemplateHoles(binDir: string, address: string, o: Options, extra: Option<string>)
    ensures Holes(CommandTemplate(binDir, address, o, extra)) == if o.name.Some? then 1 else 0
  {
    var lead, nm, trail := LeadingFlags(binDir, address, o), NameFlag(o.name), TrailingFlags(o, extra);
    HolesAppend(lead, nm);
    HolesAppend(lead + nm, trail);
    LeadingFlagsFixed(binDir, address, o);
    TrailingFlagsFixed(o, extra);
    if o.name.Some? {
      assert nm == [Lit(" --name " + o.name.value)] + ([Lit("-")] + [SlotNumber]);
      assert Holes([SlotNumber]) == 1;
      assert Holes([Lit("-")] + [SlotNumber]) == 1;
    }
  }

  lemma NameFlagBefore(nm: string, trail: Template)
    ensures Before(NameFlag(Some(nm)) + trail) == " --name " + nm + "-"
  {
    var rest := NameFlag(Some(nm)) + trail;
    assert rest[0] == Lit(" --name " + nm);
    assert rest[1..] == [Lit("-"), SlotNumber] + trail;
    assert rest[1..][1..] == [SlotNumber] + trail;
    assert Before(rest[1..][1..]) == "";
    assert Before(rest[1..]) == "-";
  }

  /** When a worker name is configured, the placeholder directly follows `--name <name>-`. */
  lemma CommandTemplateSlot(binDir: string, address: string, o: Options, extra: Option<string>)
    requires o.name.Some?
    ensures Holes(CommandTemplate(binDir, address, o, extra)) == 1
    ensures EndsWith(Before(CommandTemplate(binDir, address, o, extra)), " --name " + o.name.value + "-")
  {
    CommandTemplateHoles(binDir, address, o, extra);
    var lead, nm, trail := LeadingFlags(binDir, address, o), NameFlag(o.name), TrailingFlags(o, extra);
    LeadingFlagsFixed(binDir, address, o);
    assert lead + nm + trail == lead + (nm + trail);
    BeforeAppend(lead, nm + trail);
    NameFlagBefore(o.name.value, trail);
    var f := " --name " + o.name.value + "-";
    var b := Before(CommandTemplate(binDir, address, o, extra));
    assert b == Literal(lead) + f;
    assert b[|b| - |f|..] == f;
  }

  /** Filling a one-placeholder template whose fixed text before the placeholder ends
      with `flag` puts `flag` directly ahead of the slot number. */
  lemma FlagPrecedesSlot(t: Template, flag: string, n: nat)
    requires Holes(t) == 1
    requires EndsWith(Before(t), flag)
    ensures EndsWith(Before(t) + NatToString(n), flag + NatToString(n))
    ensures Fill(t, n) == Before(t) + NatToString(n) + After(t)
  {
    FillOneHole(t, n);
    var b, d := Before(t), NatToString(n);
    assert b == b[..|b| - |flag|] + flag;
    assert b + d == b[..|b| - |flag|] + (flag + d);
  }

  /** The command rendered for slot n carries ` --name <name>-<n>` with the slot number
      at the placeholder, followed by the text behind the placeholder. */
  lemma CommandNamesWorker(binDir: string, address: string, o: Options, extra: Option<string>, n: nat)
    requires o.name.Some?
    ensures EndsWith(
              Before(CommandTemplate(binDir, address, o, extra)) + NatToString(n),
              " --name " + o.name.value + "-" + NatToString(n))
    ensures Fill(CommandTemplate(binDir, address, o, extra), n)
         == Before(CommandTemplate(binDir, address, o, extra)) + NatToString(n)
            + After(CommandTemplate(binDir, address, o, extra))
  {
    CommandTemplateSlot(binDir, address, o, extra);
    FlagPrecedesSlot(CommandTemplate(binDir, address, o, extra), " --name " + o.name.value + "-", n);
  }

  /** With the constructor's defaults the interface step leaves extra as `''`, and
      the command has one slot placeholder, right after ` --name dask-worker-`. */
  lemma DefaultCommand(binDir: string, address: string)
    ensures ExtraWithInterface(Defaults) == Ok(Some(""))
    ensures Holes(CommandTemplate(binDir, address, Defaults, Some(""))) == 1
    ensures EndsWith(Before(CommandTemplate(binDir, address, Defaults, Some(""))), " --name dask-worker-")
  {
    CommandTemplateSlot(binDir, address, Defaults, Some(""));
    DefaultNameFlag();
  }

  /** The name flag that the default worker name gives. */
  lemma DefaultNameFlag()
    ensures " --name " + Defaults.name.value + "-" == " --name dask-worker-"
  {
  }
}
