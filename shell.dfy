/** The command runner behind `_calls` / `_call`. Process execution is not modelled:
    the environment's answers are a fixed function `respond` from the position of a
    command among all commands issued so far, and the command itself, to its standard
    output. Every command issued is recorded, in order, in the ghost `log`. */
module Shell {

  class Runner {
    /** The standard output the k-th command issued produces. */
    const respond: (nat, seq<string>) -> string
    /** How many commands have been issued. */
    var issued: nat
    /** Every argument vector issued, in order. */
    ghost var log: seq<seq<string>>

    ghost predicate Valid()
      reads this
    {
      |log| == issued
    }

    constructor (respond: (nat, seq<string>) -> string)
      ensures Valid()
      ensures this.respond == respond && log == []
    {
      this.respond := respond;
      issued := 0;
      log := [];
    }

    /** Runs a batch of commands: one output per command, in the order of the commands. */
    method Calls(cmds: seq<seq<string>>) returns (outs: seq<string>)
      requires Valid()
      modifies this
      ensures Valid()
      ensures log == old(log) + cmds
      ensures |outs| == |cmds|
      ensures forall i :: 0 <= i < |cmds| ==> outs[i] == respond(old(issued) + i, cmds[i])
    {
      outs := [];
      var i := 0;
      while i < |cmds|
        invariant 0 <= i <= |cmds|
        invariant Valid()
        invariant issued == old(issued) + i
        invariant log == old(log) + cmds[..i]
        invariant |outs| == i
        invariant forall j :: 0 <= j < i ==> outs[j] == respond(old(issued) + j, cmds[j])
      {
        outs := outs + [respond(issued, cmds[i])];
        log := log + [cmds[i]];
        issued := issued + 1;
        i := i + 1;
        assert cmds[..i] == cmds[..i - 1] + [cmds[i - 1]];
      }
      assert cmds[..|cmds|] == cmds;
    }

    /** Runs one command and returns its output. */
    method Call(cmd: seq<string>) returns (out: string)
      requires Valid()
      modifies this
      ensures Valid()
      ensures log == old(log) + [cmd]
      ensures out == respond(old(issued), cmd)
    {
      var outs := Calls([cmd]);
      out := outs[0];
    }
  }
}
