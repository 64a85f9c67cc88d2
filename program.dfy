/** `Program`: a shader program handle and its named uniform arguments (src/program.rs). */
module Programs {
  import opened Colors

  type U32 = x: int | 0 <= x < 0x1_0000_0000

  datatype ProgramArg = FloatArg(f: real) | ColorArg(c: Color)

  /** The argument map after `name` is bound to `arg` (`HashMap::insert`). */
  function WithArg(args: map<string, ProgramArg>, name: string, arg: ProgramArg): (m: map<string, ProgramArg>)
    ensures name in m && m[name] == arg
    ensures m.Keys == args.Keys + {name}
    ensures forall k :: k in args && k != name ==> m[k] == args[k]
  {
    args[name := arg]
  }

  /** Binding the same name twice keeps only the second value. */
  lemma WithArgLastWins(args: map<string, ProgramArg>, name: string, a0: ProgramArg, a1: ProgramArg)
    ensures WithArg(WithArg(args, name, a0), name, a1) == WithArg(args, name, a1)
  {
  }

  /** Bindings of different names do not interfere, whatever their order. */
  lemma WithArgCommutes(args: map<string, ProgramArg>, n0: string, a0: ProgramArg, n1: string, a1: ProgramArg)
    requires n0 != n1
    ensures WithArg(WithArg(args, n0, a0), n1, a1) == WithArg(WithArg(args, n1, a1), n0, a0)
  {
  }

  class Program {
    var idx: U32
    var args: map<string, ProgramArg>

    /** `Program::new`: the handle and no arguments yet. */
    constructor (idx: U32)
      ensures this.idx == idx && args == map[]
    {
      this.idx := idx;
      args := map[];
    }

    /** `set_arg`: binds `name`, overwriting any earlier value; the handle is untouched. */
    method SetArg(name: string, arg: ProgramArg)
      modifies this`args
      ensures args == WithArg(old(args), name, arg)
      ensures idx == old(idx)
    {
      args := args[name := arg];
    }
  }
}
