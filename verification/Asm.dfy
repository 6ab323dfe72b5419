/** Assembly as the census tools see it: each line already classified by their regexes. */
module Asm {

  datatype Option<+T> = None | Some(value: T)

  /** `ENTRY` names the first region; every other label is `.LBB<fn>_<num>`. */
  datatype Label = Entry | Lbb(fn: nat, num: nat)

  /** `Branch`: the `JCC` pattern, a direct jump to a label, conditional unless `always`.
      `Indirect`: `jmp *...`. `TailJump`: any other `jmp`. */
  datatype Kind = Plain | Branch(target: Label, always: bool) | Indirect | TailJump | Ret | Ud2

  /** The seven `FEAT` patterns of verdict3.py, bits 0 to 6. */
  datatype Feature = CallIndirect | Xor | TagTest | Shift | FusedShort | PreEq | CallDirect

  /** `table`: the jump table the line mentions; `stackReads`: its stack-slot operands. */
  datatype Instr = Instr(kind: Kind, table: Option<nat>, feats: set<Feature>, call: bool, stackReads: nat, store: bool)

  datatype Line = LabelLine(name: Label) | Code(instr: Instr)

  /** A label-delimited region. It may hold several jumps. */
  datatype Block = Block(name: Label, code: seq<Instr>)

  predicate Targets(i: Instr, l: Label) {
    i.kind.Branch? && i.kind.target == l
  }

  predicate Ends(i: Instr) {
    match i.kind
    case Branch(_, always) => always
    case Plain => false
    case _ => true
  }

  /** Control can run off the end of the region. */
  predicate Falls(b: seq<Instr>) {
    b == [] || !Ends(b[|b| - 1])
  }

  lemma ConcatAssoc<T>(a: seq<T>, b: seq<T>, c: seq<T>)
    ensures a + (b + c) == (a + b) + c
  {}
}
