/**
 The parts of a TVM IRModule the allocation finder looks at, as plain data.

 A Relax function is its parameters and its binding blocks; a PrimFunc is its
 statements already listed in the post-order `post_order_visit` produces.
 Only the fields the finder reads are kept.
 */
module Ir {
  import opened MemBlocks

  /** A Relax Var with its TensorStructInfo, or a TIR Buffer: name, shape and dtype. */
  datatype Tensor = Tensor(name: string, info: TensorInfo)

  /** A Relax VarBinding; only `R.call_tir(callee, args, out_sinfo)` bindings matter. */
  datatype Binding =
    | CallTir(output: Tensor, callee: string, args: seq<Tensor>)
    | OtherBinding

  /** The TIR statement kinds the finder's visitor distinguishes. */
  datatype Stmt =
    | BufferStore(buffer: Tensor)
    | BlockStmt(readBuffers: seq<Tensor>, writeBuffers: seq<Tensor>)
    | Allocate
    | AllocateConst
    | OtherStmt

  datatype Function =
    | RelaxFunction(params: seq<Tensor>, blocks: seq<seq<Binding>>)
    | PrimFunc(body: seq<Stmt>)
    | OtherFunction

  /** One entry of `IRModule.functions`: global name hint and function. */
  datatype GlobalFunction = GlobalFunction(nameHint: string, func: Function)
}
