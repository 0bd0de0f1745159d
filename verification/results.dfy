/**
 Failure-carrying datatypes shared by every part of the model.

 The Python code signals failure by raising exceptions; each exception the
 modelled code can raise becomes one constructor of `Error`, and every
 operation that can raise returns a `Result`.
 */
module Results {

  /** An optional value; `:-` on it stops at the first `None`. */
  datatype Option<+T> = None | Some(value: T) {
    predicate IsFailure() {
      None?
    }

    function PropagateFailure<U>(): Option<U>
      requires None?
    {
      None
    }

    function Extract(): T
      requires Some?
    {
      value
    }
  }

  /** One constructor per exception the modelled code raises. */
  datatype Error =
    | DuplicateNotAdjacent   // RuntimeError in add_memblock
    | AllocateUnsupported    // NotImplementedError for tir.Allocate / tir.AllocateConst
    | NoBindingBlock         // IndexError on func.body.blocks[0]
    | UnknownKey             // KeyError on a lookup in mb_index
    | LogOfZero              // OverflowError from int(np.log2(0)) == int(-inf)
    | UnknownDType           // TypeError from np.dtype on an unknown dtype string
    | NotADag                // ValueError("Graph must be a DAG")
    | EmptyGraph             // ValueError from max() over an empty dict

  datatype Result<+T> = Success(value: T) | Failure(error: Error)
}
