/**
 The MemBlock record: one tensor-like memory allocation with its name, shape,
 dtype, origin label, content-derived id and the two dependency lists.

 Python object references become `Handle`s, indices into an arena (a
 `seq<Block>`) that holds every block ever constructed.  The sha1 digest
 behind the id is a foreign call, so it is a parameter `hash` of type `Hash`.
 */
module MemBlocks {
  import opened Results
  import opened Text

  /** Dimensions of a tensor, outermost first. */
  type Shape = seq<nat>

  /** A dtype string such as "float32" or "int8". */
  type DType = string

  /** Index of a block in the arena. */
  type Handle = nat

  /** Stands for `hashlib.sha1(text.encode()).hexdigest()`. */
  type Hash = string -> string

  /** Shape and dtype of a TIR Buffer or of a Relax TensorStructInfo. */
  datatype TensorInfo = TensorInfo(shape: Shape, dtype: DType)

  datatype Block = Block(
    name: string,
    shape: Shape,
    dtype: DType,
    origin: Option<string>,
    id: string,
    dependsOn: seq<Handle>,  // blocks this block reads while being computed
    linksTo: seq<Handle>)    // blocks that read this one

  /** The text whose digest is the id: name, `str(shape)` and dtype, concatenated. Origin is not part of it. */
  function IdText(name: string, shape: Shape, dtype: DType): (t: string)
    ensures |t| >= |name| + |dtype| + 2
    ensures name <= t && t[|name|] == '('
    ensures t[|t| - |dtype|..] == dtype && t[|t| - |dtype| - 1] == ')'
  {
    name + TupleText(shape) + dtype
  }

  /** `s[:8]` in Python: the first eight characters, or all of a shorter string. */
  function Prefix8(s: string): (p: string)
    ensures |p| == if |s| < 8 then |s| else 8
    ensures p <= s
  {
    if |s| <= 8 then s else s[..8]
  }

  /** `MemBlock.compute_id`: first eight hex digits of the digest of `IdText`. */
  function ComputeId(hash: Hash, name: string, shape: Shape, dtype: DType): (id: string)
    ensures |id| <= 8
    ensures id <= hash(IdText(name, shape, dtype))
  {
    Prefix8(hash(IdText(name, shape, dtype)))
  }

  /** `MemBlock(name, shape, dtype, origin)` with no dependency lists passed. */
  function NewBlock(hash: Hash, name: string, shape: Shape, dtype: DType, origin: Option<string>): (b: Block)
    ensures b.name == name && b.shape == shape && b.dtype == dtype && b.origin == origin
    ensures b.dependsOn == [] && b.linksTo == []
    ensures b.id == ComputeId(hash, name, shape, dtype)
  {
    Block(name, shape, dtype, origin, ComputeId(hash, name, shape, dtype), [], [])
  }

  /** `MemBlock.from_tir_buffer`: keeps the origin it is given. */
  function FromTirBuffer(hash: Hash, name: string, buffer: TensorInfo, origin: Option<string>): (b: Block)
    ensures b.name == name && b.shape == buffer.shape && b.dtype == buffer.dtype
    ensures b.origin == origin
    ensures b.dependsOn == [] && b.linksTo == []
  {
    NewBlock(hash, name, buffer.shape, buffer.dtype, origin)
  }

  /** `MemBlock.from_relax_output`: origin "relax.output". */
  function FromRelaxOutput(hash: Hash, v: string, sinfo: TensorInfo): (b: Block)
    ensures b.name == v && b.shape == sinfo.shape && b.dtype == sinfo.dtype
    ensures b.origin == Some("relax.output")
    ensures b.dependsOn == [] && b.linksTo == []
  {
    NewBlock(hash, v, sinfo.shape, sinfo.dtype, Some("relax.output"))
  }

  /** `MemBlock.from_relax_input`: origin "relax.input". */
  function FromRelaxInput(hash: Hash, v: string, sinfo: TensorInfo): (b: Block)
    ensures b.name == v && b.shape == sinfo.shape && b.dtype == sinfo.dtype
    ensures b.origin == Some("relax.input")
    ensures b.dependsOn == [] && b.linksTo == []
  {
    NewBlock(hash, v, sinfo.shape, sinfo.dtype, Some("relax.input"))
  }

  /** `MemBlock.compute_id_from_buffer`: the id `from_tir_buffer` would give, whatever the origin. */
  function ComputeIdFromBuffer(hash: Hash, name: string, buffer: TensorInfo, origin: Option<string>): (id: string)
    ensures forall o: Option<string> {:trigger FromTirBuffer(hash, name, buffer, o)} ::
      id == FromTirBuffer(hash, name, buffer, o).id
  {
    ComputeId(hash, name, buffer.shape, buffer.dtype)
  }

  /** `MemBlock.compute_id_from_relax_var_sinfo`: the id of both Relax constructors. */
  function ComputeIdFromRelaxVarSinfo(hash: Hash, v: string, sinfo: TensorInfo): (id: string)
    ensures id == FromRelaxInput(hash, v, sinfo).id
    ensures id == FromRelaxOutput(hash, v, sinfo).id
  {
    ComputeId(hash, v, sinfo.shape, sinfo.dtype)
  }

  /**
   The texts hashed for the ids the unit tests compare differ, so the ids
   differ whenever the digest separates these particular texts.
   */
  lemma IdTextsOfTestCasesDiffer()
    ensures IdText("a", [1, 2], "float32") != IdText("b", [1, 2], "float32")
    ensures IdText("a", [1, 2], "float32") != IdText("a", [1, 6], "float32")
    ensures IdText("a", [1, 2], "float32") != IdText("a", [1, 2], "float64")
  {
    TupleTextExamples();
    var t := IdText("a", [1, 2], "float32");
    assert t == "a" + "(1, 2)" + "float32";
    assert t[0] == 'a' && t[5] == '2' && t[|t| - 1] == '2';
    var u := IdText("a", [1, 6], "float32");
    assert u == "a" + "(1, 6)" + "float32";
    assert u[5] == '6';
    var w := IdText("a", [1, 2], "float64");
    assert w == "a" + "(1, 2)" + "float64";
    assert |w| == |t| && w[|w| - 1] == '4';
    assert IdText("b", [1, 2], "float32")[0] == 'b';
  }

  /** `np.dtype(dtype).itemsize` for the dtypes numpy knows by these names. */
  function ItemSize(dtype: DType): (w: Option<nat>)
    ensures w.Some? ==> w.value in {1, 2, 4, 8}
  {
    match dtype
    case "bool" => Some(1)
    case "int8" => Some(1)
    case "uint8" => Some(1)
    case "int16" => Some(2)
    case "uint16" => Some(2)
    case "float16" => Some(2)
    case "int32" => Some(4)
    case "uint32" => Some(4)
    case "float32" => Some(4)
    case "int64" => Some(8)
    case "uint64" => Some(8)
    case "float64" => Some(8)
    case _ => None
  }

  /** `np.prod(shape)`; the product of no dimensions is 1. */
  function Product(shape: Shape): (p: nat)
    ensures p == 0 <==> 0 in shape
  {
    if |shape| == 0 then 1
    else
      assert 0 in shape <==> shape[0] == 0 || 0 in shape[1..];
      shape[0] * Product(shape[1..])
  }

  /** `MemBlock.size_bytes`: element count times element width. */
  function SizeBytes(b: Block): (r: Result<nat>)
    ensures r.Failure? <==> ItemSize(b.dtype).None?
    ensures r.Failure? ==> r.error == UnknownDType
    ensures r.Success? ==> r.value == Product(b.shape) * ItemSize(b.dtype).value
  {
    match ItemSize(b.dtype)
    case None => Failure(UnknownDType)
    case Some(w) => Success(Product(b.shape) * w)
  }

  /** Multiplying one dimension by `c` multiplies the element count by `c`. */
  lemma {:induction false} ProductScales(shape: Shape, k: nat, c: nat)
    requires k < |shape|
    ensures Product(shape[k := shape[k] * c]) == Product(shape) * c
    decreases |shape|
  {
    var s' := shape[k := shape[k] * c];
    if k == 0 {
      assert s'[1..] == shape[1..];
      calc {
        Product(s');
        (shape[0] * c) * Product(shape[1..]);
        { assert (shape[0] * c) * Product(shape[1..]) == (shape[0] * Product(shape[1..])) * c; }
        Product(shape) * c;
      }
    } else {
      assert s'[1..] == shape[1..][k - 1 := shape[k] * c];
      ProductScales(shape[1..], k - 1, c);
      calc {
        Product(s');
        shape[0] * Product(shape[1..][k - 1 := shape[k] * c]);
        shape[0] * (Product(shape[1..]) * c);
        { assert shape[0] * (Product(shape[1..]) * c) == (shape[0] * Product(shape[1..])) * c; }
        Product(shape) * c;
      }
    }
  }

  /** Scaling one dimension by `c`, dtype fixed, scales `size_bytes` by `c`. */
  lemma SizeBytesScales(b: Block, k: nat, c: nat)
    requires k < |b.shape|
    requires ItemSize(b.dtype).Some?
    ensures SizeBytes(b.(shape := b.shape[k := b.shape[k] * c])).value == SizeBytes(b).value * c
  {
    var b' := b.(shape := b.shape[k := b.shape[k] * c]);
    ProductScales(b.shape, k, c);
    var w := ItemSize(b.dtype).value;
    var p := Product(b.shape);
    assert SizeBytes(b').value == (p * c) * w;
    assert SizeBytes(b).value == p * w;
    MulRotate(p, c, w);
  }

  lemma MulRotate(p: nat, c: nat, w: nat)
    ensures (p * c) * w == (p * w) * c
  {
  }

  lemma SizeBytesExamples(hash: Hash)
    ensures SizeBytes(NewBlock(hash, "x", [1, 3, 128, 128], "float32", None)) == Success(196608)
    ensures SizeBytes(NewBlock(hash, "y", [4, 4], "int8", None)) == Success(16)
  {
    assert ItemSize("float32") == Some(4);
    assert ItemSize("int8") == Some(1);
    var s: Shape := [1, 3, 128, 128];
    assert s[1..][1..][1..][1..] == [];
    assert Product(s[1..][1..][1..]) == 128;
    assert Product(s[1..][1..]) == 16384;
    assert Product(s[1..]) == 49152;
    assert Product(s) == 49152;
    var t: Shape := [4, 4];
    assert t[1..][1..] == [];
    assert Product(t[1..]) == 4;
    assert Product(t) == 16;
  }

  // ----- the arena -----------------------------------------------------------

  /** Every handle stored in a block's lists refers to a block of the arena. */
  ghost predicate HandlesValid(arena: seq<Block>) {
    forall a, k :: 0 <= a < |arena| && 0 <= k < |arena[a].dependsOn| ==> arena[a].dependsOn[k] < |arena|
  }

  ghost predicate LinksValid(arena: seq<Block>) {
    forall a, k :: 0 <= a < |arena| && 0 <= k < |arena[a].linksTo| ==> arena[a].linksTo[k] < |arena|
  }

  /** How often `b` occurs in `a.depends_on` equals how often `a` occurs in `b.links_to`. */
  ghost predicate Mirrored(arena: seq<Block>) {
    forall a, b :: 0 <= a < |arena| && 0 <= b < |arena| ==>
      multiset(arena[a].dependsOn)[b] == multiset(arena[b].linksTo)[a]
  }

  /** No block depends on a block carrying its own id. */
  ghost predicate NoSelfDependency(arena: seq<Block>) {
    forall a, k :: 0 <= a < |arena| && 0 <= k < |arena[a].dependsOn| && arena[a].dependsOn[k] < |arena| ==>
      arena[arena[a].dependsOn[k]].id != arena[a].id
  }

  /** Two versions of a block that differ at most in their dependency lists. */
  predicate SameContent(b: Block, c: Block) {
    b.name == c.name && b.shape == c.shape && b.dtype == c.dtype && b.origin == c.origin && b.id == c.id
  }

  /** `consumer.depends_on.append(producer); producer.links_to.append(consumer)`. */
  function AddEdge(arena: seq<Block>, consumer: Handle, producer: Handle): (r: seq<Block>)
    requires consumer < |arena| && producer < |arena|
    ensures |r| == |arena|
    ensures forall x :: 0 <= x < |arena| ==> SameContent(r[x], arena[x])
    ensures forall x :: 0 <= x < |arena| && x != consumer ==> r[x].dependsOn == arena[x].dependsOn
    ensures r[consumer].dependsOn == arena[consumer].dependsOn + [producer]
    ensures forall x :: 0 <= x < |arena| && x != producer ==> r[x].linksTo == arena[x].linksTo
    ensures r[producer].linksTo == arena[producer].linksTo + [consumer]
  {
    var c := arena[consumer];
    var a1 := arena[consumer := c.(dependsOn := c.dependsOn + [producer])];
    var p := a1[producer];
    a1[producer := p.(linksTo := p.linksTo + [consumer])]
  }

  /** Counted per pair of blocks, an edge addition adds exactly one entry on each side. */
  lemma AddEdgeCounts(arena: seq<Block>, consumer: Handle, producer: Handle)
    requires consumer < |arena| && producer < |arena|
    ensures var r := AddEdge(arena, consumer, producer);
      forall x, y :: 0 <= x < |arena| ==>
        multiset(r[x].dependsOn)[y] == multiset(arena[x].dependsOn)[y] + (if x == consumer && y == producer then 1 else 0)
    ensures var r := AddEdge(arena, consumer, producer);
      forall x, y :: 0 <= x < |arena| ==>
        multiset(r[x].linksTo)[y] == multiset(arena[x].linksTo)[y] + (if x == producer && y == consumer then 1 else 0)
  {
    var r := AddEdge(arena, consumer, producer);
    assert multiset(r[consumer].dependsOn) == multiset(arena[consumer].dependsOn) + multiset{producer};
    assert multiset(r[producer].linksTo) == multiset(arena[producer].linksTo) + multiset{consumer};
  }

  /** Adding an edge keeps every stored handle valid. */
  lemma AddEdgeKeepsHandlesValid(arena: seq<Block>, consumer: Handle, producer: Handle)
    requires consumer < |arena| && producer < |arena|
    requires HandlesValid(arena) && LinksValid(arena)
    ensures var r := AddEdge(arena, consumer, producer);
      HandlesValid(r) && LinksValid(r)
  {
    var r := AddEdge(arena, consumer, producer);
    AddEdgeCounts(arena, consumer, producer);
    forall a, k | 0 <= a < |r| && 0 <= k < |r[a].dependsOn|
      ensures r[a].dependsOn[k] < |r|
    {
      var y := r[a].dependsOn[k];
      assert y in multiset(r[a].dependsOn);
      if !(a == consumer && y == producer) {
        assert y in multiset(arena[a].dependsOn);
        assert y in arena[a].dependsOn;
      }
    }
    forall a, k | 0 <= a < |r| && 0 <= k < |r[a].linksTo|
      ensures r[a].linksTo[k] < |r|
    {
      var y := r[a].linksTo[k];
      assert y in multiset(r[a].linksTo);
      if !(a == producer && y == consumer) {
        assert y in multiset(arena[a].linksTo);
        assert y in arena[a].linksTo;
      }
    }
  }

  /** Each edge addition appends to both sides, so the two lists stay mirrored. */
  lemma AddEdgeKeepsMirror(arena: seq<Block>, consumer: Handle, producer: Handle)
    requires consumer < |arena| && producer < |arena|
    requires Mirrored(arena)
    ensures Mirrored(AddEdge(arena, consumer, producer))
  {
    AddEdgeCounts(arena, consumer, producer);
  }

  /** An edge between blocks of different ids keeps the arena free of self-dependencies. */
  lemma AddEdgeKeepsNoSelfDependency(arena: seq<Block>, consumer: Handle, producer: Handle)
    requires consumer < |arena| && producer < |arena|
    requires arena[consumer].id != arena[producer].id
    requires NoSelfDependency(arena)
    ensures NoSelfDependency(AddEdge(arena, consumer, producer))
  {
    var r := AddEdge(arena, consumer, producer);
    forall a, k | 0 <= a < |r| && 0 <= k < |r[a].dependsOn| && r[a].dependsOn[k] < |r|
      ensures r[r[a].dependsOn[k]].id != r[a].id
    {
      if a == consumer && k == |arena[a].dependsOn| {
        assert r[a].dependsOn[k] == producer;
      } else {
        assert r[a].dependsOn[k] == arena[a].dependsOn[k];
      }
    }
  }

  /** Appending a freshly constructed block (empty lists) keeps every stored handle valid. */
  lemma AppendKeepsHandlesValid(arena: seq<Block>, b: Block)
    requires b.dependsOn == [] && b.linksTo == []
    requires HandlesValid(arena) && LinksValid(arena)
    ensures HandlesValid(arena + [b]) && LinksValid(arena + [b])
  {
    var r := arena + [b];
    assert forall a :: 0 <= a < |arena| ==> r[a] == arena[a];
  }

  /** Appending a freshly constructed block keeps the lists mirrored and free of self-dependencies. */
  lemma AppendKeepsMirror(arena: seq<Block>, b: Block)
    requires b.dependsOn == [] && b.linksTo == []
    requires Mirrored(arena) && HandlesValid(arena) && LinksValid(arena) && NoSelfDependency(arena)
    ensures Mirrored(arena + [b]) && NoSelfDependency(arena + [b])
  {
    var r := arena + [b];
    var n := |arena|;
    forall a, c | 0 <= a < |r| && 0 <= c < |r|
      ensures multiset(r[a].dependsOn)[c] == multiset(r[c].linksTo)[a]
    {
      if a < n && c < n {
      } else if a == n && c == n {
      } else if a == n {
        assert a !in arena[c].linksTo;
      } else {
        assert c !in arena[a].dependsOn;
      }
    }
  }
}
