/**
 `generate_minizinc_model` as an abstract model record, and the meaning of
 the constraints it emits.

 The blocks of all functions are flattened and numbered 1..n by id; each
 block's memory height `sizeY` is the floor of log2 of its element count
 (at least 1), the memory is half the total height, every operation costs
 one time unit, and every dependency edge yields a lifetime constraint and a
 precedence constraint.  `Satisfies` states what a solution of the emitted
 program must meet.
 */
module MinizincModel {
  import opened Results
  import opened MemBlocks
  import opened AllocationFinder
  import opened FinderInvariants

  /** One line of the dependency section; `j` is the producer, `i` the consumer. */
  datatype Constraint =
    | Lifetime(j: nat, i: nat)   // posX[j] + sizeX[j] >= posX[i] + op_cost[i]
    | Precedes(j: nat, i: nat)   // posX[j] <= posX[i]

  /** The numbers and constraints the emitted program is made of. */
  datatype MznModel = MznModel(
    n: nat,
    memsize: nat,
    bound: nat,                  // upper bound of sizeX and posX
    sizeY: seq<nat>,
    opCost: seq<nat>,
    constraints: seq<Constraint>)

  predicate WellSized(m: MznModel) {
    |m.sizeY| == m.n && |m.opCost| == m.n
  }

  function Sum(xs: seq<nat>): nat {
    if |xs| == 0 then 0 else xs[0] + Sum(xs[1..])
  }

  // ---------------------------------------------------------------- flattening

  /** How many blocks the lists of the functions `fs` hold together. */
  function ListsLength(st: Finder, fs: seq<string>): nat {
    if |fs| == 0 then 0 else |ListOf(st, fs[0])| + ListsLength(st, fs[1..])
  }

  /** The lists of the functions `fs`, concatenated in order; `FlattenFromOrder` says where each block lands. */
  function FlattenFrom(st: Finder, fs: seq<string>): (hs: seq<Handle>)
    ensures forall h :: h in hs <==> exists k :: 0 <= k < |fs| && h in ListOf(st, fs[k])
    ensures |hs| == ListsLength(st, fs)
  {
    if |fs| == 0 then []
    else
      var rest := FlattenFrom(st, fs[1..]);
      FlattenFromStep(st, fs, rest);
      ListOf(st, fs[0]) + rest
  }

  /**
   Block `p` of function `fs[k]` sits right after the blocks of the
   functions before it; with the length above, every position of the
   flattened list is one block of one function, so nothing is repeated or
   reordered.
   */
  lemma {:induction false} FlattenFromOrder(st: Finder, fs: seq<string>, k: nat, p: nat)
    requires k < |fs| && p < |ListOf(st, fs[k])|
    ensures ListsLength(st, fs[..k]) + p < |FlattenFrom(st, fs)|
    ensures FlattenFrom(st, fs)[ListsLength(st, fs[..k]) + p] == ListOf(st, fs[k])[p]
    decreases k
  {
    var first := ListOf(st, fs[0]);
    var rest := FlattenFrom(st, fs[1..]);
    assert FlattenFrom(st, fs) == first + rest;
    if k == 0 {
      assert fs[..k] == [];
    } else {
      FlattenFromOrder(st, fs[1..], k - 1, p);
      assert fs[1..][k - 1] == fs[k];
      assert fs[..k][1..] == fs[1..][..k - 1];
      assert ListsLength(st, fs[..k]) == |first| + ListsLength(st, fs[1..][..k - 1]);
    }
  }

  lemma FlattenFromStep(st: Finder, fs: seq<string>, rest: seq<Handle>)
    requires |fs| > 0
    requires forall h :: h in rest <==> exists k :: 0 <= k < |fs[1..]| && h in ListOf(st, fs[1..][k])
    ensures forall h :: h in ListOf(st, fs[0]) + rest <==> exists k :: 0 <= k < |fs| && h in ListOf(st, fs[k])
  {
    forall h | h in ListOf(st, fs[0]) + rest
      ensures exists k :: 0 <= k < |fs| && h in ListOf(st, fs[k])
    {
      if h !in ListOf(st, fs[0]) {
        var k :| 0 <= k < |fs[1..]| && h in ListOf(st, fs[1..][k]);
        assert h in ListOf(st, fs[k + 1]);
      }
    }
    forall h, k | 0 <= k < |fs| && h in ListOf(st, fs[k])
      ensures h in ListOf(st, fs[0]) + rest
    {
      if k > 0 {
        assert fs[1..][k - 1] == fs[k];
      }
    }
  }

  /** `for blocks in memblocks.values(): memblocks.extend(blocks)`: function order, then list order. */
  function Flatten(st: Finder): (hs: seq<Handle>)
    requires Valid(st)
    ensures forall k :: 0 <= k < |hs| ==> hs[k] < |st.arena|
    ensures |hs| == ListsLength(st, st.funcs)
  {
    var hs := FlattenFrom(st, st.funcs);
    forall x | 0 <= x < |hs| ensures hs[x] < |st.arena| {
      assert hs[x] in hs;
      var k :| 0 <= k < |st.funcs| && hs[x] in ListOf(st, st.funcs[k]);
      var f := st.funcs[k];
      assert f in st.memblocks;
      var p :| 0 <= p < |st.memblocks[f]| && st.memblocks[f][p] == hs[x];
    }
    hs
  }

  /** In `Flatten`, block `p` of the `k`-th function (in dict order) comes after the blocks of the functions before it. */
  lemma FlattenOrder(st: Finder, k: nat, p: nat)
    requires Valid(st) && k < |st.funcs| && p < |ListOf(st, st.funcs[k])|
    ensures ListsLength(st, st.funcs[..k]) + p < |Flatten(st)|
    ensures Flatten(st)[ListsLength(st, st.funcs[..k]) + p] == ListOf(st, st.funcs[k])[p]
  {
    FlattenFromOrder(st, st.funcs, k, p);
  }

  /** The flattened blocks are exactly the blocks registered in some function's list. */
  lemma FlattenIsRegistered(st: Finder)
    requires Valid(st)
    ensures forall h :: h in Flatten(st) <==> Registered(st, h)
  {
    var hs := Flatten(st);
    forall h: Handle | h in hs ensures Registered(st, h) {
      var k :| 0 <= k < |st.funcs| && h in ListOf(st, st.funcs[k]);
      assert st.funcs[k] in st.memblocks;
    }
    forall h: Handle | Registered(st, h) ensures h in hs {
      var f :| f in st.memblocks && h in st.memblocks[f];
      var k :| 0 <= k < |st.funcs| && st.funcs[k] == f;
      assert h in ListOf(st, st.funcs[k]);
    }
  }

  /** `[mb._id for mb in memblocks]`. */
  function IdsOf(arena: seq<Block>, hs: seq<Handle>): (ids: seq<string>)
    requires forall k :: 0 <= k < |hs| ==> hs[k] < |arena|
    ensures |ids| == |hs| && forall k :: 0 <= k < |hs| ==> ids[k] == arena[hs[k]].id
  {
    seq(|hs|, k requires 0 <= k < |hs| => arena[hs[k]].id)
  }

  /**
   `{mb._id: i + 1 for i, mb in enumerate(memblocks)}`: each id maps to the
   1-based position of its LAST occurrence.
   */
  function IndexMap<T(==,!new)>(ids: seq<T>): (m: map<T, nat>)
    ensures forall k :: 0 <= k < |ids| ==> ids[k] in m
    ensures forall id :: id in m ==> 1 <= m[id] <= |ids| && ids[m[id] - 1] == id
  {
    if |ids| == 0 then map[]
    else
      var prev := ids[..|ids| - 1];
      var m := IndexMap(prev)[ids[|ids| - 1] := |ids|];
      IndexMapStep(ids, IndexMap(prev), m);
      m
  }

  lemma IndexMapStep<T(!new)>(ids: seq<T>, mp: map<T, nat>, m: map<T, nat>)
    requires |ids| > 0
    requires var prev := ids[..|ids| - 1];
      && (forall k :: 0 <= k < |prev| ==> prev[k] in mp)
      && (forall id :: id in mp ==> 1 <= mp[id] <= |prev| && prev[mp[id] - 1] == id)
    requires m == mp[ids[|ids| - 1] := |ids|]
    ensures forall k :: 0 <= k < |ids| ==> ids[k] in m
    ensures forall id :: id in m ==> 1 <= m[id] <= |ids| && ids[m[id] - 1] == id
  {
    var prev := ids[..|ids| - 1];
    var last := ids[|ids| - 1];
    forall k | 0 <= k < |ids| ensures ids[k] in m {
      if k < |ids| - 1 {
        assert prev[k] == ids[k];
      }
    }
    forall id | id in m ensures 1 <= m[id] <= |ids| && ids[m[id] - 1] == id {
      if id != last {
        assert ids[mp[id] - 1] == prev[mp[id] - 1];
      }
    }
  }

  /**
   A repeated id keeps the number of its last occurrence, as later dict
   entries overwrite earlier ones: no occurrence lies after the numbered one.
   */
  lemma {:induction false} IndexMapKeepsLast<T(!new)>(ids: seq<T>, k: nat)
    requires k < |ids|
    ensures ids[k] in IndexMap(ids) && k < IndexMap(ids)[ids[k]]
    decreases |ids|
  {
    var last := |ids| - 1;
    if ids[k] != ids[last] {
      var prev := ids[..last];
      assert prev[k] == ids[k];
      IndexMapKeepsLast(prev, k);
      assert IndexMap(ids) == IndexMap(prev)[ids[last] := |ids|];
    }
  }

  predicate Distinct<T(==,!new)>(ids: seq<T>) {
    forall a, b :: 0 <= a < b < |ids| ==> ids[a] != ids[b]
  }

  /** With pairwise distinct ids every id is numbered by its own position. */
  lemma IndexBijection<T(!new)>(ids: seq<T>)
    requires Distinct(ids)
    ensures forall k :: 0 <= k < |ids| ==> IndexMap(ids)[ids[k]] == k + 1
  {
    forall k | 0 <= k < |ids| ensures IndexMap(ids)[ids[k]] == k + 1 {
      NumberOfDistinct(ids, k);
    }
  }

  lemma NumberOfDistinct<T(!new)>(ids: seq<T>, k: nat)
    requires Distinct(ids) && k < |ids|
    ensures ids[k] in IndexMap(ids) && IndexMap(ids)[ids[k]] == k + 1
  {
    var m := IndexMap(ids);
    var p := m[ids[k]] - 1;
    assert ids[p] == ids[k];
  }

  /** With pairwise distinct ids the numbers used are exactly 1..n. */
  lemma IndexValues<T(!new)>(ids: seq<T>)
    requires Distinct(ids)
    ensures forall v :: v in IndexMap(ids).Values <==> 1 <= v <= |ids|
  {
    var m := IndexMap(ids);
    IndexBijection(ids);
    forall v | 1 <= v <= |ids| ensures v in m.Values {
      assert m[ids[v - 1]] == v;
    }
  }

  // ---------------------------------------------------------------- heights

  function Pow2(e: nat): (p: nat)
    ensures p >= 1
  {
    if e == 0 then 1 else 2 * Pow2(e - 1)
  }

  /** `int(np.log2(p))` for a positive integer: the exponent of the highest power of two not above `p`. */
  function FloorLog2(p: nat): (e: nat)
    requires p >= 1
    ensures Pow2(e) <= p < 2 * Pow2(e)
  {
    if p == 1 then 0 else 1 + FloorLog2(p / 2)
  }

  /** `max(1, int(np.log2(p)))`. */
  function SizeY(p: nat): (y: nat)
    requires p >= 1
    ensures y >= 1
    ensures p >= 2 ==> Pow2(y) <= p < 2 * Pow2(y)
    ensures p < 4 ==> y == 1
  {
    var e := FloorLog2(p);
    if e < 1 then 1 else e
  }

  /** Some flattened block has a zero dimension, so `np.log2` of its element count is `-inf`. */
  predicate HasEmptyBlock(arena: seq<Block>, hs: seq<Handle>)
    requires forall k :: 0 <= k < |hs| ==> hs[k] < |arena|
  {
    exists k :: 0 <= k < |hs| && Product(arena[hs[k]].shape) == 0
  }

  function Heights(arena: seq<Block>, hs: seq<Handle>): (ys: seq<nat>)
    requires forall k :: 0 <= k < |hs| ==> hs[k] < |arena| && Product(arena[hs[k]].shape) >= 1
    ensures |ys| == |hs|
    ensures forall k :: 0 <= k < |hs| ==> ys[k] == SizeY(Product(arena[hs[k]].shape))
  {
    seq(|hs|, k requires 0 <= k < |hs| => SizeY(Product(arena[hs[k]].shape)))
  }

  // ---------------------------------------------------------------- constraints

  /** The two constraints of one dependency `d` of the block numbered `i`. */
  ghost predicate PairAt(cs: seq<Constraint>, p: int, j: nat, i: nat) {
    0 <= p && p + 1 < |cs| && cs[p] == Lifetime(j, i) && cs[p + 1] == Precedes(j, i)
  }

  /** The constraints for the `depends_on` list `deps` of the block numbered `i`. */
  function DepConstraints(arena: seq<Block>, index: map<string, nat>, i: nat, deps: seq<Handle>): (r: Result<seq<Constraint>>)
    requires forall k :: 0 <= k < |deps| ==> deps[k] < |arena|
    ensures r.Failure? <==> exists k :: 0 <= k < |deps| && arena[deps[k]].id !in index
    ensures r.Failure? ==> r.error == UnknownKey
    ensures r.Success? ==> |r.value| == 2 * |deps|
    ensures r.Success? ==> forall k :: 0 <= k < |deps| ==> PairAt(r.value, 2 * k, index[arena[deps[k]].id], i)
  {
    if |deps| == 0 then Success([])
    else
      var id := arena[deps[0]].id;
      if id !in index then Failure(UnknownKey)
      else
        match DepConstraints(arena, index, i, deps[1..])
        case Failure(e) => Failure(e)
        case Success(rest) =>
          var cs := [Lifetime(index[id], i), Precedes(index[id], i)] + rest;
          forall k | 1 <= k < |deps| ensures PairAt(cs, 2 * k, index[arena[deps[k]].id], i) {
            assert deps[1..][k - 1] == deps[k];
            assert PairAt(rest, 2 * (k - 1), index[arena[deps[k]].id], i);
          }
          Success(cs)
  }

  /** Number of `depends_on` entries over the blocks `hs`. */
  function DepCount(arena: seq<Block>, hs: seq<Handle>): nat
    requires forall k :: 0 <= k < |hs| ==> hs[k] < |arena|
  {
    if |hs| == 0 then 0 else |arena[hs[0]].dependsOn| + DepCount(arena, hs[1..])
  }

  /** Dependency `k` of block `hs[a]` has an id the numbering does not know. */
  ghost predicate Unnumbered(arena: seq<Block>, index: map<string, nat>, hs: seq<Handle>, a: int, k: int)
    requires forall x :: 0 <= x < |hs| ==> hs[x] < |arena|
    requires HandlesValid(arena)
  {
    0 <= a < |hs| && 0 <= k < |arena[hs[a]].dependsOn| && arena[arena[hs[a]].dependsOn[k]].id !in index
  }

  ghost predicate MissingDep(arena: seq<Block>, index: map<string, nat>, hs: seq<Handle>)
    requires forall k :: 0 <= k < |hs| ==> hs[k] < |arena|
    requires HandlesValid(arena)
  {
    exists a, k :: Unnumbered(arena, index, hs, a, k)
  }

  /** Constraint `c` is one of the two emitted for dependency `k` of block `hs[a]`. */
  ghost predicate FromEdge(arena: seq<Block>, index: map<string, nat>, hs: seq<Handle>, c: Constraint, a: int, k: int)
    requires forall x :: 0 <= x < |hs| ==> hs[x] < |arena| && arena[hs[x]].id in index
    requires HandlesValid(arena)
  {
    && 0 <= a < |hs| && 0 <= k < |arena[hs[a]].dependsOn|
    && arena[arena[hs[a]].dependsOn[k]].id in index
    && (c == Lifetime(index[arena[arena[hs[a]].dependsOn[k]].id], index[arena[hs[a]].id]) ||
        c == Precedes(index[arena[arena[hs[a]].dependsOn[k]].id], index[arena[hs[a]].id]))
  }

  /** The lifetime loop over all flattened blocks, in order. */
  function AllConstraints(arena: seq<Block>, index: map<string, nat>, hs: seq<Handle>): (r: Result<seq<Constraint>>)
    requires forall k :: 0 <= k < |hs| ==> hs[k] < |arena| && arena[hs[k]].id in index
    requires HandlesValid(arena)
    ensures r.Failure? ==> r.error == UnknownKey
    ensures r.Success? ==> |r.value| == 2 * DepCount(arena, hs)
    decreases |hs|
  {
    if |hs| == 0 then Success([])
    else
      var b := arena[hs[0]];
      match DepConstraints(arena, index, index[b.id], b.dependsOn)
      case Failure(e) => Failure(e)
      case Success(first) =>
        match AllConstraints(arena, index, hs[1..])
        case Failure(e) => Failure(e)
        case Success(rest) => Success(first + rest)
  }

  /** The lifetime loop raises `KeyError` exactly when some dependency's id was never numbered. */
  lemma {:induction false} AllConstraintsFails(arena: seq<Block>, index: map<string, nat>, hs: seq<Handle>)
    requires forall k :: 0 <= k < |hs| ==> hs[k] < |arena| && arena[hs[k]].id in index
    requires HandlesValid(arena)
    ensures AllConstraints(arena, index, hs).Failure? <==> MissingDep(arena, index, hs)
    decreases |hs|
  {
    if |hs| > 0 {
      var b := arena[hs[0]];
      match DepConstraints(arena, index, index[b.id], b.dependsOn)
      case Failure(_) =>
        var k :| 0 <= k < |b.dependsOn| && arena[b.dependsOn[k]].id !in index;
        assert Unnumbered(arena, index, hs, 0, k);
      case Success(first) =>
        MissingDepStep(arena, index, hs, first);
        AllConstraintsFails(arena, index, hs[1..]);
    }
  }

  /** Every emitted constraint comes from a dependency edge, and every edge's two constraints are emitted. */
  lemma {:induction false} AllConstraintsEmits(arena: seq<Block>, index: map<string, nat>, hs: seq<Handle>)
    requires forall k :: 0 <= k < |hs| ==> hs[k] < |arena| && arena[hs[k]].id in index
    requires HandlesValid(arena)
    requires AllConstraints(arena, index, hs).Success?
    ensures forall c :: c in AllConstraints(arena, index, hs).value <==> exists a, k :: FromEdge(arena, index, hs, c, a, k)
    decreases |hs|
  {
    if |hs| > 0 {
      var b := arena[hs[0]];
      var first := DepConstraints(arena, index, index[b.id], b.dependsOn).value;
      AllConstraintsEmits(arena, index, hs[1..]);
      AllConstraintsMembers(arena, index, hs, first, AllConstraints(arena, index, hs[1..]).value);
    }
  }

  lemma MissingDepStep(arena: seq<Block>, index: map<string, nat>, hs: seq<Handle>, first: seq<Constraint>)
    requires |hs| > 0
    requires forall k :: 0 <= k < |hs| ==> hs[k] < |arena| && arena[hs[k]].id in index
    requires HandlesValid(arena)
    requires DepConstraints(arena, index, index[arena[hs[0]].id], arena[hs[0]].dependsOn) == Success(first)
    ensures MissingDep(arena, index, hs) <==> MissingDep(arena, index, hs[1..])
  {
    if MissingDep(arena, index, hs) {
      var a, k :| Unnumbered(arena, index, hs, a, k);
      assert a != 0;
      assert hs[1..][a - 1] == hs[a];
      assert Unnumbered(arena, index, hs[1..], a - 1, k);
    }
    if MissingDep(arena, index, hs[1..]) {
      var a, k :| Unnumbered(arena, index, hs[1..], a, k);
      assert hs[a + 1] == hs[1..][a];
      assert Unnumbered(arena, index, hs, a + 1, k);
    }
  }

  lemma AllConstraintsMembers(arena: seq<Block>, index: map<string, nat>, hs: seq<Handle>, first: seq<Constraint>, rest: seq<Constraint>)
    requires |hs| > 0
    requires forall k :: 0 <= k < |hs| ==> hs[k] < |arena| && arena[hs[k]].id in index
    requires HandlesValid(arena)
    requires DepConstraints(arena, index, index[arena[hs[0]].id], arena[hs[0]].dependsOn) == Success(first)
    requires forall c :: c in rest <==> exists a, k :: FromEdge(arena, index, hs[1..], c, a, k)
    ensures forall c :: c in first + rest <==> exists a, k :: FromEdge(arena, index, hs, c, a, k)
  {
    var deps := arena[hs[0]].dependsOn;
    var i := index[arena[hs[0]].id];
    forall c | c in first + rest
      ensures exists a, k :: FromEdge(arena, index, hs, c, a, k)
    {
      if c in first {
        var p :| 0 <= p < |first| && first[p] == c;
        var k := p / 2;
        assert PairAt(first, 2 * k, index[arena[deps[k]].id], i);
        assert FromEdge(arena, index, hs, c, 0, k);
      } else {
        var a, k :| FromEdge(arena, index, hs[1..], c, a, k);
        assert hs[1..][a] == hs[a + 1];
        assert FromEdge(arena, index, hs, c, a + 1, k);
      }
    }
    forall c, a, k | FromEdge(arena, index, hs, c, a, k)
      ensures c in first + rest
    {
      if a == 0 {
        assert PairAt(first, 2 * k, index[arena[deps[k]].id], i);
      } else {
        assert hs[1..][a - 1] == hs[a];
        assert FromEdge(arena, index, hs[1..], c, a - 1, k);
      }
    }
  }

  // ---------------------------------------------------------------- generation

  /** The numbering `generate_minizinc_model` builds for a finder state. */
  function Numbering(st: Finder): (index: map<string, nat>)
    requires Valid(st)
    ensures forall k :: 0 <= k < |Flatten(st)| ==> st.arena[Flatten(st)[k]].id in index
    ensures index == IndexMap(IdsOf(st.arena, Flatten(st)))
  {
    var hs := Flatten(st);
    var ids := IdsOf(st.arena, hs);
    assert forall k :: 0 <= k < |hs| ==> ids[k] in ids;
    IndexMap(ids)
  }

  /**
   `generate_minizinc_model(alloc_finder)` as the model it prints: a block
   with a zero dimension raises (log2 of 0), and so does a dependency whose
   id was never numbered.
   */
  function Generate(st: Finder): (r: Result<MznModel>)
    requires Valid(st)
    ensures HasEmptyBlock(st.arena, Flatten(st)) ==> r == Failure(LogOfZero)
    ensures r.Failure? && !HasEmptyBlock(st.arena, Flatten(st)) ==> r.error == UnknownKey
    ensures r.Success? ==>
      var m := r.value;
      && WellSized(m)
      && m.n == |Flatten(st)|
      && (forall k :: 0 <= k < m.n ==> m.sizeY[k] == SizeY(Product(st.arena[Flatten(st)[k]].shape)))
      && (forall k :: 0 <= k < m.n ==> m.sizeY[k] >= 1 && m.opCost[k] == 1)
      && m.memsize == Sum(m.sizeY) / 2
      && m.bound == 10 * m.n
      && |m.constraints| == 2 * DepCount(st.arena, Flatten(st))
  {
    GenerateFrom(st.arena, Flatten(st), Numbering(st))
  }

  /** The body of `generate_minizinc_model` once the blocks `hs` are listed and numbered by `index`. */
  function GenerateFrom(arena: seq<Block>, hs: seq<Handle>, index: map<string, nat>): (r: Result<MznModel>)
    requires forall k :: 0 <= k < |hs| ==> hs[k] < |arena| && arena[hs[k]].id in index
    requires HandlesValid(arena)
    ensures HasEmptyBlock(arena, hs) ==> r == Failure(LogOfZero)
    ensures r.Failure? && !HasEmptyBlock(arena, hs) ==> r.error == UnknownKey
    ensures r.Success? ==>
      var m := r.value;
      && WellSized(m)
      && m.n == |hs|
      && (forall k :: 0 <= k < m.n ==> m.sizeY[k] == SizeY(Product(arena[hs[k]].shape)))
      && (forall k :: 0 <= k < m.n ==> m.sizeY[k] >= 1 && m.opCost[k] == 1)
      && m.memsize == Sum(m.sizeY) / 2
      && m.bound == 10 * m.n
      && |m.constraints| == 2 * DepCount(arena, hs)
      && AllConstraints(arena, index, hs) == Success(m.constraints)
  {
    if HasEmptyBlock(arena, hs) then Failure(LogOfZero)
    else
      match AllConstraints(arena, index, hs)
      case Failure(e) => Failure(e)
      case Success(cs) => Success(Assemble(arena, hs, cs))
  }

  /** Generation fails exactly on a zero-sized block or on a dependency that was never numbered. */
  lemma GenerateFails(st: Finder)
    requires Valid(st)
    ensures Generate(st).Failure? <==> HasEmptyBlock(st.arena, Flatten(st)) || MissingDep(st.arena, Numbering(st), Flatten(st))
  {
    GenerateFromFails(st.arena, Flatten(st), Numbering(st));
  }

  lemma GenerateFromFails(arena: seq<Block>, hs: seq<Handle>, index: map<string, nat>)
    requires forall k :: 0 <= k < |hs| ==> hs[k] < |arena| && arena[hs[k]].id in index
    requires HandlesValid(arena)
    ensures GenerateFrom(arena, hs, index).Failure? <==> HasEmptyBlock(arena, hs) || MissingDep(arena, index, hs)
  {
    if !HasEmptyBlock(arena, hs) {
      AllConstraintsFails(arena, index, hs);
    }
  }

  /** The numbers of the program around its dependency section. */
  function Assemble(arena: seq<Block>, hs: seq<Handle>, cs: seq<Constraint>): (m: MznModel)
    requires forall k :: 0 <= k < |hs| ==> hs[k] < |arena| && Product(arena[hs[k]].shape) >= 1
    ensures WellSized(m) && m.n == |hs| && m.constraints == cs
    ensures forall k :: 0 <= k < m.n ==> m.sizeY[k] == SizeY(Product(arena[hs[k]].shape))
    ensures forall k :: 0 <= k < m.n ==> m.sizeY[k] >= 1 && m.opCost[k] == 1
    ensures m.memsize == Sum(m.sizeY) / 2
    ensures m.bound == 10 * m.n
  {
    var n := |hs|;
    var sizeY := Heights(arena, hs);
    var opCost := seq(n, _ => 1);
    OnesSum(opCost);
    MznModel(n, Sum(sizeY) / 2, 5 * n + 5 * Sum(opCost), sizeY, opCost, cs)
  }

  lemma {:induction false} OnesSum(xs: seq<nat>)
    requires forall k :: 0 <= k < |xs| ==> xs[k] == 1
    ensures Sum(xs) == |xs|
  {
    if |xs| > 0 {
      OnesSum(xs[1..]);
    }
  }

  /** After a successful walk every dependency is numbered: generation can only fail on a zero dimension. */
  lemma GenerateNeverMissesKeys(st: Finder)
    requires Inv(st)
    ensures Generate(st).Failure? ==> Generate(st).error == LogOfZero && HasEmptyBlock(st.arena, Flatten(st))
  {
    var hs := Flatten(st);
    var index := Numbering(st);
    GenerateFails(st);
    if MissingDep(st.arena, index, hs) {
      var a, k :| Unnumbered(st.arena, index, hs, a, k);
      var d := st.arena[hs[a]].dependsOn[k];
      DepsFlattened(st);
    }
  }

  lemma WalkThenGenerate(hash: Hash, mod: seq<Ir.GlobalFunction>)
    ensures Walk(hash, mod).Success? ==>
      var st := Walk(hash, mod).value;
      Generate(st).Failure? ==> Generate(st).error == LogOfZero && HasEmptyBlock(st.arena, Flatten(st))
  {
    WalkInv(hash, mod);
    if Walk(hash, mod).Success? {
      GenerateNeverMissesKeys(Walk(hash, mod).value);
    }
  }

  /**
   When every block is numbered by its own position and every dependency is
   itself one of the blocks, a constraint is emitted exactly for the pairs
   (producer, consumer) of a dependency edge.
   */
  lemma EmittedIffEdge(arena: seq<Block>, index: map<string, nat>, hs: seq<Handle>, c: Constraint)
    requires HandlesValid(arena)
    requires forall x :: 0 <= x < |hs| ==> hs[x] < |arena| && arena[hs[x]].id in index && index[arena[hs[x]].id] == x + 1
    requires forall a, k :: 0 <= a < |hs| && 0 <= k < |arena[hs[a]].dependsOn| ==> arena[hs[a]].dependsOn[k] in hs
    requires AllConstraints(arena, index, hs).Success?
    ensures c in AllConstraints(arena, index, hs).value <==>
      1 <= c.j <= |hs| && 1 <= c.i <= |hs| && hs[c.j - 1] in arena[hs[c.i - 1]].dependsOn
  {
    AllConstraintsEmits(arena, index, hs);
    if c in AllConstraints(arena, index, hs).value {
      var a, k :| FromEdge(arena, index, hs, c, a, k);
      EmittedIsEdge(arena, index, hs, c, a, k);
    }
    if 1 <= c.j <= |hs| && 1 <= c.i <= |hs| && hs[c.j - 1] in arena[hs[c.i - 1]].dependsOn {
      var a := c.i - 1;
      var k :| 0 <= k < |arena[hs[a]].dependsOn| && arena[hs[a]].dependsOn[k] == hs[c.j - 1];
      assert FromEdge(arena, index, hs, c, a, k);
    }
  }

  lemma EmittedIsEdge(arena: seq<Block>, index: map<string, nat>, hs: seq<Handle>, c: Constraint, a: int, k: int)
    requires HandlesValid(arena)
    requires forall x :: 0 <= x < |hs| ==> hs[x] < |arena| && arena[hs[x]].id in index && index[arena[hs[x]].id] == x + 1
    requires 0 <= a < |hs| && 0 <= k < |arena[hs[a]].dependsOn| && arena[hs[a]].dependsOn[k] in hs
    requires FromEdge(arena, index, hs, c, a, k)
    ensures 1 <= c.j <= |hs| && 1 <= c.i <= |hs| && hs[c.j - 1] in arena[hs[c.i - 1]].dependsOn
  {
    var d := arena[hs[a]].dependsOn[k];
    var q :| 0 <= q < |hs| && hs[q] == d;
    assert index[arena[d].id] == q + 1;
    assert c.j == q + 1 && c.i == a + 1;
  }

  /** Every dependency of a registered block is itself one of the flattened blocks. */
  lemma DepsFlattened(st: Finder)
    requires Valid(st) && DepsRegistered(st)
    ensures var hs := Flatten(st);
      forall a, k :: 0 <= a < |hs| && 0 <= k < |st.arena[hs[a]].dependsOn| ==> st.arena[hs[a]].dependsOn[k] in hs
  {
    var hs := Flatten(st);
    forall a, k | 0 <= a < |hs| && 0 <= k < |st.arena[hs[a]].dependsOn|
      ensures st.arena[hs[a]].dependsOn[k] in hs
    {
      var h := hs[a];
      assert 0 <= h < |st.arena|;
      assert Registered(st, st.arena[h].dependsOn[k]);
      FlattenIsRegistered(st);
    }
  }

  /** Flattened block number `j` is in the `depends_on` list of block number `i`. */
  ghost predicate EdgeBetween(st: Finder, j: int, i: int)
    requires Valid(st)
  {
    var hs := Flatten(st);
    1 <= j <= |hs| && 1 <= i <= |hs| && hs[j - 1] in st.arena[hs[i - 1]].dependsOn
  }

  /**
   With globally distinct ids, `Lifetime(j, i)` and `Precedes(j, i)` are
   emitted exactly when block number `j` is in the `depends_on` list of block
   number `i`.
   */
  lemma ConstraintsAreEdges(st: Finder, c: Constraint)
    requires Valid(st) && DepsRegistered(st)
    requires Distinct(IdsOf(st.arena, Flatten(st)))
    requires Generate(st).Success?
    ensures Generate(st).value.n == |Flatten(st)|
    ensures c in Generate(st).value.constraints <==> EdgeBetween(st, c.j, c.i)
  {
    DepsFlattened(st);
    NumberedConstraintsAreEdges(st.arena, Flatten(st), c);
  }

  lemma NumberedConstraintsAreEdges(arena: seq<Block>, hs: seq<Handle>, c: Constraint)
    requires HandlesValid(arena)
    requires forall x :: 0 <= x < |hs| ==> hs[x] < |arena|
    requires Distinct(IdsOf(arena, hs))
    requires forall a, k :: 0 <= a < |hs| && 0 <= k < |arena[hs[a]].dependsOn| ==> arena[hs[a]].dependsOn[k] in hs
    requires AllConstraints(arena, IndexMap(IdsOf(arena, hs)), hs).Success?
    ensures c in AllConstraints(arena, IndexMap(IdsOf(arena, hs)), hs).value <==>
      1 <= c.j <= |hs| && 1 <= c.i <= |hs| && hs[c.j - 1] in arena[hs[c.i - 1]].dependsOn
  {
    NumberIsPosition(arena, hs);
    EmittedIffEdge(arena, IndexMap(IdsOf(arena, hs)), hs, c);
  }

  lemma NumberIsPosition(arena: seq<Block>, hs: seq<Handle>)
    requires forall x :: 0 <= x < |hs| ==> hs[x] < |arena|
    requires Distinct(IdsOf(arena, hs))
    ensures var index := IndexMap(IdsOf(arena, hs));
      forall x :: 0 <= x < |hs| ==> arena[hs[x]].id in index && index[arena[hs[x]].id] == x + 1
  {
    var ids := IdsOf(arena, hs);
    IndexBijection(ids);
    forall x | 0 <= x < |hs| ensures arena[hs[x]].id in IndexMap(ids) && IndexMap(ids)[arena[hs[x]].id] == x + 1 {
      assert ids[x] == arena[hs[x]].id;
    }
  }

  // ---------------------------------------------------------------- semantics

  /** Values for the decision variables (position k stands for MiniZinc index k + 1). */
  datatype Schedule = Schedule(posX: seq<int>, posY: seq<int>, sizeX: seq<int>, totalTime: int)

  predicate InDomains(m: MznModel, s: Schedule) {
    && |s.posX| == m.n && |s.posY| == m.n && |s.sizeX| == m.n
    && (forall k :: 0 <= k < m.n ==> 1 <= s.sizeX[k] <= m.bound)
    && (forall k :: 0 <= k < m.n ==> 0 <= s.posX[k] <= m.bound)
    && (forall k :: 0 <= k < m.n ==> 0 <= s.posY[k] <= m.memsize - 1)
  }

  predicate AllDifferent(xs: seq<int>) {
    forall a, b :: 0 <= a < b < |xs| ==> xs[a] != xs[b]
  }

  predicate Capacity(m: MznModel, s: Schedule)
    requires WellSized(m) && InDomains(m, s)
  {
    forall k :: 0 <= k < m.n ==> s.posY[k] + m.sizeY[k] <= m.memsize
  }

  /** A dependency constraint; an index outside 1..n makes it undefined, hence false. */
  predicate Holds(m: MznModel, s: Schedule, c: Constraint)
    requires WellSized(m) && InDomains(m, s)
  {
    1 <= c.j <= m.n && 1 <= c.i <= m.n &&
    match c
    case Lifetime(j, i) => s.posX[j - 1] + s.sizeX[j - 1] >= s.posX[i - 1] + m.opCost[i - 1]
    case Precedes(j, i) => s.posX[j - 1] <= s.posX[i - 1]
  }

  /** The rectangles of blocks `a` and `b` are apart in time or in memory. */
  predicate Apart(m: MznModel, s: Schedule, a: nat, b: nat)
    requires WellSized(m) && InDomains(m, s) && a < m.n && b < m.n
  {
    || s.posX[a] + s.sizeX[a] <= s.posX[b]
    || s.posX[b] + s.sizeX[b] <= s.posX[a]
    || s.posY[a] + m.sizeY[a] <= s.posY[b]
    || s.posY[b] + m.sizeY[b] <= s.posY[a]
  }

  function MaxEnd(s: Schedule, k: nat): int
    requires 0 < k <= |s.posX| && k <= |s.sizeX|
  {
    if k == 1 then s.posX[0] + s.sizeX[0]
    else
      var e := s.posX[k - 1] + s.sizeX[k - 1];
      var rest := MaxEnd(s, k - 1);
      if e > rest then e else rest
  }

  /**
   Every constraint of the emitted program holds.  `max` of an empty array
   is undefined in MiniZinc, so an empty model has no solution.
   */
  predicate Satisfies(m: MznModel, s: Schedule)
    requires WellSized(m)
  {
    && InDomains(m, s)
    && AllDifferent(s.posX)
    && Capacity(m, s)
    && (forall k :: 0 <= k < |m.constraints| ==> Holds(m, s, m.constraints[k]))
    && (forall a, b :: 0 <= a < b < m.n ==> Apart(m, s, a, b))
    && m.n > 0 && s.totalTime == MaxEnd(s, m.n)
  }

  /** Two blocks too tall to share the memory must not be alive at the same time. */
  lemma LargePairDisjointInTime(m: MznModel, s: Schedule, a: nat, b: nat)
    requires WellSized(m) && Satisfies(m, s)
    requires a < m.n && b < m.n && a != b
    requires m.sizeY[a] + m.sizeY[b] > m.memsize
    ensures s.posX[a] + s.sizeX[a] <= s.posX[b] || s.posX[b] + s.sizeX[b] <= s.posX[a]
  {
    if a < b {
      assert Apart(m, s, a, b);
    } else {
      assert Apart(m, s, b, a);
    }
  }

  /** A block taller than the memory makes the program unsatisfiable. */
  lemma OversizedInfeasible(m: MznModel, s: Schedule, k: nat)
    requires WellSized(m) && k < m.n && m.sizeY[k] > m.memsize
    ensures !Satisfies(m, s)
  {
  }

  /**
   A generated model in which one block is taller than all others together
   has no solution, because the memory is only half the total height.
   */
  lemma DominantBlockInfeasible(st: Finder, s: Schedule, k: nat)
    requires Valid(st) && Generate(st).Success?
    requires k < Generate(st).value.n
    requires 2 * Generate(st).value.sizeY[k] > Sum(Generate(st).value.sizeY)
    ensures !Satisfies(Generate(st).value, s)
  {
    OversizedInfeasible(Generate(st).value, s, k);
  }

  lemma HalfMemoryHoldsNoSingleBlock(m: MznModel, s: Schedule)
    requires WellSized(m) && m.n == 1 && m.sizeY[0] >= 1 && m.memsize == Sum(m.sizeY) / 2
    ensures !Satisfies(m, s)
  {
    assert Sum(m.sizeY) == m.sizeY[0] + Sum(m.sizeY[1..]);
    assert m.sizeY[1..] == [];
    OversizedInfeasible(m, s, 0);
  }

  /** In particular a generated model of a single block has no solution. */
  lemma SingleBlockInfeasible(st: Finder, s: Schedule)
    requires Valid(st) && Generate(st).Success? && Generate(st).value.n == 1
    ensures !Satisfies(Generate(st).value, s)
  {
    HalfMemoryHoldsNoSingleBlock(Generate(st).value, s);
  }

  /** One block after the other, each alive for one time unit, all at memory offset 0. */
  function Sequential(n: nat): (s: Schedule)
    ensures |s.posX| == n && |s.posY| == n && |s.sizeX| == n
  {
    Schedule(seq(n, k => k), seq(n, _ => 0), seq(n, _ => 1), n)
  }

  lemma {:induction false} SequentialMaxEnd(n: nat, k: nat)
    requires 0 < k <= n
    ensures MaxEnd(Sequential(n), k) == k
  {
    if k > 1 {
      SequentialMaxEnd(n, k - 1);
    }
  }

  /** Without dependency constraints, blocks that each fit the memory can run one after another. */
  lemma EdgeFreeFeasible(m: MznModel)
    requires WellSized(m) && m.n > 0 && m.constraints == [] && m.bound >= m.n
    requires forall k :: 0 <= k < m.n ==> 1 <= m.sizeY[k] <= m.memsize
    ensures Satisfies(m, Sequential(m.n))
  {
    var s := Sequential(m.n);
    assert m.sizeY[0] >= 0;
    forall k | 0 <= k < m.n ensures 0 <= s.posY[k] <= m.memsize - 1 {
      assert m.sizeY[k] <= m.memsize;
    }
    forall a, b | 0 <= a < b < m.n ensures Apart(m, s, a, b) {
      assert s.posX[a] + s.sizeX[a] <= s.posX[b];
    }
    SequentialMaxEnd(m.n, m.n);
  }

  /**
   A generated model without dependency edges, in which no block is taller
   than all others together, is solved by running the blocks one after another.
   */
  lemma GeneratedEdgeFreeFeasible(st: Finder)
    requires Valid(st) && Generate(st).Success?
    requires DepCount(st.arena, Flatten(st)) == 0 && |Flatten(st)| > 0
    requires forall k :: 0 <= k < Generate(st).value.n ==> 2 * Generate(st).value.sizeY[k] <= Sum(Generate(st).value.sizeY)
    ensures Satisfies(Generate(st).value, Sequential(|Flatten(st)|))
  {
    var m := Generate(st).value;
    assert |m.constraints| == 0 && m.n == |Flatten(st)|;
    forall k | 0 <= k < m.n ensures 1 <= m.sizeY[k] <= m.memsize {
      assert 2 * m.sizeY[k] <= Sum(m.sizeY);
    }
    EdgeFreeFeasible(m);
  }
}
