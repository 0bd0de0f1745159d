/**
 The AllocationFinder: walks the functions of an IRModule, creates one
 MemBlock per Relax input, per `call_tir` output and per TIR buffer store,
 and wires `depends_on`/`links_to` edges found through the `name:id` table.

 The finder's state is an immutable `Finder` value; each visitor returns the
 next state, or the exception the Python code would raise.
 */
module AllocationFinder {
  import opened Results
  import opened MemBlocks
  import opened Ir

  datatype Finder = Finder(
    arena: seq<Block>,                      // every MemBlock object constructed so far
    funcs: seq<string>,                     // keys of `memblocks`, in dict insertion order
    memblocks: map<string, seq<Handle>>,    // function name -> its list of blocks
    nameToMemblock: map<string, Handle>)    // "name:id" -> block

  /** The state right after `AllocationFinder.__init__`. */
  function Init(): Finder {
    Finder([], [], map[], map[])
  }

  /** The `name_to_memblock` key of a block with this name and id. */
  function Key(name: string, id: string): string {
    name + ":" + id
  }

  /**
   The key under which a Relax argument or a TIR buffer is looked up:
   `compute_id_from_relax_var_sinfo` and `compute_id_from_buffer` both
   reduce to `compute_id` of the tensor's own name, shape and dtype.
   */
  function LookupKey(hash: Hash, t: Tensor): string {
    Key(t.name, TensorId(hash, t))
  }

  /** The id of every MemBlock built from tensor `t`, whatever its origin. */
  function TensorId(hash: Hash, t: Tensor): (id: string)
    ensures id == FromRelaxInput(hash, t.name, t.info).id == FromRelaxOutput(hash, t.name, t.info).id
    ensures forall o: Option<string> {:trigger FromTirBuffer(hash, t.name, t.info, o)} ::
      id == FromTirBuffer(hash, t.name, t.info, o).id
  {
    ComputeId(hash, t.name, t.info.shape, t.info.dtype)
  }

  /** Structural well-formedness: every stored handle names an arena entry. */
  ghost predicate Valid(st: Finder) {
    && (forall i, j :: 0 <= i < j < |st.funcs| ==> st.funcs[i] != st.funcs[j])
    && (forall f :: f in st.memblocks <==> f in st.funcs)
    && (forall f, k :: f in st.memblocks && 0 <= k < |st.memblocks[f]| ==> st.memblocks[f][k] < |st.arena|)
    && (forall key :: key in st.nameToMemblock ==> st.nameToMemblock[key] < |st.arena|)
    && HandlesValid(st.arena)
    && LinksValid(st.arena)
  }

  /** `memblocks.get(f, [])`. */
  function ListOf(st: Finder, f: string): seq<Handle> {
    if f in st.memblocks then st.memblocks[f] else []
  }

  /** `[x._id for x in memblocks[f]]`. */
  function Ids(st: Finder, f: string): (ids: seq<string>)
    requires Valid(st)
    ensures |ids| == |ListOf(st, f)|
    ensures forall k :: 0 <= k < |ids| ==> ids[k] == st.arena[ListOf(st, f)[k]].id
  {
    var l := ListOf(st, f);
    seq(|l|, k requires 0 <= k < |l| => st.arena[l[k]].id)
  }

  /**
   Nothing the finder records is taken back: blocks keep their name, shape,
   dtype, origin and id, and every function's list only grows at its end.
   */
  ghost predicate Grows(st: Finder, r: Finder) {
    && |st.arena| <= |r.arena|
    && (forall x :: 0 <= x < |st.arena| ==> SameContent(r.arena[x], st.arena[x]))
    && (forall g :: ListOf(st, g) <= ListOf(r, g))
  }

  lemma GrowsTransitive(s1: Finder, s2: Finder, s3: Finder)
    requires Grows(s1, s2) && Grows(s2, s3)
    ensures Grows(s1, s3)
  {
    forall x | 0 <= x < |s1.arena|
      ensures SameContent(s3.arena[x], s1.arena[x])
    {
      assert SameContent(s2.arena[x], s1.arena[x]);
      assert SameContent(s3.arena[x], s2.arena[x]);
    }
    forall g ensures ListOf(s1, g) <= ListOf(s3, g) {
      assert ListOf(s1, g) <= ListOf(s2, g) <= ListOf(s3, g);
    }
  }

  lemma EdgesOnlyGrows(st: Finder, r: Finder)
    requires EdgesOnly(st, r)
    ensures Grows(st, r)
  {
    forall g ensures ListOf(st, g) <= ListOf(r, g) {
      assert ListOf(st, g) == ListOf(r, g);
    }
  }

  /** `add_memblock(f, ...)` has filed a block made from tensor `t` in `memblocks[f]`. */
  ghost predicate Filed(hash: Hash, st: Finder, f: string, t: Tensor)
    requires Valid(st)
  {
    TensorId(hash, t) in Ids(st, f)
  }

  /** A filed block stays filed as the state grows. */
  lemma FiledGrows(hash: Hash, st: Finder, r: Finder, f: string, t: Tensor)
    requires Valid(st) && Valid(r) && Grows(st, r)
    requires Filed(hash, st, f, t)
    ensures Filed(hash, r, f, t)
  {
    var ids := Ids(st, f);
    var k :| 0 <= k < |ids| && ids[k] == TensorId(hash, t);
    assert ListOf(st, f) <= ListOf(r, f);
    assert ListOf(r, f)[k] == ListOf(st, f)[k];
    assert SameContent(r.arena[ListOf(st, f)[k]], st.arena[ListOf(st, f)[k]]);
    assert Ids(r, f)[k] == ids[k];
  }

  /** Constructing a MemBlock object: it joins the arena, registered nowhere yet. */
  function Construct(st: Finder, b: Block): (r: (Finder, Handle))
    requires Valid(st)
    requires b.dependsOn == [] && b.linksTo == []
    ensures Valid(r.0)
    ensures r.1 == |st.arena| && r.0.arena == st.arena + [b]
    ensures r.0.funcs == st.funcs && r.0.memblocks == st.memblocks && r.0.nameToMemblock == st.nameToMemblock
    ensures Grows(st, r.0)
  {
    AppendKeepsHandlesValid(st.arena, b);
    (st.(arena := st.arena + [b]), |st.arena|)
  }

  /**
   `add_memblock(f, mb)`: an id new to `memblocks[f]` is appended and
   registered under "name:id"; the id of the last block is skipped; an id
   met earlier in the list is an error.
   */
  function AddMemblock(st: Finder, f: string, h: Handle): (r: Result<Finder>)
    requires Valid(st) && h < |st.arena|
    ensures var ids := Ids(st, f); var id := st.arena[h].id;
      r.Failure? <==> id in ids && ids[|ids| - 1] != id
    ensures r.Failure? ==> r.error == DuplicateNotAdjacent
    ensures st.arena[h].id in Ids(st, f) && r.Success? ==> r.value == st
    ensures st.arena[h].id !in Ids(st, f) ==>
      && r.Success?
      && r.value.arena == st.arena
      && ListOf(r.value, f) == ListOf(st, f) + [h]
      && (forall g :: g != f ==> ListOf(r.value, g) == ListOf(st, g))
      && r.value.funcs == (if f in st.memblocks then st.funcs else st.funcs + [f])
      && r.value.nameToMemblock == st.nameToMemblock[Key(st.arena[h].name, st.arena[h].id) := h]
    ensures r.Success? ==> Valid(r.value) && Grows(st, r.value) && st.arena[h].id in Ids(r.value, f)
  {
    var l := ListOf(st, f);
    var id := st.arena[h].id;
    if f in st.memblocks && id in Ids(st, f) then
      if st.arena[l[|l| - 1]].id == id then Success(st) else Failure(DuplicateNotAdjacent)
    else
      Success(Register(st, f, h))
  }

  /** The success path of `add_memblock`: append `h` to `memblocks[f]` and index it by "name:id". */
  function Register(st: Finder, f: string, h: Handle): (r: Finder)
    requires Valid(st) && h < |st.arena|
    ensures Valid(r) && r.arena == st.arena
    ensures ListOf(r, f) == ListOf(st, f) + [h]
    ensures forall g :: g != f ==> ListOf(r, g) == ListOf(st, g)
    ensures r.funcs == (if f in st.memblocks then st.funcs else st.funcs + [f])
    ensures r.nameToMemblock == st.nameToMemblock[Key(st.arena[h].name, st.arena[h].id) := h]
    ensures Grows(st, r) && st.arena[h].id in Ids(r, f)
  {
    var r := st.(
      funcs := if f in st.memblocks then st.funcs else st.funcs + [f],
      memblocks := st.memblocks[f := ListOf(st, f) + [h]],
      nameToMemblock := st.nameToMemblock[Key(st.arena[h].name, st.arena[h].id) := h]);
    RegisterValid(st, f, h, r);
    assert Ids(r, f)[|ListOf(st, f)|] == st.arena[h].id;
    r
  }

  lemma RegisterValid(st: Finder, f: string, h: Handle, r: Finder)
    requires Valid(st) && h < |st.arena|
    requires r.arena == st.arena
    requires r.funcs == (if f in st.memblocks then st.funcs else st.funcs + [f])
    requires r.memblocks == st.memblocks[f := ListOf(st, f) + [h]]
    requires r.nameToMemblock == st.nameToMemblock[Key(st.arena[h].name, st.arena[h].id) := h]
    ensures Valid(r)
  {
    if f !in st.memblocks {
      assert f !in st.funcs;
      forall i, j | 0 <= i < j < |r.funcs| ensures r.funcs[i] != r.funcs[j] {
        if j == |st.funcs| {
          assert st.funcs[i] in st.funcs;
        }
      }
    }
    forall g ensures g in r.memblocks <==> g in r.funcs {
      if g != f {
        assert g in r.funcs <==> g in st.funcs;
      }
    }
    forall g, k | g in r.memblocks && 0 <= k < |r.memblocks[g]| ensures r.memblocks[g][k] < |r.arena| {
      if g != f {
        assert r.memblocks[g] == st.memblocks[g];
      }
    }
  }

  /** One dependency edge, added on both sides. */
  function Link(st: Finder, consumer: Handle, producer: Handle): (r: Finder)
    requires Valid(st) && consumer < |st.arena| && producer < |st.arena|
    ensures Valid(r)
    ensures r == st.(arena := AddEdge(st.arena, consumer, producer))
  {
    AddEdgeKeepsHandlesValid(st.arena, consumer, producer);
    st.(arena := AddEdge(st.arena, consumer, producer))
  }

  /** 1 when `t` is registered and resolves to block `b`, else 0. */
  function ResolvesTo(hash: Hash, names: map<string, Handle>, t: Tensor, b: Handle): nat {
    var key := LookupKey(hash, t);
    if key in names && names[key] == b then 1 else 0
  }

  /** How many of `ts` are registered and resolve to block `b`. */
  function Resolving(hash: Hash, names: map<string, Handle>, ts: seq<Tensor>, b: Handle): nat {
    if |ts| == 0 then 0 else ResolvesTo(hash, names, ts[0], b) + Resolving(hash, names, ts[1..], b)
  }

  /** How many edges `a -> b` one registered writer `a` gets from the read buffers `ts`. */
  function EdgeWeight(hash: Hash, st: Finder, ts: seq<Tensor>, a: Handle, b: Handle): nat
    requires a < |st.arena|
  {
    if b < |st.arena| && st.arena[b].id != st.arena[a].id then Resolving(hash, st.nameToMemblock, ts, b) else 0
  }

  /**
   The blocks `consumer` comes to depend on when linked to `ts`, in the
   order of `ts`: every registered one whose id differs from the consumer's.
   */
  function Readers(hash: Hash, st: Finder, consumer: Handle, ts: seq<Tensor>): (rs: seq<Handle>)
    requires Valid(st) && consumer < |st.arena|
    ensures forall k :: 0 <= k < |rs| ==> rs[k] < |st.arena| && st.arena[rs[k]].id != st.arena[consumer].id
    ensures forall k :: 0 <= k < |rs| ==> rs[k] in st.nameToMemblock.Values
    decreases |ts|
  {
    if |ts| == 0 then []
    else
      var key := LookupKey(hash, ts[0]);
      var rest := Readers(hash, st, consumer, ts[1..]);
      if key in st.nameToMemblock && st.arena[st.nameToMemblock[key]].id != st.arena[consumer].id then
        [st.nameToMemblock[key]] + rest
      else rest
  }

  /** Each block occurs in `Readers` once per tensor of `ts` that resolves to it, unless it shares the consumer's id. */
  lemma {:induction false} ReadersCount(hash: Hash, st: Finder, consumer: Handle, ts: seq<Tensor>, b: Handle)
    requires Valid(st) && consumer < |st.arena|
    ensures multiset(Readers(hash, st, consumer, ts))[b] == EdgeWeight(hash, st, ts, consumer, b)
    decreases |ts|
  {
    if |ts| > 0 {
      ReadersCount(hash, st, consumer, ts[1..], b);
      var names := st.nameToMemblock;
      var key := LookupKey(hash, ts[0]);
      var rest := Readers(hash, st, consumer, ts[1..]);
      assert Resolving(hash, names, ts, b) == ResolvesTo(hash, names, ts[0], b) + Resolving(hash, names, ts[1..], b);
      if key in names && st.arena[names[key]].id != st.arena[consumer].id {
        var h := names[key];
        var hs: seq<Handle> := [h];
        assert Readers(hash, st, consumer, ts) == hs + rest;
        assert multiset(hs + rest) == multiset(hs) + multiset(rest);
      } else {
        assert Readers(hash, st, consumer, ts) == rest;
      }
    }
  }

  /** `Readers` sees only the lookup table and the blocks' ids, which edges leave alone. */
  lemma {:induction false} ReadersFrame(hash: Hash, st: Finder, st': Finder, consumer: Handle, ts: seq<Tensor>)
    requires Valid(st) && Valid(st') && consumer < |st.arena|
    requires st'.nameToMemblock == st.nameToMemblock && |st'.arena| == |st.arena|
    requires forall x :: 0 <= x < |st.arena| ==> st'.arena[x].id == st.arena[x].id
    ensures Readers(hash, st', consumer, ts) == Readers(hash, st, consumer, ts)
    decreases |ts|
  {
    if |ts| > 0 {
      ReadersFrame(hash, st, st', consumer, ts[1..]);
    }
  }

  /** The facts every edge-only step keeps: the same blocks, lists and lookup table. */
  ghost predicate EdgesOnly(st: Finder, r: Finder) {
    && |r.arena| == |st.arena|
    && r.funcs == st.funcs && r.memblocks == st.memblocks && r.nameToMemblock == st.nameToMemblock
    && (forall x :: 0 <= x < |st.arena| ==> SameContent(r.arena[x], st.arena[x]))
  }

  lemma EdgesOnlyTransitive(s1: Finder, s2: Finder, s3: Finder)
    requires EdgesOnly(s1, s2) && EdgesOnly(s2, s3)
    ensures EdgesOnly(s1, s3)
  {
    forall x | 0 <= x < |s1.arena|
      ensures SameContent(s3.arena[x], s1.arena[x])
    {
      assert SameContent(s2.arena[x], s1.arena[x]);
      assert SameContent(s3.arena[x], s2.arena[x]);
    }
  }

  /**
   The loop over `args` (Relax) or over `read_buffers` (TIR): `consumer`
   gains one dependency per registered tensor of a different id, in order.
   */
  function LinkTo(hash: Hash, st: Finder, consumer: Handle, ts: seq<Tensor>): (r: Finder)
    requires Valid(st) && consumer < |st.arena|
    ensures Valid(r) && EdgesOnly(st, r)
    ensures forall x :: 0 <= x < |st.arena| && x != consumer ==> r.arena[x].dependsOn == st.arena[x].dependsOn
    ensures r.arena[consumer].dependsOn == st.arena[consumer].dependsOn + Readers(hash, st, consumer, ts)
    decreases |ts|
  {
    if |ts| == 0 then st
    else
      var key := LookupKey(hash, ts[0]);
      var linked := key in st.nameToMemblock && st.arena[st.nameToMemblock[key]].id != st.arena[consumer].id;
      var added := if linked then [st.nameToMemblock[key]] else [];
      var st1 := if linked then Link(st, consumer, st.nameToMemblock[key]) else st;
      assert EdgesOnly(st, st1);
      assert st1.arena[consumer].dependsOn == st.arena[consumer].dependsOn + added;
      assert Readers(hash, st, consumer, ts) == added + Readers(hash, st, consumer, ts[1..]);
      ReadersFrame(hash, st, st1, consumer, ts[1..]);
      var r := LinkTo(hash, st1, consumer, ts[1..]);
      LinkToStep(st, st1, r, consumer, added, Readers(hash, st, consumer, ts[1..]));
      r
  }

  /** One iteration of `LinkTo`: the first tensor's edge, then the rest's. */
  lemma LinkToStep(st: Finder, st1: Finder, r: Finder, consumer: Handle, added: seq<Handle>, rest: seq<Handle>)
    requires consumer < |st.arena|
    requires EdgesOnly(st, st1) && EdgesOnly(st1, r)
    requires forall x :: 0 <= x < |st.arena| && x != consumer ==> st1.arena[x].dependsOn == st.arena[x].dependsOn
    requires st1.arena[consumer].dependsOn == st.arena[consumer].dependsOn + added
    requires forall x :: 0 <= x < |st1.arena| && x != consumer ==> r.arena[x].dependsOn == st1.arena[x].dependsOn
    requires r.arena[consumer].dependsOn == st1.arena[consumer].dependsOn + rest
    ensures EdgesOnly(st, r)
    ensures forall x :: 0 <= x < |st.arena| && x != consumer ==> r.arena[x].dependsOn == st.arena[x].dependsOn
    ensures r.arena[consumer].dependsOn == st.arena[consumer].dependsOn + (added + rest)
  {
    EdgesOnlyTransitive(st, st1, r);
  }

  /**
   The writer loop of a TIR Block: each registered writer is linked to the
   block's read buffers.  Every (writer, reader) resolution with different
   ids adds exactly one edge.
   */
  function LinkBlock(hash: Hash, st: Finder, writeBuffers: seq<Tensor>, readBuffers: seq<Tensor>): (r: Finder)
    requires Valid(st)
    ensures Valid(r) && EdgesOnly(st, r)
    ensures forall a: Handle, b: Handle :: a < |st.arena| ==>
      multiset(r.arena[a].dependsOn)[b] == multiset(st.arena[a].dependsOn)[b] +
        Times(Resolving(hash, st.nameToMemblock, writeBuffers, a), EdgeWeight(hash, st, readBuffers, a, b))
    decreases |writeBuffers|
  {
    if |writeBuffers| == 0 then st
    else
      var key := LookupKey(hash, writeBuffers[0]);
      var st1 := if key in st.nameToMemblock then LinkTo(hash, st, st.nameToMemblock[key], readBuffers) else st;
      FirstWriterCounts(hash, st, st1, writeBuffers[0], readBuffers);
      var r := LinkBlock(hash, st1, writeBuffers[1..], readBuffers);
      LinkBlockStep(hash, st, st1, r, writeBuffers, readBuffers);
      r
  }

  /** The edges the first write buffer contributes, counted per (writer, reader) pair. */
  lemma FirstWriterCounts(hash: Hash, st: Finder, st1: Finder, w: Tensor, readBuffers: seq<Tensor>)
    requires Valid(st)
    requires var key := LookupKey(hash, w);
      st1 == if key in st.nameToMemblock then LinkTo(hash, st, st.nameToMemblock[key], readBuffers) else st
    ensures Valid(st1) && EdgesOnly(st, st1)
    ensures forall a: Handle, b: Handle :: a < |st.arena| ==>
      multiset(st1.arena[a].dependsOn)[b] == multiset(st.arena[a].dependsOn)[b] +
        Times(ResolvesTo(hash, st.nameToMemblock, w, a), EdgeWeight(hash, st, readBuffers, a, b))
  {
    var key := LookupKey(hash, w);
    if key in st.nameToMemblock {
      var c := st.nameToMemblock[key];
      forall a: Handle, b: Handle | a < |st.arena|
        ensures multiset(st1.arena[a].dependsOn)[b] == multiset(st.arena[a].dependsOn)[b] +
          Times(ResolvesTo(hash, st.nameToMemblock, w, a), EdgeWeight(hash, st, readBuffers, a, b))
      {
        if a == c {
          assert st1.arena[a].dependsOn == st.arena[a].dependsOn + Readers(hash, st, a, readBuffers);
          ReadersCount(hash, st, a, readBuffers, b);
        }
      }
    }
  }

  /**
   `k * x`, spelled out as repeated addition so that the counting facts
   below stay linear for the solver; `TimesIsProduct` relates the two.
   */
  function Times(k: nat, x: nat): nat {
    if k == 0 then 0 else x + Times(k - 1, x)
  }

  lemma {:induction false} TimesIsProduct(k: nat, x: nat)
    ensures Times(k, x) == k * x
  {
    if k > 0 {
      TimesIsProduct(k - 1, x);
    }
  }

  lemma {:induction false} TimesDistributes(j: nat, k: nat, x: nat)
    ensures Times(j + k, x) == Times(j, x) + Times(k, x)
  {
    if j > 0 {
      TimesDistributes(j - 1, k, x);
    }
  }

  /** The counting step of `LinkBlock`: the first writer's edges plus the rest's. */
  lemma LinkBlockStep(hash: Hash, st: Finder, st1: Finder, r: Finder, writeBuffers: seq<Tensor>, readBuffers: seq<Tensor>)
    requires |writeBuffers| > 0
    requires EdgesOnly(st, st1) && EdgesOnly(st1, r)
    requires forall a: Handle, b: Handle :: a < |st.arena| ==>
      multiset(st1.arena[a].dependsOn)[b] == multiset(st.arena[a].dependsOn)[b] +
        Times(ResolvesTo(hash, st.nameToMemblock, writeBuffers[0], a), EdgeWeight(hash, st, readBuffers, a, b))
    requires forall a: Handle, b: Handle :: a < |st1.arena| ==>
      multiset(r.arena[a].dependsOn)[b] == multiset(st1.arena[a].dependsOn)[b] +
        Times(Resolving(hash, st1.nameToMemblock, writeBuffers[1..], a), EdgeWeight(hash, st1, readBuffers, a, b))
    ensures EdgesOnly(st, r)
    ensures forall a: Handle, b: Handle :: a < |st.arena| ==>
      multiset(r.arena[a].dependsOn)[b] == multiset(st.arena[a].dependsOn)[b] +
        Times(Resolving(hash, st.nameToMemblock, writeBuffers, a), EdgeWeight(hash, st, readBuffers, a, b))
  {
    EdgesOnlyTransitive(st, st1, r);
    forall a: Handle, b: Handle | a < |st.arena|
      ensures multiset(r.arena[a].dependsOn)[b] == multiset(st.arena[a].dependsOn)[b] +
        Times(Resolving(hash, st.nameToMemblock, writeBuffers, a), EdgeWeight(hash, st, readBuffers, a, b))
    {
      LinkBlockStepAt(hash, st, st1, r, writeBuffers, readBuffers, a, b);
    }
  }

  /** `LinkBlockStep` for one (writer, reader) pair. */
  lemma LinkBlockStepAt(hash: Hash, st: Finder, st1: Finder, r: Finder, writeBuffers: seq<Tensor>, readBuffers: seq<Tensor>, a: Handle, b: Handle)
    requires |writeBuffers| > 0 && a < |st.arena|
    requires EdgesOnly(st, st1)
    requires multiset(st1.arena[a].dependsOn)[b] == multiset(st.arena[a].dependsOn)[b] +
      Times(ResolvesTo(hash, st.nameToMemblock, writeBuffers[0], a), EdgeWeight(hash, st, readBuffers, a, b))
    requires |r.arena| == |st1.arena|
    requires multiset(r.arena[a].dependsOn)[b] == multiset(st1.arena[a].dependsOn)[b] +
      Times(Resolving(hash, st1.nameToMemblock, writeBuffers[1..], a), EdgeWeight(hash, st1, readBuffers, a, b))
    ensures multiset(r.arena[a].dependsOn)[b] == multiset(st.arena[a].dependsOn)[b] +
      Times(Resolving(hash, st.nameToMemblock, writeBuffers, a), EdgeWeight(hash, st, readBuffers, a, b))
  {
    EdgeWeightFrame(hash, st, st1, readBuffers, a, b);
    LinkBlockPairStep(hash, st.nameToMemblock, writeBuffers, EdgeWeight(hash, st, readBuffers, a, b), a,
      multiset(st.arena[a].dependsOn)[b], multiset(st1.arena[a].dependsOn)[b], multiset(r.arena[a].dependsOn)[b]);
  }

  lemma EdgeWeightFrame(hash: Hash, st: Finder, st1: Finder, ts: seq<Tensor>, a: Handle, b: Handle)
    requires EdgesOnly(st, st1) && a < |st.arena|
    ensures EdgeWeight(hash, st1, ts, a, b) == EdgeWeight(hash, st, ts, a, b)
  {
    if b < |st.arena| {
      assert SameContent(st1.arena[b], st.arena[b]);
    }
    assert SameContent(st1.arena[a], st.arena[a]);
  }

  lemma LinkBlockPairStep(hash: Hash, names: map<string, Handle>, writeBuffers: seq<Tensor>, x: nat, a: Handle, m: nat, m1: nat, mr: nat)
    requires |writeBuffers| > 0
    requires m1 == m + Times(ResolvesTo(hash, names, writeBuffers[0], a), x)
    requires mr == m1 + Times(Resolving(hash, names, writeBuffers[1..], a), x)
    ensures mr == m + Times(Resolving(hash, names, writeBuffers, a), x)
  {
    TimesDistributes(ResolvesTo(hash, names, writeBuffers[0], a), Resolving(hash, names, writeBuffers[1..], a), x);
  }

  /**
   The first half of a `call_tir` binding: the output block, built by
   `from_relax_output` with its origin then set to "relax.call_tir.<callee>",
   offered to `add_memblock`.  The handle is returned even when
   `add_memblock` skipped the block, because the edges are still wired to it.
   */
  function AddCallTirOutput(hash: Hash, st: Finder, f: string, out: Tensor, callee: string): (r: Result<(Finder, Handle)>)
    requires Valid(st)
    ensures r.Success? ==>
      && Valid(r.value.0)
      && r.value.1 == |st.arena| && |r.value.0.arena| == |st.arena| + 1
      && r.value.0.arena[r.value.1] == FromRelaxOutput(hash, out.name, out.info).(origin := Some("relax.call_tir." + callee))
  {
    var ob := FromRelaxOutput(hash, out.name, out.info).(origin := Some("relax.call_tir." + callee));
    var (st1, h) := Construct(st, ob);
    match AddMemblock(st1, f, h)
    case Failure(e) => Failure(e)
    case Success(st2) => Success((st2, h))
  }

  /** A `call_tir` binding, or any other binding (ignored). */
  function VisitBinding(hash: Hash, st: Finder, f: string, b: Binding): (r: Result<Finder>)
    requires Valid(st)
    ensures r.Success? ==> Valid(r.value) && Grows(st, r.value)
    ensures b.CallTir? && r.Success? ==>
      var added := AddCallTirOutput(hash, st, f, b.output, b.callee);
      var h := |st.arena|;
      && added.Success?
      && |r.value.arena| == h + 1
      && r.value.arena[h].origin == Some("relax.call_tir." + b.callee)
      && r.value.arena[h].name == b.output.name
      && r.value.arena[h].dependsOn == Readers(hash, added.value.0, h, b.args)
      && Filed(hash, r.value, f, b.output)
    ensures b.OtherBinding? ==> r == Success(st)
  {
    match b
    case OtherBinding => Success(st)
    case CallTir(out, callee, args) =>
      match AddCallTirOutput(hash, st, f, out, callee)
      case Failure(e) => Failure(e)
      case Success((st1, h)) =>
        var r := LinkTo(hash, st1, h, args);
        CallTirOutputFiled(hash, st, f, out, callee);
        EdgesOnlyGrows(st1, r);
        FiledGrows(hash, st1, r, f, out);
        GrowsTransitive(st, st1, r);
        Success(r)
  }

  /** After `AddCallTirOutput` the output's block is filed under `f`, and nothing was taken back. */
  lemma CallTirOutputFiled(hash: Hash, st: Finder, f: string, out: Tensor, callee: string)
    requires Valid(st)
    ensures var added := AddCallTirOutput(hash, st, f, out, callee);
      added.Success? ==> Grows(st, added.value.0) && Filed(hash, added.value.0, f, out)
  {
    var ob := FromRelaxOutput(hash, out.name, out.info).(origin := Some("relax.call_tir." + callee));
    var (st1, h) := Construct(st, ob);
    var r := AddMemblock(st1, f, h);
    if r.Success? {
      assert st1.arena[h].id == TensorId(hash, out);
      GrowsTransitive(st, st1, r.value);
    }
  }

  lemma OutputFiledGrows(hash: Hash, st: Finder, r: Finder, f: string, b: Binding)
    requires Valid(st) && Valid(r) && Grows(st, r)
    ensures b.CallTir? && Filed(hash, st, f, b.output) ==> Filed(hash, r, f, b.output)
  {
    if b.CallTir? && Filed(hash, st, f, b.output) {
      FiledGrows(hash, st, r, f, b.output);
    }
  }

  /** The bindings of one binding block, in order; every `call_tir` output ends up in `memblocks[f]`. */
  function VisitBindings(hash: Hash, st: Finder, f: string, bs: seq<Binding>): (r: Result<Finder>)
    requires Valid(st)
    ensures r.Success? ==> Valid(r.value) && Grows(st, r.value)
    ensures r.Success? ==> forall k :: 0 <= k < |bs| && bs[k].CallTir? ==> Filed(hash, r.value, f, bs[k].output)
    decreases |bs|
  {
    if |bs| == 0 then Success(st)
    else
      match VisitBinding(hash, st, f, bs[0])
      case Failure(e) => Failure(e)
      case Success(st1) =>
        var r := VisitBindings(hash, st1, f, bs[1..]);
        if r.Success? then
          OutputFiledGrows(hash, st1, r.value, f, bs[0]);
          GrowsTransitive(st, st1, r.value);
          assert forall k :: 1 <= k < |bs| ==> bs[k] == bs[1..][k - 1];
          r
        else r
  }

  /** One `relax.input` block per parameter, added in order; every parameter ends up in `memblocks[f]`. */
  function VisitParams(hash: Hash, st: Finder, f: string, params: seq<Tensor>): (r: Result<Finder>)
    requires Valid(st)
    ensures r.Success? ==> Valid(r.value) && Grows(st, r.value)
    ensures r.Success? ==> forall k :: 0 <= k < |params| ==> Filed(hash, r.value, f, params[k])
    decreases |params|
  {
    if |params| == 0 then Success(st)
    else
      var (st1, h) := Construct(st, FromRelaxInput(hash, params[0].name, params[0].info));
      match AddMemblock(st1, f, h)
      case Failure(e) => Failure(e)
      case Success(st2) =>
        var r := VisitParams(hash, st2, f, params[1..]);
        if r.Success? then
          FiledCons(hash, st2, r.value, f, params);
          GrowsTransitive(st, st1, st2);
          GrowsTransitive(st, st2, r.value);
          r
        else r
  }

  /** The first tensor, filed before the rest were visited, is still filed after them. */
  lemma FiledCons(hash: Hash, st: Finder, r: Finder, f: string, ts: seq<Tensor>)
    requires |ts| > 0 && Valid(st) && Valid(r) && Grows(st, r)
    requires Filed(hash, st, f, ts[0])
    requires forall k :: 0 <= k < |ts[1..]| ==> Filed(hash, r, f, ts[1..][k])
    ensures forall k :: 0 <= k < |ts| ==> Filed(hash, r, f, ts[k])
  {
    FiledGrows(hash, st, r, f, ts[0]);
    forall k | 1 <= k < |ts| ensures Filed(hash, r, f, ts[k]) {
      assert ts[k] == ts[1..][k - 1];
    }
  }

  /**
   `visit_relax_func`: parameters, then the bindings of `body.blocks[0]`;
   `blocks[0]` raises IndexError when there is no binding block.
   */
  function VisitRelax(hash: Hash, st: Finder, f: string, params: seq<Tensor>, blocks: seq<seq<Binding>>): (r: Result<Finder>)
    requires Valid(st)
    ensures r.Success? ==> Valid(r.value) && Grows(st, r.value)
    ensures |blocks| == 0 ==> r.Failure?
    ensures r.Success? ==> forall k :: 0 <= k < |params| ==> Filed(hash, r.value, f, params[k])
    ensures r.Success? ==> forall k :: 0 <= k < |blocks[0]| && blocks[0][k].CallTir? ==> Filed(hash, r.value, f, blocks[0][k].output)
  {
    match VisitParams(hash, st, f, params)
    case Failure(e) => Failure(e)
    case Success(st1) =>
      if |blocks| == 0 then Failure(NoBindingBlock)
      else
        var r := VisitBindings(hash, st1, f, blocks[0]);
        if r.Success? then
          forall k | 0 <= k < |params| { FiledGrows(hash, st1, r.value, f, params[k]); }
          GrowsTransitive(st, st1, r.value);
          r
        else r
  }

  /** Binding blocks after the first are never looked at. */
  lemma VisitRelaxFirstBlockOnly(hash: Hash, st: Finder, f: string, params: seq<Tensor>, blocks: seq<seq<Binding>>, later: seq<seq<Binding>>)
    requires Valid(st) && |blocks| > 0
    ensures VisitRelax(hash, st, f, params, blocks + later) == VisitRelax(hash, st, f, params, blocks[..1])
  {
    assert (blocks + later)[0] == blocks[..1][0];
  }

  /** The `visitor` of `visit_tir_func`, for one statement. */
  function VisitStmt(hash: Hash, st: Finder, f: string, s: Stmt): (r: Result<Finder>)
    requires Valid(st)
    ensures r.Success? ==> Valid(r.value) && Grows(st, r.value)
    ensures s.Allocate? || s.AllocateConst? ==> r == Failure(AllocateUnsupported)
    ensures s.BlockStmt? ==> r == Success(LinkBlock(hash, st, s.writeBuffers, s.readBuffers))
    ensures s.BufferStore? ==>
      var (st1, h) := Construct(st, FromTirBuffer(hash, s.buffer.name, s.buffer.info, Some(f)));
      r == AddMemblock(st1, f, h)
    ensures s.BufferStore? && r.Success? ==> Filed(hash, r.value, f, s.buffer)
    ensures s.OtherStmt? ==> r == Success(st)
  {
    match s
    case Allocate => Failure(AllocateUnsupported)
    case AllocateConst => Failure(AllocateUnsupported)
    case BufferStore(buf) =>
      var (st1, h) := Construct(st, FromTirBuffer(hash, buf.name, buf.info, Some(f)));
      var r := AddMemblock(st1, f, h);
      if r.Success? then
        assert st1.arena[h].id == TensorId(hash, buf);
        GrowsTransitive(st, st1, r.value);
        r
      else r
    case BlockStmt(readBuffers, writeBuffers) =>
      var r := LinkBlock(hash, st, writeBuffers, readBuffers);
      EdgesOnlyGrows(st, r);
      Success(r)
    case OtherStmt => Success(st)
  }

  lemma StoreFiledGrows(hash: Hash, st: Finder, r: Finder, f: string, s: Stmt)
    requires Valid(st) && Valid(r) && Grows(st, r)
    ensures s.BufferStore? && Filed(hash, st, f, s.buffer) ==> Filed(hash, r, f, s.buffer)
  {
    if s.BufferStore? && Filed(hash, st, f, s.buffer) {
      FiledGrows(hash, st, r, f, s.buffer);
    }
  }

  /** No `Allocate` or `AllocateConst` among the statements. */
  predicate AllocationFree(body: seq<Stmt>) {
    forall k :: 0 <= k < |body| ==> !body[k].Allocate? && !body[k].AllocateConst?
  }

  /**
   `post_order_visit(func.body, visitor)` over the statements in post-order:
   any allocation raises, and every BufferStore target ends up in `memblocks[f]`.
   */
  function VisitTir(hash: Hash, st: Finder, f: string, body: seq<Stmt>): (r: Result<Finder>)
    requires Valid(st)
    ensures r.Success? ==> Valid(r.value) && Grows(st, r.value)
    ensures !AllocationFree(body) ==> r.Failure?
    ensures r.Success? ==> forall k :: 0 <= k < |body| && body[k].BufferStore? ==> Filed(hash, r.value, f, body[k].buffer)
    decreases |body|
  {
    if |body| == 0 then Success(st)
    else
      AllocationFreeCons(body);
      match VisitStmt(hash, st, f, body[0])
      case Failure(e) => Failure(e)
      case Success(st1) =>
        var r := VisitTir(hash, st1, f, body[1..]);
        if r.Success? then
          StoresCons(hash, st1, r.value, f, body);
          GrowsTransitive(st, st1, r.value);
          r
        else r
  }

  /** The first statement's store, filed before the rest were visited, is still filed after them. */
  lemma StoresCons(hash: Hash, st: Finder, r: Finder, f: string, body: seq<Stmt>)
    requires |body| > 0 && Valid(st) && Valid(r) && Grows(st, r)
    requires body[0].BufferStore? ==> Filed(hash, st, f, body[0].buffer)
    requires forall k :: 0 <= k < |body[1..]| && body[1..][k].BufferStore? ==> Filed(hash, r, f, body[1..][k].buffer)
    ensures forall k :: 0 <= k < |body| && body[k].BufferStore? ==> Filed(hash, r, f, body[k].buffer)
  {
    StoreFiledGrows(hash, st, r, f, body[0]);
    forall k | 1 <= k < |body| && body[k].BufferStore? ensures Filed(hash, r, f, body[k].buffer) {
      assert body[k] == body[1..][k - 1];
    }
  }

  /** An allocation anywhere in the body is still there after the first statement is dropped. */
  lemma AllocationFreeCons(body: seq<Stmt>)
    requires |body| > 0
    ensures AllocationFree(body) <==> !body[0].Allocate? && !body[0].AllocateConst? && AllocationFree(body[1..])
  {
    if !body[0].Allocate? && !body[0].AllocateConst? && AllocationFree(body[1..]) {
      forall k | 1 <= k < |body| ensures !body[k].Allocate? && !body[k].AllocateConst? {
        assert body[k] == body[1..][k - 1];
      }
    }
  }

  /** The blocks visiting `g` files under `g.nameHint`: its parameters and outputs, or its store targets. */
  ghost predicate Collected(hash: Hash, st: Finder, g: GlobalFunction)
    requires Valid(st)
  {
    match g.func
    case RelaxFunction(params, blocks) =>
      && (forall k :: 0 <= k < |params| ==> Filed(hash, st, g.nameHint, params[k]))
      && (|blocks| > 0 ==> forall k :: 0 <= k < |blocks[0]| && blocks[0][k].CallTir? ==> Filed(hash, st, g.nameHint, blocks[0][k].output))
    case PrimFunc(body) =>
      && AllocationFree(body)
      && (forall k :: 0 <= k < |body| && body[k].BufferStore? ==> Filed(hash, st, g.nameHint, body[k].buffer))
    case OtherFunction => true
  }

  lemma CollectedGrows(hash: Hash, st: Finder, r: Finder, g: GlobalFunction)
    requires Valid(st) && Valid(r) && Grows(st, r)
    requires Collected(hash, st, g)
    ensures Collected(hash, r, g)
  {
    match g.func
    case RelaxFunction(params, blocks) =>
      forall k | 0 <= k < |params| ensures Filed(hash, r, g.nameHint, params[k]) {
        FiledGrows(hash, st, r, g.nameHint, params[k]);
      }
      if |blocks| > 0 {
        forall k | 0 <= k < |blocks[0]| && blocks[0][k].CallTir? ensures Filed(hash, r, g.nameHint, blocks[0][k].output) {
          FiledGrows(hash, st, r, g.nameHint, blocks[0][k].output);
        }
      }
    case PrimFunc(body) =>
      forall k | 0 <= k < |body| && body[k].BufferStore? ensures Filed(hash, r, g.nameHint, body[k].buffer) {
        FiledGrows(hash, st, r, g.nameHint, body[k].buffer);
      }
    case OtherFunction =>
  }

  /** The dispatch of `walk`: Relax functions and PrimFuncs are visited, anything else skipped. */
  function VisitFunction(hash: Hash, st: Finder, g: GlobalFunction): (r: Result<Finder>)
    requires Valid(st)
    ensures r.Success? ==> Valid(r.value) && Grows(st, r.value) && Collected(hash, r.value, g)
    ensures g.func.RelaxFunction? ==> r == VisitRelax(hash, st, g.nameHint, g.func.params, g.func.blocks)
    ensures g.func.PrimFunc? ==> r == VisitTir(hash, st, g.nameHint, g.func.body)
    ensures g.func.OtherFunction? ==> r == Success(st)
  {
    match g.func
    case RelaxFunction(params, blocks) => VisitRelax(hash, st, g.nameHint, params, blocks)
    case PrimFunc(body) => VisitTir(hash, st, g.nameHint, body)
    case OtherFunction => Success(st)
  }

  /** The loop of `walk` from function `mod[0]` on: every function visited is collected. */
  function WalkFrom(hash: Hash, st: Finder, mod: seq<GlobalFunction>): (r: Result<Finder>)
    requires Valid(st)
    ensures r.Success? ==> Valid(r.value) && Grows(st, r.value)
    ensures r.Success? ==> forall k :: 0 <= k < |mod| ==> Collected(hash, r.value, mod[k])
    decreases |mod|
  {
    if |mod| == 0 then Success(st)
    else
      match VisitFunction(hash, st, mod[0])
      case Failure(e) => Failure(e)
      case Success(st1) =>
        var r := WalkFrom(hash, st1, mod[1..]);
        if r.Success? then
          CollectedGrows(hash, st1, r.value, mod[0]);
          GrowsTransitive(st, st1, r.value);
          assert forall k :: 1 <= k < |mod| ==> mod[k] == mod[1..][k - 1];
          r
        else r
  }

  /**
   `AllocationFinder(mod).walk()`: the finder state after visiting every
   function in order.  When it succeeds, every Relax parameter, every
   `call_tir` output of a first binding block and every BufferStore target
   has a block in its function's list, and no PrimFunc allocates.
   */
  function Walk(hash: Hash, mod: seq<GlobalFunction>): (r: Result<Finder>)
    ensures r.Success? ==> Valid(r.value)
    ensures r.Success? ==> forall k :: 0 <= k < |mod| ==> Collected(hash, r.value, mod[k])
  {
    WalkFrom(hash, Init(), mod)
  }
}
