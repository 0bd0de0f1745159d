/**
 What every state the AllocationFinder reaches satisfies: the lookup table
 agrees with the blocks it names, every dependency target is a registered
 block, the ids within each function's list are pairwise distinct, the
 `depends_on`/`links_to` lists mirror each other, and no block depends on a
 block of its own id.
 */
module FinderInvariants {
  import opened Results
  import opened MemBlocks
  import opened Ir
  import opened AllocationFinder

  /** `h` sits in the list of some function. */
  ghost predicate Registered(st: Finder, h: Handle) {
    exists f :: f in st.memblocks && h in st.memblocks[f]
  }

  /** Every function's list in `st` is a prefix of its list in `st'`. */
  ghost predicate ListsGrow(st: Finder, st': Finder) {
    forall f :: f in st.memblocks ==> f in st'.memblocks && st.memblocks[f] <= st'.memblocks[f]
  }

  /** `name_to_memblock["name:id"]` is a block with that name and id. */
  ghost predicate KeysMatch(st: Finder)
    requires Valid(st)
  {
    forall key :: key in st.nameToMemblock ==>
      key == Key(st.arena[st.nameToMemblock[key]].name, st.arena[st.nameToMemblock[key]].id)
  }

  ghost predicate NamesRegistered(st: Finder) {
    forall key :: key in st.nameToMemblock ==> Registered(st, st.nameToMemblock[key])
  }

  /** Dependency edges only ever point at registered blocks. */
  ghost predicate DepsRegistered(st: Finder) {
    forall a, k :: 0 <= a < |st.arena| && 0 <= k < |st.arena[a].dependsOn| ==> Registered(st, st.arena[a].dependsOn[k])
  }

  /** Within each `memblocks[f]` the ids are pairwise distinct. */
  ghost predicate DistinctIds(st: Finder)
    requires Valid(st)
  {
    forall f, i, j :: f in st.memblocks && 0 <= i < j < |st.memblocks[f]| ==>
      st.arena[st.memblocks[f][i]].id != st.arena[st.memblocks[f][j]].id
  }

  ghost predicate Inv(st: Finder) {
    && Valid(st)
    && KeysMatch(st)
    && NamesRegistered(st)
    && DepsRegistered(st)
    && DistinctIds(st)
    && Mirrored(st.arena)
    && NoSelfDependency(st.arena)
  }

  lemma RegisteredGrows(st: Finder, st': Finder, h: Handle)
    requires ListsGrow(st, st') && Registered(st, h)
    ensures Registered(st', h)
  {
    var f :| f in st.memblocks && h in st.memblocks[f];
    var k :| 0 <= k < |st.memblocks[f]| && st.memblocks[f][k] == h;
    assert st'.memblocks[f][k] == h;
  }

  lemma InitInv()
    ensures Inv(Init())
  {
  }

  lemma ConstructInv(st: Finder, b: Block)
    requires Inv(st) && b.dependsOn == [] && b.linksTo == []
    ensures Inv(Construct(st, b).0)
  {
    AppendKeepsMirror(st.arena, b);
    ConstructKeepsKeys(st, b);
    ConstructKeepsRegistered(st, b);
  }

  /** The old blocks keep their names and ids, so the table and the per-function ids are unaffected. */
  lemma ConstructKeepsKeys(st: Finder, b: Block)
    requires Valid(st) && KeysMatch(st) && DistinctIds(st) && b.dependsOn == [] && b.linksTo == []
    ensures var st' := Construct(st, b).0; KeysMatch(st') && DistinctIds(st')
  {
    var st' := Construct(st, b).0;
    assert forall x :: 0 <= x < |st.arena| ==> st'.arena[x] == st.arena[x];
  }

  /** The new block has no dependencies and the lists do not change. */
  lemma ConstructKeepsRegistered(st: Finder, b: Block)
    requires Valid(st) && NamesRegistered(st) && DepsRegistered(st) && b.dependsOn == [] && b.linksTo == []
    ensures var st' := Construct(st, b).0; NamesRegistered(st') && DepsRegistered(st')
  {
    var st' := Construct(st, b).0;
    assert forall x :: 0 <= x < |st.arena| ==> st'.arena[x] == st.arena[x];
    assert forall h: Handle :: Registered(st, h) ==> Registered(st', h);
  }

  /** `add_memblock` keeps the invariant; in particular ids within a function stay distinct. */
  lemma AddMemblockInv(st: Finder, f: string, h: Handle)
    requires Inv(st) && h < |st.arena|
    ensures AddMemblock(st, f, h).Success? ==> Inv(AddMemblock(st, f, h).value)
  {
    var r := AddMemblock(st, f, h);
    if r.Success? && st.arena[h].id !in Ids(st, f) {
      var st' := r.value;
      assert st' == Register(st, f, h) && st'.arena == st.arena;
      RegisterGrows(st, f, h, st');
      RegisterKeepsRegistered(st, f, h, st');
      RegisterKeepsDistinct(st, f, h, st');
    }
  }

  /** The new key names `h`, which is now registered; old entries stay registered. */
  lemma RegisterKeepsRegistered(st: Finder, f: string, h: Handle, st': Finder)
    requires Valid(st) && NamesRegistered(st) && DepsRegistered(st) && h < |st.arena|
    requires st' == Register(st, f, h)
    requires ListsGrow(st, st') && Registered(st', h)
    ensures NamesRegistered(st') && DepsRegistered(st')
  {
    forall key | key in st'.nameToMemblock
      ensures Registered(st', st'.nameToMemblock[key])
    {
      if key != Key(st.arena[h].name, st.arena[h].id) {
        RegisteredGrows(st, st', st.nameToMemblock[key]);
      }
    }
    forall a, k | 0 <= a < |st'.arena| && 0 <= k < |st'.arena[a].dependsOn|
      ensures Registered(st', st'.arena[a].dependsOn[k])
    {
      RegisteredGrows(st, st', st.arena[a].dependsOn[k]);
    }
  }

  /** Registering `h` under `f` only extends the lists, and `h` becomes registered. */
  lemma RegisterGrows(st: Finder, f: string, h: Handle, st': Finder)
    requires Valid(st) && h < |st.arena|
    requires st' == Register(st, f, h)
    ensures ListsGrow(st, st') && Registered(st', h)
  {
    forall g | g in st.memblocks
      ensures g in st'.memblocks && st.memblocks[g] <= st'.memblocks[g]
    {
      assert ListOf(st, g) == st.memblocks[g];
      if g != f {
        assert ListOf(st', g) == ListOf(st, g);
      }
    }
    assert f in st'.memblocks && h in st'.memblocks[f] by {
      assert ListOf(st', f) == ListOf(st, f) + [h];
    }
  }

  /** Appending a block whose id is new to `memblocks[f]` keeps every list's ids distinct. */
  lemma RegisterKeepsDistinct(st: Finder, f: string, h: Handle, st': Finder)
    requires Valid(st) && DistinctIds(st) && h < |st.arena|
    requires st.arena[h].id !in Ids(st, f)
    requires st' == Register(st, f, h)
    ensures DistinctIds(st')
  {
    forall g, i, j | g in st'.memblocks && 0 <= i < j < |st'.memblocks[g]|
      ensures st'.arena[st'.memblocks[g][i]].id != st'.arena[st'.memblocks[g][j]].id
    {
      if g == f {
        var l := ListOf(st, f);
        assert st'.memblocks[g] == l + [h];
        if j == |l| {
          assert Ids(st, f)[i] == st.arena[l[i]].id;
        } else {
          assert f in st.memblocks;
        }
      } else {
        assert ListOf(st', g) == ListOf(st, g);
        assert g in st.memblocks;
      }
    }
  }

  /** An edge to a registered block of a different id keeps the invariant. */
  lemma LinkInv(st: Finder, consumer: Handle, producer: Handle)
    requires Inv(st) && consumer < |st.arena| && producer < |st.arena|
    requires Registered(st, producer)
    requires st.arena[consumer].id != st.arena[producer].id
    ensures Inv(Link(st, consumer, producer))
  {
    AddEdgeKeepsMirror(st.arena, consumer, producer);
    AddEdgeKeepsNoSelfDependency(st.arena, consumer, producer);
    LinkKeepsKeys(st, consumer, producer);
    LinkKeepsRegistered(st, consumer, producer);
  }

  /** Edges leave names and ids alone. */
  lemma LinkKeepsKeys(st: Finder, consumer: Handle, producer: Handle)
    requires Valid(st) && KeysMatch(st) && DistinctIds(st) && consumer < |st.arena| && producer < |st.arena|
    ensures var st' := Link(st, consumer, producer); KeysMatch(st') && DistinctIds(st')
  {
    var st' := Link(st, consumer, producer);
    forall key | key in st'.nameToMemblock
      ensures key == Key(st'.arena[st'.nameToMemblock[key]].name, st'.arena[st'.nameToMemblock[key]].id)
    {
      assert SameContent(st'.arena[st.nameToMemblock[key]], st.arena[st.nameToMemblock[key]]);
    }
    forall g, i, j | g in st'.memblocks && 0 <= i < j < |st'.memblocks[g]|
      ensures st'.arena[st'.memblocks[g][i]].id != st'.arena[st'.memblocks[g][j]].id
    {
      assert SameContent(st'.arena[st.memblocks[g][i]], st.arena[st.memblocks[g][i]]);
      assert SameContent(st'.arena[st.memblocks[g][j]], st.arena[st.memblocks[g][j]]);
    }
  }

  /** The new dependency targets a registered block, and the lists do not change. */
  lemma LinkKeepsRegistered(st: Finder, consumer: Handle, producer: Handle)
    requires Valid(st) && NamesRegistered(st) && DepsRegistered(st) && consumer < |st.arena| && producer < |st.arena|
    requires Registered(st, producer)
    ensures var st' := Link(st, consumer, producer); NamesRegistered(st') && DepsRegistered(st')
  {
    var st' := Link(st, consumer, producer);
    forall a, k | 0 <= a < |st'.arena| && 0 <= k < |st'.arena[a].dependsOn|
      ensures Registered(st', st'.arena[a].dependsOn[k])
    {
      if a == consumer && k == |st.arena[a].dependsOn| {
        assert st'.arena[a].dependsOn[k] == producer;
      } else {
        assert st'.arena[a].dependsOn[k] == st.arena[a].dependsOn[k];
      }
    }
  }

  lemma {:induction false} LinkToInv(hash: Hash, st: Finder, consumer: Handle, ts: seq<Tensor>)
    requires Inv(st) && consumer < |st.arena|
    ensures Inv(LinkTo(hash, st, consumer, ts))
    decreases |ts|
  {
    if |ts| > 0 {
      var key := LookupKey(hash, ts[0]);
      if key in st.nameToMemblock && st.arena[st.nameToMemblock[key]].id != st.arena[consumer].id {
        LinkInv(st, consumer, st.nameToMemblock[key]);
        LinkToInv(hash, Link(st, consumer, st.nameToMemblock[key]), consumer, ts[1..]);
      } else {
        LinkToInv(hash, st, consumer, ts[1..]);
      }
    }
  }

  lemma {:induction false} LinkBlockInv(hash: Hash, st: Finder, writeBuffers: seq<Tensor>, readBuffers: seq<Tensor>)
    requires Inv(st)
    ensures Inv(LinkBlock(hash, st, writeBuffers, readBuffers))
    decreases |writeBuffers|
  {
    if |writeBuffers| > 0 {
      var key := LookupKey(hash, writeBuffers[0]);
      if key in st.nameToMemblock {
        LinkToInv(hash, st, st.nameToMemblock[key], readBuffers);
        LinkBlockInv(hash, LinkTo(hash, st, st.nameToMemblock[key], readBuffers), writeBuffers[1..], readBuffers);
      } else {
        LinkBlockInv(hash, st, writeBuffers[1..], readBuffers);
      }
    }
  }

  lemma VisitStmtInv(hash: Hash, st: Finder, f: string, s: Stmt)
    requires Inv(st)
    ensures VisitStmt(hash, st, f, s).Success? ==> Inv(VisitStmt(hash, st, f, s).value)
  {
    match s
    case BufferStore(buf) =>
      var b := FromTirBuffer(hash, buf.name, buf.info, Some(f));
      ConstructInv(st, b);
      AddMemblockInv(Construct(st, b).0, f, |st.arena|);
    case BlockStmt(readBuffers, writeBuffers) =>
      LinkBlockInv(hash, st, writeBuffers, readBuffers);
    case _ =>
  }

  lemma {:induction false} VisitTirInv(hash: Hash, st: Finder, f: string, body: seq<Stmt>)
    requires Inv(st)
    ensures VisitTir(hash, st, f, body).Success? ==> Inv(VisitTir(hash, st, f, body).value)
    decreases |body|
  {
    if |body| > 0 {
      VisitStmtInv(hash, st, f, body[0]);
      var r := VisitStmt(hash, st, f, body[0]);
      if r.Success? {
        VisitTirInv(hash, r.value, f, body[1..]);
      }
    }
  }

  lemma {:induction false} VisitParamsInv(hash: Hash, st: Finder, f: string, params: seq<Tensor>)
    requires Inv(st)
    ensures VisitParams(hash, st, f, params).Success? ==> Inv(VisitParams(hash, st, f, params).value)
    decreases |params|
  {
    if |params| > 0 {
      var b := FromRelaxInput(hash, params[0].name, params[0].info);
      ConstructInv(st, b);
      var st1 := Construct(st, b).0;
      AddMemblockInv(st1, f, |st.arena|);
      var r := AddMemblock(st1, f, |st.arena|);
      if r.Success? {
        VisitParamsInv(hash, r.value, f, params[1..]);
      }
    }
  }

  lemma VisitBindingInv(hash: Hash, st: Finder, f: string, b: Binding)
    requires Inv(st)
    ensures VisitBinding(hash, st, f, b).Success? ==> Inv(VisitBinding(hash, st, f, b).value)
  {
    match b
    case CallTir(out, callee, args) =>
      var ob := FromRelaxOutput(hash, out.name, out.info).(origin := Some("relax.call_tir." + callee));
      ConstructInv(st, ob);
      var st1 := Construct(st, ob).0;
      AddMemblockInv(st1, f, |st.arena|);
      var r := AddMemblock(st1, f, |st.arena|);
      if r.Success? {
        LinkToInv(hash, r.value, |st.arena|, args);
      }
    case OtherBinding =>
  }

  lemma {:induction false} VisitBindingsInv(hash: Hash, st: Finder, f: string, bs: seq<Binding>)
    requires Inv(st)
    ensures VisitBindings(hash, st, f, bs).Success? ==> Inv(VisitBindings(hash, st, f, bs).value)
    decreases |bs|
  {
    if |bs| > 0 {
      VisitBindingInv(hash, st, f, bs[0]);
      var r := VisitBinding(hash, st, f, bs[0]);
      if r.Success? {
        VisitBindingsInv(hash, r.value, f, bs[1..]);
      }
    }
  }

  lemma VisitFunctionInv(hash: Hash, st: Finder, g: GlobalFunction)
    requires Inv(st)
    ensures VisitFunction(hash, st, g).Success? ==> Inv(VisitFunction(hash, st, g).value)
  {
    match g.func
    case RelaxFunction(params, blocks) =>
      VisitParamsInv(hash, st, g.nameHint, params);
      var r := VisitParams(hash, st, g.nameHint, params);
      if r.Success? && |blocks| > 0 {
        VisitBindingsInv(hash, r.value, g.nameHint, blocks[0]);
      }
    case PrimFunc(body) =>
      VisitTirInv(hash, st, g.nameHint, body);
    case OtherFunction =>
  }

  lemma {:induction false} WalkFromInv(hash: Hash, st: Finder, mod: seq<GlobalFunction>)
    requires Inv(st)
    ensures WalkFrom(hash, st, mod).Success? ==> Inv(WalkFrom(hash, st, mod).value)
    decreases |mod|
  {
    if |mod| > 0 {
      VisitFunctionInv(hash, st, mod[0]);
      var r := VisitFunction(hash, st, mod[0]);
      if r.Success? {
        WalkFromInv(hash, r.value, mod[1..]);
      }
    }
  }

  /**
   After a successful walk: ids are distinct within each function, the two
   edge lists mirror each other, no block depends on a block of its own id,
   and every dependency points at a registered block.
   */
  lemma WalkInv(hash: Hash, mod: seq<GlobalFunction>)
    ensures Walk(hash, mod).Success? ==> Inv(Walk(hash, mod).value)
  {
    InitInv();
    WalkFromInv(hash, Init(), mod);
  }
}
