/**
  pb_release and pb_release_single_field of nanopb, on a memory of structs and
  allocated blocks.
*/
module PbRelease {
  import opened PbReleaseSpec

  class Heap {
    var mem: Memory
    ghost var frees: nat            // calls of free() on a block

    constructor (m: Memory)
      ensures mem == m && frees == 0
    {
      mem, frees := m, 0;
    }

    /** `pb_free`: NULL is ignored; a block must not be freed twice. */
    method Free(a: Addr)
      requires a != 0 ==> a in mem.blocks
      modifies this
      ensures mem == (if a == 0 then old(mem) else old(mem).(blocks := old(mem).blocks - {a}))
      ensures frees == old(frees) + if a == 0 then 0 else 1
    {
      if a != 0 {
        mem := mem.(blocks := mem.blocks - {a});
        frees := frees + 1;
      }
    }

    /** `pb_release`: every block that can be reached from the struct is freed, once; nothing else
        is freed; and afterwards nothing is left to free. */
    method Release(env: Table, t: nat, s: Addr, ghost c: Plan)
      requires s != 0 ==> Tidy(env, mem, c, t, s)
      modifies this
      ensures s == 0 ==> mem == old(mem) && frees == old(frees)
      ensures s != 0 ==>
        && Tidy(env, mem, c, t, s) && Live(env, mem, c, t, s) == {}
        && Released(old(mem), mem, Live(env, old(mem), c, t, s), c[s])
        && frees == old(frees) + |Live(env, old(mem), c, t, s)|
      decreases if s in c then c[s] else {}, 3, 0
    {
      hide Tidy, Released, Live;
      if s != 0 {
        ReleaseFields(env, t, s, c);
      }
    }

    /** A second call frees nothing: all pointers that can be reached are NULL. */
    method ReleaseTwice(env: Table, t: nat, s: Addr, ghost c: Plan)
      requires s != 0 && Tidy(env, mem, c, t, s)
      modifies this
      ensures mem.blocks == old(mem).blocks - Live(env, old(mem), c, t, s)
      ensures frees == old(frees) + |Live(env, old(mem), c, t, s)|
    {
      hide Tidy, Live;
      Release(env, t, s, c);
      Release(env, t, s, c);
    }

    /** The loop of `pb_release` over the fields. */
    method ReleaseFields(env: Table, t: nat, s: Addr, ghost c: Plan)
      requires Tidy(env, mem, c, t, s)
      modifies this
      ensures Tidy(env, mem, c, t, s) && Live(env, mem, c, t, s) == {}
      ensures Released(old(mem), mem, Live(env, old(mem), c, t, s), c[s])
      ensures frees == old(frees) + |Live(env, old(mem), c, t, s)|
      decreases if s in c then c[s] else {}, 2, 0
    {
      hide Tidy, Local, TidyField, FieldsDone, FieldDone, LiveField, LiveFields, Released;
      ghost var m := mem;
      TidyLocal(env, m, c, t, s);
      NoFieldDone(env, m, c, t, s);
      var i := 0;
      while i < |env[t]|
        invariant 0 <= i <= |env[t]|
        invariant Tidy(env, mem, c, t, s) && FieldsDone(env, m, mem, c, t, s, i)
        invariant frees == old(frees) + |LiveFields(env, m, c, t, s, i)|
        decreases |env[t]| - i
      {
        ghost var n := mem;
        ReleaseField(env, t, s, i, c);
        FieldReleased(env, m, n, mem, c, t, s, i);
        i := i + 1;
      }
      AllFieldsDone(env, m, mem, c, t, s);
    }

    /** The structs of a submessage field or array: the loop over `pItem`. */
    method ReleaseItems(env: Table, sub: nat, items: seq<Addr>, count: nat, ghost c: Plan, ghost bound: set<Addr>)
      requires count <= |items|
      requires AllTidy(env, mem, c, sub, items[..count], bound)
      requires forall j: nat, k: nat | j < k < count :: c[items[..count][j]] !! c[items[..count][k]]
      modifies this
      ensures AllTidy(env, mem, c, sub, items[..count], bound) && LiveItems(env, mem, c, sub, items[..count], bound) == {}
      ensures Released(old(mem), mem, LiveItems(env, old(mem), c, sub, items[..count], bound), Regions(c, items[..count]))
      ensures frees == old(frees) + |LiveItems(env, old(mem), c, sub, items[..count], bound)|
      decreases bound, 0, 0
    {
      hide Tidy, Local, TidyField, Live, Released, ItemsDone, LiveItems, Regions;
      ghost var m, xs := mem, items[..count];
      NothingDone(env, m, c, sub, xs, bound);
      var k := 0;
      while k < count
        invariant 0 <= k <= count
        invariant ItemsDone(env, m, mem, c, sub, xs, bound, k)
        invariant frees == old(frees) + |LiveItems(env, m, c, sub, xs[..k], bound)|
      {
        ghost var n := mem;
        assert xs[k] == items[k];
        ItemTidy(env, m, n, c, sub, xs, bound, k);
        Release(env, sub, items[k], c);
        ItemsStep(env, m, n, mem, c, sub, xs, bound, k);
        DisjointSize(LiveItems(env, m, c, sub, xs[..k], bound), Live(env, m, c, sub, xs[k]));
        k := k + 1;
      }
      assert xs[..k] == xs;
      AllItemsDone(env, m, mem, c, sub, xs, bound);
    }

    /** The first part of `pb_release_single_field`: release what submessages contain. */
    method ReleaseContents(env: Table, t: nat, s: Addr, i: nat, ghost c: Plan)
      requires Tidy(env, mem, c, t, s) && i < |env[t]| && Active(env[t][i], mem.structs[s])
      modifies this
      ensures ContentsDone(env, old(mem), mem, c, t, s, i)
      ensures frees == old(frees) + |LiveField(env, old(mem), c, t, s, i)| - |Own(env[t][i], old(mem).structs[s], old(mem))|
      decreases c[s], 1, 0
    {
      hide Tidy, LiveField, LiveItems, AllTidy, Regions;
      ghost var m := mem;
      TidyLocal(env, m, c, t, s);
      LiveSplit(env, m, c, t, s, i);
      var f, st := env[t][i], mem.structs[s];
      ghost var xs := Children(f, st, m);
      if f.kind.Message? && !f.alloc.Callback? {
        var pItem: seq<Addr> := [];
        var present := true;
        if f.alloc.Pointer? {
          present := st.cells[f.slot].target != 0;
          if present {
            pItem := mem.blocks[st.cells[f.slot].target].items;
          }
        } else {
          pItem := st.cells[f.slot].items;
        }
        var count := Count(f, st);
        if present && count > 0 {
          assert pItem[..count] == xs;
          ReleaseItems(env, f.kind.sub, pItem, count, c, c[s]);
        }
      }
      if xs == [] {
        Untouched(m, Regions(c, xs));
      }
    }

    /** The entries of an array of texts: the loop over `*pItem++`. */
    method ReleaseTexts(a: Addr, count: nat)
      requires a in mem.blocks && mem.blocks[a].Texts? && count == |mem.blocks[a].texts|
      requires a !in mem.blocks[a].texts && DistinctTexts(mem.blocks[a].texts)
      requires NonNull(mem.blocks[a].texts) <= mem.blocks.Keys
      modifies this
      ensures mem.structs == old(mem.structs) && a in mem.blocks
      ensures WithoutSome(old(mem.blocks), mem.blocks, NonNull(old(mem.blocks[a].texts)), a)
      ensures frees == old(frees) + |NonNull(old(mem.blocks[a].texts))|
    {
      hide NonNull, WithoutSome, DistinctTexts;
      ghost var m, texts := mem, mem.blocks[a].texts;
      NoTexts(texts);
      NoneWithout(m.blocks, a);
      var k := 0;
      while k < count
        invariant 0 <= k <= count && mem.structs == m.structs
        invariant a in mem.blocks && mem.blocks[a].Texts? && |mem.blocks[a].texts| == count
        invariant forall j: nat | k <= j < count :: mem.blocks[a].texts[j] == texts[j]
        invariant WithoutSome(m.blocks, mem.blocks, NonNull(texts[..k]), a)
        invariant frees == old(frees) + |NonNull(texts[..k])|
      {
        TextStep(texts, k);
        if texts[k] != 0 {
          StillThere(m.blocks, mem.blocks, NonNull(texts[..k]), a, texts[k]);
        }
        OneMore(m.blocks, mem.blocks, NonNull(texts[..k]), a, texts[k], Texts(mem.blocks[a].texts[k := 0]));
        ReleaseText(a, k);
        k := k + 1;
      }
      assert texts[..k] == texts;
    }

    /** `pb_free(*pItem); *pItem++ = NULL;` */
    method ReleaseText(a: Addr, k: nat)
      requires a in mem.blocks && mem.blocks[a].Texts? && k < |mem.blocks[a].texts|
      requires var x := mem.blocks[a].texts[k]; x != a && (x != 0 ==> x in mem.blocks)
      modifies this
      ensures mem.structs == old(mem.structs)
      ensures var x := old(mem.blocks[a].texts[k]);
        && mem.blocks == (old(mem.blocks) - (if x == 0 then {} else {x}))[a := Texts(old(mem.blocks[a].texts)[k := 0])]
        && frees == old(frees) + if x == 0 then 0 else 1
    {
      var x := mem.blocks[a].texts[k];
      Free(x);
      mem := mem.(blocks := mem.blocks[a := Texts(mem.blocks[a].texts[k := 0])]);
    }

    /** The second part of `pb_release_single_field`: free the field's own blocks. */
    method ReleasePointer(f: Member, s: Addr, ghost c: Plan)
      requires s in mem.structs && s in c && FieldTidy(f, mem.structs[s], mem, c, s)
      requires Active(f, mem.structs[s]) && f.alloc.Pointer?
      modifies this
      ensures mem.blocks == old(mem.blocks) - Own(f, old(mem.structs[s]), old(mem))
      ensures mem.structs == old(mem.structs)[s := Cleared(f, old(mem.structs[s]))]
      ensures frees == old(frees) + |Own(f, old(mem.structs[s]), old(mem))|
    {
      hide Regions, DistinctTexts, FieldRegion, NonNull;
      ghost var m := mem;
      var st := mem.structs[s];
      var target := st.cells[f.slot].target;
      OwnOf(f, st, m);
      if f.rule.Repeated? && f.kind.Text? && target != 0 {
        OwnTexts(f, st, m, c, s);
        ReleaseTexts(target, st.sizes[f.slot]);
        WithoutAll(m.blocks, mem.blocks, NonNull(m.blocks[target].texts), target);
      }
      var sizes := st.sizes;
      if f.rule.Repeated? {
        sizes := sizes[f.slot := 0];
      }
      Free(target);
      mem := mem.(structs := mem.structs[s := Struct(st.cells[f.slot := Ptr(0)], sizes)]);
    }

    /** `pb_release_single_field`. */
    method ReleaseField(env: Table, t: nat, s: Addr, i: nat, ghost c: Plan)
      requires Tidy(env, mem, c, t, s) && i < |env[t]|
      modifies this
      ensures FieldDone(env, old(mem), mem, c, t, s, i)
      ensures frees == old(frees) + |LiveField(env, old(mem), c, t, s, i)|
      decreases c[s], 1, 1
    {
      hide Tidy, LiveField, FieldDone, LiveItems, AllTidy, Regions;
      ghost var m := mem;
      TidyLocal(env, m, c, t, s);
      LiveSplit(env, m, c, t, s, i);
      var f, st := env[t][i], mem.structs[s];
      if f.rule.Oneof? && st.sizes[f.slot] != f.tag {
        StaticDone(env, m, m, c, t, s, i);
        return;           // not the current member of the union
      }
      ReleaseContents(env, t, s, i, c);
      ghost var n := mem;
      ContentsApart(env, m, n, c, t, s, i);
      if f.alloc.Pointer? {
        FieldUnchanged(f, st, m, n, c, s);
        ReleasePointer(f, s, c);
        PointerDone(env, m, n, mem, c, t, s, i);
      } else {
        StaticDone(env, m, n, c, t, s, i);
      }
    }
  }
}
