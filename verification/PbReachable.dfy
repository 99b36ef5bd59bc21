/**
  What `pb_release` frees is what can be reached: a block is live exactly when a path
  of fields and array entries leads to it from the struct.  Paths look at the struct
  and at memory only.
*/
module PbReachable {
  import opened PbReleaseSpec

  /** From a struct to the `item`-th struct that its field `field` holds, at address `to`. */
  datatype Hop = Hop(field: nat, item: nat, to: Addr)

  /** Every field but a member of a union that the tag beside it does not select. */
  predicate InUse(f: Member, st: Struct) {
    f.slot < |st.cells| && f.slot < |st.sizes| && (f.rule.Oneof? ==> st.sizes[f.slot] == f.tag)
  }

  /** The struct at `x` is entry `k` of a field: in place, up to the count, or in its block. */
  predicate HoldsStruct(f: Member, st: Struct, m: Memory, k: nat, x: Addr) {
    && InUse(f, st) && f.kind.Message?
    && match f.alloc
       case Static =>
         && st.cells[f.slot].Inline? && k < |st.cells[f.slot].items| && st.cells[f.slot].items[k] == x
         && (if f.rule.Repeated? then k < f.rule.arraySize && (f.rule.counted ==> k < st.sizes[f.slot]) else k == 0)
       case Pointer =>
         && st.cells[f.slot].Ptr? && st.cells[f.slot].target != 0 && st.cells[f.slot].target in m.blocks
         && m.blocks[st.cells[f.slot].target].Structs?
         && k < |m.blocks[st.cells[f.slot].target].items| && m.blocks[st.cells[f.slot].target].items[k] == x
       case Callback => false
  }

  /** The block at `a` is the one that a field points to, or one of the texts in it. */
  predicate HoldsBlock(f: Member, st: Struct, m: Memory, a: Addr) {
    && InUse(f, st) && f.alloc.Pointer? && st.cells[f.slot].Ptr? && st.cells[f.slot].target != 0 && a != 0
    && (a == st.cells[f.slot].target
        || (f.kind.Text? && f.rule.Repeated? && st.cells[f.slot].target in m.blocks
            && m.blocks[st.cells[f.slot].target].Texts? && a in m.blocks[st.cells[f.slot].target].texts))
  }

  /** The path leads from the struct at `s` to one with a field that holds the block at `a`. */
  ghost predicate Reaches(env: Table, m: Memory, t: nat, s: Addr, path: seq<Hop>, a: Addr)
    decreases |path|
  {
    && t < |env| && s in m.structs
    && if path == [] then exists i: nat :: i < |env[t]| && HoldsBlock(env[t][i], m.structs[s], m, a)
       else
         var hop := path[0];
         && hop.field < |env[t]| && HoldsStruct(env[t][hop.field], m.structs[s], m, hop.item, hop.to)
         && Reaches(env, m, env[t][hop.field].kind.sub, hop.to, path[1..], a)
  }

  // ----- fields -----

  lemma OwnIsHeld(f: Member, st: Struct, m: Memory, a: Addr)
    requires Typed(f, st, m)
    ensures a in Own(f, st, m) <==> HoldsBlock(f, st, m, a)
  {
  }

  lemma ChildIsHeld(f: Member, st: Struct, m: Memory, k: nat, x: Addr)
    requires Typed(f, st, m)
    ensures (k < |Children(f, st, m)| && Children(f, st, m)[k] == x) <==> HoldsStruct(f, st, m, k, x)
  {
  }

  lemma {:induction false} InFields(env: Table, m: Memory, c: Plan, t: nat, s: Addr, n: nat, i: nat)
    requires Tidy(env, m, c, t, s) && i < n <= |env[t]|
    ensures LiveField(env, m, c, t, s, i) <= LiveFields(env, m, c, t, s, n)
    decreases n
  {
    hide Tidy, LiveField;
    if i < n - 1 {
      InFields(env, m, c, t, s, n - 1, i);
    }
  }

  lemma {:induction false} FromFields(env: Table, m: Memory, c: Plan, t: nat, s: Addr, n: nat, a: Addr) returns (i: nat)
    requires Tidy(env, m, c, t, s) && n <= |env[t]| && a in LiveFields(env, m, c, t, s, n)
    ensures i < n && a in LiveField(env, m, c, t, s, i)
    decreases n
  {
    hide Tidy, LiveField;
    if a in LiveField(env, m, c, t, s, n - 1) {
      i := n - 1;
    } else {
      i := FromFields(env, m, c, t, s, n - 1, a);
    }
  }

  lemma {:induction false} InItems(env: Table, m: Memory, c: Plan, sub: nat, xs: seq<Addr>, bound: set<Addr>, k: nat)
    requires AllTidy(env, m, c, sub, xs, bound) && k < |xs|
    ensures Tidy(env, m, c, sub, xs[k]) && Live(env, m, c, sub, xs[k]) <= LiveItems(env, m, c, sub, xs, bound)
    decreases |xs|
  {
    hide Tidy, Live;
    if k < |xs| - 1 {
      InItems(env, m, c, sub, xs[..|xs| - 1], bound, k);
    }
  }

  lemma {:induction false} FromItems(env: Table, m: Memory, c: Plan, sub: nat, xs: seq<Addr>, bound: set<Addr>, a: Addr)
      returns (k: nat)
    requires AllTidy(env, m, c, sub, xs, bound) && a in LiveItems(env, m, c, sub, xs, bound)
    ensures k < |xs| && xs[k] in c && c[xs[k]] < bound
    ensures Tidy(env, m, c, sub, xs[k]) && a in Live(env, m, c, sub, xs[k])
    decreases |xs|
  {
    hide Tidy, Live;
    var last := |xs| - 1;
    if a in Live(env, m, c, sub, xs[last]) {
      k := last;
    } else {
      k := FromItems(env, m, c, sub, xs[..last], bound, a);
    }
  }

  // ----- both directions -----

  lemma TidyStruct(env: Table, m: Memory, c: Plan, t: nat, s: Addr, i: nat)
    requires Tidy(env, m, c, t, s) && i < |env[t]|
    ensures t < |env| && s in c && s in m.structs && Typed(env[t][i], m.structs[s], m)
    ensures KidsTidy(env, m, c, env[t][i], m.structs[s], c[s])
    ensures LiveField(env, m, c, t, s, i) == FieldLive(env, m, c, env[t][i], m.structs[s], c[s])
  {
    ChildrenTidy(env, m, c, t, s, i);
    assert Local(env, m, c, t, s);
    assert FieldTidy(env[t][i], m.structs[s], m, c, s);
  }

  /** A block that a path leads to is live. */
  lemma {:induction false} ReachedIsLive(env: Table, m: Memory, c: Plan, t: nat, s: Addr, path: seq<Hop>, a: Addr)
    requires Tidy(env, m, c, t, s) && Reaches(env, m, t, s, path, a)
    ensures a in Live(env, m, c, t, s)
    decreases |path|
  {
    hide Tidy, KidsTidy, LiveField, LiveItems, Own, Children, HoldsBlock, HoldsStruct, AllTidy;
    if path == [] {
      var i: nat :| i < |env[t]| && HoldsBlock(env[t][i], m.structs[s], m, a);
      TidyStruct(env, m, c, t, s, i);
      OwnIsHeld(env[t][i], m.structs[s], m, a);
      InFields(env, m, c, t, s, |env[t]|, i);
    } else {
      var i, k, x := path[0].field, path[0].item, path[0].to;
      TidyStruct(env, m, c, t, s, i);
      ChildIsHeld(env[t][i], m.structs[s], m, k, x);
      KidAt(env, m, c, env[t][i], m.structs[s], c[s], k);
      ReachedIsLive(env, m, c, env[t][i].kind.sub, x, path[1..], a);
      InFields(env, m, c, t, s, |env[t]|, i);
    }
  }

  lemma KidAt(env: Table, m: Memory, c: Plan, f: Member, st: Struct, bound: set<Addr>, k: nat)
    requires Typed(f, st, m) && KidsTidy(env, m, c, f, st, bound) && k < |Children(f, st, m)|
    ensures f.kind.Message? && Tidy(env, m, c, f.kind.sub, Children(f, st, m)[k])
    ensures Live(env, m, c, f.kind.sub, Children(f, st, m)[k]) <= FieldLive(env, m, c, f, st, bound)
  {
    hide Tidy, Live, LiveItems, Children, Own;
    InItems(env, m, c, f.kind.sub, Children(f, st, m), bound, k);
  }

  /** A path leads to every live block. */
  lemma {:induction false} LiveIsReached(env: Table, m: Memory, c: Plan, t: nat, s: Addr, a: Addr) returns (path: seq<Hop>)
    requires Tidy(env, m, c, t, s) && a in Live(env, m, c, t, s)
    ensures Reaches(env, m, t, s, path, a)
    decreases if s in c then c[s] else {}
  {
    hide Tidy, KidsTidy, LiveField, LiveItems, Own, Children, HoldsBlock, HoldsStruct, AllTidy;
    TidyLocal(env, m, c, t, s);
    var i := FromFields(env, m, c, t, s, |env[t]|, a);
    TidyStruct(env, m, c, t, s, i);
    var f, st := env[t][i], m.structs[s];
    if a in Own(f, st, m) {
      OwnIsHeld(f, st, m, a);
      path := [];
    } else {
      var k, x := FromKids(env, m, c, f, st, c[s], a);
      ChildIsHeld(f, st, m, k, x);
      var rest := LiveIsReached(env, m, c, f.kind.sub, x, a);
      path := [Hop(i, k, x)] + rest;
      assert path[1..] == rest;
    }
  }

  lemma FromKids(env: Table, m: Memory, c: Plan, f: Member, st: Struct, bound: set<Addr>, a: Addr) returns (k: nat, x: Addr)
    requires Typed(f, st, m) && KidsTidy(env, m, c, f, st, bound)
    requires a in FieldLive(env, m, c, f, st, bound) && a !in Own(f, st, m)
    ensures k < |Children(f, st, m)| && x == Children(f, st, m)[k] && x in c && c[x] < bound
    ensures f.kind.Message? && Tidy(env, m, c, f.kind.sub, x) && a in Live(env, m, c, f.kind.sub, x)
  {
    hide Tidy, Live, LiveItems, Children, Own;
    k := FromItems(env, m, c, f.kind.sub, Children(f, st, m), bound, a);
    x := Children(f, st, m)[k];
  }

  /** The live blocks are those that a path leads to. */
  lemma LiveIffReached(env: Table, m: Memory, c: Plan, t: nat, s: Addr, a: Addr)
    requires Tidy(env, m, c, t, s)
    ensures a in Live(env, m, c, t, s) <==> exists path: seq<Hop> :: Reaches(env, m, t, s, path, a)
  {
    hide Tidy, Live, Reaches;
    if a in Live(env, m, c, t, s) {
      var path := LiveIsReached(env, m, c, t, s, a);
    }
    if path: seq<Hop> :| Reaches(env, m, t, s, path, a) {
      ReachedIsLive(env, m, c, t, s, path, a);
    }
  }
}
