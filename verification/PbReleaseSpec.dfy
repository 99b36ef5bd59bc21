/**
  What pb_release of nanopb has to free: a struct in memory, its descriptor, and the
  allocated blocks that are reachable from it.

  Structs and allocated blocks have abstract addresses.  A `Plan` names, for every
  struct, the addresses that belong to it; that these regions nest and do not overlap
  says that every block has one owner.
*/
module PbReleaseSpec {
  import T = PbTypes

  type Addr = nat                     // 0 is NULL

  /** The type word of a field, as far as releasing looks at it. */
  datatype Kind = Leaf | Text | Message(sub: nat)
  datatype Rule = Singular | Repeated(counted: bool, arraySize: nat) | Oneof

  /** `pb_field_t`; `slot` is where the field lies in the struct, shared by the members of a
      union. */
  datatype Member = Member(tag: nat, kind: Kind, alloc: T.AType, rule: Rule, slot: nat)

  datatype Storage = Data | Inline(items: seq<Addr>) | Ptr(target: Addr)

  /** A struct: its fields, and beside each the count or the `which_` tag that belongs to it. */
  datatype Struct = Struct(cells: seq<Storage>, sizes: seq<nat>)

  /** An allocated block: an array of structs, an array of pointers to texts, or other data. */
  datatype Block = Structs(items: seq<Addr>) | Texts(texts: seq<Addr>) | Bytes

  datatype Memory = Memory(structs: map<Addr, Struct>, blocks: map<Addr, Block>)

  type Table = seq<seq<Member>>

  type Plan = map<Addr, set<Addr>>

  // ----- one field -----

  predicate HasSlot(f: Member, st: Struct) {
    f.slot < |st.cells| && f.slot < |st.sizes|
  }

  /** Every field but an unselected member of a union. */
  predicate Active(f: Member, st: Struct)
    requires HasSlot(f, st)
  {
    f.rule.Oneof? ==> st.sizes[f.slot] == f.tag
  }

  /** How many structs a submessage field holds. */
  function Count(f: Member, st: Struct): nat
    requires HasSlot(f, st)
  {
    match f.rule
    case Repeated(counted, arraySize) =>
      var n := if f.alloc.Static? && !counted then arraySize else st.sizes[f.slot];
      if f.alloc.Static? && n > arraySize then arraySize else n
    case Singular => 1
    case Oneof => 1
  }

  /** The field's memory has the form its type word says, and counts match the arrays. */
  predicate Typed(f: Member, st: Struct, m: Memory) {
    && HasSlot(f, st)
    && (Active(f, st) ==>
          && (f.alloc.Static? && f.kind.Message? ==>
                st.cells[f.slot].Inline? && Count(f, st) <= |st.cells[f.slot].items|)
          && (f.alloc.Pointer? ==>
                && st.cells[f.slot].Ptr?
                && PointsWell(f, st.cells[f.slot].target, Count(f, st), m)))
  }

  predicate PointsWell(f: Member, target: Addr, count: nat, m: Memory) {
    if target == 0 then f.rule.Repeated? ==> count == 0
    else
      && target in m.blocks
      && (f.kind.Message? ==> m.blocks[target].Structs? && |m.blocks[target].items| == count)
      && (f.kind.Text? && f.rule.Repeated? ==> m.blocks[target].Texts? && |m.blocks[target].texts| == count)
  }

  /** The structs that the field holds, in place or in its block. */
  function Children(f: Member, st: Struct, m: Memory): seq<Addr>
    requires Typed(f, st, m)
  {
    if !Active(f, st) || !f.kind.Message? || f.alloc.Callback? then []
    else if f.alloc.Static? then st.cells[f.slot].items[..Count(f, st)]
    else if st.cells[f.slot].target == 0 then []
    else m.blocks[st.cells[f.slot].target].items
  }

  /** The pointers in the field's block, when it is an array of texts. */
  function TextsOf(f: Member, st: Struct, m: Memory): seq<Addr>
    requires Typed(f, st, m)
  {
    if Active(f, st) && f.alloc.Pointer? && f.kind.Text? && f.rule.Repeated? && st.cells[f.slot].target != 0
    then m.blocks[st.cells[f.slot].target].texts
    else []
  }

  function NonNull(s: seq<Addr>): set<Addr> {
    set a | a in s && a != 0
  }

  /** The blocks that the field itself points to. */
  function Own(f: Member, st: Struct, m: Memory): set<Addr>
    requires Typed(f, st, m)
  {
    (if Active(f, st) && f.alloc.Pointer? && st.cells[f.slot].target != 0 then {st.cells[f.slot].target} else {})
    + NonNull(TextsOf(f, st, m))
  }

  // ----- ownership -----

  /** The regions of some structs. */
  function Regions(c: Plan, xs: seq<Addr>): set<Addr> {
    if xs == [] then {} else Regions(c, xs[..|xs| - 1]) + RegionOf(c, xs[|xs| - 1])
  }

  function RegionOf(c: Plan, x: Addr): set<Addr> {
    if x in c then c[x] else {}
  }

  /** Everything that belongs to a field. */
  function FieldRegion(f: Member, st: Struct, m: Memory, c: Plan): set<Addr>
    requires Typed(f, st, m)
  {
    Regions(c, Children(f, st, m)) + Own(f, st, m)
  }

  /** Two pointers of an array of texts do not lead to the same block. */
  predicate DistinctTexts(s: seq<Addr>) {
    forall j, k :: 0 <= j < k < |s| && s[j] != 0 ==> s[j] != s[k]
  }

  /** The field's structs and blocks are its own, once each. */
  ghost predicate FieldTidy(f: Member, st: Struct, m: Memory, c: Plan, s: Addr)
    requires s in c
  {
    && Typed(f, st, m)
    && (var xs := Children(f, st, m);
        && (forall k: nat | k < |xs| :: xs[k] in c)
        && (forall j: nat, k: nat | j < k < |xs| :: c[xs[j]] !! c[xs[k]])
        && Regions(c, xs) !! Own(f, st, m))
    && Own(f, st, m) <= m.blocks.Keys
    && DistinctTexts(TextsOf(f, st, m))
    && (Active(f, st) && f.alloc.Pointer? ==> st.cells[f.slot].target == 0 || st.cells[f.slot].target !in TextsOf(f, st, m))
    && FieldRegion(f, st, m, c) <= c[s] - {s}
  }

  /** Fields that share memory are members of one union. */
  predicate Separate(fs: seq<Member>) {
    forall i: nat, j: nat | i < j < |fs| :: fs[i].slot == fs[j].slot ==>
      fs[i].rule.Oneof? && fs[j].rule.Oneof? && fs[i].tag != fs[j].tag
  }

  ghost predicate Local(env: Table, m: Memory, c: Plan, t: nat, s: Addr) {
    && s != 0 && t < |env| && s in c && s in c[s] && s in m.structs
    && Separate(env[t])
    && (forall i: nat | i < |env[t]| :: FieldTidy(env[t][i], m.structs[s], m, c, s))
    && (forall i: nat, j: nat | i < j < |env[t]| ::
          FieldRegion(env[t][i], m.structs[s], m, c) !! FieldRegion(env[t][j], m.structs[s], m, c))
  }

  lemma {:induction false} InRegions(c: Plan, xs: seq<Addr>, k: nat)
    requires k < |xs| && xs[k] in c
    ensures c[xs[k]] <= Regions(c, xs)
    decreases |xs|
  {
    if k < |xs| - 1 {
      InRegions(c, xs[..|xs| - 1], k);
    }
  }

  lemma ChildSmaller(env: Table, m: Memory, c: Plan, t: nat, s: Addr, i: nat, k: nat)
    requires Local(env, m, c, t, s) && i < |env[t]|
    requires k < |Children(env[t][i], m.structs[s], m)|
    ensures Children(env[t][i], m.structs[s], m)[k] in c && c[Children(env[t][i], m.structs[s], m)[k]] < c[s]
    ensures c[Children(env[t][i], m.structs[s], m)[k]] <= FieldRegion(env[t][i], m.structs[s], m, c)
  {
    assert FieldTidy(env[t][i], m.structs[s], m, c, s);
    InRegions(c, Children(env[t][i], m.structs[s], m), k);
    assert s in c[s];
  }

  /** The struct at `s` and all structs below it are in order. */
  ghost predicate Tidy(env: Table, m: Memory, c: Plan, t: nat, s: Addr)
    decreases if s in c then c[s] else {}
  {
    && Local(env, m, c, t, s)
    && forall i: nat | i < |env[t]| ::
         TidyField(env, m, c, t, s, i)
  }

  ghost predicate TidyField(env: Table, m: Memory, c: Plan, t: nat, s: Addr, i: nat)
    requires Local(env, m, c, t, s) && i < |env[t]|
    decreases if s in c then c[s] else {}, 0
  {
    forall k: nat | k < |Children(env[t][i], m.structs[s], m)| ::
      (ChildSmaller(env, m, c, t, s, i, k);
       Tidy(env, m, c, env[t][i].kind.sub, Children(env[t][i], m.structs[s], m)[k]))
  }

  // ----- what is reachable -----

  /** The blocks reachable from the struct at `s`. */
  ghost function Live(env: Table, m: Memory, c: Plan, t: nat, s: Addr): set<Addr>
    requires Tidy(env, m, c, t, s)
    decreases c[s], 2, 0
  {
    LiveFields(env, m, c, t, s, |env[t]|)
  }

  /** Those reachable through the first `n` fields. */
  ghost function LiveFields(env: Table, m: Memory, c: Plan, t: nat, s: Addr, n: nat): set<Addr>
    requires Tidy(env, m, c, t, s) && n <= |env[t]|
    decreases c[s], 1, n
  {
    if n == 0 then {} else LiveFields(env, m, c, t, s, n - 1) + LiveField(env, m, c, t, s, n - 1)
  }

  ghost function LiveField(env: Table, m: Memory, c: Plan, t: nat, s: Addr, i: nat): set<Addr>
    requires Tidy(env, m, c, t, s) && i < |env[t]|
    decreases c[s], 0, |Children(env[t][i], m.structs[s], m)| + 2
  {
    ChildrenTidy(env, m, c, t, s, i);
    FieldLive(env, m, c, env[t][i], m.structs[s], c[s])
  }

  /** The field's structs are in order, in regions within `bound`. */
  ghost predicate KidsTidy(env: Table, m: Memory, c: Plan, f: Member, st: Struct, bound: set<Addr>)
    requires Typed(f, st, m)
  {
    var xs := Children(f, st, m);
    xs != [] ==> f.kind.Message? && AllTidy(env, m, c, f.kind.sub, xs, bound)
  }

  ghost function FieldLive(env: Table, m: Memory, c: Plan, f: Member, st: Struct, bound: set<Addr>): set<Addr>
    requires Typed(f, st, m) && KidsTidy(env, m, c, f, st, bound)
    decreases bound, 0, |Children(f, st, m)| + 1
  {
    var xs := Children(f, st, m);
    Own(f, st, m) + (if xs == [] then {} else LiveItems(env, m, c, f.kind.sub, xs, bound))
  }

  ghost predicate AllTidy(env: Table, m: Memory, c: Plan, sub: nat, xs: seq<Addr>, bound: set<Addr>) {
    forall k: nat | k < |xs| :: xs[k] in c && c[xs[k]] < bound && Tidy(env, m, c, sub, xs[k])
  }

  ghost function LiveItems(env: Table, m: Memory, c: Plan, sub: nat, xs: seq<Addr>, bound: set<Addr>): set<Addr>
    requires AllTidy(env, m, c, sub, xs, bound)
    decreases bound, 0, |xs|
  {
    if xs == [] then {}
    else
      var last := |xs| - 1;
      LiveItems(env, m, c, sub, xs[..last], bound) + Live(env, m, c, sub, xs[last])
  }

  lemma ChildrenTidy(env: Table, m: Memory, c: Plan, t: nat, s: Addr, i: nat)
    requires Tidy(env, m, c, t, s) && i < |env[t]|
    ensures KidsTidy(env, m, c, env[t][i], m.structs[s], c[s])
  {
    assert Local(env, m, c, t, s) && TidyField(env, m, c, t, s, i);
    var xs := Children(env[t][i], m.structs[s], m);
    forall k: nat | k < |xs| ensures xs[k] in c && c[xs[k]] < c[s] && Tidy(env, m, c, env[t][i].kind.sub, xs[k]) {
      ChildSmaller(env, m, c, t, s, i, k);
    }
  }

  // ----- only what belongs to a struct matters -----

  /** The memories agree on the addresses `r`. */
  ghost predicate Agree(m: Memory, n: Memory, r: set<Addr>) {
    forall a | a in r ::
      && (a in m.structs <==> a in n.structs) && (a in m.structs ==> m.structs[a] == n.structs[a])
      && (a in m.blocks <==> a in n.blocks) && (a in m.blocks ==> m.blocks[a] == n.blocks[a])
  }

  /** The field is the same in both structs. */
  predicate SameAt(f: Member, x: Struct, y: Struct) {
    HasSlot(f, x) && HasSlot(f, y) && x.cells[f.slot] == y.cells[f.slot] && x.sizes[f.slot] == y.sizes[f.slot]
  }

  lemma FrameField(f: Member, x: Struct, y: Struct, m: Memory, n: Memory, c: Plan, s: Addr)
    requires s in c && FieldTidy(f, x, m, c, s) && SameAt(f, x, y) && Agree(m, n, Own(f, x, m))
    ensures FieldTidy(f, y, n, c, s) && Children(f, y, n) == Children(f, x, m) && Own(f, y, n) == Own(f, x, m)
    ensures FieldRegion(f, y, n, c) == FieldRegion(f, x, m, c)
  {
    hide Regions, DistinctTexts;
    var target := if x.cells[f.slot].Ptr? then x.cells[f.slot].target else 0;
    if Active(f, x) && f.alloc.Pointer? && target != 0 {
      assert target in Own(f, x, m);
      assert target in m.blocks && target in n.blocks && n.blocks[target] == m.blocks[target];
    }
    assert Typed(f, y, n);
    assert Children(f, y, n) == Children(f, x, m) && TextsOf(f, y, n) == TextsOf(f, x, m);
    assert Own(f, y, n) == Own(f, x, m);
    assert Own(f, y, n) <= n.blocks.Keys;
  }

  lemma AgreeSub(m: Memory, n: Memory, r: set<Addr>, q: set<Addr>)
    requires Agree(m, n, r) && q <= r
    ensures Agree(m, n, q)
  {
  }

  /** The part of `FrameTidy` for one field. */
  lemma {:induction false} FrameFieldLive(env: Table, m: Memory, n: Memory, c: Plan, f: Member, x: Struct, y: Struct, s: Addr)
    requires s in c && FieldTidy(f, x, m, c, s) && SameAt(f, x, y) && Agree(m, n, FieldRegion(f, x, m, c))
    requires KidsTidy(env, m, c, f, x, c[s])
    ensures FieldTidy(f, y, n, c, s) && FieldRegion(f, y, n, c) == FieldRegion(f, x, m, c)
    ensures Children(f, y, n) == Children(f, x, m) && KidsTidy(env, n, c, f, y, c[s])
    ensures FieldLive(env, n, c, f, y, c[s]) == FieldLive(env, m, c, f, x, c[s])
    decreases c[s], 1, 0
  {
    AgreeSub(m, n, FieldRegion(f, x, m, c), Own(f, x, m));
    FrameField(f, x, y, m, n, c, s);
    var xs := Children(f, x, m);
    if xs != [] {
      forall k: nat | k < |xs| ensures Agree(m, n, c[xs[k]]) {
        InRegions(c, xs, k);
        AgreeSub(m, n, FieldRegion(f, x, m, c), c[xs[k]]);
      }
      FrameItems(env, m, n, c, f.kind.sub, xs, c[s]);
    }
  }

  lemma {:induction false} FrameItems(env: Table, m: Memory, n: Memory, c: Plan, sub: nat, xs: seq<Addr>, bound: set<Addr>)
    requires AllTidy(env, m, c, sub, xs, bound) && forall k: nat | k < |xs| :: Agree(m, n, c[xs[k]])
    ensures AllTidy(env, n, c, sub, xs, bound)
    ensures LiveItems(env, n, c, sub, xs, bound) == LiveItems(env, m, c, sub, xs, bound)
    decreases bound, 0, |xs|
  {
    hide Agree, Live;
    if xs != [] {
      var last := |xs| - 1;
      var most := xs[..last];
      FrameItems(env, m, n, c, sub, most, bound);
      FrameTidy(env, m, n, c, sub, xs[last]);
      assert AllTidy(env, n, c, sub, xs, bound) by {
        assert forall k: nat | k < last :: most[k] == xs[k];
      }
    }
  }

  /** A struct is in order, with the same blocks, when its region has not changed. */
  lemma {:induction false} FrameTidy(env: Table, m: Memory, n: Memory, c: Plan, t: nat, s: Addr)
    requires Tidy(env, m, c, t, s) && Agree(m, n, c[s])
    ensures Tidy(env, n, c, t, s) && Live(env, n, c, t, s) == Live(env, m, c, t, s)
    decreases c[s], 2, 0
  {
    hide Children, Own, Agree, LiveFields, FieldLive, KidsTidy, Regions;
    assert s in n.structs && n.structs[s] == m.structs[s] by { AgreeAt(m, n, c[s], s); }
    forall i: nat | i < |env[t]|
      ensures FieldTidy(env[t][i], n.structs[s], n, c, s)
      ensures FieldRegion(env[t][i], n.structs[s], n, c) == FieldRegion(env[t][i], m.structs[s], m, c)
      ensures KidsTidy(env, n, c, env[t][i], n.structs[s], c[s])
      ensures KidsTidy(env, m, c, env[t][i], m.structs[s], c[s])
      ensures FieldLive(env, n, c, env[t][i], n.structs[s], c[s]) == FieldLive(env, m, c, env[t][i], m.structs[s], c[s])
    {
      ChildrenTidy(env, m, c, t, s, i);
      assert FieldTidy(env[t][i], m.structs[s], m, c, s);
      AgreeSub(m, n, c[s], FieldRegion(env[t][i], m.structs[s], m, c));
      FrameFieldLive(env, m, n, c, env[t][i], m.structs[s], n.structs[s], s);
    }
    hide FieldRegion, FieldTidy;
    assert Local(env, n, c, t, s);
    TidyFromKids(env, n, c, t, s);
    SameFields(env, m, n, c, t, s, |env[t]|);
  }

  lemma AgreeAt(m: Memory, n: Memory, r: set<Addr>, a: Addr)
    requires Agree(m, n, r) && a in r && a in m.structs
    ensures a in n.structs && n.structs[a] == m.structs[a]
  {
  }

  lemma TidyFromKids(env: Table, m: Memory, c: Plan, t: nat, s: Addr)
    requires Local(env, m, c, t, s)
    requires forall i: nat | i < |env[t]| :: KidsTidy(env, m, c, env[t][i], m.structs[s], c[s])
    ensures Tidy(env, m, c, t, s)
  {
    forall i: nat | i < |env[t]| ensures TidyField(env, m, c, t, s, i) {
      assert KidsTidy(env, m, c, env[t][i], m.structs[s], c[s]);
    }
  }

  lemma {:induction false} SameFields(env: Table, m: Memory, n: Memory, c: Plan, t: nat, s: Addr, k: nat)
    requires Tidy(env, m, c, t, s) && Tidy(env, n, c, t, s) && k <= |env[t]|
    requires forall i: nat | i < k :: LiveField(env, n, c, t, s, i) == LiveField(env, m, c, t, s, i)
    ensures LiveFields(env, n, c, t, s, k) == LiveFields(env, m, c, t, s, k)
  {
    hide LiveField;
    if k > 0 {
      SameFields(env, m, n, c, t, s, k - 1);
    }
  }

  // ----- the blocks of a struct are in its region -----

  lemma {:induction false} LiveInside(env: Table, m: Memory, c: Plan, t: nat, s: Addr)
    requires Tidy(env, m, c, t, s)
    ensures Live(env, m, c, t, s) <= c[s] && Live(env, m, c, t, s) <= m.blocks.Keys
    decreases c[s], 2, 0
  {
    hide FieldTidy, FieldRegion, FieldLive, LiveFields;
    forall i: nat | i < |env[t]|
      ensures LiveField(env, m, c, t, s, i) <= c[s] && LiveField(env, m, c, t, s, i) <= m.blocks.Keys
    {
      LiveFieldInside(env, m, c, t, s, i);
    }
    FieldsInside(env, m, c, t, s, |env[t]|);
  }

  lemma {:induction false} LiveFieldInside(env: Table, m: Memory, c: Plan, t: nat, s: Addr, i: nat)
    requires Tidy(env, m, c, t, s) && i < |env[t]|
    ensures LiveField(env, m, c, t, s, i) <= FieldRegion(env[t][i], m.structs[s], m, c) <= c[s] - {s}
    ensures LiveField(env, m, c, t, s, i) <= m.blocks.Keys
    decreases c[s], 1, 0
  {
    assert FieldTidy(env[t][i], m.structs[s], m, c, s);
    ChildrenTidy(env, m, c, t, s, i);
    var xs := Children(env[t][i], m.structs[s], m);
    if xs != [] {
      LiveItemsInside(env, m, c, env[t][i].kind.sub, xs, c[s]);
    }
  }

  lemma {:induction false} LiveItemsInside(env: Table, m: Memory, c: Plan, sub: nat, xs: seq<Addr>, bound: set<Addr>)
    requires AllTidy(env, m, c, sub, xs, bound)
    ensures LiveItems(env, m, c, sub, xs, bound) <= Regions(c, xs)
    ensures LiveItems(env, m, c, sub, xs, bound) <= m.blocks.Keys
    decreases bound, 0, |xs|
  {
    hide Live, Tidy;
    if xs != [] {
      var last := |xs| - 1;
      LiveItemsInside(env, m, c, sub, xs[..last], bound);
      LiveInside(env, m, c, sub, xs[last]);
    }
  }

  lemma {:induction false} FieldsInside(env: Table, m: Memory, c: Plan, t: nat, s: Addr, k: nat)
    requires Tidy(env, m, c, t, s) && k <= |env[t]|
    requires forall i: nat | i < k :: LiveField(env, m, c, t, s, i) <= c[s] && LiveField(env, m, c, t, s, i) <= m.blocks.Keys
    ensures LiveFields(env, m, c, t, s, k) <= c[s] && LiveFields(env, m, c, t, s, k) <= m.blocks.Keys
  {
    hide LiveField;
    if k > 0 {
      FieldsInside(env, m, c, t, s, k - 1);
    }
  }

  /** The blocks of different fields are different. */
  lemma {:induction false} FieldsApart(env: Table, m: Memory, c: Plan, t: nat, s: Addr, k: nat, i: nat)
    requires Tidy(env, m, c, t, s) && k <= i < |env[t]|
    ensures LiveFields(env, m, c, t, s, k) !! LiveField(env, m, c, t, s, i)
    decreases k
  {
    hide LiveField, FieldRegion;
    if k > 0 {
      FieldsApart(env, m, c, t, s, k - 1, i);
      LiveFieldInside(env, m, c, t, s, k - 1);
      LiveFieldInside(env, m, c, t, s, i);
      assert FieldTidy(env[t][k - 1], m.structs[s], m, c, s) && FieldTidy(env[t][i], m.structs[s], m, c, s);
      assert FieldRegion(env[t][k - 1], m.structs[s], m, c) !! FieldRegion(env[t][i], m.structs[s], m, c);
    }
  }

  lemma {:induction false} RegionsApart(c: Plan, xs: seq<Addr>, k: nat, i: nat)
    requires k <= i < |xs| && (forall j: nat | j < |xs| :: xs[j] in c)
    requires forall j: nat, h: nat | j < h < |xs| :: c[xs[j]] !! c[xs[h]]
    ensures Regions(c, xs[..k]) !! c[xs[i]]
    decreases k
  {
    if k > 0 {
      RegionsApart(c, xs, k - 1, i);
      assert xs[..k][..k - 1] == xs[..k - 1];
    }
  }

  // ----- what releasing does to the memory -----

  /** The blocks `gone` are freed; no struct outside `touched` has changed, and none has gone. */
  ghost predicate Released(m: Memory, n: Memory, gone: set<Addr>, touched: set<Addr>) {
    && n.blocks == m.blocks - gone
    && n.structs.Keys == m.structs.Keys
    && forall a | a in m.structs && a !in touched :: n.structs[a] == m.structs[a]
  }

  lemma ReleasedAgree(m: Memory, n: Memory, gone: set<Addr>, touched: set<Addr>, r: set<Addr>)
    requires Released(m, n, gone, touched) && r !! touched && r !! gone
    ensures Agree(m, n, r)
  {
  }

  lemma ReleasedTrans(m: Memory, n: Memory, p: Memory, gone: set<Addr>, touched: set<Addr>, more: set<Addr>, further: set<Addr>)
    requires Released(m, n, gone, touched) && Released(n, p, more, further)
    ensures Released(m, p, gone + more, touched + further)
  {
  }

  /** The first `k` structs of an array have been released. */
  ghost predicate ItemsDone(env: Table, m: Memory, n: Memory, c: Plan, sub: nat, xs: seq<Addr>, bound: set<Addr>, k: nat)
    requires AllTidy(env, m, c, sub, xs, bound) && k <= |xs|
  {
    && AllTidy(env, n, c, sub, xs, bound)
    && (forall j: nat | j < k :: Live(env, n, c, sub, xs[j]) == {})
    && (forall j: nat | k <= j < |xs| :: Agree(m, n, c[xs[j]]))
    && Released(m, n, LiveItems(env, m, c, sub, xs[..k], bound), Regions(c, xs[..k]))
  }

  /** One more struct of an array. */
  lemma ItemsStep(env: Table, m: Memory, n: Memory, p: Memory, c: Plan, sub: nat, xs: seq<Addr>, bound: set<Addr>, k: nat)
    requires AllTidy(env, m, c, sub, xs, bound) && k < |xs|
    requires ItemsDone(env, m, n, c, sub, xs, bound, k)
    requires forall j: nat, h: nat | j < h < |xs| :: c[xs[j]] !! c[xs[h]]
    requires Tidy(env, p, c, sub, xs[k]) && Live(env, p, c, sub, xs[k]) == {}
    requires Released(n, p, Live(env, n, c, sub, xs[k]), c[xs[k]])
    ensures ItemsDone(env, m, p, c, sub, xs, bound, k + 1)
    ensures Live(env, n, c, sub, xs[k]) == Live(env, m, c, sub, xs[k])
    ensures LiveItems(env, m, c, sub, xs[..k + 1], bound) == LiveItems(env, m, c, sub, xs[..k], bound) + Live(env, m, c, sub, xs[k])
    ensures LiveItems(env, m, c, sub, xs[..k], bound) !! Live(env, m, c, sub, xs[k])
  {
    hide Tidy, Live, Agree, Released;
    assert xs[..k + 1][..k] == xs[..k];
    FrameTidy(env, m, n, c, sub, xs[k]);
    LiveInside(env, m, c, sub, xs[k]);
    LiveItemsInside(env, m, c, sub, xs[..k], bound);
    RegionsApart(c, xs, k, k);
    forall j: nat | j < |xs|
      ensures Tidy(env, p, c, sub, xs[j])
      ensures j < k ==> Live(env, p, c, sub, xs[j]) == {}
      ensures k < j ==> Agree(m, p, c[xs[j]])
    {
      if j != k {
        assert c[xs[j]] !! c[xs[k]];
        LiveInside(env, n, c, sub, xs[k]);
        ReleasedAgree(n, p, Live(env, n, c, sub, xs[k]), c[xs[k]], c[xs[j]]);
        FrameTidy(env, n, p, c, sub, xs[j]);
        if k < j {
          AgreeTrans(m, n, p, c[xs[j]]);
        }
      }
    }
    ReleasedTrans(m, n, p, LiveItems(env, m, c, sub, xs[..k], bound), Regions(c, xs[..k]), Live(env, n, c, sub, xs[k]), c[xs[k]]);
  }

  lemma AgreeTrans(m: Memory, n: Memory, p: Memory, r: set<Addr>)
    requires Agree(m, n, r) && Agree(n, p, r)
    ensures Agree(m, p, r)
  {
  }

  lemma {:induction false} NoItems(env: Table, m: Memory, c: Plan, sub: nat, xs: seq<Addr>, bound: set<Addr>)
    requires AllTidy(env, m, c, sub, xs, bound) && forall j: nat | j < |xs| :: Live(env, m, c, sub, xs[j]) == {}
    ensures LiveItems(env, m, c, sub, xs, bound) == {}
    decreases |xs|
  {
    hide Tidy, Live;
    if xs != [] {
      NoItems(env, m, c, sub, xs[..|xs| - 1], bound);
    }
  }

  /** The struct after a field has been released: the pointer is NULL and the count of an array
      is 0. */
  function Cleared(f: Member, st: Struct): Struct
    requires HasSlot(f, st)
  {
    if Active(f, st) && f.alloc.Pointer? then
      Struct(st.cells[f.slot := Ptr(0)], if f.rule.Repeated? then st.sizes[f.slot := 0] else st.sizes)
    else st
  }

  /** Releasing field `i` has changed `m` to `n`. */
  ghost predicate FieldDone(env: Table, m: Memory, n: Memory, c: Plan, t: nat, s: Addr, i: nat)
    requires Tidy(env, m, c, t, s) && i < |env[t]|
  {
    var f, st := env[t][i], m.structs[s];
    && Typed(f, st, m)
    && Released(m, n, LiveField(env, m, c, t, s, i), FieldRegion(f, st, m, c) + {s})
    && s in n.structs && n.structs[s] == Cleared(f, st)
    && (var xs := Children(f, st, m);
        f.alloc.Static? && xs != [] ==>
          AllTidy(env, n, c, f.kind.sub, xs, c[s]) && LiveItems(env, n, c, f.kind.sub, xs, c[s]) == {})
  }

  /** The released field has nothing left. */
  lemma ThisField(env: Table, m: Memory, n: Memory, c: Plan, t: nat, s: Addr, i: nat)
    requires Tidy(env, m, c, t, s) && i < |env[t]| && FieldDone(env, m, n, c, t, s, i)
    ensures FieldTidy(env[t][i], n.structs[s], n, c, s) && KidsTidy(env, n, c, env[t][i], n.structs[s], c[s])
    ensures FieldTidy(env[t][i], m.structs[s], m, c, s)
    ensures FieldLive(env, n, c, env[t][i], n.structs[s], c[s]) == {}
    ensures FieldRegion(env[t][i], n.structs[s], n, c) <= FieldRegion(env[t][i], m.structs[s], m, c)
  {
    hide Tidy, AllTidy, LiveItems, Released, LiveField;
    TidyLocal(env, m, c, t, s);
    var f, st := env[t][i], m.structs[s];
    assert FieldTidy(f, st, m, c, s);
    if Active(f, st) && f.alloc.Pointer? {
      assert Children(f, n.structs[s], n) == [] && Own(f, n.structs[s], n) == {};
    } else {
      assert Own(f, st, m) == {};
      FrameField(f, st, n.structs[s], m, n, c, s);
    }
  }

  lemma TidyLocal(env: Table, m: Memory, c: Plan, t: nat, s: Addr)
    requires Tidy(env, m, c, t, s)
    ensures Local(env, m, c, t, s) && s != 0 && t < |env| && s in c && s in m.structs
    ensures forall i: nat | i < |env[t]| :: TidyField(env, m, c, t, s, i)
  {
  }

  /** The other fields are as before. */
  lemma OtherField(env: Table, m: Memory, n: Memory, c: Plan, t: nat, s: Addr, i: nat, j: nat)
    requires Tidy(env, m, c, t, s) && i < |env[t]| && j < |env[t]| && i != j && FieldDone(env, m, n, c, t, s, i)
    ensures FieldTidy(env[t][j], n.structs[s], n, c, s) && KidsTidy(env, n, c, env[t][j], n.structs[s], c[s])
    ensures FieldTidy(env[t][j], m.structs[s], m, c, s) && KidsTidy(env, m, c, env[t][j], m.structs[s], c[s])
    ensures FieldLive(env, n, c, env[t][j], n.structs[s], c[s]) == FieldLive(env, m, c, env[t][j], m.structs[s], c[s])
    ensures FieldRegion(env[t][j], n.structs[s], n, c) == FieldRegion(env[t][j], m.structs[s], m, c)
  {
    hide Tidy, AllTidy, LiveItems, Released, LiveField, Agree;
    TidyLocal(env, m, c, t, s);
    var f, g, st := env[t][i], env[t][j], m.structs[s];
    assert FieldTidy(f, st, m, c, s) && FieldTidy(g, st, m, c, s);
    ChildrenTidy(env, m, c, t, s, j);
    if f.slot == g.slot && Active(f, st) {
      assert !Active(g, st);
      assert Children(g, st, m) == Children(g, n.structs[s], n) == [];
    } else {
      assert FieldRegion(f, st, m, c) !! FieldRegion(g, st, m, c);
      LiveFieldInside(env, m, c, t, s, i);
      ReleasedAgree(m, n, LiveField(env, m, c, t, s, i), FieldRegion(f, st, m, c) + {s}, FieldRegion(g, st, m, c));
      FrameFieldLive(env, m, n, c, g, st, n.structs[s], s);
    }
  }

  /** Releasing a field keeps the struct in order; the field's blocks are gone and no others. */
  lemma FieldStep(env: Table, m: Memory, n: Memory, c: Plan, t: nat, s: Addr, i: nat)
    requires Tidy(env, m, c, t, s) && i < |env[t]| && FieldDone(env, m, n, c, t, s, i)
    ensures Tidy(env, n, c, t, s)
    ensures LiveField(env, n, c, t, s, i) == {}
    ensures forall j: nat | j < |env[t]| && j != i :: LiveField(env, n, c, t, s, j) == LiveField(env, m, c, t, s, j)
  {
    hide Tidy, KidsTidy, FieldLive, FieldRegion, LiveField, Released;
    TidyLocal(env, m, c, t, s);
    ThisField(env, m, n, c, t, s, i);
    forall j: nat | j < |env[t]| && j != i
      ensures FieldTidy(env[t][j], n.structs[s], n, c, s) && KidsTidy(env, n, c, env[t][j], n.structs[s], c[s])
      ensures FieldTidy(env[t][j], m.structs[s], m, c, s) && KidsTidy(env, m, c, env[t][j], m.structs[s], c[s])
      ensures FieldRegion(env[t][j], n.structs[s], n, c) == FieldRegion(env[t][j], m.structs[s], m, c)
      ensures FieldLive(env, n, c, env[t][j], n.structs[s], c[s]) == FieldLive(env, m, c, env[t][j], m.structs[s], c[s])
    {
      OtherField(env, m, n, c, t, s, i, j);
    }
    assert Local(env, n, c, t, s);
    TidyFromKids(env, n, c, t, s);
    forall j: nat | j < |env[t]|
      ensures LiveField(env, n, c, t, s, j) == FieldLive(env, n, c, env[t][j], n.structs[s], c[s])
      ensures KidsTidy(env, m, c, env[t][j], m.structs[s], c[s])
      ensures LiveField(env, m, c, t, s, j) == FieldLive(env, m, c, env[t][j], m.structs[s], c[s])
    {
      LiveFieldIs(env, n, c, t, s, j);
      LiveFieldIs(env, m, c, t, s, j);
    }
  }

  lemma LiveFieldIs(env: Table, m: Memory, c: Plan, t: nat, s: Addr, i: nat)
    requires Tidy(env, m, c, t, s) && i < |env[t]|
    ensures FieldTidy(env[t][i], m.structs[s], m, c, s) && KidsTidy(env, m, c, env[t][i], m.structs[s], c[s])
    ensures LiveField(env, m, c, t, s, i) == FieldLive(env, m, c, env[t][i], m.structs[s], c[s])
  {
    ChildrenTidy(env, m, c, t, s, i);
    assert FieldTidy(env[t][i], m.structs[s], m, c, s);
  }

  // ----- the loops -----

  lemma Untouched(m: Memory, r: set<Addr>)
    ensures Released(m, m, {}, r)
  {
    assert m.blocks - {} == m.blocks;
  }

  /** The first `i` fields have been released. */
  ghost predicate FieldsDone(env: Table, m: Memory, n: Memory, c: Plan, t: nat, s: Addr, i: nat)
    requires Tidy(env, m, c, t, s) && Tidy(env, n, c, t, s) && i <= |env[t]|
  {
    && (forall j: nat | j < i :: LiveField(env, n, c, t, s, j) == {})
    && (forall j: nat | i <= j < |env[t]| :: LiveField(env, n, c, t, s, j) == LiveField(env, m, c, t, s, j))
    && Released(m, n, LiveFields(env, m, c, t, s, i), c[s])
  }

  lemma NoFieldDone(env: Table, m: Memory, c: Plan, t: nat, s: Addr)
    requires Tidy(env, m, c, t, s)
    ensures FieldsDone(env, m, m, c, t, s, 0) && LiveFields(env, m, c, t, s, 0) == {}
  {
    hide LiveField;
    Untouched(m, c[s]);
  }

  lemma AllFieldsDone(env: Table, m: Memory, n: Memory, c: Plan, t: nat, s: Addr)
    requires Tidy(env, m, c, t, s) && Tidy(env, n, c, t, s) && FieldsDone(env, m, n, c, t, s, |env[t]|)
    ensures Live(env, n, c, t, s) == {} && Live(env, m, c, t, s) == LiveFields(env, m, c, t, s, |env[t]|)
    ensures Released(m, n, Live(env, m, c, t, s), c[s])
  {
    hide LiveField, Released;
    EmptyFields(env, n, c, t, s, |env[t]|);
  }

  /** One more field. */
  lemma FieldReleased(env: Table, m: Memory, n: Memory, p: Memory, c: Plan, t: nat, s: Addr, i: nat)
    requires Tidy(env, m, c, t, s) && Tidy(env, n, c, t, s) && i < |env[t]|
    requires FieldsDone(env, m, n, c, t, s, i) && FieldDone(env, n, p, c, t, s, i)
    ensures LiveField(env, n, c, t, s, i) == LiveField(env, m, c, t, s, i)
    ensures Tidy(env, p, c, t, s) && FieldsDone(env, m, p, c, t, s, i + 1)
    ensures |LiveFields(env, m, c, t, s, i + 1)| == |LiveFields(env, m, c, t, s, i)| + |LiveField(env, m, c, t, s, i)|
  {
    hide LiveField, Released, FieldRegion, FieldTidy;
    FieldsApart(env, m, c, t, s, i, i);
    DisjointSize(LiveFields(env, m, c, t, s, i), LiveField(env, m, c, t, s, i));
    LiveFieldInside(env, n, c, t, s, i);
    TidyLocal(env, n, c, t, s);
    ReleasedTrans(m, n, p, LiveFields(env, m, c, t, s, i), c[s], LiveField(env, n, c, t, s, i),
                  FieldRegion(env[t][i], n.structs[s], n, c) + {s});
    assert c[s] + (FieldRegion(env[t][i], n.structs[s], n, c) + {s}) == c[s];
    FieldStep(env, n, p, c, t, s, i);
  }

  lemma DisjointSize(a: set<Addr>, b: set<Addr>)
    requires a !! b
    ensures |a + b| == |a| + |b|
  {
  }

  lemma {:induction false} EmptyFields(env: Table, m: Memory, c: Plan, t: nat, s: Addr, k: nat)
    requires Tidy(env, m, c, t, s) && k <= |env[t]| && forall j: nat | j < k :: LiveField(env, m, c, t, s, j) == {}
    ensures LiveFields(env, m, c, t, s, k) == {}
  {
    hide LiveField;
    if k > 0 {
      EmptyFields(env, m, c, t, s, k - 1);
    }
  }

  /** What the field's submessages contained is gone. */
  ghost predicate ContentsDone(env: Table, m: Memory, n: Memory, c: Plan, t: nat, s: Addr, i: nat)
    requires Tidy(env, m, c, t, s) && i < |env[t]|
  {
    var f, st := env[t][i], m.structs[s];
    && Typed(f, st, m)
    && (var xs := Children(f, st, m);
        && Released(m, n, LiveField(env, m, c, t, s, i) - Own(f, st, m), Regions(c, xs))
        && (if xs == [] then n == m
            else AllTidy(env, n, c, f.kind.sub, xs, c[s]) && LiveItems(env, n, c, f.kind.sub, xs, c[s]) == {}))
  }

  /** The field's own blocks and its struct have not changed by that. */
  lemma ContentsApart(env: Table, m: Memory, n: Memory, c: Plan, t: nat, s: Addr, i: nat)
    requires Tidy(env, m, c, t, s) && i < |env[t]| && ContentsDone(env, m, n, c, t, s, i)
    ensures s in n.structs && n.structs[s] == m.structs[s]
    ensures FieldTidy(env[t][i], m.structs[s], m, c, s)
    ensures forall a | a in Own(env[t][i], m.structs[s], m) :: a in n.blocks && n.blocks[a] == m.blocks[a]
  {
    hide Tidy, LiveField, Regions, Own, Children, LiveItems, AllTidy;
    TidyLocal(env, m, c, t, s);
    assert FieldTidy(env[t][i], m.structs[s], m, c, s);
  }

  lemma NothingDone(env: Table, m: Memory, c: Plan, sub: nat, xs: seq<Addr>, bound: set<Addr>)
    requires AllTidy(env, m, c, sub, xs, bound)
    ensures ItemsDone(env, m, m, c, sub, xs, bound, 0)
    ensures LiveItems(env, m, c, sub, xs[..0], bound) == {}
  {
    hide Tidy, Live;
    Untouched(m, {});
  }

  /** What the two parts of releasing a pointer field add up to. */
  lemma PointerDone(env: Table, m: Memory, n: Memory, p: Memory, c: Plan, t: nat, s: Addr, i: nat)
    requires Tidy(env, m, c, t, s) && i < |env[t]| && Typed(env[t][i], m.structs[s], m)
    requires Active(env[t][i], m.structs[s]) && env[t][i].alloc.Pointer?
    requires Released(m, n, LiveField(env, m, c, t, s, i) - Own(env[t][i], m.structs[s], m), Regions(c, Children(env[t][i], m.structs[s], m)))
    requires p.blocks == n.blocks - Own(env[t][i], m.structs[s], m)
    requires p.structs == n.structs[s := Cleared(env[t][i], m.structs[s])]
    ensures FieldDone(env, m, p, c, t, s, i)
  {
    hide LiveField, Regions, Own, Children, Tidy;
    TidyLocal(env, m, c, t, s);
    var f, st := env[t][i], m.structs[s];
    LiveFieldIs(env, m, c, t, s, i);
    OwnLive(env, m, c, f, st, c[s]);
    assert p.blocks == m.blocks - LiveField(env, m, c, t, s, i);
  }

  lemma OwnLive(env: Table, m: Memory, c: Plan, f: Member, st: Struct, bound: set<Addr>)
    requires Typed(f, st, m) && KidsTidy(env, m, c, f, st, bound)
    ensures Own(f, st, m) <= FieldLive(env, m, c, f, st, bound)
  {
  }

  /** The blocks of the field's structs are those that it does not point to itself. */
  lemma LiveSplit(env: Table, m: Memory, c: Plan, t: nat, s: Addr, i: nat)
    requires Tidy(env, m, c, t, s) && i < |env[t]|
    ensures FieldTidy(env[t][i], m.structs[s], m, c, s) && KidsTidy(env, m, c, env[t][i], m.structs[s], c[s])
    ensures var f, st := env[t][i], m.structs[s];
      var xs, own := Children(f, st, m), Own(f, st, m);
      && (xs == [] ==> LiveField(env, m, c, t, s, i) == own)
      && (xs != [] ==>
            && LiveField(env, m, c, t, s, i) - own == LiveItems(env, m, c, f.kind.sub, xs, c[s])
            && |LiveField(env, m, c, t, s, i)| == |own| + |LiveItems(env, m, c, f.kind.sub, xs, c[s])|)
  {
    hide Tidy, Own, Children, AllTidy, LiveItems;
    TidyLocal(env, m, c, t, s);
    LiveFieldIs(env, m, c, t, s, i);
    var f, st := env[t][i], m.structs[s];
    var xs, own := Children(f, st, m), Own(f, st, m);
    if xs != [] {
      LiveItemsInside(env, m, c, f.kind.sub, xs, c[s]);
      DisjointSize(own, LiveItems(env, m, c, f.kind.sub, xs, c[s]));
    }
  }

  /** A field that holds no allocated blocks itself. */
  lemma StaticDone(env: Table, m: Memory, n: Memory, c: Plan, t: nat, s: Addr, i: nat)
    requires Tidy(env, m, c, t, s) && i < |env[t]| && Typed(env[t][i], m.structs[s], m)
    requires !(Active(env[t][i], m.structs[s]) && env[t][i].alloc.Pointer?)
    requires var f, xs := env[t][i], Children(env[t][i], m.structs[s], m);
      if xs == [] then n == m
      else
        && KidsTidy(env, m, c, f, m.structs[s], c[s])
        && Released(m, n, LiveItems(env, m, c, f.kind.sub, xs, c[s]), Regions(c, xs))
        && AllTidy(env, n, c, f.kind.sub, xs, c[s]) && LiveItems(env, n, c, f.kind.sub, xs, c[s]) == {}
    ensures FieldDone(env, m, n, c, t, s, i)
    ensures Own(env[t][i], m.structs[s], m) == {}
  {
    hide Tidy, Regions, AllTidy, LiveItems;
    LiveSplit(env, m, c, t, s, i);
    TidyLocal(env, m, c, t, s);
    Untouched(m, FieldRegion(env[t][i], m.structs[s], m, c) + {s});
  }

  lemma FieldUnchanged(f: Member, st: Struct, m: Memory, n: Memory, c: Plan, s: Addr)
    requires s in c && FieldTidy(f, st, m, c, s)
    requires forall a | a in Own(f, st, m) :: a in n.blocks && n.blocks[a] == m.blocks[a]
    ensures FieldTidy(f, st, n, c, s) && Own(f, st, n) == Own(f, st, m)
  {
    hide Regions, DistinctTexts;
    var n' := Memory(m.structs, n.blocks);
    FrameField(f, st, st, m, n', c, s);
    assert Children(f, st, n) == Children(f, st, n') && TextsOf(f, st, n) == TextsOf(f, st, n');
  }

  lemma OwnOf(f: Member, st: Struct, m: Memory)
    requires Typed(f, st, m) && Active(f, st) && f.alloc.Pointer?
    ensures var target := st.cells[f.slot].target;
      if target == 0 then Own(f, st, m) == {}
      else if f.rule.Repeated? && f.kind.Text? then Own(f, st, m) == {target} + NonNull(m.blocks[target].texts)
      else Own(f, st, m) == {target}
  {
  }

  lemma NoTexts(texts: seq<Addr>)
    ensures NonNull(texts[..0]) == {}
  {
  }

  /** One more text. */
  lemma TextStep(texts: seq<Addr>, k: nat)
    requires k < |texts| && DistinctTexts(texts)
    ensures NonNull(texts[..k + 1]) == NonNull(texts[..k]) + (if texts[k] == 0 then {} else {texts[k]})
    ensures texts[k] != 0 ==> texts[k] !in NonNull(texts[..k]) && texts[k] in NonNull(texts)
  {
    assert texts[..k + 1] == texts[..k] + [texts[k]];
  }

  /** The blocks `gone` are gone, and of the others only `a` may have changed. */
  ghost predicate WithoutSome(x: map<Addr, Block>, y: map<Addr, Block>, gone: set<Addr>, a: Addr) {
    && (forall b :: b in y <==> b in x && b !in gone)
    && (forall b | b in y && b != a :: y[b] == x[b])
  }

  lemma NoneWithout(x: map<Addr, Block>, a: Addr)
    ensures WithoutSome(x, x, {}, a)
  {
  }

  lemma StillThere(x: map<Addr, Block>, y: map<Addr, Block>, gone: set<Addr>, a: Addr, b: Addr)
    requires WithoutSome(x, y, gone, a) && b in x && b !in gone
    ensures b in y
  {
  }

  lemma OneMore(x: map<Addr, Block>, y: map<Addr, Block>, gone: set<Addr>, a: Addr, b: Addr, block: Block)
    requires WithoutSome(x, y, gone, a) && a in y && b != a
    ensures WithoutSome(x, (y - (if b == 0 then {} else {b}))[a := block], gone + (if b == 0 then {} else {b}), a)
  {
  }

  lemma WithoutAll(x: map<Addr, Block>, y: map<Addr, Block>, gone: set<Addr>, a: Addr)
    requires WithoutSome(x, y, gone, a)
    ensures y - {a} == x - ({a} + gone)
  {
  }

  /** An array of texts: its own block is none of them. */
  lemma OwnTexts(f: Member, st: Struct, m: Memory, c: Plan, s: Addr)
    requires s in c && FieldTidy(f, st, m, c, s) && Active(f, st) && f.alloc.Pointer? && f.rule.Repeated? && f.kind.Text?
    requires st.cells[f.slot].target != 0
    ensures var target := st.cells[f.slot].target;
      && target in m.blocks && m.blocks[target].Texts? && |m.blocks[target].texts| == st.sizes[f.slot]
      && target !in m.blocks[target].texts && DistinctTexts(m.blocks[target].texts)
      && NonNull(m.blocks[target].texts) <= m.blocks.Keys
      && |Own(f, st, m)| == 1 + |NonNull(m.blocks[target].texts)|
  {
    hide Regions, DistinctTexts;
    var target := st.cells[f.slot].target;
    assert TextsOf(f, st, m) == m.blocks[target].texts;
    DisjointSize({target}, NonNull(m.blocks[target].texts));
  }

  lemma ItemTidy(env: Table, m: Memory, n: Memory, c: Plan, sub: nat, xs: seq<Addr>, bound: set<Addr>, k: nat)
    requires AllTidy(env, m, c, sub, xs, bound) && k < |xs| && ItemsDone(env, m, n, c, sub, xs, bound, k)
    ensures xs[k] != 0 && xs[k] in c && c[xs[k]] < bound && Tidy(env, n, c, sub, xs[k])
  {
    hide Live, Released, Tidy;
    TidyLocal(env, n, c, sub, xs[k]);
  }

  lemma AllItemsDone(env: Table, m: Memory, n: Memory, c: Plan, sub: nat, xs: seq<Addr>, bound: set<Addr>)
    requires AllTidy(env, m, c, sub, xs, bound) && ItemsDone(env, m, n, c, sub, xs, bound, |xs|)
    ensures AllTidy(env, n, c, sub, xs, bound) && LiveItems(env, n, c, sub, xs, bound) == {}
    ensures Released(m, n, LiveItems(env, m, c, sub, xs, bound), Regions(c, xs))
  {
    hide Live, Released, Tidy;
    assert xs[..|xs|] == xs;
    NoItems(env, n, c, sub, xs, bound);
  }

  // ----- an example -----

  /** A message with an allocated submessage that has an array of two texts. */
  const EXAMPLE_TABLE: Table := [
    [Member(1, Message(1), T.Pointer, Singular, 0)],
    [Member(1, Text, T.Pointer, Repeated(true, 0), 0)]]

  const EXAMPLE: Memory := Memory(
    map[1 := Struct([Ptr(2)], [0]), 3 := Struct([Ptr(4)], [2])],
    map[2 := Structs([3]), 4 := Texts([5, 6]), 5 := Bytes, 6 := Bytes])

  const EXAMPLE_PLAN: Plan := map[1 := {1, 2, 3, 4, 5, 6}, 3 := {3, 4, 5, 6}]

  lemma ExampleTexts()
    ensures Local(EXAMPLE_TABLE, EXAMPLE, EXAMPLE_PLAN, 1, 3)
    ensures Typed(EXAMPLE_TABLE[1][0], EXAMPLE.structs[3], EXAMPLE)
    ensures Children(EXAMPLE_TABLE[1][0], EXAMPLE.structs[3], EXAMPLE) == []
    ensures Own(EXAMPLE_TABLE[1][0], EXAMPLE.structs[3], EXAMPLE) == {4, 5, 6}
  {
    var f, st := EXAMPLE_TABLE[1][0], EXAMPLE.structs[3];
    assert TextsOf(f, st, EXAMPLE) == [5, 6];
    assert NonNull([5, 6]) == {5, 6};
    assert Children(f, st, EXAMPLE) == [];
    assert Own(f, st, EXAMPLE) == {4, 5, 6};
  }

  lemma ExampleInner()
    ensures Tidy(EXAMPLE_TABLE, EXAMPLE, EXAMPLE_PLAN, 1, 3)
    ensures Live(EXAMPLE_TABLE, EXAMPLE, EXAMPLE_PLAN, 1, 3) == {4, 5, 6}
  {
    ExampleTexts();
    hide Local, Typed, Children, Own;
    assert LiveFields(EXAMPLE_TABLE, EXAMPLE, EXAMPLE_PLAN, 1, 3, 0) == {};
  }

  lemma ExampleOuter()
    ensures Local(EXAMPLE_TABLE, EXAMPLE, EXAMPLE_PLAN, 0, 1)
    ensures Typed(EXAMPLE_TABLE[0][0], EXAMPLE.structs[1], EXAMPLE)
    ensures Children(EXAMPLE_TABLE[0][0], EXAMPLE.structs[1], EXAMPLE) == [3]
    ensures Own(EXAMPLE_TABLE[0][0], EXAMPLE.structs[1], EXAMPLE) == {2}
  {
    var f, st := EXAMPLE_TABLE[0][0], EXAMPLE.structs[1];
    assert TextsOf(f, st, EXAMPLE) == [];
    assert Children(f, st, EXAMPLE) == [3];
    assert Own(f, st, EXAMPLE) == {2};
    assert Regions(EXAMPLE_PLAN, [3]) == {3, 4, 5, 6} by {
      assert Regions(EXAMPLE_PLAN, []) == {};
    }
  }

  /** All four blocks of the example are reachable. */
  lemma ExampleLive()
    ensures Tidy(EXAMPLE_TABLE, EXAMPLE, EXAMPLE_PLAN, 0, 1)
    ensures Live(EXAMPLE_TABLE, EXAMPLE, EXAMPLE_PLAN, 0, 1) == {2, 4, 5, 6}
  {
    ExampleInner();
    ExampleOuter();
    hide Local, Typed, Children, Own;
    assert LiveFields(EXAMPLE_TABLE, EXAMPLE, EXAMPLE_PLAN, 0, 1, 0) == {};
    assert LiveItems(EXAMPLE_TABLE, EXAMPLE, EXAMPLE_PLAN, 1, [3], EXAMPLE_PLAN[1]) == {4, 5, 6} by {
      assert LiveItems(EXAMPLE_TABLE, EXAMPLE, EXAMPLE_PLAN, 1, [], EXAMPLE_PLAN[1]) == {};
    }
  }
}
