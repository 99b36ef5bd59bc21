/**
  The texts of IPv6 addresses that libuv's inet_pton6 accepts, as a grammar, and the round
  trip of the printed text.
*/
module Inet6Grammar {
  import opened Bits
  import opened Collections
  import opened Inet4
  import opened Inet6Spec

  // ----- the grammar -----

  /** A group is written with one to four hexadecimal digits. */
  predicate IsGroup(g: seq<byte>) {
    1 <= |g| <= 4 && IsHex(g)
  }

  predicate IsHex(g: seq<byte>) {
    forall k :: 0 <= k < |g| ==> HexValue(g[k]).Some?
  }

  predicate AllGroups(gs: seq<seq<byte>>) {
    forall k :: 0 <= k < |gs| ==> IsGroup(gs[k])
  }

  /** Groups, perhaps with a double colon somewhere and an IPv4 address at the end. */
  datatype Spelling = Spelling(left: seq<seq<byte>>, gap: bool, right: seq<seq<byte>>, quad: Option<seq<byte>>)

  /** The parts with colons between them. */
  function Join(parts: seq<seq<byte>>): seq<byte> {
    if parts == [] then []
    else
      var most, last := parts[..|parts| - 1], parts[|parts| - 1];
      if most == [] then last else Join(most) + [COLON] + last
  }

  function QuadText(quad: Option<seq<byte>>): seq<seq<byte>>
    requires quad.Some? ==> |quad.value| == 4
  {
    if quad.Some? then [Dotted(quad.value)] else []
  }

  function QuadBytes(quad: Option<seq<byte>>): seq<byte> {
    if quad.Some? then quad.value else []
  }

  /** The text of a spelling. */
  function Spell(sp: Spelling): seq<byte>
    requires sp.quad.Some? ==> |sp.quad.value| == 4
  {
    if sp.gap then Join(sp.left) + [COLON, COLON] + Join(sp.right + QuadText(sp.quad))
    else Join(sp.left + QuadText(sp.quad))
  }

  /** A double colon stands for at least one group of zeros; without it there are sixteen bytes. */
  predicate Proper(sp: Spelling) {
    && AllGroups(sp.left) && AllGroups(sp.right)
    && (sp.quad.Some? ==> |sp.quad.value| == 4)
    && (var size := 2 * |sp.left| + 2 * |sp.right| + |QuadBytes(sp.quad)|;
        if sp.gap then size < 16 else size == 16 && sp.right == [])
  }

  function HexNumber(g: seq<byte>): nat
    requires IsHex(g)
  {
    if g == [] then 0 else HexNumber(g[..|g| - 1]) * 16 + HexValue(g[|g| - 1]).value
  }

  /** The two bytes of each group. */
  function Bytes(gs: seq<seq<byte>>): (b: seq<byte>)
    requires AllGroups(gs)
    ensures |b| == 2 * |gs|
  {
    if gs == [] then []
    else
      var n := HexNumber(gs[|gs| - 1]);
      Bytes(gs[..|gs| - 1]) + [n / 256 % 256, n % 256]
  }

  /** The address that is spelled. */
  function Address(sp: Spelling): (a: seq<byte>)
    requires Proper(sp)
    ensures |a| == 16
  {
    var head, tail := Bytes(sp.left), Bytes(sp.right) + QuadBytes(sp.quad);
    head + Zeros(16 - |head| - |tail|) + tail
  }

  // ----- groups with a colon behind each -----

  function Colons(gs: seq<seq<byte>>): seq<byte> {
    if gs == [] then [] else Colons(gs[..|gs| - 1]) + gs[|gs| - 1] + [COLON]
  }

  lemma {:induction false} JoinLast(gs: seq<seq<byte>>, last: seq<byte>)
    ensures Join(gs + [last]) == Colons(gs) + last
    decreases |gs|
  {
    assert (gs + [last])[..|gs|] == gs;
    if gs != [] {
      JoinLast(gs[..|gs| - 1], gs[|gs| - 1]);
      assert gs[..|gs| - 1] + [gs[|gs| - 1]] == gs;
    }
  }

  lemma JoinNothing()
    ensures Join([]) == [] && Colons([]) == []
  {
  }

  lemma JoinColon(gs: seq<seq<byte>>)
    ensures gs != [] ==> Join(gs) + [COLON] == Colons(gs)
  {
    if gs != [] {
      JoinLast(gs[..|gs| - 1], gs[|gs| - 1]);
      assert gs[..|gs| - 1] + [gs[|gs| - 1]] == gs;
    }
  }

  lemma ColonsSnoc(gs: seq<seq<byte>>, g: seq<byte>)
    ensures Colons(gs + [g]) == Colons(gs) + g + [COLON]
  {
    assert (gs + [g])[..|gs|] == gs;
  }

  lemma BytesSnoc(gs: seq<seq<byte>>, g: seq<byte>)
    requires AllGroups(gs) && IsGroup(g)
    ensures AllGroups(gs + [g])
    ensures Bytes(gs + [g]) == Bytes(gs) + [HexNumber(g) / 256 % 256, HexNumber(g) % 256]
  {
    assert (gs + [g])[..|gs|] == gs;
  }

  lemma HexSnoc(g: seq<byte>, ch: byte)
    requires IsHex(g) && HexValue(ch).Some?
    ensures IsHex(g + [ch]) && HexNumber(g + [ch]) == HexNumber(g) * 16 + HexValue(ch).value
  {
    hide HexValue;
    assert (g + [ch])[..|g|] == g;
  }

  // ----- every spelling is accepted -----

  /** `piece` is at position `pos` of the text. */
  predicate Has(text: seq<byte>, pos: nat, piece: seq<byte>) {
    pos + |piece| <= |text| && text[pos..pos + |piece|] == piece
  }

  lemma HasSplit(text: seq<byte>, pos: nat, a: seq<byte>, b: seq<byte>)
    requires Has(text, pos, a + b)
    ensures Has(text, pos, a) && Has(text, pos + |a|, b)
  {
    assert text[pos..pos + |a|] == (a + b)[..|a|];
    assert text[pos + |a|..pos + |a| + |b|] == (a + b)[|a|..];
  }

  lemma HexDigitValue(d: nat)
    requires d < 16
    ensures HexValue(HexDigit(d)) == Some(d)
  {
  }

  /** Reading a colon. */
  lemma LoopColon(text: seq<byte>, pos: nat, st: State6)
    requires Has(text, pos, [COLON]) && st.tok <= |text|
    ensures st.seen == 0 && st.colon == -1 ==>
      Loop6(text, pos, st) == Loop6(text, pos + 1, st.(colon := |st.out|, tok := pos + 1))
    ensures st.seen > 0 && pos + 1 < |text| && |st.out| + 2 <= 16 ==>
      Loop6(text, pos, st) == Loop6(text, pos + 1, Store(st.(tok := pos + 1)))
  {
    assert text[pos] == text[pos..pos + 1][0];
  }

  lemma {:induction false} ReadDigits(text: seq<byte>, pos: nat, st: State6, g: seq<byte>)
    requires Has(text, pos, g) && IsHex(g) && |g| <= 4 && st.seen == 0 && st.val == 0 && st.tok <= |text|
    ensures Loop6(text, pos, st) == Loop6(text, pos + |g|, st.(seen := |g|, val := HexNumber(g)))
    decreases |g|
  {
    hide HexValue;
    if g != [] {
      var most, ch := g[..|g| - 1], g[|g| - 1];
      assert g == most + [ch];
      HasSplit(text, pos, most, [ch]);
      ReadDigits(text, pos, st, most);
      assert text[pos + |most|] == text[pos + |most|..pos + |g|][0] == ch;
    }
  }

  /** Reading an IPv4 address: its first octet is read as a group, and the dot starts again. */
  lemma ReadIpv4(text: seq<byte>, pos: nat, st: State6, v4: seq<byte>)
    requires |v4| == 4 && pos <= |text| && text[pos..] == Dotted(v4)
    requires st.seen == 0 && st.val == 0 && st.tok == pos && |st.out| + 4 <= 16
    ensures exists v: nat :: Loop6(text, pos, st) == Some(st.(out := st.out + v4, seen := 0, val := v))
  {
    hide Parse4, Dec, IsHex, HexNumber;
    Ipv4Bijection(v4, []);
    var d := Dec(v4[0]);
    var rest := Dec(v4[1]) + [DOT] + Dec(v4[2]) + [DOT] + Dec(v4[3]);
    assert Dotted(v4) == d + ([DOT] + rest);
    assert text[pos..pos + |d|] == text[pos..][..|d|] == d;
    DecIsHex(v4[0]);
    ReadDigits(text, pos, st, d);
    assert text[pos + |d|] == text[pos..][|d|] == DOT;
  }

  lemma DecIsHex(n: nat)
    requires n < 256
    ensures IsHex(Dec(n))
  {
  }

  lemma {:induction false} ReadColons(text: seq<byte>, pos: nat, st: State6, gs: seq<seq<byte>>)
    requires Has(text, pos, Colons(gs)) && AllGroups(gs) && pos + |Colons(gs)| < |text|
    requires st.seen == 0 && st.val == 0 && st.tok == pos && |st.out| + 2 * |gs| <= 16
    ensures Loop6(text, pos, st) ==
      Loop6(text, pos + |Colons(gs)|, st.(out := st.out + Bytes(gs), tok := pos + |Colons(gs)|))
    decreases |gs|
  {
    hide Loop6, Has, IsHex, HexNumber;
    if gs == [] {
      assert st.out + [] == st.out;
    } else {
      var most, g := gs[..|gs| - 1], gs[|gs| - 1];
      HasSplit(text, pos, Colons(most) + g, [COLON]);
      HasSplit(text, pos, Colons(most), g);
      ReadColons(text, pos, st, most);
      var at := pos + |Colons(most)|;
      var st1 := st.(out := st.out + Bytes(most), tok := at);
      ReadDigits(text, at, st1, g);
      var st2 := st1.(seen := |g|, val := HexNumber(g));
      LoopColon(text, at + |g|, st2);
      assert Store(st2).out == st.out + Bytes(gs);
    }
  }

  /** The bytes when the loop is left; the last group is still in `val`. */
  function Kept(st: State6): seq<byte> {
    if st.seen > 0 then Store(st).out else st.out
  }

  /** Reading what comes after the double colon, or the whole text if there is none. */
  lemma ReadParts(text: seq<byte>, pos: nat, st: State6, gs: seq<seq<byte>>, quad: Option<seq<byte>>) returns (fin: State6)
    requires AllGroups(gs) && (quad.Some? ==> |quad.value| == 4)
    requires pos <= |text| && text[pos..] == Join(gs + QuadText(quad))
    requires st.seen == 0 && st.val == 0 && st.tok == pos && |st.out| + 2 * |gs| + |QuadBytes(quad)| <= 16
    ensures Loop6(text, pos, st) == Some(fin) && fin.colon == st.colon && (fin.seen > 0 ==> |fin.out| + 2 <= 16)
    ensures Kept(fin) == st.out + Bytes(gs) + QuadBytes(quad)
  {
    hide Loop6, IsHex, HexNumber, Dotted;
    if quad.Some? {
      fin := ReadQuad(text, pos, st, gs, quad.value);
    } else if gs == [] {
      assert gs + QuadText(quad) == [];
      LoopAtEnd(text, st);
      fin := st;
      assert st.out + [] + [] == st.out;
    } else {
      var most, g := gs[..|gs| - 1], gs[|gs| - 1];
      assert gs + QuadText(quad) == gs == most + [g];
      fin := ReadGroups(text, pos, st, most, g);
      assert Bytes(gs) + [] == Bytes(gs);
    }
  }

  /** Reading all but the last part. */
  lemma ReadFront(text: seq<byte>, pos: nat, st: State6, gs: seq<seq<byte>>, last: seq<byte>) returns (at: nat)
    requires AllGroups(gs) && last != [] && pos <= |text| && text[pos..] == Join(gs + [last])
    requires st.seen == 0 && st.val == 0 && st.tok == pos && |st.out| + 2 * |gs| <= 16
    ensures at <= |text| && text[at..] == last && Has(text, at, last) && at + |last| == |text|
    ensures Loop6(text, pos, st) == Loop6(text, at, st.(out := st.out + Bytes(gs), tok := at))
  {
    hide Loop6, Colons, Join, Has, AllGroups;
    JoinLast(gs, last);
    HasSuffix(text, pos, Colons(gs), last);
    ReadColons(text, pos, st, gs);
    at := pos + |Colons(gs)|;
  }

  lemma ReadGroups(text: seq<byte>, pos: nat, st: State6, most: seq<seq<byte>>, g: seq<byte>) returns (fin: State6)
    requires AllGroups(most) && IsGroup(g) && pos <= |text| && text[pos..] == Join(most + [g])
    requires st.seen == 0 && st.val == 0 && st.tok == pos && |st.out| + 2 * |most| + 2 <= 16
    ensures Loop6(text, pos, st) == Some(fin) && fin.colon == st.colon && |fin.out| + 2 <= 16
    ensures fin.seen > 0 && AllGroups(most + [g]) && Kept(fin) == st.out + Bytes(most + [g])
  {
    hide Loop6, IsHex, HexNumber, Join, Has, AllGroups;
    var at := ReadFront(text, pos, st, most, g);
    var st1 := st.(out := st.out + Bytes(most), tok := at);
    ReadDigits(text, at, st1, g);
    fin := st1.(seen := |g|, val := HexNumber(g));
    LoopAtEnd(text, fin);
    BytesSnoc(most, g);
    hide Bytes;
  }

  lemma ReadQuad(text: seq<byte>, pos: nat, st: State6, gs: seq<seq<byte>>, a: seq<byte>) returns (fin: State6)
    requires AllGroups(gs) && |a| == 4 && pos <= |text| && text[pos..] == Join(gs + [Dotted(a)])
    requires st.seen == 0 && st.val == 0 && st.tok == pos && |st.out| + 2 * |gs| + 4 <= 16
    ensures Loop6(text, pos, st) == Some(fin) && fin.colon == st.colon
    ensures fin.seen == 0 && Kept(fin) == st.out + Bytes(gs) + a
  {
    hide Loop6, Join, Has, AllGroups, Bytes, Dotted;
    var at := ReadFront(text, pos, st, gs, Dotted(a));
    var st1 := st.(out := st.out + Bytes(gs), tok := at);
    ReadIpv4(text, at, st1, a);
    var v: nat :| Loop6(text, at, st1) == Some(st1.(out := st1.out + a, seen := 0, val := v));
    fin := st1.(out := st1.out + a, seen := 0, val := v);
  }

  lemma HasSuffix(text: seq<byte>, pos: nat, head: seq<byte>, tail: seq<byte>)
    requires pos <= |text| && text[pos..] == head + tail
    ensures Has(text, pos, head) && Has(text, pos + |head|, tail)
    ensures pos + |head| + |tail| == |text| && text[pos + |head|..] == tail
  {
    assert text[pos..pos + |head|] == text[pos..][..|head|];
    assert text[pos + |head|..] == text[pos..][|head|..];
  }

  /** What comes after the loop, in terms of the bytes kept. */
  lemma EndOf(fin: State6)
    requires fin.seen > 0 ==> |fin.out| + 2 <= 16
    ensures End6(fin) ==
      var out := Kept(fin);
      if fin.colon == -1 then (if |out| == 16 then Some(out) else None)
      else if |out| >= 16 || !(0 <= fin.colon <= |out|) then None
      else Some(Spread(out, fin.colon))
  {
  }

  lemma {:induction false} ColonsStart(gs: seq<seq<byte>>)
    requires AllGroups(gs) && gs != []
    ensures Colons(gs) != [] && Colons(gs)[0] != COLON
    decreases |gs|
  {
    var most, g := gs[..|gs| - 1], gs[|gs| - 1];
    assert IsGroup(g);
    if most != [] {
      ColonsStart(most);
    }
  }

  /** Parts do not begin with a colon. */
  lemma JoinStart(gs: seq<seq<byte>>, quad: Option<seq<byte>>)
    requires AllGroups(gs) && (quad.Some? ==> |quad.value| == 4)
    requires gs != [] || quad.Some?
    ensures var text := Join(gs + QuadText(quad)); text != [] && text[0] != COLON
  {
    hide Join, IsHex;
    var most, last := if quad.Some? then gs else gs[..|gs| - 1], if quad.Some? then Dotted(quad.value) else gs[|gs| - 1];
    assert gs + QuadText(quad) == most + [last];
    JoinLast(most, last);
    if most != [] {
      ColonsStart(most);
    } else if quad.Some? {
      DottedStart(quad.value);
    } else {
      GroupStart(last);
    }
  }

  lemma DottedStart(a: seq<byte>)
    requires |a| == 4
    ensures Dotted(a)[0] != COLON
  {
    var d := Dec(a[0]);
    assert d[0] != COLON;
  }

  lemma GroupStart(g: seq<byte>)
    requires IsGroup(g)
    ensures g[0] != COLON
  {
  }

  /** Reading the second colon of the double colon, and what comes after it. */
  lemma ReadGap(text: seq<byte>, pos: nat, st: State6, right: seq<seq<byte>>, quad: Option<seq<byte>>) returns (fin: State6)
    requires AllGroups(right) && (quad.Some? ==> |quad.value| == 4)
    requires pos < |text| && text[pos] == COLON && text[pos + 1..] == Join(right + QuadText(quad))
    requires st.seen == 0 && st.val == 0 && st.colon == -1 && st.tok == pos
    requires |st.out| + 2 * |right| + |QuadBytes(quad)| <= 16
    ensures Loop6(text, pos, st) == Some(fin) && fin.colon == |st.out| && (fin.seen > 0 ==> |fin.out| + 2 <= 16)
    ensures Kept(fin) == st.out + (Bytes(right) + QuadBytes(quad))
  {
    hide Loop6, Join, Kept, IsGroup;
    assert text[pos..pos + 1] == [COLON];
    LoopColon(text, pos, st);
    fin := ReadParts(text, pos + 1, st.(colon := |st.out|, tok := pos + 1), right, quad);
    assert st.out + Bytes(right) + QuadBytes(quad) == st.out + (Bytes(right) + QuadBytes(quad));
  }

  /** Reading the groups before a double colon and its first colon. */
  lemma ReadLeft(text: seq<byte>, left: seq<seq<byte>>, rest: seq<byte>) returns (st: State6)
    requires AllGroups(left) && left != [] && 2 * |left| <= 16 && text == Join(left) + [COLON, COLON] + rest
    ensures var at := |Colons(left)|;
      && at < |text| && text[at] == COLON && text[at + 1..] == rest && text[0] != COLON
      && st == State6(Bytes(left), -1, 0, 0, at)
      && Loop6(text, 0, State6([], -1, 0, 0, 0)) == Loop6(text, at, st)
  {
    hide Loop6, Join, Colons, IsGroup;
    var at := |Colons(left)|;
    JoinColon(left);
    ColonsStart(left);
    assert text == Colons(left) + ([COLON] + rest);
    assert text[0..at] == Colons(left);
    ReadColons(text, 0, State6([], -1, 0, 0, 0), left);
    assert [] + Bytes(left) == Bytes(left);
    st := State6(Bytes(left), -1, 0, 0, at);
  }

  lemma SpreadApart(head: seq<byte>, tail: seq<byte>)
    requires |head| + |tail| <= 16
    ensures Spread(head + tail, |head|) == head + Zeros(16 - |head| - |tail|) + tail
  {
    assert (head + tail)[..|head|] == head && (head + tail)[|head|..] == tail;
  }

  /** The text of a spelling is accepted, and is the address that is spelled. */
  lemma SpellingParses(sp: Spelling)
    requires Proper(sp)
    ensures Parse6(Spell(sp)) == Some(Address(sp))
  {
    hide Loop6, End6, Join, Colons, Bytes, AllGroups, Dotted, Spread, Kept;
    var text, fin := Spell(sp), State6([], -1, 0, 0, 0);
    if !sp.gap {
      JoinStart(sp.left, sp.quad);
      assert text[0..] == text;
      fin := ReadParts(text, 0, fin, sp.left, sp.quad);
      assert Kept(fin) == Address(sp);
    } else if sp.left == [] {
      JoinNothing();
      assert text == [COLON, COLON] + Join(sp.right + QuadText(sp.quad));
      fin := ReadGap(text, 1, fin.(tok := 1), sp.right, sp.quad);
      SpreadApart([], Bytes(sp.right) + QuadBytes(sp.quad));
    } else {
      var st := ReadLeft(text, sp.left, Join(sp.right + QuadText(sp.quad)));
      fin := ReadGap(text, |Colons(sp.left)|, st, sp.right, sp.quad);
      SpreadApart(Bytes(sp.left), Bytes(sp.right) + QuadBytes(sp.quad));
    }
    EndOf(fin);
  }

  // ----- nothing else is accepted -----

  /** The loop has read `text[..pos]` as groups with their colons, perhaps the double colon, and the
      digits `cur`.  A double colon at the beginning has its first colon read before the loop. */
  ghost predicate HasRead(text: seq<byte>, pos: nat, st: State6, sp: Spelling, cur: seq<byte>) {
    && pos <= |text| && AllGroups(sp.left) && AllGroups(sp.right) && IsHex(cur) && |cur| <= 4
    && text[..pos] == Front(text) + Colons(sp.left) + (if sp.gap then [COLON] else []) + Colons(sp.right) + cur
    && st.out == Bytes(sp.left) + Bytes(sp.right) && st.colon == (if sp.gap then 2 * |sp.left| else -1)
    && st.seen == |cur| && st.val == HexNumber(cur) && st.tok == pos - |cur|
    && (if sp.gap then Front(text) == [] <==> sp.left != [] else sp.right == [] && (Front(text) != [] ==> sp.left == [] && cur == []))
    && (pos == |text| && cur == [] ==> sp.right == [] && (!sp.gap ==> sp.left == []))
  }

  /** The colon that is read before the loop. */
  function Front(text: seq<byte>): seq<byte> {
    if text != [] && text[0] == COLON then [COLON] else []
  }

  /** The spelling, when the text ends after the digits `cur`. */
  function WithLast(sp: Spelling, cur: seq<byte>): Spelling {
    if cur == [] then sp
    else if sp.gap then sp.(right := sp.right + [cur])
    else sp.(left := sp.left + [cur])
  }

  lemma JoinGap(left: seq<seq<byte>>)
    ensures (if left == [] then [COLON] else []) + Colons(left) + [COLON] == Join(left) + [COLON, COLON]
  {
    JoinColon(left);
    JoinNothing();
    hide Join, Colons;
    assert Join(left) + [COLON, COLON] == Join(left) + [COLON] + [COLON];
  }

  /** The text of a spelling whose last part is `last`. */
  lemma SpellLast(sp: Spelling, last: seq<byte>)
    requires !sp.gap ==> sp.right == []
    ensures if sp.gap then Join(sp.left) + [COLON, COLON] + Join(sp.right + [last])
                         == (if sp.left == [] then [COLON] else []) + Colons(sp.left) + [COLON] + Colons(sp.right) + last
            else Join(sp.left + [last]) == Colons(sp.left) + Colons(sp.right) + last
  {
    JoinNothing();
    hide Join, Colons;
    JoinGap(sp.left);
    JoinLast(sp.right, last);
    JoinLast(sp.left, last);
    if sp.gap {
      var head := Join(sp.left) + [COLON, COLON];
      assert head + (Colons(sp.right) + last) == head + Colons(sp.right) + last;
    } else {
      assert Colons(sp.left) + [] == Colons(sp.left);
    }
  }

  /** What has been read, as in the text of a spelling. */
  lemma ReadText(text: seq<byte>, pos: nat, st: State6, sp: Spelling, cur: seq<byte>)
    requires HasRead(text, pos, st, sp, cur) && (sp.gap || Front(text) == [] || cur != [])
    ensures !sp.gap ==> sp.right == []
    ensures text[..pos] ==
      if sp.gap then (if sp.left == [] then [COLON] else []) + Colons(sp.left) + [COLON] + Colons(sp.right) + cur
      else Colons(sp.left) + Colons(sp.right) + cur
  {
    hide Colons, Bytes, HexNumber, HexValue, AllGroups, IsHex;
    if !sp.gap {
      assert [] + Colons(sp.left) + [] + Colons(sp.right) + cur == Colons(sp.left) + Colons(sp.right) + cur;
    }
  }

  lemma EndProper(text: seq<byte>, st: State6, sp: Spelling, cur: seq<byte>)
    requires HasRead(text, |text|, st, sp, cur) && sp.quad.None? && cur != [] && End6(st).Some?
    ensures Proper(WithLast(sp, cur))
  {
    hide Join, Colons, Bytes, HexNumber, HexValue, Spell, Spread;
  }

  /** The text ends after some digits. */
  lemma EndSpells(text: seq<byte>, st: State6, sp: Spelling, cur: seq<byte>)
    requires HasRead(text, |text|, st, sp, cur) && sp.quad.None? && cur != [] && End6(st).Some?
    ensures Proper(WithLast(sp, cur)) && Spell(WithLast(sp, cur)) == text
  {
    EndProper(text, st, sp, cur);
    ReadText(text, |text|, st, sp, cur);
    hide HasRead, Join, Colons, Proper, End6, Front;
    SpellLast(sp, cur);
    assert text[..|text|] == text;
    if sp.gap {
      assert sp.right + [cur] + [] == sp.right + [cur];
    } else {
      assert sp.left + [cur] + [] == sp.left + [cur];
    }
  }

  /** The text ends with the double colon. */
  lemma GapSpells(text: seq<byte>, st: State6, sp: Spelling)
    requires HasRead(text, |text|, st, sp, []) && sp.quad.None? && End6(st).Some?
    requires Front(text) != [] ==> |text| >= 2
    ensures Proper(sp) && Spell(sp) == text
  {
    JoinNothing();
    hide Join, Colons, Bytes, HexNumber, HexValue;
    JoinGap(sp.left);
    assert text[..|text|] == text;
    assert sp.right + QuadText(None) == [];
  }

  /** The text ends with an IPv4 address. */
  lemma QuadSpells(text: seq<byte>, pos: nat, st: State6, sp: Spelling, cur: seq<byte>, a: seq<byte>)
    requires HasRead(text, pos, st, sp, cur) && sp.quad.None? && |a| == 4 && text[st.tok..] == Dotted(a)
    requires Front(text) == [] || sp.gap
    requires End6(st.(out := st.out + a, seen := 0)).Some?
    ensures Proper(sp.(quad := Some(a))) && Spell(sp.(quad := Some(a))) == text
  {
    hide Join, Colons, Bytes, HexNumber, HexValue, Dotted;
    SpellLast(sp, Dotted(a));
    assert text == text[..st.tok] + text[st.tok..];
    assert text[..st.tok] == text[..pos][..st.tok];
  }

  lemma StartRead(text: seq<byte>)
    requires Front(text) != [] ==> |text| >= 2
    requires text != []
    ensures HasRead(text, |Front(text)|, State6([], -1, 0, 0, |Front(text)|), Spelling([], false, [], None), [])
  {
    hide HexValue;
    assert text[..0] == [] && text[..1] == [text[0]];
  }

  lemma DigitRead(text: seq<byte>, pos: nat, st: State6, sp: Spelling, cur: seq<byte>)
    requires HasRead(text, pos, st, sp, cur) && pos < |text| && HexValue(text[pos]).Some? && |cur| < 4
    requires sp.gap || Front(text) == []
    ensures HasRead(text, pos + 1, st.(seen := st.seen + 1, val := st.val * 16 + HexValue(text[pos]).value), sp, cur + [text[pos]])
  {
    hide HexValue, Colons, Bytes, AllGroups, HexNumber;
    HexSnoc(cur, text[pos]);
    assert text[..pos + 1] == text[..pos] + [text[pos]];
  }

  lemma GapRead(text: seq<byte>, pos: nat, st: State6, sp: Spelling)
    requires HasRead(text, pos, st, sp, []) && pos < |text| && text[pos] == COLON && !sp.gap
    ensures HasRead(text, pos + 1, st.(colon := |st.out|, tok := pos + 1), sp.(gap := true), [])
  {
    hide HexValue, AllGroups, HexNumber, IsGroup;
    assert text[..pos + 1] == text[..pos] + [text[pos]];
  }

  lemma GroupRead(text: seq<byte>, pos: nat, st: State6, sp: Spelling, cur: seq<byte>)
    requires HasRead(text, pos, st, sp, cur) && pos + 1 < |text| && text[pos] == COLON && cur != []
    ensures HasRead(text, pos + 1, Store(st.(tok := pos + 1)), WithLast(sp, cur), [])
  {
    if sp.gap {
      RightRead(text, pos, st, sp, cur);
    } else {
      LeftRead(text, pos, st, sp, cur);
    }
  }

  lemma RightRead(text: seq<byte>, pos: nat, st: State6, sp: Spelling, cur: seq<byte>)
    requires HasRead(text, pos, st, sp, cur) && pos + 1 < |text| && text[pos] == COLON && cur != [] && sp.gap
    ensures HasRead(text, pos + 1, Store(st.(tok := pos + 1)), sp.(right := sp.right + [cur]), [])
  {
    hide HexValue, HexNumber, IsHex, Colons, Bytes, Front;
    ColonsSnoc(sp.right, cur);
    BytesSnoc(sp.right, cur);
    assert text[..pos + 1] == text[..pos] + [text[pos]];
    var head := Front(text) + Colons(sp.left) + [COLON];
    MovedColon(head, Colons(sp.right), cur);
    NoDigits();
  }

  lemma LeftRead(text: seq<byte>, pos: nat, st: State6, sp: Spelling, cur: seq<byte>)
    requires HasRead(text, pos, st, sp, cur) && pos + 1 < |text| && text[pos] == COLON && cur != [] && !sp.gap
    ensures HasRead(text, pos + 1, Store(st.(tok := pos + 1)), sp.(left := sp.left + [cur]), [])
  {
    JoinNothing();
    assert Bytes([]) == [];
    hide HexValue, HexNumber, IsHex, Colons, Bytes, Front;
    ColonsSnoc(sp.left, cur);
    BytesSnoc(sp.left, cur);
    assert text[..pos + 1] == text[..pos] + [text[pos]];
    MovedColon(Front(text), Colons(sp.left), cur);
    NoDigits();
  }

  lemma NoDigits()
    ensures IsHex([]) && HexNumber([]) == 0
  {
  }

  lemma MovedColon(head: seq<byte>, groups: seq<byte>, cur: seq<byte>)
    ensures head + groups + cur + [COLON] == head + (groups + cur + [COLON]) + []
    ensures head + groups + [] + [] + cur + [COLON] == head + (groups + cur + [COLON]) + [] + [] + []
  {
  }

  lemma ReadFacts(text: seq<byte>, pos: nat, st: State6, sp: Spelling, cur: seq<byte>)
    requires HasRead(text, pos, st, sp, cur)
    ensures pos <= |text| && st.tok == pos - |cur| && st.seen == |cur| <= 4 && (st.colon == -1 <==> !sp.gap)
    ensures !sp.gap && Front(text) != [] ==> pos == 1
    ensures pos == |text| && cur == [] ==> sp.right == [] && (!sp.gap ==> sp.left == [])
  {
    JoinNothing();
    hide Colons, Bytes, HexNumber, IsHex, AllGroups;
  }

  lemma ColonIsNoDigit()
    ensures HexValue(COLON) == None
  {
  }

  /** One step of the loop. */
  lemma LoopOnce(text: seq<byte>, pos: nat, st: State6)
    requires pos < |text| && st.tok <= |text| && Loop6(text, pos, st).Some?
    ensures var ch := text[pos];
      if HexValue(ch).Some? then
        st.seen < 4 && Loop6(text, pos, st) == Loop6(text, pos + 1, st.(seen := st.seen + 1, val := st.val * 16 + HexValue(ch).value))
      else if ch == COLON && st.seen == 0 then
        st.colon == -1 && Loop6(text, pos, st) == Loop6(text, pos + 1, st.(colon := |st.out|, tok := pos + 1))
      else if ch == COLON then
        pos + 1 < |text| && Loop6(text, pos, st) == Loop6(text, pos + 1, Store(st.(tok := pos + 1)))
      else
        Parse4(text[st.tok..]).Some?
        && Loop6(text, pos, st) == Some(st.(out := st.out + Parse4(text[st.tok..]).value, seen := 0))
  {
    hide Parse4, HexValue;
  }

  /** Whatever the loop accepts from here on, the text is a spelling. */
  lemma {:induction false} LoopSpells(text: seq<byte>, pos: nat, st: State6, sp: Spelling, cur: seq<byte>) returns (done: Spelling)
    requires HasRead(text, pos, st, sp, cur) && sp.quad.None?
    requires Front(text) != [] ==> |text| >= 2 && text[1] == COLON && pos >= 1
    requires st.tok <= |text| && Loop6(text, pos, st).Some? && End6(Loop6(text, pos, st).value).Some?
    ensures Proper(done) && Spell(done) == text
    decreases |text| - pos
  {
    hide HasRead, Loop6, End6, Spell, HexValue, Parse4, Front, Proper, Dotted;
    ReadFacts(text, pos, st, sp, cur);
    ColonIsNoDigit();
    if pos < |text| {
      LoopOnce(text, pos, st);
    }
    if pos == |text| {
      LoopAtEnd(text, st);
      if cur != [] {
        EndSpells(text, st, sp, cur);
        done := WithLast(sp, cur);
      } else {
        GapSpells(text, st, sp);
        done := sp;
      }
    } else if HexValue(text[pos]).Some? {
      DigitRead(text, pos, st, sp, cur);
      done := LoopSpells(text, pos + 1, st.(seen := st.seen + 1, val := st.val * 16 + HexValue(text[pos]).value), sp, cur + [text[pos]]);
    } else if text[pos] == COLON && cur == [] {
      GapRead(text, pos, st, sp);
      done := LoopSpells(text, pos + 1, st.(colon := |st.out|, tok := pos + 1), sp.(gap := true), []);
    } else if text[pos] == COLON {
      GroupRead(text, pos, st, sp, cur);
      done := LoopSpells(text, pos + 1, Store(st.(tok := pos + 1)), WithLast(sp, cur), []);
    } else {
      var a := Parse4(text[st.tok..]).value;
      Ipv4Bijection(a, text[st.tok..]);
      QuadSpells(text, pos, st, sp, cur, a);
      done := sp.(quad := Some(a));
    }
  }

  /** Everything that is accepted is a spelling. */
  lemma ParsedIsSpelling(text: seq<byte>) returns (sp: Spelling)
    requires Parse6(text).Some?
    ensures Proper(sp) && Spell(sp) == text && Parse6(text) == Some(Address(sp))
  {
    hide Loop6, End6, HasRead, Spell, Proper, Address;
    var start := |Front(text)|;
    var st := State6([], -1, 0, 0, start);
    if text == [] {
      LoopAtEnd(text, st);
      assert End6(st) == None by { EndOf(st); }
    } else {
      StartRead(text);
      sp := LoopSpells(text, start, st, Spelling([], false, [], None), []);
      SpellingParses(sp);
    }
  }

  /** The texts that `inet_pton6` accepts are exactly the spellings, and a text that has several has
      one address. */
  lemma AcceptedTexts(text: seq<byte>, a: seq<byte>)
    ensures Parse6(text) == Some(a) <==> exists sp :: Proper(sp) && Spell(sp) == text && Address(sp) == a
  {
    hide Parse6, Spell, Address;
    if Parse6(text) == Some(a) {
      var sp := ParsedIsSpelling(text);
      assert Proper(sp) && Spell(sp) == text && Address(sp) == a;
    }
    forall sp | Proper(sp) && Spell(sp) == text && Address(sp) == a ensures Parse6(text) == Some(a) {
      SpellingParses(sp);
    }
  }

  // ----- the printed text -----

  /** A run that "::" may stand for. */
  predicate Shortens(base: int, len: int) {
    base == -1 || (0 <= base && 2 <= len && base + len <= 8)
  }

  /** Groups without leading zeros. */
  function Hexes(w: seq<nat>): seq<seq<byte>> {
    seq(|w|, i requires 0 <= i < |w| => Hex(w[i]))
  }

  lemma WordBytes(a: seq<byte>, k: nat)
    requires |a| == 16 && k < 8
    ensures [Words(a)[k] / 256 % 256, Words(a)[k] % 256] == a[2 * k..2 * k + 2]
  {
    assert Words(a)[k] / 256 % 256 == a[2 * k] && Words(a)[k] % 256 == a[2 * k + 1];
  }

  /** What the printer spells. */
  function Printed(a: seq<byte>, base: int, len: int): Spelling
    requires |a| == 16 && Shortens(base, len)
  {
    var w := Words(a);
    if Encapsulated(w, base, len) then Spelling([], true, Hexes(w[len..6]), Some(a[12..]))
    else if base == -1 then Spelling(Hexes(w), false, [], None)
    else Spelling(Hexes(w[..base]), true, Hexes(w[base + len..]), None)
  }

  lemma {:induction false} HexIsHex(w: nat)
    ensures IsHex(Hex(w)) && HexNumber(Hex(w)) == w
  {
    hide HexValue, HexDigit;
    HexDigitValue(w % 16);
    if w < 16 {
      HexSnoc([], HexDigit(w));
      assert [] + [HexDigit(w)] == Hex(w);
      assert HexNumber([]) == 0;
    } else {
      HexIsHex(w / 16);
      HexSnoc(Hex(w / 16), HexDigit(w % 16));
    }
  }

  lemma HexIsGroup(w: nat)
    requires w < 0x10000
    ensures IsGroup(Hex(w)) && HexNumber(Hex(w)) == w
  {
    hide Hex, IsHex, HexNumber;
    HexIsHex(w);
    HexSize(w);
  }

  lemma {:induction false} BytesOfHexes(a: seq<byte>, i: nat, j: nat)
    requires |a| == 16 && i <= j <= 8
    ensures AllGroups(Hexes(Words(a)[i..j])) && Bytes(Hexes(Words(a)[i..j])) == a[2 * i..2 * j]
    decreases j
  {
    hide Hex, Hexes, IsGroup, HexNumber, AllGroups, Bytes, Words;
    if i == j {
      NoBytes(Words(a), i);
    } else {
      HexesSnoc(Words(a), i, j - 1);
      HexIsGroup(Words(a)[j - 1]);
      WordBytes(a, j - 1);
      BytesOfHexes(a, i, j - 1);
      BytesSnoc(Hexes(Words(a)[i..j - 1]), Hex(Words(a)[j - 1]));
      TwoMore(a, 2 * i, 2 * j - 2);
    }
  }

  lemma NoBytes(w: seq<nat>, i: nat)
    requires i <= |w|
    ensures AllGroups(Hexes(w[i..i])) && Bytes(Hexes(w[i..i])) == []
  {
  }

  lemma TwoMore(a: seq<byte>, x: nat, y: nat)
    requires x <= y && y + 2 <= |a|
    ensures a[x..y] + a[y..y + 2] == a[x..y + 2]
  {
  }

  lemma HexesSnoc(w: seq<nat>, i: nat, k: nat)
    requires i <= k < |w|
    ensures Hexes(w[i..k + 1]) == Hexes(w[i..k]) + [Hex(w[k])]
  {
    assert w[i..k + 1] == w[i..k] + [w[k]];
  }

  lemma JoinNext(w: seq<nat>, from: nat, k: nat)
    requires from <= k < |w|
    ensures Join(Hexes(w[from..k + 1])) == (if k == from then Hex(w[k]) else Join(Hexes(w[from..k])) + [COLON] + Hex(w[k]))
  {
    hide Hex;
    HexesSnoc(w, from, k);
    var most := Hexes(w[from..k]);
    assert (most + [Hex(w[k])])[..|most|] == most;
  }

  /** The groups before the run, joined, and those after it. */
  function Joined(w: seq<nat>, base: int, len: int, i: nat): seq<byte>
    requires Shortens(base, len) && |w| == 8 && i <= 8
  {
    if base == -1 || i <= base then Join(Hexes(w[0..i]))
    else
      Join(Hexes(w[0..base]))
      + (if i <= base + len then [COLON] else [COLON, COLON] + Join(Hexes(w[base + len..i])))
  }

  lemma JoinedStep(w: seq<nat>, base: int, len: int, k: nat)
    requires Shortens(base, len) && |w| == 8 && k < 8
    ensures Joined(w, base, len, k + 1) == Joined(w, base, len, k) + Piece(w, base, len, k)
  {
    hide Hex, Hexes, Join;
    if base == -1 || k < base {
      JoinNext(w, 0, k);
      NoHexes(w);
      JoinNothing();
      assert Join(Hexes(w[0..k])) + ([COLON] + Hex(w[k])) == Join(Hexes(w[0..k])) + [COLON] + Hex(w[k]);
    } else if k >= base + len {
      AfterRunStep(w, base, len, k);
    }
  }

  lemma AfterRunStep(w: seq<nat>, base: nat, len: int, k: nat)
    requires Shortens(base, len) && |w| == 8 && base + len <= k < 8
    ensures Joined(w, base, len, k + 1) == Joined(w, base, len, k) + Piece(w, base, len, k)
  {
    hide Hex, Hexes, Join;
    JoinNext(w, base + len, k);
    NextJoined(Join(Hexes(w[0..base])), Join(Hexes(w[base + len..k])), Hex(w[k]));
  }

  lemma NextJoined(head: seq<byte>, tail: seq<byte>, g: seq<byte>)
    ensures head + [COLON] + ([COLON] + g) == head + ([COLON, COLON] + g)
    ensures head + ([COLON, COLON] + tail) + ([COLON] + g) == head + ([COLON, COLON] + (tail + [COLON] + g))
  {
  }

  lemma NoHexes(w: seq<nat>)
    ensures Hexes(w[0..0]) == []
  {
  }

  lemma {:induction false} PiecesAreJoined(w: seq<nat>, base: int, len: int, i: nat)
    requires Shortens(base, len) && |w| == 8 && i <= 8
    ensures Pieces(w, base, len, i) == Joined(w, base, len, i)
  {
    hide Joined, Piece;
    if i == 0 {
      assert Joined(w, base, len, 0) == [] by { NothingJoined(w, base, len); }
    } else {
      PiecesAreJoined(w, base, len, i - 1);
      JoinedStep(w, base, len, i - 1);
    }
  }

  lemma NothingJoined(w: seq<nat>, base: int, len: int)
    requires Shortens(base, len) && |w| == 8
    ensures Joined(w, base, len, 0) == []
  {
    NoHexes(w);
    JoinNothing();
  }

  /** The printer writes a spelling. */
  lemma TextIsPrinted(a: seq<byte>, base: int, len: int)
    requires |a| == 16 && Shortens(base, len)
    ensures Text6(a, base, len) == Spell(Printed(a, base, len))
  {
    var w := Words(a);
    hide Words, Pieces, Hexes, Join, Dotted, Spell;
    if Encapsulated(w, base, len) {
      QuadPrinted(w, len, a[12..]);
    } else if base == -1 {
      GroupsPrinted(w, len);
    } else {
      GapPrinted(w, base, len);
    }
  }

  lemma QuadPrinted(w: seq<nat>, len: int, a: seq<byte>)
    requires |w| == 8 && 5 <= len <= 6 && |a| == 4
    ensures Pieces(w, 0, len, 6) + [COLON] + Dotted(a) == Spell(Spelling([], true, Hexes(w[len..6]), Some(a)))
  {
    hide Join, Colons, Pieces, Hexes, Dotted;
    var r := Hexes(w[len..6]);
    QuadPieces(w, len, r);
    JoinNothing();
    JoinLast(r, Dotted(a));
    Regroup([COLON, COLON], Colons(r), Dotted(a));
  }

  lemma Regroup(x: seq<byte>, y: seq<byte>, z: seq<byte>)
    ensures x + y + z == x + (y + z) == [] + x + (y + z)
  {
  }

  lemma QuadPieces(w: seq<nat>, len: int, r: seq<seq<byte>>)
    requires |w| == 8 && 5 <= len <= 6 && r == Hexes(w[len..6])
    ensures Pieces(w, 0, len, 6) + [COLON] == [COLON, COLON] + Colons(r)
  {
    hide Join, Colons, Pieces, Hexes;
    PiecesAreJoined(w, 0, len, 6);
    NoHexes(w);
    JoinNothing();
    SixHexes(w, len);
    if len == 5 {
      JoinColon(r);
      assert [COLON, COLON] + Join(r) + [COLON] == [COLON, COLON] + (Join(r) + [COLON]);
    }
  }

  lemma GroupsPrinted(w: seq<nat>, len: int)
    requires |w| == 8
    ensures Pieces(w, -1, len, 8) == Spell(Spelling(Hexes(w), false, [], None))
  {
    hide Join, Pieces, Hexes;
    PiecesAreJoined(w, -1, len, 8);
    assert w[0..8] == w;
    NothingAdded(Hexes(w));
  }

  lemma GapPrinted(w: seq<nat>, base: nat, len: int)
    requires |w| == 8 && Shortens(base, len)
    ensures Pieces(w, base, len, 8) + (if base + len == 8 then [COLON] else [])
         == Spell(Spelling(Hexes(w[..base]), true, Hexes(w[base + len..]), None))
  {
    hide Join, Pieces, Hexes;
    var l, r := Hexes(w[..base]), Hexes(w[base + len..]);
    PiecesAreJoined(w, base, len, 8);
    assert w[base + len..8] == w[base + len..] && w[0..base] == w[..base];
    NothingAdded(r);
    if base + len == 8 {
      assert r == [] by { NoneLeft(w); }
      JoinNothing();
      assert Join(l) + [COLON] + [COLON] == Join(l) + [COLON, COLON] + [];
    }
  }

  lemma NoneLeft(w: seq<nat>)
    requires |w| == 8
    ensures Hexes(w[8..]) == []
  {
  }

  lemma NothingAdded(gs: seq<seq<byte>>)
    ensures gs + QuadText(None) == gs
  {
  }

  lemma SixHexes(w: seq<nat>, len: int)
    requires |w| == 8 && 5 <= len <= 6
    ensures Hexes(w[len..6]) == [] <==> len == 6
  {
  }

  lemma PrintedAddress(a: seq<byte>, base: int, len: int)
    requires |a| == 16 && Shortens(base, len) && (base != -1 ==> ZeroRun(Words(a), base, len))
    ensures Proper(Printed(a, base, len)) && Address(Printed(a, base, len)) == a
  {
    var w := Words(a);
    hide Words, Hexes, Bytes, AllGroups, ZeroRun;
    if Encapsulated(w, base, len) {
      ZeroGroups(a, 0, len);
      QuadAddress(a, len);
    } else if base == -1 {
      assert w[0..8] == w && a[0..16] == a;
      BytesOfHexes(a, 0, 8);
      assert Zeros(0) == [];
    } else {
      ZeroGroups(a, base, len);
      GapAddress(a, base, len);
    }
  }

  lemma QuadAddress(a: seq<byte>, len: int)
    requires |a| == 16 && 5 <= len <= 6 && a[0..2 * len] == Zeros(2 * len)
    ensures var sp := Spelling([], true, Hexes(Words(a)[len..6]), Some(a[12..])); Proper(sp) && Address(sp) == a
  {
    hide Words, Hexes, AllGroups, Bytes, Zeros, Address, Proper;
    BytesOfHexes(a, len, 6);
    QuadGiven(a, 2 * len, Hexes(Words(a)[len..6]));
  }

  lemma QuadGiven(a: seq<byte>, cut: nat, r: seq<seq<byte>>)
    requires |a| == 16 && 0 < cut <= 12 && a[0..cut] == Zeros(cut) && AllGroups(r) && Bytes(r) == a[cut..12]
    ensures var sp := Spelling([], true, r, Some(a[12..])); Proper(sp) && Address(sp) == a
  {
    NoGroups();
    ThreeParts(a, cut);
    hide AllGroups, Bytes, Zeros;
    var tail := a[cut..12] + a[12..];
    assert 16 - |tail| == cut;
  }

  lemma ThreeParts(a: seq<byte>, cut: nat)
    requires |a| == 16 && cut <= 12
    ensures [] + a[0..cut] + (a[cut..12] + a[12..]) == a
  {
  }

  lemma NoGroups()
    ensures AllGroups([]) && Bytes([]) == []
  {
  }

  lemma GapAddress(a: seq<byte>, base: nat, len: int)
    requires |a| == 16 && Shortens(base, len) && a[2 * base..2 * (base + len)] == Zeros(2 * len)
    ensures var sp := Spelling(Hexes(Words(a)[..base]), true, Hexes(Words(a)[base + len..]), None);
      Proper(sp) && Address(sp) == a
  {
    hide Words, Hexes, AllGroups;
    var w := Words(a);
    assert w[0..base] == w[..base] && w[base + len..8] == w[base + len..];
    BytesOfHexes(a, 0, base);
    BytesOfHexes(a, base + len, 8);
    hide Bytes;
    var head, tail := a[0..2 * base], a[2 * (base + len)..16];
    assert a == head + a[2 * base..2 * (base + len)] + tail;
    assert tail + [] == tail;
  }

  lemma ZeroGroups(a: seq<byte>, base: int, len: int)
    requires |a| == 16 && 0 <= base && 0 <= len && base + len <= 8 && ZeroRun(Words(a), base, len)
    ensures a[2 * base..2 * (base + len)] == Zeros(2 * len)
  {
    forall j: nat | 2 * base <= j < 2 * (base + len) ensures a[j] == 0 {
      assert Words(a)[j / 2] == 0;
    }
  }

  /** For every address the text in which "::" stands for its best run is read back as the
      address. */
  lemma Ipv6RoundTrip(a: seq<byte>, base: int, len: int)
    requires |a| == 16 && base >= -1 && BestRun(Words(a), base, len)
    ensures Parse6(Text6(a, base, len)) == Some(a)
  {
    hide Words, Parse6, Text6, Spell, Printed, Proper, Address;
    TextIsPrinted(a, base, len);
    PrintedAddress(a, base, len);
    SpellingParses(Printed(a, base, len));
  }
}
