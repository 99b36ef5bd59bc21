/**
  What the printed address looks like, in terms of its bytes: which addresses are
  written with an IPv4 address at the end, and what the groups look like.  Texts are
  given as they read.
*/
module Inet6Text {
  import opened Bits
  import opened Collections
  import opened Inet4
  import opened Inet6Spec
  import opened Inet6Grammar

  // ----- digits -----

  /** The digits of both cases have their values, and nothing else is a digit. */
  lemma HexDigits(ch: byte, k: nat)
    requires k < 16
    ensures HexValue(Ascii("0123456789abcdef")[k]) == Some(k)
    ensures HexValue(Ascii("0123456789ABCDEF")[k]) == Some(k)
    ensures HexValue(ch).Some? ==>
      HexValue(ch).value < 16
      && (ch == Ascii("0123456789abcdef")[HexValue(ch).value] || ch == Ascii("0123456789ABCDEF")[HexValue(ch).value])
  {
  }

  /** A group has no leading zero and no capital letter. */
  predicate NeatGroup(g: seq<byte>) {
    && 1 <= |g| <= 4
    && (forall k :: 0 <= k < |g| ==> '0' as int <= g[k] <= '9' as int || 'a' as int <= g[k] <= 'f' as int)
    && (|g| > 1 ==> g[0] != '0' as int)
  }

  lemma {:induction false} HexIsNeat(w: nat)
    requires w < 0x10000
    ensures NeatGroup(Hex(w))
    ensures w > 0 ==> Hex(w)[0] != '0' as int
  {
    HexSize(w);
    if w >= 16 {
      HexIsNeat(w / 16);
    }
  }

  /** The number that decimal digits stand for. */
  function DecimalNumber(s: seq<byte>): int {
    if s == [] then 0 else DecimalNumber(s[..|s| - 1]) * 10 + s[|s| - 1] - '0' as int
  }

  lemma DecimalSnoc(s: seq<byte>, ch: byte)
    ensures DecimalNumber(s + [ch]) == DecimalNumber(s) * 10 + ch - 48
  {
    assert (s + [ch])[..|s|] == s;
  }

  /** An octet is written in decimal digits without a leading zero. */
  lemma {:induction false} DecIsDecimal(n: nat)
    requires n < 256
    ensures DecimalNumber(Dec(n)) == n
    ensures forall k :: 0 <= k < |Dec(n)| ==> '0' as int <= Dec(n)[k] <= '9' as int
    ensures |Dec(n)| > 1 ==> Dec(n)[0] != '0' as int
    ensures n > 0 ==> Dec(n)[0] != '0' as int
  {
    hide Dec;
    DecStep(n);
    if n >= 10 {
      DecIsDecimal(n / 10);
      DecimalSnoc(Dec(n / 10), 48 + n % 10);
    } else {
      DecimalSnoc([], 48 + n);
      assert [] + [48 + n] == Dec(n);
    }
  }

  lemma DocumentationAddress()
    ensures Dotted([192, 0, 2, 1]) == Ascii("192.0.2.1")
  {
  }

  // ----- IPv4 addresses at the end -----

  /** ::ffff:0:0/96, the IPv4-mapped addresses. */
  predicate Mapped(a: seq<byte>)
    requires |a| == 16
  {
    (forall k :: 0 <= k < 10 ==> a[k] == 0) && a[10] == 0xFF && a[11] == 0xFF
  }

  /** ::/96, the IPv4-compatible addresses, without those of two bytes. */
  predicate Compatible(a: seq<byte>)
    requires |a| == 16
  {
    (forall k :: 0 <= k < 12 ==> a[k] == 0) && !(a[12] == 0 && a[13] == 0)
  }

  lemma WordOf(a: seq<byte>, k: nat)
    requires |a| == 16 && k < 8
    ensures Words(a)[k] == 0 <==> a[2 * k] == 0 && a[2 * k + 1] == 0
    ensures Words(a)[k] == 0xffff <==> a[2 * k] == 0xFF && a[2 * k + 1] == 0xFF
  {
  }

  lemma ZeroBytes(a: seq<byte>, n: nat)
    requires |a| == 16 && n <= 8
    ensures (forall k :: 0 <= k < 2 * n ==> a[k] == 0) <==> ZeroRun(Words(a), 0, n)
  {
    hide Words;
    if forall k :: 0 <= k < 2 * n ==> a[k] == 0 {
      forall i: nat | i < n ensures Words(a)[i] == 0 {
        WordOf(a, i);
      }
    }
    if ZeroRun(Words(a), 0, n) {
      forall k | 0 <= k < 2 * n ensures a[k] == 0 {
        WordOf(a, k / 2);
      }
    }
  }

  /** The best run when exactly the first `n` groups are zero, and enough of them. */
  lemma LeadingRun(w: seq<nat>, base: int, len: int, n: nat)
    requires |w| == 8 && base >= -1 && BestRun(w, base, len)
    requires 5 <= n <= 6 && ZeroRun(w, 0, n) && w[n] != 0
    ensures base == 0 && len == n
  {
    assert base != -1;
  }

  lemma RunEnds(w: seq<nat>, len: int)
    requires |w| == 8 && BestRun(w, 0, len) && len < 8
    ensures w[len] != 0
  {
    if w[len] == 0 {
      assert ZeroRun(w, 0, len + 1);
    }
  }

  lemma WhenEncapsulated(a: seq<byte>, base: int, len: int)
    requires |a| == 16 && base >= -1 && BestRun(Words(a), base, len)
    ensures Mapped(a) ==> Encapsulated(Words(a), base, len) && base == 0 && len == 5
    ensures Compatible(a) ==> Encapsulated(Words(a), base, len) && base == 0 && len == 6
    ensures Encapsulated(Words(a), base, len) ==> Mapped(a) || Compatible(a)
  {
    var w := Words(a);
    hide Words, ZeroRun, BestRun;
    ZeroBytes(a, 5);
    ZeroBytes(a, 6);
    WordOf(a, 5);
    WordOf(a, 6);
    if Mapped(a) {
      LeadingRun(w, base, len, 5);
    }
    if Compatible(a) {
      LeadingRun(w, base, len, 6);
    }
    if Encapsulated(w, base, len) {
      RunIsZero(w, len);
      RunEnds(w, len);
    }
  }

  lemma RunIsZero(w: seq<nat>, len: int)
    requires |w| == 8 && BestRun(w, 0, len)
    ensures ZeroRun(w, 0, len)
  {
  }

  // ----- the text -----

  predicate HasNoDot(s: seq<byte>) {
    forall k :: 0 <= k < |s| ==> s[k] != '.' as int
  }

  lemma {:induction false} PiecesHaveNoDot(w: seq<nat>, base: int, len: int, i: nat)
    requires i <= |w| && forall k: nat | k < |w| :: w[k] < 0x10000
    ensures HasNoDot(Pieces(w, base, len, i))
  {
    if i > 0 {
      PiecesHaveNoDot(w, base, len, i - 1);
      HexIsNeat(w[i - 1]);
      hide Hex;
    }
  }

  lemma {:induction false} LeadingColon(w: seq<nat>, len: int, i: nat)
    requires 0 < i <= |w| && i <= len
    ensures Pieces(w, 0, len, i) == [COLON]
  {
    if i > 1 {
      LeadingColon(w, len, i - 1);
    }
  }

  lemma HexFfff()
    ensures Hex(0xffff) == Ascii("ffff")
  {
    assert Hex(0xf) == [102];
    assert Hex(0xff) == [102, 102];
    assert Hex(0xfff) == [102, 102, 102];
  }

  lemma MappedText(a: seq<byte>, base: int, len: int)
    requires |a| == 16 && base >= -1 && BestRun(Words(a), base, len) && Mapped(a)
    ensures Text6(a, base, len) == Ascii("::ffff:") + Dotted(a[12..])
  {
    var w := Words(a);
    WhenEncapsulated(a, base, len);
    WordOf(a, 5);
    hide Words, BestRun, Dotted, Hex;
    LeadingColon(w, 5, 5);
    HexFfff();
    assert Pieces(w, 0, 5, 6) == Ascii("::ffff");
    assert Ascii("::ffff") + [COLON] == Ascii("::ffff:");
  }

  lemma CompatibleText(a: seq<byte>, base: int, len: int)
    requires |a| == 16 && base >= -1 && BestRun(Words(a), base, len) && Compatible(a)
    ensures Text6(a, base, len) == Ascii("::") + Dotted(a[12..])
  {
    var w := Words(a);
    WhenEncapsulated(a, base, len);
    hide Words, BestRun, Dotted, Hex;
    LeadingColon(w, 6, 6);
    assert [COLON] + [COLON] == Ascii("::");
  }

  /** The groups with colons between them. */
  function Groups(w: seq<nat>): seq<byte> {
    if w == [] then []
    else if |w| == 1 then Hex(w[0])
    else Groups(w[..|w| - 1]) + Ascii(":") + Hex(w[|w| - 1])
  }

  lemma {:induction false} GroupsAreJoined(w: seq<nat>)
    ensures Groups(w) == Join(Hexes(w))
  {
    hide Hex;
    if |w| > 1 {
      GroupsAreJoined(w[..|w| - 1]);
      assert Hexes(w)[..|w| - 1] == Hexes(w[..|w| - 1]);
    }
  }

  lemma RunShortens(w: seq<nat>, base: int, len: int)
    requires |w| == 8 && base >= -1 && BestRun(w, base, len)
    ensures Shortens(base, len)
  {
  }

  lemma OtherText(a: seq<byte>, base: int, len: int)
    requires |a| == 16 && Shortens(base, len) && !Encapsulated(Words(a), base, len)
    ensures Text6(a, base, len) ==
            if base == -1 then Groups(Words(a))
            else Groups(Words(a)[..base]) + Ascii("::") + Groups(Words(a)[base + len..])
    ensures HasNoDot(Text6(a, base, len))
  {
    hide Words, Encapsulated, Groups, Join, Hexes, Pieces;
    var w := Words(a);
    TextIsPrinted(a, base, len);
    if base == -1 {
      GroupsAreJoined(w);
      assert Hexes(w) + [] == Hexes(w);
    } else {
      GroupsAreJoined(w[..base]);
      assert Hexes(w[base + len..]) + [] == Hexes(w[base + len..]);
      GroupsAreJoined(w[base + len..]);
      assert [COLON, COLON] == Ascii("::");
    }
    PiecesHaveNoDot(w, base, len, 8);
  }

  lemma DottedHasDot(head: seq<byte>, a: seq<byte>)
    requires |a| == 4
    ensures '.' as int in head + Dotted(a)
  {
    hide Dec;
    var k := |Dec(a[0])|;
    assert Dotted(a)[k] == DOT;
    assert (head + Dotted(a))[|head| + k] == DOT;
  }

  lemma NoDotIn(s: seq<byte>)
    requires HasNoDot(s)
    ensures '.' as int !in s
  {
  }

  /** The text of an address.  IPv4-mapped and IPv4-compatible addresses, and no others, end in
      dotted decimal; the groups of the others are in hexadecimal, with "::" for the best run of
      zeros. */
  lemma TextOfAddress(a: seq<byte>, base: int, len: int)
    requires |a| == 16 && base >= -1 && BestRun(Words(a), base, len)
    ensures '.' as int in Text6(a, base, len) <==> Mapped(a) || Compatible(a)
    ensures base >= 0 ==> base + len <= 8
    ensures Text6(a, base, len) ==
            if Mapped(a) then Ascii("::ffff:") + Dotted(a[12..])
            else if Compatible(a) then Ascii("::") + Dotted(a[12..])
            else if base == -1 then Groups(Words(a))
            else Groups(Words(a)[..base]) + Ascii("::") + Groups(Words(a)[base + len..])
    ensures forall k: nat | k < 8 :: NeatGroup(Hex(Words(a)[k]))
  {
    hide Text6, Dotted, Words, BestRun, Groups, Ascii, Hex, NeatGroup, Mapped, Compatible, Encapsulated, HasNoDot;
    RunShortens(Words(a), base, len);
    WhenEncapsulated(a, base, len);
    if Mapped(a) {
      MappedText(a, base, len);
      DottedHasDot(Ascii("::ffff:"), a[12..]);
    } else if Compatible(a) {
      CompatibleText(a, base, len);
      DottedHasDot(Ascii("::"), a[12..]);
    } else {
      OtherText(a, base, len);
      NoDotIn(Text6(a, base, len));
    }
    forall k: nat | k < 8 ensures NeatGroup(Hex(Words(a)[k])) {
      HexIsNeat(Words(a)[k]);
    }
  }

  // ----- an example -----

  const EXAMPLE: seq<byte> := [0x20, 0x01, 0x0d, 0xb8, 0, 0, 0, 0, 0, 0, 0, 0, 0, 0, 0, 1]

  lemma ExampleWords()
    ensures Words(EXAMPLE) == [0x2001, 0xdb8, 0, 0, 0, 0, 0, 1]
  {
  }

  lemma ExampleRun(w: seq<nat>)
    requires w == [0x2001, 0xdb8, 0, 0, 0, 0, 0, 1]
    ensures BestRun(w, 2, 5)
  {
    assert w[1] != 0 && w[7] != 0;
  }

  lemma ExampleHex()
    ensures Hex(0x2001) == Ascii("2001") && Hex(0xdb8) == Ascii("db8") && Hex(1) == Ascii("1")
  {
    assert Hex(0x2) == [50];
    assert Hex(0x20) == [50, 48];
    assert Hex(0x200) == [50, 48, 48];
    assert Hex(0xd) == [100];
    assert Hex(0xdb) == [100, 98];
  }

  lemma ExampleGroups()
    ensures Groups([0x2001, 0xdb8]) == Ascii("2001:db8") && Groups([1]) == Ascii("1")
  {
    hide Hex;
    ExampleHex();
    assert [0x2001, 0xdb8][..1] == [0x2001];
    assert Groups([0x2001]) == Ascii("2001");
    assert Ascii("2001") + Ascii(":") + Ascii("db8") == Ascii("2001:db8");
  }

  /** The text of 2001:db8::1 is as it reads, and is read as the address. */
  lemma ExampleText()
    ensures BestRun(Words(EXAMPLE), 2, 5) && Text6(EXAMPLE, 2, 5) == Ascii("2001:db8::1")
    ensures Parse6(Ascii("2001:db8::1")) == Some(EXAMPLE)
  {
    hide BestRun, Groups, Text6, Parse6, Hex;
    var w := [0x2001, 0xdb8, 0, 0, 0, 0, 0, 1];
    ExampleWords();
    ExampleRun(w);
    assert w[..2] == [0x2001, 0xdb8] && w[7..] == [1];
    ExampleGroups();
    OtherText(EXAMPLE, 2, 5);
    assert Ascii("2001:db8") + Ascii("::") + Ascii("1") == Ascii("2001:db8::1");
    Ipv6RoundTrip(EXAMPLE, 2, 5);
  }
}
