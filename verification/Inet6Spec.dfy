/**
  The text form of IPv6 addresses in libuv's inet.c, printer and parser as functions.
*/
module Inet6Spec {
  import opened Bits
  import opened Collections
  import opened Inet4

  const COLON: byte := 58

  // ----- words -----

  /** The eight 16-bit groups of an address. */
  function Words(a: seq<byte>): (w: seq<nat>)
    requires |a| == 16
    ensures |w| == 8 && forall i: nat | i < 8 :: w[i] < 0x10000
  {
    seq(8, i requires 0 <= i < 8 => Word(a, i))
  }

  function Word(a: seq<byte>, i: nat): (w: nat)
    requires |a| == 16 && i < 8
    ensures w < 0x10000
  {
    256 * (a[2 * i] as nat) + a[2 * i + 1] as nat
  }

  /** `w[b..b + n]` is a run of zeros. */
  ghost predicate ZeroRun(w: seq<nat>, b: int, n: int) {
    0 <= b && 0 <= n && b + n <= |w| && forall i: nat | b <= i < b + n :: w[i] == 0
  }

  /** What "::" stands for, sections 4.2.2 and 4.2.3 of RFC 5952: the longest run of at least two
      zero groups, the first of them if there are several; `base` is -1 if there is none. */
  ghost predicate BestRun(w: seq<nat>, base: int, len: int) {
    if base == -1 then forall b: int, n: int | ZeroRun(w, b, n) :: n < 2
    else
      && len >= 2 && ZeroRun(w, base, len)
      && forall b: int, n: int | ZeroRun(w, b, n) :: n < len || (n == len && b >= base)
  }

  // ----- the printer -----

  function HexDigit(d: nat): byte
    requires d < 16
  {
    if d < 10 then 48 + d else 97 + d - 10
  }

  /** "%x" */
  function Hex(w: nat): (s: seq<byte>)
    ensures s != []
  {
    if w < 16 then [HexDigit(w)] else Hex(w / 16) + [HexDigit(w % 16)]
  }

  predicate InRun(base: int, len: int, i: int) {
    base != -1 && base <= i < base + len
  }

  /** What group `i` adds to the text. */
  function Piece(w: seq<nat>, base: int, len: int, i: nat): seq<byte>
    requires i < |w|
  {
    if InRun(base, len, i) then (if i == base then [COLON] else [])
    else (if i != 0 then [COLON] else []) + Hex(w[i])
  }

  /** The text of the first `i` groups. */
  function Pieces(w: seq<nat>, base: int, len: int, i: nat): seq<byte>
    requires i <= |w|
  {
    if i == 0 then [] else Pieces(w, base, len, i - 1) + Piece(w, base, len, i - 1)
  }

  /** Whether the last two groups are written as an IPv4 address. */
  predicate Encapsulated(w: seq<nat>, base: int, len: int)
    requires |w| == 8
  {
    base == 0 && (len == 6 || (len == 7 && w[7] != 1) || (len == 5 && w[5] == 0xffff)) && !InRun(base, len, 6)
  }

  function Text6(a: seq<byte>, base: int, len: int): seq<byte>
    requires |a| == 16
  {
    var w := Words(a);
    if Encapsulated(w, base, len) then Pieces(w, base, len, 6) + [COLON] + Dotted(a[12..])
    else Pieces(w, base, len, 8) + if base != -1 && base + len == 8 then [COLON] else []
  }

  // ----- the parser -----

  function HexValue(ch: byte): Option<nat> {
    if 48 <= ch <= 57 then Some(ch - 48)
    else if 97 <= ch <= 102 then Some(ch - 97 + 10)
    else if 65 <= ch <= 70 then Some(ch - 65 + 10)
    else None
  }

  /** The parser's variables: the bytes stored, `colonp` as an index (or -1), `seen_xdigits`, `val`
      and `curtok`. */
  datatype State6 = State6(out: seq<byte>, colon: int, seen: nat, val: nat, tok: nat)

  function Store(st: State6): State6 {
    st.(out := st.out + [st.val / 256 % 256, st.val % 256], seen := 0, val := 0)
  }

  /** The loop of `inet_pton6` from position `pos` on. */
  function Loop6(text: seq<byte>, pos: nat, st: State6): Option<State6>
    requires pos <= |text| && st.tok <= |text|
    decreases |text| - pos
  {
    if pos == |text| then Some(st)
    else
      var ch := text[pos];
      if HexValue(ch).Some? then
        if st.seen + 1 > 4 then None
        else Loop6(text, pos + 1, st.(seen := st.seen + 1, val := st.val * 16 + HexValue(ch).value))
      else if ch == COLON then
        var next := st.(tok := pos + 1);
        if st.seen == 0 then
          if st.colon != -1 then None else Loop6(text, pos + 1, next.(colon := |st.out|))
        else if pos + 1 == |text| then None
        else if |st.out| + 2 > 16 then None
        else Loop6(text, pos + 1, Store(next))
      else if ch == DOT && |st.out| + 4 <= 16 then
        match Parse4(text[st.tok..])
        case None => None
        case Some(v4) => Some(st.(out := st.out + v4, seen := 0))
      else None
  }

  function Zeros(n: nat): seq<byte> {
    seq(n, _ => 0)
  }

  /** Opening the gap at the double colon. */
  function Spread(out: seq<byte>, colon: nat): (r: seq<byte>)
    requires colon <= |out| <= 16
    ensures |r| == 16
  {
    out[..colon] + Zeros(16 - |out|) + out[colon..]
  }

  /** What comes after the loop. */
  function End6(st: State6): Option<seq<byte>> {
    if st.seen > 0 && |st.out| + 2 > 16 then None
    else
      var out := if st.seen > 0 then Store(st).out else st.out;
      if st.colon != -1 then
        if |out| >= 16 || !(0 <= st.colon <= |out|) then None else Some(Spread(out, st.colon))
      else if |out| != 16 then None else Some(out)
  }

  /** What `inet_pton6` accepts, and what it makes of it. */
  function Parse6(text: seq<byte>): Option<seq<byte>> {
    var leading := text != [] && text[0] == COLON;
    if leading && (|text| < 2 || text[1] != COLON) then None
    else
      var start := if leading then 1 else 0;
      match Loop6(text, start, State6([], -1, 0, 0, start))
      case None => None
      case Some(st) => End6(st)
  }

  // ----- facts about printer and parser -----

  lemma {:induction false} HexSize(w: nat)
    ensures w < 16 ==> |Hex(w)| == 1
    ensures w < 0x100 ==> |Hex(w)| <= 2
    ensures w < 0x1000 ==> |Hex(w)| <= 3
    ensures w < 0x10000 ==> |Hex(w)| <= 4
  {
    if w >= 16 {
      HexSize(w / 16);
    }
  }

  function LenAt(w: seq<nat>, base: int, len: int, i: nat): nat
    requires i <= |w|
  {
    |Pieces(w, base, len, i)|
  }

  lemma PiecesStep(w: seq<nat>, base: int, len: int, i: nat)
    requires 0 < i <= |w|
    ensures LenAt(w, base, len, i) == LenAt(w, base, len, i - 1) + |Piece(w, base, len, i - 1)|
    ensures LenAt(w, base, len, 0) == 0
  {
  }

  lemma {:induction false} RunIsOneColon(w: seq<nat>, len: int, i: nat)
    requires 0 < i <= |w| && i <= len
    ensures LenAt(w, 0, len, i) == 1
  {
    PiecesStep(w, 0, len, i);
    if i > 1 {
      RunIsOneColon(w, len, i - 1);
    }
  }

  lemma LoopAtEnd(text: seq<byte>, st: State6)
    requires st.tok <= |text|
    ensures Loop6(text, |text|, st) == Some(st)
  {
  }
}
