/**
  inet_ntop6 and inet_pton6 of libuv's inet.c, shown to compute the functions of
  Inet6Spec.
*/
module Inet6 {
  import opened Bits
  import opened Collections
  import opened Inet4
  import opened Inet6Spec
  import Inet6Grammar
  import opened Inet6Text
  import opened UvErrors

  const ADDRSTRLEN := 46

  // ----- inet_ntop6 -----

  /** The first loop: bytes into words. */
  method CopyWords(src: seq<byte>) returns (words: array<nat>)
    requires |src| == 16
    ensures fresh(words) && words[..] == Words(src)
  {
    words := new nat[8](_ => 0);
    var i := 0;
    while i < 16
      invariant 0 <= i <= 16
      invariant forall k: nat | k < 8 :: words[k] == WordSoFar(src, k, i)
    {
      OrByte(src[i]);
      if i % 2 == 1 {
        OrLowByte(src[i - 1], src[i]);
      }
      words[i / 2] := BitOr(words[i / 2], ShiftLeft(src[i], 8 * (1 - i % 2), 0x1_0000_0000));
      i := i + 1;
    }
  }

  function WordSoFar(src: seq<byte>, k: nat, i: int): nat
    requires |src| == 16 && k < 8
  {
    if 2 * k + 1 < i then Word(src, k) else if 2 * k < i then 256 * (src[2 * k] as nat) else 0
  }

  lemma OrByte(b: byte)
    ensures BitOr(0, ShiftLeft(b, 8, 0x1_0000_0000)) == 256 * (b as nat)
    ensures ShiftLeft(b, 0, 0x1_0000_0000) == b
  {
    assert Pow2(8) == 256;
  }

  lemma OrLowByte(hi: byte, lo: byte)
    ensures BitOr(256 * (hi as nat), lo) == 256 * (hi as nat) + lo as nat
  {
    assert Pow2(8) == 256;
    OrLow(hi, lo, 8);
  }

  /** Among the runs that end before `i`, those of the current run apart, the best is known. */
  ghost predicate Covered(w: seq<nat>, i: nat, base: int, len: int, cur: int) {
    forall b: int, n: int | ZeroRun(w, b, n) && n >= 1 && b + n <= i ::
      (cur != -1 && b >= cur) || (base != -1 && (n < len || (n == len && b >= base)))
  }

  /** `cur` begins the run of zeros that ends at `i`, if there is one. */
  ghost predicate CurrentRun(w: seq<nat>, i: nat, cur: int, n: int)
    requires i <= |w|
  {
    if cur == -1 then i > 0 ==> w[i - 1] != 0
    else 0 <= cur < i && n == i - cur && ZeroRun(w, cur, n) && (cur > 0 ==> w[cur - 1] != 0)
  }

  ghost predicate Candidate(w: seq<nat>, i: nat, base: int, len: int) {
    base != -1 ==> 0 <= base && len >= 1 && ZeroRun(w, base, len) && base + len <= i
  }

  /** The loop that looks for the longest run of zeros. */
  method FindRun(words: array<nat>) returns (base: int, len: int)
    ensures base >= -1 && BestRun(words[..], base, len)
  {
    ghost var w := words[..];
    base, len := -1, 0;
    var curBase, curLen, i := -1, 0, 0;
    while i < words.Length
      invariant 0 <= i <= words.Length && base >= -1 && curBase >= -1
      invariant CurrentRun(w, i, curBase, curLen) && Candidate(w, i, base, len) && Covered(w, i, base, len, curBase)
      invariant curBase != -1 && base != -1 ==> base + len <= curBase
    {
      StepRuns(w, i, base, len, curBase, curLen);
      if words[i] == 0 {
        if curBase == -1 {
          curBase, curLen := i, 1;
        } else {
          curLen := curLen + 1;
        }
      } else {
        if curBase != -1 {
          if base == -1 || curLen > len {
            base, len := curBase, curLen;
          }
          curBase := -1;
        }
      }
      i := i + 1;
    }
    if curBase != -1 {
      CloseRun(w, i, base, len, curBase, curLen);
      if base == -1 || curLen > len {
        base, len := curBase, curLen;
      }
    }
    Finish(w, base, len);
    if base != -1 && len < 2 {
      base := -1;
    }
  }

  /** One more group keeps what is known. */
  lemma StepRuns(w: seq<nat>, i: nat, base: int, len: int, cur: int, n: int)
    requires i < |w| && base >= -1 && cur >= -1
    requires CurrentRun(w, i, cur, n) && Candidate(w, i, base, len) && Covered(w, i, base, len, cur)
    requires cur != -1 && base != -1 ==> base + len <= cur
    ensures w[i] == 0 ==> var first := if cur == -1 then i else cur;
      CurrentRun(w, i + 1, first, i + 1 - first) && Candidate(w, i + 1, base, len) && Covered(w, i + 1, base, len, first)
    ensures w[i] != 0 ==>
      (var better := cur != -1 && (base == -1 || n > len);
       Candidate(w, i + 1, if better then cur else base, if better then n else len)
       && Covered(w, i + 1, if better then cur else base, if better then n else len, -1))
  {
    hide Covered;
    if w[i] == 0 {
      var first := if cur == -1 then i else cur;
      assert Covered(w, i + 1, base, len, first) by { ZeroCovered(w, i, base, len, cur); }
    } else {
      if cur != -1 {
        CloseRun(w, i, base, len, cur, n);
      }
      var better := cur != -1 && (base == -1 || n > len);
      GroupCovered(w, i, if better then cur else base, if better then n else len);
    }
  }

  lemma ZeroCovered(w: seq<nat>, i: nat, base: int, len: int, cur: int)
    requires i < |w| && w[i] == 0 && cur >= -1 && Covered(w, i, base, len, cur)
    requires CurrentRun(w, i, cur, i - cur)
    ensures Covered(w, i + 1, base, len, if cur == -1 then i else cur)
  {
    var first := if cur == -1 then i else cur;
    forall b: int, n: int | ZeroRun(w, b, n) && n >= 1 && b + n <= i + 1
      ensures b >= first || (base != -1 && (n < len || (n == len && b >= base)))
    {
    }
  }

  lemma GroupCovered(w: seq<nat>, i: nat, base: int, len: int)
    requires i < |w| && w[i] != 0 && Covered(w, i, base, len, -1)
    ensures Covered(w, i + 1, base, len, -1)
  {
    forall b: int, n: int | ZeroRun(w, b, n) && n >= 1 && b + n <= i + 1
      ensures base != -1 && (n < len || (n == len && b >= base))
    {
    }
  }

  /** The end of a run: it replaces the best one if it is longer. */
  lemma CloseRun(w: seq<nat>, i: nat, base: int, len: int, cur: int, n: int)
    requires i <= |w| && cur >= 0 && base >= -1
    requires CurrentRun(w, i, cur, n) && Candidate(w, i, base, len) && Covered(w, i, base, len, cur)
    requires base != -1 ==> base + len <= cur
    ensures var better := base == -1 || n > len;
      Candidate(w, i, if better then cur else base, if better then n else len)
      && Covered(w, i, if better then cur else base, if better then n else len, -1)
  {
  }

  lemma Finish(w: seq<nat>, base: int, len: int)
    requires Covered(w, |w|, base, len, -1) && Candidate(w, |w|, base, len) && base >= -1
    ensures BestRun(w, if base != -1 && len < 2 then -1 else base, len)
  {
    forall b: int, n: int | ZeroRun(w, b, n)
      ensures n < 1 || (base != -1 && (n < len || (n == len && b >= base)))
    {
    }
  }

  lemma PieceSize(w: seq<nat>, base: int, len: int, i: nat)
    requires i < |w| && w[i] < 0x10000
    ensures |Piece(w, base, len, i)| <= 5
  {
    HexSize(w[i]);
  }

  lemma {:induction false} PiecesSize(w: seq<nat>, base: int, len: int, i: nat)
    requires i <= |w| && forall k: nat | k < |w| :: w[k] < 0x10000
    ensures |Pieces(w, base, len, i)| <= 5 * i
  {
    if i > 0 {
      PiecesSize(w, base, len, i - 1);
      PieceSize(w, base, len, i - 1);
    }
  }

  /** The text that precedes an IPv4 address is short. */
  lemma EncapsulatedSize(w: seq<nat>, base: int, len: int)
    requires |w| == 8 && Encapsulated(w, base, len) && w[5] < 0x10000
    ensures |Pieces(w, base, len, 6)| <= 6
  {
    hide Pieces, Piece;
    RunIsOneColon(w, len, if len < 6 then len else 6);
    if len == 5 {
      PiecesStep(w, base, len, 6);
      PieceSize(w, base, len, 5);
    }
  }

  /** The text fits the 46-byte buffer with its NUL, and is a C string. */
  lemma TextFits(a: seq<byte>, base: int, len: int)
    requires |a| == 16
    ensures |Text6(a, base, len)| < ADDRSTRLEN
  {
    hide Pieces, Words, Dotted;
    PiecesSize(Words(a), base, len, 8);
    if Encapsulated(Words(a), base, len) {
      EncapsulatedSize(Words(a), base, len);
    }
  }

  lemma {:induction false} HexIsString(w: nat)
    ensures IsString(Hex(w))
  {
    if w >= 16 {
      HexIsString(w / 16);
    }
  }

  lemma {:induction false} PiecesIsString(w: seq<nat>, base: int, len: int, i: nat)
    requires i <= |w|
    ensures IsString(Pieces(w, base, len, i))
  {
    if i > 0 {
      PiecesIsString(w, base, len, i - 1);
      HexIsString(w[i - 1]);
    }
  }

  lemma TextIsString(a: seq<byte>, base: int, len: int)
    requires |a| == 16
    ensures IsString(Text6(a, base, len))
  {
    hide Pieces, Words, Dotted;
    PiecesIsString(Words(a), base, len, 8);
    PiecesIsString(Words(a), base, len, 6);
    DottedIsString(a[12..]);
  }

  /** `sprintf(tp, "%x", w)` */
  method PrintHex(tmp: array<byte>, tp: nat, w: nat) returns (n: nat)
    requires tp + |Hex(w)| < tmp.Length
    modifies tmp
    ensures n == |Hex(w)| && tmp[..tp + n] == old(tmp[..tp]) + Hex(w)
  {
    var s := Hex(w);
    forall k | 0 <= k < |s| {
      tmp[tp + k] := s[k];
    }
    tmp[tp + |s|] := 0;
    n := |s|;
  }

  method PutChar(tmp: array<byte>, tp: nat, ch: byte) returns (next: nat)
    requires tp < tmp.Length
    modifies tmp
    ensures next == tp + 1 && tmp[..next] == old(tmp[..tp]) + [ch]
  {
    tmp[tp] := ch;
    next := tp + 1;
  }

  /** The text of group `i`, which is no part of an IPv4 address. */
  method PrintPiece(tmp: array<byte>, tp0: nat, w: seq<nat>, base: int, len: int, i: nat) returns (tp: nat)
    requires i < |w| == 8 && w[i] < 0x10000 && tp0 + 6 <= tmp.Length
    modifies tmp
    ensures tp == tp0 + |Piece(w, base, len, i)| && tp <= tp0 + 5 && tmp[..tp] == old(tmp[..tp0]) + Piece(w, base, len, i)
  {
    hide Hex;
    HexSize(w[i]);
    tp := tp0;
    ghost var before := tmp[..tp];
    if base != -1 && i >= base && i < base + len {
      if i == base {
        tp := PutChar(tmp, tp, COLON);
      }
      return;
    }
    assert Piece(w, base, len, i) == (if i != 0 then [COLON] else []) + Hex(w[i]);
    hide Piece;
    if i != 0 {
      tp := PutChar(tmp, tp, COLON);
    }
    assert tmp[..tp] == before + if i != 0 then [COLON] else [];
    var n := PrintHex(tmp, tp, w[i]);
    tp := tp + n;
  }

  /** The IPv4 address at the end of the text. */
  method PrintIpv4(src: seq<byte>, tmp: array<byte>, tp0: nat) returns (err: int, tp: nat)
    requires |src| == 16 && tmp.Length == ADDRSTRLEN && tp0 <= 7
    modifies tmp
    ensures err == 0 && tp == tp0 + |Dotted(src[12..])| && tp < ADDRSTRLEN && tmp[..tp] == old(tmp[..tp0]) + Dotted(src[12..])
  {
    hide Dotted;
    var v4 := src[12..];
    DottedIsString(v4);
    tp := tp0;
    err := Ntop4(v4, tmp, tp, ADDRSTRLEN - tp);
    if err == 0 {
      var n := Strlen(tmp, tp, Dotted(v4));
      tp := tp + n;
    }
  }

  /** `strlen` of the string at `at`. */
  method Strlen(d: array<byte>, at: nat, ghost s: seq<byte>) returns (n: nat)
    requires IsString(s) && at + |s| < d.Length && d[at..at + |s|] == s && d[at + |s|] == 0
    ensures n == |s|
  {
    n := 0;
    while d[at + n] != 0
      invariant n <= |s|
      decreases |s| - n
    {
      assert n < |s|;
      n := n + 1;
      assert n < |s| ==> d[at + n] == d[at..at + |s|][n];
    }
  }

  /** What the loop over the groups writes. */
  function Formatted(a: seq<byte>, base: int, len: int): seq<byte>
    requires |a| == 16
  {
    var w := Words(a);
    if Encapsulated(w, base, len) then Pieces(w, base, len, 6) + [COLON] + Dotted(a[12..]) else Pieces(w, base, len, 8)
  }

  /** The loop that formats the groups. */
  method FormatGroups(src: seq<byte>, w: seq<nat>, base: int, len: int, tmp: array<byte>) returns (err: int, tp: nat)
    requires |src| == 16 && w == Words(src) && tmp.Length == ADDRSTRLEN
    modifies tmp
    ensures err == 0 && tp <= 40
    ensures tmp[..tp] == Formatted(src, base, len)
  {
    hide Words, Dotted, Pieces, Piece, InRun;
    err, tp := 0, 0;
    PiecesStep(w, base, len, 1);
    PiecesNone(w, base, len);
    var i := 0;
    while i < 8
      invariant 0 <= i <= 8 && err == 0
      invariant tp <= 5 * i && tmp[..tp] == Pieces(w, base, len, i)
      invariant i > 6 ==> !Encapsulated(w, base, len)
      decreases 8 - i
    {
      if !InRun(base, len, i) && i == 6 && base == 0 && (len == 6 || (len == 7 && w[7] != 1) || (len == 5 && w[5] == 0xffff)) {
        EncapsulatedSize(w, base, len);
        tp := PutChar(tmp, tp, COLON);
        err, tp := PrintIpv4(src, tmp, tp);
        return;
      }
      PiecesNext(w, base, len, i);
      tp := PrintPiece(tmp, tp, w, base, len, i);
      i := i + 1;
    }
  }

  lemma PiecesNone(w: seq<nat>, base: int, len: int)
    ensures Pieces(w, base, len, 0) == []
  {
  }

  lemma PiecesNext(w: seq<nat>, base: int, len: int, i: nat)
    requires i < |w|
    ensures Pieces(w, base, len, i + 1) == Pieces(w, base, len, i) + Piece(w, base, len, i)
  {
  }

  lemma TextIs(a: seq<byte>, base: int, len: int)
    requires |a| == 16
    ensures Text6(a, base, len) == Formatted(a, base, len) + if base != -1 && base + len == 8 then [COLON] else []
  {
    hide Words, Pieces, Dotted;
  }

  lemma TextFacts(a: seq<byte>, base: int, len: int)
    requires |a| == 16 && base >= -1 && BestRun(Words(a), base, len)
    ensures |Text6(a, base, len)| < ADDRSTRLEN && IsString(Text6(a, base, len))
    ensures Parse6(Text6(a, base, len)) == Some(a)
    ensures '.' as int in Text6(a, base, len) <==> Mapped(a) || Compatible(a)
  {
    hide Words, BestRun, Parse6, IsString, Text6, Mapped, Compatible, Groups, NeatGroup, Hex, Ascii;
    Inet6Grammar.Ipv6RoundTrip(a, base, len);
    TextOfAddress(a, base, len);
    TextFits(a, base, len);
    TextIsString(a, base, len);
  }

  /** `inet_ntop6`: the text in which "::" stands for the best run, if it fits. */
  method Ntop6(src: seq<byte>, dst: array<byte>, size: nat) returns (rc: int, ghost base: int, ghost len: int)
    requires |src| == 16 && size <= dst.Length
    modifies dst
    ensures base >= -1 && BestRun(Words(src), base, len)
    ensures |Text6(src, base, len)| < ADDRSTRLEN && Parse6(Text6(src, base, len)) == Some(src)
    ensures '.' as int in Text6(src, base, len) <==> Mapped(src) || Compatible(src)
    ensures rc == if size == 0 || |Text6(src, base, len)| < size then 0 else UV_ENOSPC
    ensures forall k: nat | k < dst.Length :: dst[k] == Copied(Text6(src, base, len), size, k, old(dst[k]))
  {
    hide Words, BestRun, Parse6, Copied, IsString, Formatted, Text6, Mapped, Compatible;
    var words := CopyWords(src);
    var b, l := FindRun(words);
    base, len := b, l;
    TextFacts(src, b, l);
    var tmp := new byte[ADDRSTRLEN];
    var err, tp := FormatGroups(src, words[..], b, l, tmp);
    rc := err;
    if err == 0 {
      if b != -1 && b + l == 8 {
        tp := PutChar(tmp, tp, COLON);
      }
      ghost var text := tmp[..tp];
      assert text == Text6(src, b, l) by { TextIs(src, b, l); }
      tp := PutChar(tmp, tp, 0);
      assert tmp[..tp - 1] == text;
      rc := CopyOut(dst, tmp, tp - 1, size);
    }
  }

  /** `uv__strscpy(dst, tmp, size)` and its check, for the string of `n` characters in `tmp`. */
  method CopyOut(dst: array<byte>, tmp: array<byte>, n: nat, size: nat) returns (rc: int)
    requires dst != tmp && n < tmp.Length && IsString(tmp[..n]) && size <= dst.Length
    modifies dst
    ensures rc == if size == 0 || n < size then 0 else UV_ENOSPC
    ensures forall k: nat | k < dst.Length :: dst[k] == Copied(tmp[..n], size, k, old(dst[k]))
  {
    var copied := Strscpy(dst, 0, tmp[..n], size);
    rc := if copied == UV_E2BIG then UV_ENOSPC else 0;
  }

  // ----- inet_pton6 -----

  /** How large `val` can be after `seen` digits. */
  predicate FitsDigits(val: nat, seen: nat) {
    && seen <= 4 && val < 0x10000
    && (seen == 0 ==> val == 0) && (seen <= 1 ==> val < 0x10) && (seen <= 2 ==> val < 0x100) && (seen <= 3 ==> val < 0x1000)
  }

  lemma ShiftInDigit(val: nat, seen: nat, d: nat)
    requires FitsDigits(val, seen) && d < 16
    ensures BitOr(Word32(val * 16), d) == val * 16 + d && (seen < 4 ==> FitsDigits(val * 16 + d, seen + 1))
  {
    hide BitOr;
    assert Pow2(4) == 16;
    OrLow(val, d, 4);
  }

  /** `*tp++ = (val >> 8) & 0xff; *tp++ = val & 0xff;` */
  method StoreGroup(tmp: array<byte>, tp: nat, val: nat) returns (next: nat)
    requires tp + 2 <= tmp.Length
    modifies tmp
    ensures next == tp + 2 && tmp[..] == old(tmp[..tp]) + [val / 256 % 256, val % 256] + old(tmp[tp + 2..])
  {
    tmp[tp] := val / 256 % 256;
    tmp[tp + 1] := val % 256;
    next := tp + 2;
  }

  /** The shift that opens the gap at the double colon, done by hand in place. */
  method ShiftUp(tmp: array<byte>, colon: nat, tp: nat)
    requires tmp.Length == 16 && colon <= tp < 16 && forall k: nat | tp <= k < 16 :: tmp[k] == 0
    modifies tmp
    ensures tmp[..] == Spread(old(tmp[..tp]), colon)
  {
    hide Spread;
    ghost var out := tmp[..tp];
    var n := tp - colon;
    var i := 1;
    while i <= n
      invariant 1 <= i <= n + 1
      invariant forall k: nat | k < colon + n - i + 1 :: tmp[k] == out[k]
      invariant forall k: nat | colon + n - i + 1 <= k < 16 - i + 1 :: tmp[k] == 0
      invariant forall k: nat | 16 - i + 1 <= k < 16 :: tmp[k] == out[k - (16 - tp)]
    {
      tmp[16 - i] := tmp[colon + n - i];
      tmp[colon + n - i] := 0;
      i := i + 1;
    }
    SpreadIs(out, colon, tmp[..]);
  }

  lemma SpreadIs(out: seq<byte>, colon: nat, buf: seq<byte>)
    requires colon <= |out| <= 16 && |buf| == 16
    requires forall k: nat | k < colon :: buf[k] == out[k]
    requires forall k: nat | colon <= k < colon + 16 - |out| :: buf[k] == 0
    requires forall k: nat | colon + 16 - |out| <= k < 16 :: buf[k] == out[k - (16 - |out|)]
    ensures buf == Spread(out, colon)
  {
  }

  /** The parser's variables, with zeros behind what has been stored. */
  ghost predicate Holds(buf: seq<byte>, tp: nat, colon: int, seen: nat, val: nat, st: State6) {
    && |buf| == 16 && tp <= 16 && st.out == buf[..tp] && (forall k: nat | tp <= k < 16 :: buf[k] == 0)
    && st.colon == colon && -1 <= colon <= tp && st.seen == seen && (seen > 0 ==> st.val == val)
  }

  /** The rest of `inet_pton6` after the loop. */
  method FinishPton6(tmp: array<byte>, tp0: nat, colon: int, seen: nat, val: nat, dst: array<byte>, ghost st: State6) returns (rc: int)
    requires tmp.Length == 16 && tmp != dst && dst.Length >= 16 && Holds(tmp[..], tp0, colon, seen, val, st)
    modifies tmp, dst
    ensures rc == if End6(st).Some? then 0 else UV_EINVAL
    ensures rc == 0 ==> |End6(st).value| == 16 && dst[..] == End6(st).value + old(dst[16..])
    ensures rc != 0 ==> dst[..] == old(dst[..])
  {
    hide Spread;
    var tp := tp0;
    if seen > 0 {
      if tp + 2 > 16 {
        return UV_EINVAL;
      }
      tp := StoreGroup(tmp, tp, val);
    }
    assert tmp[..tp] == if st.seen > 0 then Store(st).out else st.out;
    if colon != -1 {
      if tp == 16 {
        return UV_EINVAL;
      }
      ShiftUp(tmp, colon, tp);
      tp := 16;
    }
    if tp != 16 {
      return UV_EINVAL;
    }
    assert tmp[..16] == tmp[..];
    forall k | 0 <= k < 16 {
      dst[k] := tmp[k];
    }
    return 0;
  }

  function Shifted(st: State6, d: nat): State6 {
    st.(seen := st.seen + 1, val := st.val * 16 + d)
  }

  /** One step of the loop, as the equations of `Loop6`. */
  lemma LoopStep(text: seq<byte>, pos: nat, st: State6)
    requires pos < |text| && st.tok <= |text|
    ensures var ch := text[pos];
      if HexValue(ch).Some? then
        (if st.seen + 1 > 4 then Loop6(text, pos, st) == None
         else Loop6(text, pos, st) == Loop6(text, pos + 1, Shifted(st, HexValue(ch).value)))
      else if ch == COLON && st.seen == 0 then
        if st.colon != -1 then Loop6(text, pos, st) == None
        else Loop6(text, pos, st) == Loop6(text, pos + 1, st.(colon := |st.out|, tok := pos + 1))
      else if ch == COLON then
        if pos + 1 == |text| || |st.out| + 2 > 16 then Loop6(text, pos, st) == None
        else Loop6(text, pos, st) == Loop6(text, pos + 1, Store(st.(tok := pos + 1)))
      else if ch == DOT && |st.out| + 4 <= 16 && Parse4(text[st.tok..]).Some? then
        Loop6(text, pos, st) == Some(st.(out := st.out + Parse4(text[st.tok..]).value, seen := 0))
      else Loop6(text, pos, st) == None
  {
    hide Parse4;
  }

  /** The variables in the loop of `inet_pton6` are those of the state `st`. */
  ghost predicate Reads(tok: nat, buf: seq<byte>, tp: nat, colon: int, seen: nat, val: nat, st: State6) {
    st.tok == tok && st.val == val && FitsDigits(val, seen) && Holds(buf, tp, colon, seen, val, st)
  }

  lemma ReadsState(tok: nat, buf: seq<byte>, tp: nat, colon: int, seen: nat, val: nat, st: State6)
    requires Reads(tok, buf, tp, colon, seen, val, st)
    ensures st.tok == tok && st.seen == seen && st.colon == colon && |st.out| == tp <= |buf| == 16
  {
  }

  lemma ReadDigit(tok: nat, buf: seq<byte>, tp: nat, colon: int, seen: nat, val: nat, st: State6, d: nat)
    requires Reads(tok, buf, tp, colon, seen, val, st) && d < 16
    ensures seen < 4 ==> Reads(tok, buf, tp, colon, seen + 1, BitOr(Word32(val * 16), d), Shifted(st, d))
  {
    ShiftInDigit(val, seen, d);
  }

  lemma ReadGap(tok: nat, buf: seq<byte>, tp: nat, colon: int, val: nat, st: State6, next: nat)
    requires Reads(tok, buf, tp, colon, 0, val, st)
    ensures Reads(next, buf, tp, tp, 0, val, st.(colon := |st.out|, tok := next))
  {
  }

  lemma ReadGroup(tok: nat, buf: seq<byte>, tp: nat, colon: int, seen: nat, val: nat, st: State6, next: nat)
    requires Reads(tok, buf, tp, colon, seen, val, st) && tp + 2 <= 16
    ensures Reads(next, buf[..tp] + [val / 256 % 256, val % 256] + buf[tp + 2..], tp + 2, colon, 0, 0,
                  Store(st.(tok := next)))
  {
    var buf' := buf[..tp] + [val / 256 % 256, val % 256] + buf[tp + 2..];
    assert buf'[..tp + 2] == buf[..tp] + [val / 256 % 256, val % 256];
  }

  /** An IPv4 address in the remaining groups. */
  method TakeIpv4(text: seq<byte>, tok: nat, tmp: array<byte>, tp: nat, colon: int, seen: nat, val: nat, ghost st: State6)
      returns (ok: bool)
    requires IsString(text) && tok <= |text| && tmp.Length == 16 && tp + 4 <= 16
    requires Reads(tok, tmp[..], tp, colon, seen, val, st)
    modifies tmp
    ensures ok == Parse4(text[tok..]).Some?
    ensures ok ==>
      Holds(tmp[..], tp + 4, colon, 0, val, st.(out := st.out + Parse4(text[tok..]).value, seen := 0))
  {
    hide Parse4, IsString;
    var err := Pton4(text, tok, tmp, tp);
    ok := err == 0;
    if ok {
      assert tmp[..tp + 4] == old(tmp[..tp]) + Parse4(text[tok..]).value;
    }
  }

  /** `inet_pton6`. */
  method Pton6(text: seq<byte>, dst: array<byte>) returns (rc: int)
    requires IsString(text) && dst.Length >= 16
    modifies dst
    ensures rc == if Parse6(text).Some? then 0 else UV_EINVAL
    ensures rc == 0 ==> |Parse6(text).value| == 16 && dst[..] == Parse6(text).value + old(dst[16..])
    ensures rc != 0 ==> dst[..] == old(dst[..])
  {
    hide Loop6, End6, Parse4, HexValue, Parse6, IsString, Holds, Store, Shifted, FitsDigits;
    ParseIs(text);
    var tmp := new byte[16](_ => 0);
    var tp: nat, colon: int, src: nat := 0, -1, 0;
    if src < |text| && text[src] == COLON {
      src := src + 1;
      if !(src < |text| && text[src] == COLON) {
        return UV_EINVAL;
      }
    }
    var tok: nat, seen: nat, val: nat := src, 0, 0;
    ghost var st := State6([], -1, 0, 0, src);
    NothingRead(tok, tmp[..]);
    ghost var result := Loop6(text, src, st);
    ghost var broken := false;
    while src < |text|
      invariant src <= |text| && st.tok <= |text| && tmp.Length == 16 && fresh(tmp)
      invariant Reads(tok, tmp[..], tp, colon, seen, val, st)
      invariant Loop6(text, src, st) == result
      invariant dst[..] == old(dst[..])
      modifies tmp
      decreases |text| - src
    {
      var ch := text[src];
      LoopStep(text, src, st);
      ReadsState(tok, tmp[..], tp, colon, seen, val, st);
      src := src + 1;
      var digit := HexValue(ch);
      if digit.Some? {
        HexBelow16(ch);
        ReadDigit(tok, tmp[..], tp, colon, seen, val, st, digit.value);
        val := BitOr(Word32(val * 16), digit.value);
        seen := seen + 1;
        if seen > 4 {
          return UV_EINVAL;
        }
        st := Shifted(st, digit.value);
        ReadsState(tok, tmp[..], tp, colon, seen, val, st);
        continue;
      }
      if ch == COLON {
        if seen == 0 {
          if colon != -1 {
            return UV_EINVAL;
          }
          ReadGap(tok, tmp[..], tp, colon, val, st, src);
          st := st.(colon := |st.out|, tok := src);
          tok := src;
          colon := tp;
          continue;
        } else if src == |text| {
          return UV_EINVAL;
        }
        if tp + 2 > 16 {
          return UV_EINVAL;
        }
        ReadGroup(tok, tmp[..], tp, colon, seen, val, st, src);
        st := Store(st.(tok := src));
        tok := src;
        tp := StoreGroup(tmp, tp, val);
        seen := 0;
        val := 0;
        ReadsState(tok, tmp[..], tp, colon, seen, val, st);
        continue;
      }
      if ch == DOT && tp + 4 <= 16 {
        var ok := TakeIpv4(text, tok, tmp, tp, colon, seen, val, st);
        if ok {
          st := st.(out := st.out + Parse4(text[tok..]).value, seen := 0);
          tp := tp + 4;
          seen := 0;
          broken := true;
          break;
        }
      }
      return UV_EINVAL;
    }
    if !broken {
      LoopAtEnd(text, st);
    }
    rc := FinishPton6(tmp, tp, colon, seen, val, dst, st);
  }

  lemma NothingRead(tok: nat, buf: seq<byte>)
    requires |buf| == 16 && forall k: nat | k < 16 :: buf[k] == 0
    ensures Reads(tok, buf, 0, -1, 0, 0, State6([], -1, 0, 0, tok))
  {
  }

  lemma ParseIs(text: seq<byte>)
    ensures var leading := text != [] && text[0] == COLON;
      var start := if leading then 1 else 0;
      if leading && (|text| < 2 || text[1] != COLON) then Parse6(text) == None
      else
        var r := Loop6(text, start, State6([], -1, 0, 0, start));
        (r == None ==> Parse6(text) == None) && (r.Some? ==> Parse6(text) == End6(r.value))
  {
    hide Loop6, End6;
  }

  lemma HexBelow16(ch: byte)
    ensures HexValue(ch).Some? ==> HexValue(ch).value < 16
  {
  }
}
