/**
  IPv4 addresses in libuv's inet.c: the printer and the parser are inverse to each
  other.

  A C string is the sequence of its characters without the final NUL.
*/
module Inet4 {
  import opened Bits
  import opened Collections
  import opened UvErrors

  const DOT: byte := 46

  ghost predicate IsString(s: seq<byte>) {
    forall i: nat | i < |s| :: s[i] != 0
  }

  /** What a copy of the string `s` into `n` bytes leaves at offset `k`. */
  function Copied(s: seq<byte>, n: nat, k: int, was: byte): byte {
    var cut := if |s| < n then |s| else n - 1;
    if k < 0 || k > cut then was else if k == cut then 0 else s[k]
  }

  /** `uv__strscpy`: copy a string with its NUL to `at`, cut to `n` bytes. */
  method Strscpy(d: array<byte>, at: nat, s: seq<byte>, n: nat) returns (rc: int)
    requires IsString(s) && at + n <= d.Length
    modifies d
    ensures rc == if n == 0 then 0 else if |s| < n then |s| else UV_E2BIG
    ensures forall k: nat | k < d.Length :: d[k] == Copied(s, n, k - at, old(d[k]))
  {
    var i := 0;
    while i < n
      invariant i <= n && i <= |s|
      invariant forall k: nat | k < d.Length :: d[k] == if at <= k < at + i then s[k - at] else old(d[k])
    {
      d[at + i] := if i < |s| then s[i] else 0;
      if d[at + i] == 0 {
        return i;
      }
      i := i + 1;
    }
    if i == 0 {
      return 0;
    }
    i := i - 1;
    d[at + i] := 0;
    return UV_E2BIG;
  }

  /** The string with its NUL, or as much of it as fits with one, between what was there. */
  lemma CopiedLayout(s: seq<byte>, n: nat, at: nat, was: seq<byte>, now: seq<byte>)
    requires at + n <= |was| == |now|
    requires forall k: nat | k < |was| :: now[k] == Copied(s, n, k - at, was[k])
    ensures n == 0 ==> now == was
    ensures |s| < n ==> now == was[..at] + s + [0] + was[at + |s| + 1..]
    ensures 0 < n <= |s| ==> now == was[..at] + s[..n - 1] + [0] + was[at + n..]
  {
  }

  /** An octet in decimal, as "%u" prints it. */
  function Dec(n: nat): (s: seq<byte>)
    requires n < 256
    ensures 1 <= |s| <= 3
  {
    if n < 10 then [48 + n]
    else if n < 100 then [48 + n / 10, 48 + n % 10]
    else [48 + n / 100, 48 + n / 10 % 10, 48 + n % 10]
  }

  /** "%u.%u.%u.%u" */
  function Dotted(a: seq<byte>): (s: seq<byte>)
    requires |a| == 4
    ensures 7 <= |s| <= 15
  {
    Dec(a[0]) + [DOT] + Dec(a[1]) + [DOT] + Dec(a[2]) + [DOT] + Dec(a[3])
  }

  /** `inet_ntop4`, writing to `at`. */
  method Ntop4(src: seq<byte>, dst: array<byte>, at: nat, size: nat) returns (rc: int)
    requires |src| == 4 && at + size <= dst.Length
    modifies dst
    ensures rc == if |Dotted(src)| < size then 0 else UV_ENOSPC
    ensures forall k: nat | k < dst.Length :: dst[k] == if rc == 0 then Copied(Dotted(src), size, k - at, old(dst[k])) else old(dst[k])
  {
    var tmp := Dotted(src);
    if |tmp| >= size {
      return UV_ENOSPC;
    }
    DottedIsString(src);
    var copied := Strscpy(dst, at, tmp, size);
    return 0;
  }

  lemma DottedIsString(a: seq<byte>)
    requires |a| == 4
    ensures IsString(Dotted(a))
  {
    DecIsString(a[0]);
    DecIsString(a[1]);
    DecIsString(a[2]);
    DecIsString(a[3]);
    hide Dec;
  }

  lemma DecIsString(n: nat)
    requires n < 256
    ensures IsString(Dec(n))
  {
  }

  // ----- the parser -----

  /** The parser's variables: the finished octets, the current one, `saw_digit`, `octets`. */
  datatype State = State(done: seq<byte>, cur: byte, saw: bool, octets: nat)

  function Step(st: State, ch: byte): Option<State> {
    if 48 <= ch <= 57 then
      var nw := st.cur * 10 + (ch - 48);
      if st.saw && st.cur == 0 then None
      else if nw > 255 then None
      else if st.saw then Some(st.(cur := nw))
      else if st.octets + 1 > 4 then None
      else Some(State(st.done, nw, true, st.octets + 1))
    else if ch == DOT && st.saw then
      if st.octets == 4 then None else Some(State(st.done + [st.cur], 0, false, st.octets))
    else None
  }

  function After(s: seq<byte>): Option<State> {
    if s == [] then Some(State([], 0, false, 0))
    else
      match After(s[..|s| - 1])
      case None => None
      case Some(st) => Step(st, s[|s| - 1])
  }

  /** What `inet_pton4` accepts, and what it makes of it. */
  function Parse4(s: seq<byte>): Option<seq<byte>> {
    match After(s)
    case None => None
    case Some(st) => if st.octets < 4 then None else Some(st.done + [st.cur])
  }

  /** The text that leads to a state. */
  function Spelled(st: State): seq<byte> {
    Dots(st.done) + if st.saw then Dec(st.cur) else []
  }

  function Dots(done: seq<byte>): seq<byte> {
    if done == [] then [] else Dots(done[..|done| - 1]) + Dec(done[|done| - 1]) + [DOT]
  }

  predicate Sound(st: State) {
    |st.done| <= 3 && st.octets == |st.done| + (if st.saw then 1 else 0) && (!st.saw ==> st.cur == 0)
  }

  lemma DecStep(n: nat)
    requires n < 256
    ensures n >= 10 ==> Dec(n) == Dec(n / 10) + [48 + n % 10]
    ensures n < 10 ==> Dec(n) == [48 + n]
  {
  }

  lemma StepSpells(st: State, ch: byte)
    requires Sound(st) && Step(st, ch).Some?
    ensures Sound(Step(st, ch).value) && Spelled(Step(st, ch).value) == Spelled(st) + [ch]
  {
    hide Dec;
    var next := Step(st, ch).value;
    DecStep(next.cur);
    if ch == DOT {
      assert next.done[..|st.done|] == st.done;
    }
  }

  /** Only the text of a state leads to it. */
  lemma {:induction false} AfterSpells(s: seq<byte>)
    requires After(s).Some?
    ensures Sound(After(s).value) && Spelled(After(s).value) == s
  {
    hide Step, Sound, Spelled;
    if s == [] {
      assert Sound(State([], 0, false, 0)) && Spelled(State([], 0, false, 0)) == [] by { Blank(); }
    } else {
      AfterSpells(s[..|s| - 1]);
      StepSpells(After(s[..|s| - 1]).value, s[|s| - 1]);
    }
  }

  lemma Blank()
    ensures Sound(State([], 0, false, 0)) && Spelled(State([], 0, false, 0)) == []
  {
  }

  /** The text of a state leads to it. */
  lemma {:induction false} SpelledLeads(st: State)
    requires Sound(st)
    ensures After(Spelled(st)) == Some(st)
    decreases |st.done|, st.saw, st.cur
  {
    hide Dec, After;
    if st.saw {
      DecStep(st.cur);
      var before := if st.cur >= 10 then st.(cur := st.cur / 10) else State(st.done, 0, false, st.octets - 1);
      SpelledLeads(before);
      assert Spelled(st) == Spelled(before) + [48 + st.cur % 10];
      AfterSnoc(Spelled(before), 48 + st.cur % 10);
    } else if st.done != [] {
      var k := |st.done| - 1;
      var before := State(st.done[..k], st.done[k], true, st.octets);
      SpelledLeads(before);
      assert Spelled(st) == Spelled(before) + [DOT];
      AfterSnoc(Spelled(before), DOT);
      assert st.done[..k] + [st.done[k]] == st.done;
    } else {
      assert Spelled(st) == [];
      AfterNothing();
    }
  }

  lemma AfterNothing()
    ensures After([]) == Some(State([], 0, false, 0))
  {
  }

  lemma AfterSnoc(s: seq<byte>, ch: byte)
    requires After(s).Some?
    ensures After(s + [ch]) == Step(After(s).value, ch)
  {
    assert (s + [ch])[..|s|] == s;
  }

  lemma DottedIsSpelled(a: seq<byte>)
    requires |a| == 4
    ensures Dotted(a) == Spelled(State(a[..3], a[3], true, 4))
  {
    hide Dec;
    assert a[..3][..2] == a[..2] && a[..2][..1] == a[..1] && a[..1][..0] == [];
    assert Dots(a[..1]) == Dec(a[0]) + [DOT];
    assert Dots(a[..2]) == Dots(a[..1]) + Dec(a[1]) + [DOT];
    assert Dots(a[..3]) == Dots(a[..2]) + Dec(a[2]) + [DOT];
  }

  /** The printer and the parser are inverse: the text of an address is accepted and gives the
      address, and nothing but the text of an address is accepted. */
  lemma Ipv4Bijection(a: seq<byte>, s: seq<byte>)
    ensures |a| == 4 ==> Parse4(Dotted(a)) == Some(a)
    ensures Parse4(s).Some? ==> |Parse4(s).value| == 4 && s == Dotted(Parse4(s).value)
  {
    hide Step, Spelled, Dotted;
    if |a| == 4 {
      DottedIsSpelled(a);
      SpelledLeads(State(a[..3], a[3], true, 4));
      assert a[..3] + [a[3]] == a;
    }
    if Parse4(s).Some? {
      AfterSpells(s);
      var st := After(s).value;
      DottedIsSpelled(st.done + [st.cur]);
      assert (st.done + [st.cur])[..3] == st.done;
    }
  }

  lemma {:induction false} Rejects(s: seq<byte>, k: nat)
    requires k <= |s| && After(s[..k]) == None
    ensures After(s) == None && Parse4(s) == None
    decreases |s|
  {
    if k < |s| {
      assert s[..|s| - 1][..k] == s[..k];
      Rejects(s[..|s| - 1], k);
    } else {
      assert s[..k] == s;
    }
  }

  /** One character of `inet_pton4`: `tp` is the index of the current octet. */
  method PtonChar(tmp: array<byte>, tp0: nat, saw0: bool, octets0: nat, ch: byte)
    returns (ok: bool, tp: nat, saw: bool, octets: nat)
    requires tmp.Length == 4 && tp0 <= 3 && Sound(State(tmp[..tp0], tmp[tp0], saw0, octets0))
    modifies tmp
    ensures ok <==> Step(old(State(tmp[..tp0], tmp[tp0], saw0, octets0)), ch).Some?
    ensures ok ==> tp <= 3 && State(tmp[..tp], tmp[tp], saw, octets) == Step(old(State(tmp[..tp0], tmp[tp0], saw0, octets0)), ch).value
  {
    ok, tp, saw, octets := true, tp0, saw0, octets0;
    if 48 <= ch <= 57 {
      var nw := tmp[tp] * 10 + (ch - 48);
      if saw && tmp[tp] == 0 {
        ok := false;
        return;
      }
      if nw > 255 {
        ok := false;
        return;
      }
      tmp[tp] := nw;
      if !saw {
        octets := octets + 1;
        if octets > 4 {
          ok := false;
          return;
        }
        saw := true;
      }
    } else if ch == DOT && saw {
      if octets == 4 {
        ok := false;
        return;
      }
      tp := tp + 1;
      tmp[tp] := 0;
      saw := false;
    } else {
      ok := false;
    }
  }

  /** `inet_pton4`, reading from `from` and writing to `at`. */
  method Pton4(s: seq<byte>, from: nat, dst: array<byte>, at: nat) returns (rc: int)
    requires IsString(s) && from <= |s| && at + 4 <= dst.Length
    modifies dst
    ensures rc == if Parse4(s[from..]).Some? then 0 else UV_EINVAL
    ensures rc == 0 ==> |Parse4(s[from..]).value| == 4
    ensures forall k: nat | k < dst.Length ::
      dst[k] == if rc == 0 && at <= k < at + 4 then Parse4(s[from..]).value[k - at] else old(dst[k])
  {
    hide Step, Spelled, After, Parse4;
    var tmp := new byte[4];
    var src: nat, tp: nat, saw, octets: nat := from, 0, false, 0;
    tmp[0] := 0;
    ghost var text := s[from..];
    AfterNothing();
    while src < |s|
      invariant from <= src <= |s| && tp <= 3 && tmp.Length == 4
      invariant After(text[..src - from]) == Some(State(tmp[..tp], tmp[tp], saw, octets))
      modifies tmp
    {
      var ch := s[src];
      ghost var read := text[..src - from];
      AfterSpells(read);
      AfterSnoc(read, ch);
      assert read + [ch] == text[..src - from + 1];
      src := src + 1;
      var ok;
      ok, tp, saw, octets := PtonChar(tmp, tp, saw, octets, ch);
      if !ok {
        Rejects(text, src - from);
        return UV_EINVAL;
      }
    }
    assert text[..src - from] == text;
    AfterSpells(text);
    Accepts(text);
    if octets < 4 {
      return UV_EINVAL;
    }
    assert tmp[..tp] + [tmp[tp]] == tmp[..];
    forall i | 0 <= i < 4 {
      dst[at + i] := tmp[i];
    }
    return 0;
  }

  lemma Accepts(s: seq<byte>)
    requires After(s).Some?
    ensures var st := After(s).value;
      Parse4(s) == if st.octets < 4 then None else Some(st.done + [st.cur])
  {
  }
}
