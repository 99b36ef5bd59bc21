/**
  Punycode against its standard: the parameters of section 5 of RFC 3492, the bias
  adaptation of section 6.1 in terms of them, and one of the samples of section 7.1.
*/
module Rfc3492 {
  import opened Bits
  import opened Collections
  import opened Punycode

  const BASE := 36
  const TMIN := 1
  const TMAX := 26
  const SKEW := 38
  const DAMP := 700
  const INITIAL_BIAS := 72
  const INITIAL_N := 0x80

  // ----- the parameters -----

  /** Section 6.1: `adapt(delta, numpoints, firsttime)`. */
  function AdaptedBias(delta: nat, numpoints: nat, firsttime: bool): nat
    requires numpoints > 0
  {
    var damped := if firsttime then delta / DAMP else delta / 2;
    Reduced(damped + Div(damped, numpoints), 0)
  }

  function Div(x: nat, y: nat): nat
    requires y > 0
  {
    x / y
  }

  function Reduced(delta: nat, k: nat): nat {
    if delta > (BASE - TMIN) * TMAX / 2 then Reduced(delta / (BASE - TMIN), k + BASE)
    else k + Div((BASE - TMIN + 1) * delta, delta + SKEW)
  }

  lemma {:induction false} AdaptIsStandard(delta: nat, numpoints: nat, firsttime: bool)
    requires numpoints > 0
    ensures Adapt(delta, numpoints, firsttime) == AdaptedBias(delta, numpoints, firsttime)
  {
    var damped := if firsttime then delta / DAMP else delta / 2;
    LoopIsStandard(Spread(damped, numpoints), 0);
  }

  lemma {:induction false} LoopIsStandard(delta: nat, k: nat)
    ensures AdaptLoop(delta, k) == Reduced(delta, k)
    decreases delta
  {
    if delta > 455 {
      LoopIsStandard(delta / 35, k + 36);
    }
  }

  /** Sections 6.2 and 6.3: the threshold of a digit. */
  lemma ThresholdIsStandard(k: nat, bias: nat)
    ensures Threshold(k, bias) == if k <= bias + TMIN then TMIN else if k >= bias + TMAX then TMAX else k - bias
  {
  }

  /** Section 5: the letters of both cases are the digits 0 to 25, the decimal digits 26 to 35. */
  lemma DigitsAreStandard(ch: byte, d: nat)
    ensures DigitValue(ch) == Some(d) <==>
      || ('a' as int <= ch <= 'z' as int && d == ch - 'a' as int)
      || ('A' as int <= ch <= 'Z' as int && d == ch - 'A' as int)
      || ('0' as int <= ch <= '9' as int && d == 26 + ch - '0' as int)
  {
  }

  // ----- sample (L) of section 7.1, "3B-ww4c5e180e575a65lsy2b" -----

  /** The variable-length integers of the text. */
  function Piece(k: nat): seq<byte>
    requires k < 6
  {
    if k == 0 then [119, 119, 52, 99]      // ww4c
    else if k == 1 then [53, 101]      // 5e
    else if k == 2 then [49, 56, 48, 101]      // 180e
    else if k == 3 then [53, 55, 53, 97]      // 575a
    else if k == 4 then [54, 53, 108]      // 65l
    else [115, 121, 50, 98]      // sy2b
  }

  /** The first `k` of them. */
  function PieceText(k: nat): seq<byte>
    requires k <= 6
  {
    if k == 0 then [] else PieceText(k - 1) + Piece(k - 1)
  }

  /** The decoder's state after them. */
  function Sample(k: nat): State
    requires k <= 6
  {
    if k == 0 then State(0x80, 0, 72, [0x33, 0x42])
    else if k == 1 then State(0x5148, 3, 27, [0x33, 0x42, 0x5148])
    else if k == 2 then State(0x516B, 3, 24, [0x33, 0x42, 0x516B, 0x5148])
    else if k == 3 then State(0x5E74, 2, 67, [0x33, 0x5E74, 0x42, 0x516B, 0x5148])
    else if k == 4 then State(0x751F, 6, 82, [0x33, 0x5E74, 0x42, 0x516B, 0x5148, 0x751F])
    else if k == 5 then State(0x7D44, 4, 67, [0x33, 0x5E74, 0x42, 0x7D44, 0x516B, 0x5148, 0x751F])
    else State(0x91D1, 5, 84, [0x33, 0x5E74, 0x42, 0x7D44, 0x91D1, 0x516B, 0x5148, 0x751F])
  }

  lemma Read0()
    ensures ReadInt([119, 119, 52, 99], 0, 1, 36, 72) == Some((62042, []))
  {
    hide AdaptLoop;
    assert ReadInt([99], 37542, 12250, 144, 72) == Some((62042, []));
    assert ReadInt([52, 99], 792, 1225, 108, 72) == Some((62042, []));
    assert ReadInt([119, 52, 99], 22, 35, 72, 72) == Some((62042, []));
  }

  lemma Insert0()
    ensures Inserted(Sample(0), 62042) == Sample(1)
  {
    assert Adapt(62042, 3, true) == 27 by {
      assert AdaptLoop(117, 0) == 27;
    }
    hide Adapt;
    assert [0x33, 0x42][..2] + [0x5148] + [0x33, 0x42][2..] == [0x33, 0x42, 0x5148];
  }

  lemma Read1()
    ensures ReadInt([53, 101], 3, 1, 36, 27) == Some((142, []))
  {
    hide AdaptLoop;
    assert ReadInt([101], 34, 27, 72, 27) == Some((142, []));
  }

  lemma Insert1()
    ensures Inserted(Sample(1), 142) == Sample(2)
  {
    assert Adapt(139, 4, false) == 24 by {
      assert AdaptLoop(86, 0) == 24;
    }
    hide Adapt;
    assert [0x33, 0x42, 0x5148][..2] + [0x516B] + [0x33, 0x42, 0x5148][2..] == [0x33, 0x42, 0x516B, 0x5148];
  }

  lemma Read2()
    ensures ReadInt([49, 56, 48, 101], 3, 1, 36, 24) == Some((16686, []))
  {
    hide AdaptLoop;
    assert ReadInt([101], 7086, 2400, 144, 24) == Some((16686, []));
    assert ReadInt([48, 101], 846, 240, 108, 24) == Some((16686, []));
    assert ReadInt([56, 48, 101], 30, 24, 72, 24) == Some((16686, []));
  }

  lemma Insert2()
    ensures Inserted(Sample(2), 16686) == Sample(3)
  {
    assert Adapt(16683, 5, false) == 67 by {
      assert AdaptLoop(285, 36) == 67;
      assert AdaptLoop(10009, 0) == 67;
    }
    hide Adapt;
    assert [0x33, 0x42, 0x516B, 0x5148][..1] + [0x5E74] + [0x33, 0x42, 0x516B, 0x5148][1..] == [0x33, 0x5E74, 0x42, 0x516B, 0x5148];
  }

  lemma Read3()
    ensures ReadInt([53, 55, 53, 97], 2, 1, 36, 67) == Some((34823, []))
  {
    hide AdaptLoop;
    assert ReadInt([97], 34823, 10850, 144, 67) == Some((34823, []));
    assert ReadInt([53, 97], 1188, 1085, 108, 67) == Some((34823, []));
    assert ReadInt([55, 53, 97], 33, 35, 72, 67) == Some((34823, []));
  }

  lemma Insert3()
    ensures Inserted(Sample(3), 34823) == Sample(4)
  {
    assert Adapt(34821, 6, false) == 82 by {
      assert AdaptLoop(16, 72) == 82;
      assert AdaptLoop(580, 36) == 82;
      assert AdaptLoop(20311, 0) == 82;
    }
    hide Adapt;
    assert [0x33, 0x5E74, 0x42, 0x516B, 0x5148][..5] + [0x751F] + [0x33, 0x5E74, 0x42, 0x516B, 0x5148][5..] == [0x33, 0x5E74, 0x42, 0x516B, 0x5148, 0x751F];
  }

  lemma Read4()
    ensures ReadInt([54, 53, 108], 6, 1, 36, 82) == Some((14598, []))
  {
    hide AdaptLoop;
    assert ReadInt([108], 1123, 1225, 108, 82) == Some((14598, []));
    assert ReadInt([53, 108], 38, 35, 72, 82) == Some((14598, []));
  }

  lemma Insert4()
    ensures Inserted(Sample(4), 14598) == Sample(5)
  {
    assert Adapt(14592, 7, false) == 67 by {
      assert AdaptLoop(238, 36) == 67;
      assert AdaptLoop(8338, 0) == 67;
    }
    hide Adapt;
    assert [0x33, 0x5E74, 0x42, 0x516B, 0x5148, 0x751F][..3] + [0x7D44] + [0x33, 0x5E74, 0x42, 0x516B, 0x5148, 0x751F][3..] == [0x33, 0x5E74, 0x42, 0x7D44, 0x516B, 0x5148, 0x751F];
  }

  lemma Read5()
    ensures ReadInt([115, 121, 50, 98], 4, 1, 36, 67) == Some((42092, []))
  {
    hide AdaptLoop;
    assert ReadInt([98], 31242, 10850, 144, 67) == Some((42092, []));
    assert ReadInt([50, 98], 862, 1085, 108, 67) == Some((42092, []));
    assert ReadInt([121, 50, 98], 22, 35, 72, 67) == Some((42092, []));
  }

  lemma Insert5()
    ensures Inserted(Sample(5), 42092) == Sample(6)
  {
    assert Adapt(42088, 8, false) == 84 by {
      assert AdaptLoop(19, 72) == 84;
      assert AdaptLoop(676, 36) == 84;
      assert AdaptLoop(23674, 0) == 84;
    }
    hide Adapt;
    assert [0x33, 0x5E74, 0x42, 0x7D44, 0x516B, 0x5148, 0x751F][..4] + [0x91D1] + [0x33, 0x5E74, 0x42, 0x7D44, 0x516B, 0x5148, 0x751F][4..] == [0x33, 0x5E74, 0x42, 0x7D44, 0x91D1, 0x516B, 0x5148, 0x751F];
  }

  lemma SampleStep(k: nat)
    requires k < 6
    ensures Round(Sample(k), Piece(k)) == Some((Sample(k + 1), []))
  {
    hide ReadInt, Inserted;
    if k == 0 {
      Read0();
      Insert0();
    } else if k == 1 {
      Read1();
      Insert1();
    } else if k == 2 {
      Read2();
      Insert2();
    } else if k == 3 {
      Read3();
      Insert3();
    } else if k == 4 {
      Read4();
      Insert4();
    } else {
      Read5();
      Insert5();
    }
  }

  lemma {:induction false} SampleRun(k: nat)
    requires k <= 6
    ensures Rounds(Sample(0), PieceText(k)) == Some(Sample(k))
  {
    hide Round, Sample, Piece;
    if k > 0 {
      SampleRun(k - 1);
      SampleStep(k - 1);
      RoundsAppend(Sample(0), PieceText(k - 1), Sample(k - 1), Piece(k - 1), Sample(k));
    }
  }

  lemma PieceHasNoHyphen(k: nat)
    requires k < 6
    ensures |Piece(k)| >= 1 && HYPHEN !in Piece(k)
  {
  }

  lemma {:induction false} NoHyphens(k: nat)
    requires k <= 6
    ensures |PieceText(k)| >= k && HYPHEN !in PieceText(k)
  {
    hide Piece;
    if k > 0 {
      NoHyphens(k - 1);
      PieceHasNoHyphen(k - 1);
    }
  }

  /** The decoder turns the sample into U+0033 U+5E74 U+0042 U+7D44 U+91D1 U+516B U+5148 U+751F. */
  lemma SampleDecodes()
    ensures Decode([51, 66, 45] + PieceText(6)) == Some([0x33, 0x5E74, 0x42, 0x7D44, 0x91D1, 0x516B, 0x5148, 0x751F])
  {
    hide Rounds, LastHyphen, PieceText;
    var pieces := PieceText(6);
    var text := [51, 66, 45] + pieces;
    SampleRun(6);
    NoHyphens(6);
    LastHyphenIs(text, 2, |text|);
    assert text[..2] == [51, 66] && text[3..] == pieces;
  }
}
