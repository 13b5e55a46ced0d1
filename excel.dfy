/** Package `excel`: conversion between a 0-based column index and Excel's column indicator,
    the letters `A` .. `XFD`. The Go functions work on runes (`int32`); here a rune is an
    `int` and an indicator is the sequence of its runes. */
module Excel {
  import opened GoInt

  /** `KColumnIndicatorBase`: the number of letters from `A` to `Z`. */
  const KColumnIndicatorBase: int := 1 + 'Z' as int - 'A' as int

  const A: int := 'A' as int

  /** Indices from 0 to `MaxIndex` have indicators of at most three letters (`ZZZ`);
      Excel itself stops at 16383 (`XFD`). */
  const MaxIndex: int := 18277

  predicate IsLetter(c: int) { A <= c <= 'Z' as int }

  predicate IsCodePoint(c: int) { 0 <= c <= 0x10_FFFF }

  /** `IndexToColumnIndicator`: one or two letters below 27 * 26, whose first letter counts
      from 1 and whose last counts from 0; three letters from there on. */
  function IndexToColumnIndicator(index: int): (runes: seq<int>)
    requires IsInt32(index)
    ensures 1 <= |runes| <= 3
    ensures |runes| == 3 <==> index >= (KColumnIndicatorBase + 1) * KColumnIndicatorBase
  {
    if index < (KColumnIndicatorBase + 1) * KColumnIndicatorBase then
      var quotient := Quo(index, KColumnIndicatorBase);
      var remainder := Rem(index, KColumnIndicatorBase);
      (if quotient != 0 then [A + quotient - 1] else []) + [A + remainder]
    else
      var rest := index - (KColumnIndicatorBase + 1) * KColumnIndicatorBase;
      var q1 := Quo(rest, KColumnIndicatorBase * KColumnIndicatorBase);
      var r1 := Rem(rest, KColumnIndicatorBase * KColumnIndicatorBase);
      var q2 := Quo(r1, KColumnIndicatorBase);
      var r2 := Rem(r1, KColumnIndicatorBase);
      [A + q1, A + q2, A + r2]
  }

  /** The exact value that `ColumnIndicatorToIndex` accumulates: the first letter counts
      from 0, and each further letter multiplies by 26 the value so far plus one. */
  function ColumnValue(s: seq<int>): (v: int)
    ensures (forall i :: 0 <= i < |s| ==> IsLetter(s[i])) ==> v >= 0
  {
    if |s| == 0 then 0
    else if |s| == 1 then s[0] - A
    else (1 + ColumnValue(s[..|s| - 1])) * KColumnIndicatorBase + (s[|s| - 1] - A)
  }

  /** `ColumnIndicatorToIndex` over the runes of a string, with the `int32` (rune) arithmetic
      of the Go loop wrapping around. The empty indicator yields 0. */
  method ColumnIndicatorToIndex(columnIndicator: seq<int>) returns (columnIndex: int)
    requires forall i :: 0 <= i < |columnIndicator| ==> IsCodePoint(columnIndicator[i])
    ensures columnIndex == Wrap32(ColumnValue(columnIndicator))
  {
    columnIndex := 0;
    for i := 0 to |columnIndicator|
      invariant columnIndex == Wrap32(ColumnValue(columnIndicator[..i]))
    {
      var iValue := columnIndicator[i] - A;
      assert columnIndicator[..i + 1][..i] == columnIndicator[..i];
      if i == 0 {
        columnIndex := iValue;
      } else {
        Wrap32Step(ColumnValue(columnIndicator[..i]), iValue);
        columnIndex := Wrap32((1 + columnIndex) * KColumnIndicatorBase + iValue);
      }
    }
    assert columnIndicator[..|columnIndicator|] == columnIndicator;
  }

  lemma DivMod26(x: int, q: int, r: int)
    requires 0 <= r < 26 && x == q * 26 + r
    ensures x / 26 == q && x % 26 == r
  {
  }

  lemma DivMod676(x: int, q: int, r: int)
    requires 0 <= r < 676 && x == q * 676 + r
    ensures x / 676 == q && x % 676 == r
  {
  }

  /** Indices 0 .. 25 are the single letters `A` .. `Z`. */
  lemma OneLetter(index: int)
    requires 0 <= index < KColumnIndicatorBase
    ensures IndexToColumnIndicator(index) == [A + index]
  {
    QuoRemNonNegative(index, KColumnIndicatorBase);
    assert Quo(index, KColumnIndicatorBase) == 0 && Rem(index, KColumnIndicatorBase) == index;
  }

  /** Indices 26 .. 701 are two letters: the quotient by 26 counted from 1, then the remainder. */
  lemma TwoLetters(index: int)
    requires KColumnIndicatorBase <= index < (KColumnIndicatorBase + 1) * KColumnIndicatorBase
    ensures IndexToColumnIndicator(index) ==
              [A + index / KColumnIndicatorBase - 1, A + index % KColumnIndicatorBase]
  {
    QuoRemNonNegative(index, KColumnIndicatorBase);
  }

  /** Indices 702 .. 18277 are three letters. */
  lemma ThreeLetters(index: int)
    requires (KColumnIndicatorBase + 1) * KColumnIndicatorBase <= index <= MaxIndex
    ensures var s := IndexToColumnIndicator(index);
            |s| == 3 && IsLetter(s[0]) && IsLetter(s[1]) && IsLetter(s[2])
  {
    var rest := index - 702;
    QuoRemNonNegative(rest, 676);
    QuoRemNonNegative(rest % 676, 26);
  }

  /** Every index from 0 to 18277 is written with letters only. */
  lemma IndicatorIsLetters(index: int)
    requires 0 <= index <= MaxIndex
    ensures var s := IndexToColumnIndicator(index);
            1 <= |s| <= 3 && forall i :: 0 <= i < |s| ==> IsLetter(s[i])
  {
    if index < 26 {
      OneLetter(index);
    } else if index < 702 {
      TwoLetters(index);
    } else {
      ThreeLetters(index);
    }
  }

  /** The last column Excel allows, 16383, is `XFD`. */
  lemma LastExcelColumn()
    ensures IndexToColumnIndicator(16383) == ['X' as int, 'F' as int, 'D' as int]
  {
    QuoRemNonNegative(16383 - 702, 676);
    DivMod676(16383 - 702, 23, 133);
    QuoRemNonNegative(133, 26);
    DivMod26(133, 5, 3);
  }

  /** Decoding an encoded index gives the index back, and `ColumnIndicatorToIndex` computes it
      without wrapping. */
  lemma RoundTrip(index: int)
    requires 0 <= index <= MaxIndex
    ensures ColumnValue(IndexToColumnIndicator(index)) == index
    ensures Wrap32(ColumnValue(IndexToColumnIndicator(index))) == index
  {
    if index < 26 {
      OneLetter(index);
    } else if index < 702 {
      TwoLetters(index);
      var s := IndexToColumnIndicator(index);
      assert s[..1] == [s[0]];
      assert ColumnValue(s) == (1 + (index / 26 - 1)) * 26 + index % 26;
    } else {
      RoundTripThree(index);
    }
  }

  lemma RoundTripThree(index: int)
    requires 702 <= index <= MaxIndex
    ensures ColumnValue(IndexToColumnIndicator(index)) == index
  {
    var rest := index - 702;
    var q1, r1 := rest / 676, rest % 676;
    var q2, r2 := r1 / 26, r1 % 26;
    QuoRemNonNegative(rest, 676);
    QuoRemNonNegative(r1, 26);
    assert Quo(rest, 676) == q1 && Rem(rest, 676) == r1;
    assert Quo(r1, 26) == q2 && Rem(r1, 26) == r2;
    assert KColumnIndicatorBase * KColumnIndicatorBase == 676;
    assert rest == 676 * q1 + r1 && r1 == 26 * q2 + r2;
    var s := IndexToColumnIndicator(index);
    assert s == [A + q1, A + q2, A + r2];
    assert s[..2][..1] == [s[0]] && s[..2] == [s[0], s[1]];
    assert ColumnValue(s[..2]) == (1 + q1) * 26 + q2;
    assert ColumnValue(s) == (1 + (1 + q1) * 26 + q2) * 26 + r2;
  }

  /** Encoding the value of one to three letters gives the letters back. */
  lemma ReverseRoundTrip(s: seq<int>)
    requires 1 <= |s| <= 3 && forall i :: 0 <= i < |s| ==> IsLetter(s[i])
    ensures 0 <= ColumnValue(s) <= MaxIndex && Wrap32(ColumnValue(s)) == ColumnValue(s)
    ensures IndexToColumnIndicator(ColumnValue(s)) == s
  {
    if |s| == 1 {
      OneLetter(s[0] - A);
    } else if |s| == 2 {
      ReverseRoundTripTwo(s);
    } else {
      ReverseRoundTripThree(s);
    }
  }

  lemma ReverseRoundTripTwo(s: seq<int>)
    requires |s| == 2 && IsLetter(s[0]) && IsLetter(s[1])
    ensures 26 <= ColumnValue(s) < 702
    ensures IndexToColumnIndicator(ColumnValue(s)) == s
  {
    var a, b := s[0] - A, s[1] - A;
    assert s[..1] == [s[0]];
    var v := (1 + a) * 26 + b;
    assert ColumnValue(s) == v;
    DivMod26(v, 1 + a, b);
    QuoRemNonNegative(v, 26);
    assert Quo(v, 26) == 1 + a && Rem(v, 26) == b;
  }

  lemma ReverseRoundTripThree(s: seq<int>)
    requires |s| == 3 && IsLetter(s[0]) && IsLetter(s[1]) && IsLetter(s[2])
    ensures 702 <= ColumnValue(s) <= MaxIndex
    ensures IndexToColumnIndicator(ColumnValue(s)) == s
  {
    var a, b, c := s[0] - A, s[1] - A, s[2] - A;
    ThreeLetterValue(s);
    EncodeThree(a, b, c);
    assert s == [A + a, A + b, A + c];
  }

  /** The value of three letters `a b c` counted from 0. */
  lemma ThreeLetterValue(s: seq<int>)
    requires |s| == 3
    ensures ColumnValue(s) == 702 + (s[0] - A) * 676 + (s[1] - A) * 26 + (s[2] - A)
  {
    assert s[..2][..1] == [s[0]] && s[..2] == [s[0], s[1]];
    assert ColumnValue(s[..2]) == (1 + (s[0] - A)) * 26 + (s[1] - A);
  }

  /** Three letters counted from 0 are what the three-letter branch encodes. */
  lemma EncodeThree(a: int, b: int, c: int)
    requires 0 <= a < 26 && 0 <= b < 26 && 0 <= c < 26
    ensures 702 <= 702 + a * 676 + b * 26 + c <= MaxIndex
    ensures IndexToColumnIndicator(702 + a * 676 + b * 26 + c) == [A + a, A + b, A + c]
  {
    var rest := a * 676 + b * 26 + c;
    DivMod676(rest, a, b * 26 + c);
    DivMod26(b * 26 + c, b, c);
    QuoRemNonNegative(rest, 676);
    QuoRemNonNegative(b * 26 + c, 26);
    assert KColumnIndicatorBase * KColumnIndicatorBase == 676;
  }
}
