/** Package `utils`: integer helpers, rune-indexed substrings, file-name splitting and the
    helpers for `encoding/csv` records. A Go string is modelled as its sequence of code points;
    where Go measures a string in bytes the model uses its UTF-8 length. */
module Utils {
  import opened GoInt
  import opened GoStrings
  import opened Wrappers

  // ---------------------------------------------------------------- integer helpers

  /** `ComputeProgressDivisor`: Go's truncated quotient, plus one when the division is not
      exact. A zero divisor makes Go panic. */
  function ComputeProgressDivisor(itemCount: int, maxIndicatorCount: int): (quotient: int)
    requires maxIndicatorCount != 0
    ensures quotient * maxIndicatorCount == itemCount <==> Rem(itemCount, maxIndicatorCount) == 0
  {
    var q := Quo(itemCount, maxIndicatorCount);
    assert (q + 1) * maxIndicatorCount == q * maxIndicatorCount + maxIndicatorCount;
    if Rem(itemCount, maxIndicatorCount) != 0 then q + 1 else q
  }

  /** For a count of items and a positive number of indicators the divisor is the ceiling of
      the quotient: the least multiplier that covers all the items. */
  lemma ProgressDivisorIsCeiling(itemCount: int, maxIndicatorCount: int)
    requires itemCount >= 0 && maxIndicatorCount > 0
    ensures var q := ComputeProgressDivisor(itemCount, maxIndicatorCount);
            q * maxIndicatorCount >= itemCount && (q - 1) * maxIndicatorCount < itemCount
  {
    QuoRemNonNegative(itemCount, maxIndicatorCount);
    var k, m := itemCount / maxIndicatorCount, itemCount % maxIndicatorCount;
    assert itemCount == k * maxIndicatorCount + m;
    assert (k + 1) * maxIndicatorCount == k * maxIndicatorCount + maxIndicatorCount;
    assert (k - 1) * maxIndicatorCount == k * maxIndicatorCount - maxIndicatorCount;
  }

  /** For a negative count that is not a multiple of the divisor, truncation has already
      rounded up, so the extra one overshoots: one less would still cover the count. */
  lemma ProgressDivisorNegativeCount(itemCount: int, maxIndicatorCount: int)
    requires itemCount < 0 && maxIndicatorCount > 0 && itemCount % maxIndicatorCount != 0
    ensures var q := ComputeProgressDivisor(itemCount, maxIndicatorCount);
            (q - 1) * maxIndicatorCount > itemCount && (q - 2) * maxIndicatorCount < itemCount
  {
    var n := -itemCount;
    var k, m := n / maxIndicatorCount, n % maxIndicatorCount;
    assert n == maxIndicatorCount * k + m;
    if m == 0 {
      ModUnique(itemCount, maxIndicatorCount, -k, 0);
    }
    assert Quo(itemCount, maxIndicatorCount) == -k;
    assert maxIndicatorCount * -k == -(maxIndicatorCount * k);
    assert Rem(itemCount, maxIndicatorCount) == -m;
    var q := ComputeProgressDivisor(itemCount, maxIndicatorCount);
    assert q == 1 - k;
    assert (q - 1) * maxIndicatorCount == -(maxIndicatorCount * k);
    assert (q - 2) * maxIndicatorCount == -(maxIndicatorCount * k) - maxIndicatorCount;
  }

  /** `Ceiling`, for any unsigned width (the increment cannot overflow: it only happens when
      the divisor is at least 2). A zero divisor makes Go panic. */
  function Ceiling(dividend: nat, divisor: nat): (quotient: nat)
    requires divisor > 0
    ensures quotient * divisor >= dividend
    ensures quotient == 0 || (quotient - 1) * divisor < dividend
  {
    var q := dividend / divisor;
    var m := dividend % divisor;
    assert dividend == q * divisor + m;
    assert (q + 1) * divisor == q * divisor + divisor;
    assert q > 0 ==> (q - 1) * divisor == q * divisor - divisor;
    if m != 0 then q + 1 else q
  }

  /** `d` divides `n` (0 divides only 0). */
  predicate Divides(d: nat, n: nat) {
    if d == 0 then n == 0 else n % d == 0
  }

  lemma {:induction false} MulAtLeast(d: int, x: int)
    requires d > 0 && x >= 1
    ensures d * x >= d
    decreases x
  {
    if x > 1 {
      MulAtLeast(d, x - 1);
      assert d * x == d * (x - 1) + d;
    }
  }

  /** Division with remainder is unique. */
  lemma ModUnique(n: int, d: int, q: int, r: int)
    requires d > 0 && 0 <= r < d && n == d * q + r
    ensures n / d == q && n % d == r
  {
    var q0, r0 := n / d, n % d;
    assert n == d * q0 + r0;
    if q > q0 {
      MulAtLeast(d, q - q0);
    } else if q < q0 {
      MulAtLeast(d, q0 - q);
    }
  }

  lemma ModAddMultiple(d: nat, x: nat, m: nat)
    requires d > 0
    ensures (d * x + m) % d == m % d
  {
    var k, r := m / d, m % d;
    assert m == d * k + r;
    assert d * x + m == d * (x + k) + r;
    ModUnique(d * x + m, d, x + k, r);
  }

  /** One step of Euclid's algorithm keeps the common divisors. */
  lemma CommonDivisorsStep(a: nat, b: nat, d: nat)
    requires b > 0
    ensures (Divides(d, a) && Divides(d, b)) <==> (Divides(d, b) && Divides(d, a % b))
  {
    if d > 0 && b % d == 0 {
      var k, j := a / b, b / d;
      assert a == b * k + a % b;
      assert b == d * j;
      assert b * k == d * (j * k);
      ModAddMultiple(d, j * k, a % b);
    }
  }

  /** `EuclidGCD`: the greatest common divisor, a common divisor of `p` and `q` that every
      common divisor divides; `EuclidGCD(p, 0) == p`. */
  method EuclidGCD(p: nat, q: nat) returns (r: nat)
    ensures Divides(r, p) && Divides(r, q)
    ensures forall d: nat :: Divides(d, p) && Divides(d, q) ==> Divides(d, r)
    ensures q == 0 ==> r == p
  {
    var a, b := p, q;
    while b != 0
      invariant forall d: nat :: (Divides(d, a) && Divides(d, b)) <==> (Divides(d, p) && Divides(d, q))
      invariant q == 0 ==> a == p && b == 0
      decreases b
    {
      forall d: nat ensures (Divides(d, a) && Divides(d, b)) <==> (Divides(d, b) && Divides(d, a % b)) {
        CommonDivisorsStep(a, b, d);
      }
      a, b := b, a % b;
    }
    assert Divides(a, a) && Divides(a, 0);
    r := a;
  }

  /** `Plural`: the suffix for `count` things. */
  function Plural(count: int): (plural: string)
    ensures plural == "" <==> count == 1
    ensures plural == "" || plural == "s"
  {
    if count != 1 then "s" else ""
  }

  /** `XStringFromXInt`: the decimal forms (`strconv.Itoa`) of the integers, in order; each
      reads back as the integer it came from. */
  method XStringFromXInt(xi: seq<int>) returns (xs: seq<string>)
    ensures |xs| == |xi|
    ensures forall i :: 0 <= i < |xi| ==> xs[i] == Itoa(xi[i]) && Atoi(xs[i]) == xi[i]
  {
    xs := [];
    for k := 0 to |xi|
      invariant |xs| == k
      invariant forall i :: 0 <= i < k ==> xs[i] == Itoa(xi[i]) && Atoi(xs[i]) == xi[i]
    {
      ItoaRoundTrip(xi[k]);
      xs := xs + [Itoa(xi[k])];
    }
  }

  // ---------------------------------------------------------------- rune-indexed substrings

  /** `Substring`, with the sum `runeIndexLow + runeLengthLimit` taken exactly (see
      `SubstringAsWritten` for Go's wrapping sum). Past the end it yields `("", 0)`; otherwise
      it reports `min(limit, runes left)` runes (all that are left when the limit is 0) and
      returns that slice with the white space at its ends trimmed. */
  function Substring(strInput: string, runeIndexLow: nat, runeLengthLimit: nat): (r: (string, nat))
    requires IsUint(runeIndexLow) && IsUint(runeLengthLimit)
    ensures runeIndexLow >= |strInput| ==> r == ("", 0)
    ensures runeIndexLow + r.1 <= |strInput| || r.1 == 0
    ensures |r.0| <= r.1
  {
    var runeLengthInput := |strInput|;
    if runeIndexLow < runeLengthInput then
      var runeIndexHigh := runeIndexLow + runeLengthLimit;
      if runeLengthLimit == 0 || runeLengthInput < runeIndexHigh then
        (TrimSpace(strInput[runeIndexLow..runeLengthInput]), runeLengthInput - runeIndexLow)
      else
        (TrimSpace(strInput[runeIndexLow..runeIndexHigh]), runeLengthLimit)
    else
      ("", 0)
  }

  /** When the limit is 0 or reaches the end of the input, `Substring` yields the rest of the
      input from `runeIndexLow`, trimmed, and reports the number of runes left. */
  lemma SubstringToEnd(strInput: string, runeIndexLow: nat, runeLengthLimit: nat)
    requires IsUint(runeIndexLow) && IsUint(runeLengthLimit)
    requires runeIndexLow < |strInput|
    requires runeLengthLimit == 0 || |strInput| <= runeIndexLow + runeLengthLimit
    ensures Substring(strInput, runeIndexLow, runeLengthLimit) ==
              (TrimSpace(strInput[runeIndexLow..]), |strInput| - runeIndexLow)
  {
    var tail := strInput[runeIndexLow..];
    assert strInput[runeIndexLow..|strInput|] == tail;
    if runeLengthLimit != 0 && |strInput| == runeIndexLow + runeLengthLimit {
      assert strInput[runeIndexLow..runeIndexLow + runeLengthLimit] == tail;
    }
  }

  /** When a non-zero limit stays inside the input, `Substring` yields the `runeLengthLimit`
      runes from `runeIndexLow`, trimmed, and reports the limit. */
  lemma SubstringWithin(strInput: string, runeIndexLow: nat, runeLengthLimit: nat)
    requires IsUint(runeIndexLow) && IsUint(runeLengthLimit)
    requires 0 < runeLengthLimit && runeIndexLow + runeLengthLimit <= |strInput|
    ensures Substring(strInput, runeIndexLow, runeLengthLimit) ==
              (TrimSpace(strInput[runeIndexLow..runeIndexLow + runeLengthLimit]), runeLengthLimit)
  {
    if runeIndexLow + runeLengthLimit == |strInput| {
      assert strInput[runeIndexLow..|strInput|] == strInput[runeIndexLow..runeIndexLow + runeLengthLimit];
    }
  }

  /** `Substring` exactly as Go computes it: `runeIndexLow + runeLengthLimit` wraps modulo
      2^64, and a wrapped upper index below the lower one makes the slice expression panic
      (`None`). */
  function SubstringAsWritten(strInput: string, runeIndexLow: nat, runeLengthLimit: nat): (r: Option<(string, nat)>)
    requires IsUint(runeIndexLow) && IsUint(runeLengthLimit)
    ensures r.Some? ==> |r.value.0| <= r.value.1
  {
    var runeLengthInput := |strInput|;
    if runeIndexLow < runeLengthInput then
      var runeIndexHigh := (runeIndexLow + runeLengthLimit) % UintModulus;
      if runeLengthLimit == 0 || runeLengthInput < runeIndexHigh then
        Some((TrimSpace(strInput[runeIndexLow..runeLengthInput]), runeLengthInput - runeIndexLow))
      else if runeIndexHigh < runeIndexLow then
        None
      else
        Some((TrimSpace(strInput[runeIndexLow..runeIndexHigh]), runeLengthLimit))
    else
      Some(("", 0))
  }

  /** The Go code panics exactly when the start is inside the string and the sum of start and
      limit overflows `uint`. */
  lemma SubstringAsWrittenPanics(strInput: string, runeIndexLow: nat, runeLengthLimit: nat)
    requires IsUint(runeIndexLow) && IsUint(runeLengthLimit)
    ensures SubstringAsWritten(strInput, runeIndexLow, runeLengthLimit).None? <==>
              runeIndexLow < |strInput| && runeIndexLow + runeLengthLimit >= UintModulus
  {
    if runeIndexLow + runeLengthLimit >= UintModulus {
      assert (runeIndexLow + runeLengthLimit) % UintModulus == runeIndexLow + runeLengthLimit - UintModulus;
    } else {
      assert (runeIndexLow + runeLengthLimit) % UintModulus == runeIndexLow + runeLengthLimit;
    }
  }

  /** A concrete witness: asking for everything after the first rune of "ab" with the largest
      `uint` as limit (meant as "no limit") panics instead of yielding "b". */
  lemma SubstringMaxLimitPanics()
    ensures SubstringAsWritten("ab", 1, UintModulus - 1) == None
    ensures Substring("ab", 1, UintModulus - 1) == ("b", 1)
  {
    SubstringAsWrittenPanics("ab", 1, UintModulus - 1);
    assert "ab"[1..2] == "b";
    assert TrimSpace("b") == "b";
  }

  /** Whenever the sum does not overflow, the Go code and the corrected function agree. */
  lemma SubstringAsWrittenAgrees(strInput: string, runeIndexLow: nat, runeLengthLimit: nat)
    requires IsUint(runeIndexLow) && IsUint(runeLengthLimit)
    requires runeIndexLow + runeLengthLimit < UintModulus
    ensures SubstringAsWritten(strInput, runeIndexLow, runeLengthLimit) ==
              Some(Substring(strInput, runeIndexLow, runeLengthLimit))
  {
    assert (runeIndexLow + runeLengthLimit) % UintModulus == runeIndexLow + runeLengthLimit;
  }

  /** `SubstringFromEnd`: `""` for a limit of 0; the input itself (untrimmed) when it has no
      more runes than the limit; otherwise its last `runeLengthLimit` runes, trimmed. */
  function SubstringFromEnd(strInput: string, runeLengthLimit: nat): (strOutput: string)
    requires IsUint(runeLengthLimit)
    ensures runeLengthLimit == 0 ==> strOutput == ""
    ensures 0 < runeLengthLimit && |strInput| <= runeLengthLimit ==> strOutput == strInput
    ensures runeLengthLimit < |strInput| ==>
              strOutput == TrimSpace(strInput[|strInput| - runeLengthLimit..])
    ensures |strOutput| <= runeLengthLimit
  {
    if runeLengthLimit != 0 then
      var runeLengthInput := |strInput|;
      if runeLengthInput > runeLengthLimit then
        var runeIndexLow := runeLengthInput - runeLengthLimit;
        var tail := strInput[runeIndexLow..runeLengthInput];
        assert |tail| == runeLengthLimit && tail == strInput[|strInput| - runeLengthLimit..];
        TrimSpace(tail)
      else
        strInput
    else
      ""
  }

  // ---------------------------------------------------------------- file names

  /** `FilenameSplit`: the name without and with its extension (`path.Ext`), unless that
      extension is empty or longer than `extLimit` bytes, when the whole name is the base. */
  function FilenameSplit(filename: string, extLimit: int): (r: (string, string))
    ensures r.0 + r.1 == filename
    ensures r.1 == "" <==> (PathExt(filename) == "" || extLimit < Utf8Len(PathExt(filename)))
    ensures r.1 != "" ==> r.1 == PathExt(filename) && Utf8Len(r.1) <= extLimit
    ensures r.1 != "" ==> r.1[0] == '.' && '/' !in r.1
  {
    var extension := PathExt(filename);
    PathExtShape(filename);
    var extLen := Utf8Len(extension);
    assert extLen == 0 <==> extension == "";
    if extLen == 0 || extLimit < extLen then
      (filename, "")
    else
      var k := |filename| - |extension|;
      var baseName := filename[..k];
      assert extension == filename[k..];
      assert filename == filename[..k] + filename[k..];
      (baseName, extension)
  }

  /** `BaseName`: the first component of `FilenameSplit`. */
  function BaseName(fn: string, extLimit: int): (r: string)
    ensures r == FilenameSplit(fn, extLimit).0
  {
    var ext := PathExt(fn);
    var extLen := Utf8Len(ext);
    if extLen == 0 || extLimit < extLen then fn else fn[..|fn| - |ext|]
  }

  /** `Extension`: the second component of `FilenameSplit`. */
  function Extension(fn: string, extLimit: int): (r: string)
    ensures r == FilenameSplit(fn, extLimit).1
  {
    var ext := PathExt(fn);
    var extLen := Utf8Len(ext);
    if extLen == 0 || extLimit < extLen then "" else ext
  }

  // ---------------------------------------------------------------- csv helpers

  /** `i` is the first position of `k` in `xs`. */
  predicate IsFirstIndex<T(==)>(xs: seq<T>, k: T, i: int) {
    0 <= i < |xs| && xs[i] == k && forall j :: 0 <= j < i ==> xs[j] != k
  }

  /** Some element of `xs` occurs at two positions. */
  predicate HasDuplicate<T(==)>(xs: seq<T>) {
    exists i, j :: 0 <= i < j < |xs| && xs[i] == xs[j]
  }

  /** `k` occurs at two positions of `xs`. */
  predicate OccursTwice<T(==)>(xs: seq<T>, k: T) {
    exists i, j :: 0 <= i < j < |xs| && xs[i] == k && xs[j] == k
  }

  /** `BuildMapKeyToIndex`: maps every key to the position of its first occurrence; the error
      (here: the key it names) is set exactly when some key occurs twice. */
  method BuildMapKeyToIndex<T(==)>(xKeys: seq<T>) returns (mKeyToIndex: map<T, int>, err: Option<T>)
    ensures mKeyToIndex.Keys == set i | 0 <= i < |xKeys| :: xKeys[i]
    ensures forall k :: k in mKeyToIndex ==> IsFirstIndex(xKeys, k, mKeyToIndex[k])
    ensures err.Some? <==> HasDuplicate(xKeys)
    ensures err.Some? ==> OccursTwice(xKeys, err.value)
  {
    mKeyToIndex := map[];
    err := None;
    for index := 0 to |xKeys|
      invariant mKeyToIndex.Keys == set i | 0 <= i < index :: xKeys[i]
      invariant forall k :: k in mKeyToIndex ==> IsFirstIndex(xKeys, k, mKeyToIndex[k]) && mKeyToIndex[k] < index
      invariant err.Some? <==> HasDuplicate(xKeys[..index])
      invariant err.Some? ==> OccursTwice(xKeys, err.value)
    {
      var key := xKeys[index];
      var prefix := xKeys[..index + 1];
      if key in mKeyToIndex {
        var i := mKeyToIndex[key];
        assert prefix[i] == prefix[index];
        err := Some(key);
      } else {
        assert forall j :: 0 <= j < index ==> xKeys[j] != key;
        if HasDuplicate(prefix) {
          var i, j :| 0 <= i < j < |prefix| && prefix[i] == prefix[j];
          assert j < index;
          assert xKeys[..index][i] == xKeys[..index][j];
        }
        mKeyToIndex := mKeyToIndex[key := index];
      }
      assert HasDuplicate(xKeys[..index]) ==> HasDuplicate(prefix) by {
        if HasDuplicate(xKeys[..index]) {
          var i, j :| 0 <= i < j < index && xKeys[..index][i] == xKeys[..index][j];
          assert prefix[i] == prefix[j];
        }
      }
    }
    assert xKeys[..|xKeys|] == xKeys;
  }

  /** `RemoveBOM`: drops one leading U+FEFF from the first field of the record, in place, and
      leaves every other field alone. Go indexes the first rune unchecked, so the record and its
      first field must not be empty. */
  method RemoveBOM(csvRecord: array<string>)
    requires csvRecord.Length > 0 && |csvRecord[0]| > 0
    modifies csvRecord
    ensures csvRecord[0] == if old(csvRecord[0])[0] == '\U{FEFF}' then old(csvRecord[0])[1..]
                            else old(csvRecord[0])
    ensures forall i :: 0 < i < csvRecord.Length ==> csvRecord[i] == old(csvRecord[i])
  {
    var xRunes := csvRecord[0];
    if xRunes[0] == '\U{FEFF}' {
      csvRecord[0] := xRunes[1..];
    }
  }
}
