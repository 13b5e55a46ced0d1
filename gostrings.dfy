/** The few functions of Go's standard library (`strings`, `strconv`, `path`, the UTF-8 length
    of a string) that the modelled packages call, each with a lemma that characterises it (an
    inverse or a defining property). A Go string is modelled as its sequence of Unicode code
    points. */
module GoStrings {

  // ---------------------------------------------------------------- strings.Join

  /** `strings.Join(xs, sep)`: the elements of `xs` with `sep` between neighbours. */
  function Join(xs: seq<string>, sep: string): (s: string)
    ensures xs == [] ==> s == ""
    ensures |xs| == 1 ==> s == xs[0]
  {
    if |xs| == 0 then "" else if |xs| == 1 then xs[0] else xs[0] + sep + Join(xs[1..], sep)
  }

  /** Joining a concatenation puts one separator between the two joined halves. */
  lemma {:induction false} JoinAppend(a: seq<string>, b: seq<string>, sep: string)
    requires |a| > 0 && |b| > 0
    ensures Join(a + b, sep) == Join(a, sep) + sep + Join(b, sep)
  {
    if |a| == 1 {
      assert (a + b)[1..] == b;
    } else {
      assert (a + b)[1..] == a[1..] + b;
      JoinAppend(a[1..], b, sep);
    }
  }

  // ---------------------------------------------------------------- strings.Split

  /** `strings.Split(s, [sep])` for a one-character separator: the pieces between separators,
      one more piece than there are separators, so `""` splits into `[""]`. */
  function Split(s: string, sep: char): (pieces: seq<string>)
    ensures |pieces| >= 1
    ensures forall i :: 0 <= i < |pieces| ==> sep !in pieces[i]
  {
    if s == [] then [""]
    else if s[0] == sep then [""] + Split(s[1..], sep)
    else
      var rest := Split(s[1..], sep);
      [[s[0]] + rest[0]] + rest[1..]
  }

  /** Joining the pieces with the separator gives the string back. */
  lemma {:induction false} JoinSplit(s: string, sep: char)
    ensures Join(Split(s, sep), [sep]) == s
    decreases |s|
  {
    if s != [] {
      var rest := Split(s[1..], sep);
      JoinSplit(s[1..], sep);
      if s[0] == sep {
        assert ([""] + rest)[1..] == rest;
        assert [sep] + s[1..] == s;
      } else {
        var pieces := [[s[0]] + rest[0]] + rest[1..];
        assert pieces[1..] == rest[1..];
        assert [s[0]] + s[1..] == s;
      }
    }
  }

  /** A value absent from `s` and different from `c` is absent from `s + [c]`. */
  lemma NotInAppend<T>(x: T, s: seq<T>, c: T)
    requires x !in s && x != c
    ensures x !in s + [c]
  {
  }

  /** A non-empty sequence is its head followed by its tail. */
  lemma HeadTail<T>(s: seq<T>)
    requires |s| >= 1
    ensures s == [s[0]] + s[1..]
  {
  }

  lemma {:induction false} SplitPrefix(p: string, t: string, sep: char)
    requires sep !in p
    ensures Split(p + t, sep) == [p + Split(t, sep)[0]] + Split(t, sep)[1..]
  {
    var pieces := Split(t, sep);
    if p != [] {
      var rest := Split(p[1..] + t, sep);
      SplitPrefix(p[1..], t, sep);
      assert (p + t)[0] == p[0] && (p + t)[1..] == p[1..] + t;
      assert Split(p + t, sep) == [[p[0]] + rest[0]] + rest[1..];
      assert [p[0]] + (p[1..] + pieces[0]) == p + pieces[0];
    } else {
      assert p + t == t && p + pieces[0] == pieces[0];
      HeadTail(pieces);
    }
  }

  /** Splitting undoes joining, when no element holds the separator. */
  lemma {:induction false} SplitJoin(xs: seq<string>, sep: char)
    requires |xs| >= 1
    requires forall i :: 0 <= i < |xs| ==> sep !in xs[i]
    ensures Split(Join(xs, [sep]), sep) == xs
  {
    if |xs| == 1 {
      SplitPrefix(xs[0], "", sep);
      assert xs[0] + "" == xs[0];
    } else {
      var tail := Join(xs[1..], [sep]);
      SplitJoin(xs[1..], sep);
      assert ([sep] + tail)[1..] == tail;
      assert Split([sep] + tail, sep) == [""] + xs[1..];
      assert xs[0] + [sep] + tail == xs[0] + ([sep] + tail);
      SplitPrefix(xs[0], [sep] + tail, sep);
      assert xs[0] + "" == xs[0];
    }
  }

  // ---------------------------------------------------------------- strings.TrimSpace

  /** `unicode.IsSpace`: the Unicode White_Space code points. */
  predicate IsSpace(c: char) {
    var n := c as int;
    (0x09 <= n <= 0x0D) || n == 0x20 || n == 0x85 || n == 0xA0 || n == 0x1680
    || (0x2000 <= n <= 0x200A) || n == 0x2028 || n == 0x2029 || n == 0x202F
    || n == 0x205F || n == 0x3000
  }

  /** The number of white-space code points at the start of the input. */
  function LeadingSpaces(s: string): (n: nat)
    ensures n <= |s|
    ensures forall i :: 0 <= i < n ==> IsSpace(s[i])
    ensures n == |s| || !IsSpace(s[n])
  {
    if s != [] && IsSpace(s[0]) then 1 + LeadingSpaces(s[1..]) else 0
  }

  /** The input without its trailing white space. */
  function TrimRight(s: string): (r: string)
    ensures |r| <= |s| && r == s[..|r|]
    ensures r == [] || !IsSpace(r[|r| - 1])
    ensures forall i :: |r| <= i < |s| ==> IsSpace(s[i])
  {
    if s != [] && IsSpace(s[|s| - 1]) then TrimRight(s[..|s| - 1]) else s
  }

  /** `strings.TrimSpace`: the input without the white space at both ends. */
  function TrimSpace(s: string): (r: string)
    ensures LeadingSpaces(s) + |r| <= |s|
  {
    TrimRight(s[LeadingSpaces(s)..])
  }

  /** The trimmed string is the contiguous slice of the input that follows its leading white
      space, and only white space follows it. */
  lemma TrimSpaceIsSlice(s: string)
    ensures var i, r := LeadingSpaces(s), TrimSpace(s);
            r == s[i..i + |r|] && forall k :: i + |r| <= k < |s| ==> IsSpace(s[k])
  {
    var i := LeadingSpaces(s);
    var r := TrimRight(s[i..]);
    SliceOfSlice(s, i, |r|);
    TrailingSpaces(s, i, |r|);
  }

  /** A non-empty trimmed string starts and ends with a non-space. */
  lemma TrimSpaceEnds(s: string)
    ensures var r := TrimSpace(s); r == [] || (!IsSpace(r[0]) && !IsSpace(r[|r| - 1]))
  {
    var i := LeadingSpaces(s);
    var t := s[i..];
    var r := TrimRight(t);
    if r != [] {
      assert r[0] == t[0] == s[i];
      assert !IsSpace(s[i]);
    }
  }

  lemma TrailingSpaces(s: string, i: nat, n: nat)
    requires i + n <= |s|
    requires forall j :: n <= j < |s| - i ==> IsSpace(s[i..][j])
    ensures forall k :: i + n <= k < |s| ==> IsSpace(s[k])
  {
    forall k | i + n <= k < |s|
      ensures IsSpace(s[k])
    {
      assert s[k] == s[i..][k - i];
    }
  }

  /** A prefix of a suffix is a slice. */
  lemma SliceOfSlice<T>(s: seq<T>, i: nat, n: nat)
    requires i + n <= |s|
    ensures s[i..][..n] == s[i..i + n]
  {
  }

  // ---------------------------------------------------------------- strconv.Itoa

  function DigitChar(d: nat): char
    requires d < 10
  {
    ('0' as int + d) as char
  }

  predicate IsDigit(c: char) { '0' <= c <= '9' }

  /** The decimal digits of `n`, most significant first, without leading zeros. */
  function Digits(n: nat): (s: string)
    ensures |s| >= 1
    ensures forall i :: 0 <= i < |s| ==> IsDigit(s[i])
    ensures |s| > 1 ==> s[0] != '0'
  {
    if n < 10 then [DigitChar(n)] else Digits(n / 10) + [DigitChar(n % 10)]
  }

  /** `strconv.Itoa(n)`: the decimal form of `n`, with a `-` sign when negative. */
  function Itoa(n: int): (s: string)
    ensures |s| >= 1 && (s[0] == '-' <==> n < 0)
  {
    if n < 0 then "-" + Digits(-n) else Digits(n)
  }

  /** The value of a string of decimal digits (the reading direction of `Digits`). */
  function DigitsValue(s: string): int {
    if s == [] then 0 else 10 * DigitsValue(s[..|s| - 1]) + (s[|s| - 1] as int - '0' as int)
  }

  /** The value of an optionally signed decimal numeral (the inverse of `Itoa`). */
  function Atoi(s: string): int {
    if |s| > 0 && s[0] == '-' then -DigitsValue(s[1..]) else DigitsValue(s)
  }

  lemma {:induction false} DigitsRoundTrip(n: nat)
    ensures DigitsValue(Digits(n)) == n
  {
    if n >= 10 {
      DigitsRoundTrip(n / 10);
      var s := Digits(n / 10) + [DigitChar(n % 10)];
      assert s[..|s| - 1] == Digits(n / 10);
    }
  }

  /** Reading back the decimal form of `n` gives `n`. */
  lemma ItoaRoundTrip(n: int)
    ensures Atoi(Itoa(n)) == n
  {
    if n < 0 {
      DigitsRoundTrip(-n);
      assert ("-" + Digits(-n))[1..] == Digits(-n);
    } else {
      DigitsRoundTrip(n);
    }
  }

  // ---------------------------------------------------------------- len(s)

  /** Number of bytes of the UTF-8 encoding of one code point. */
  function Utf8Width(c: char): (w: nat)
    ensures 1 <= w <= 4
  {
    if c as int < 0x80 then 1 else if c as int < 0x800 then 2 else if c as int < 0x1_0000 then 3 else 4
  }

  /** `len(s)` of a Go string: its length in UTF-8 bytes. */
  function Utf8Len(s: string): (n: nat)
    ensures |s| <= n <= 4 * |s|
  {
    if s == [] then 0 else Utf8Width(s[0]) + Utf8Len(s[1..])
  }

  // ---------------------------------------------------------------- path.Ext

  /** The part of a slash-separated path after its final `/` (all of it when there is none). */
  function FinalElement(p: string): (e: string)
    ensures |e| <= |p| && e == p[|p| - |e|..]
    ensures '/' !in e
    ensures |e| < |p| ==> p[|p| - |e| - 1] == '/'
  {
    if p == [] || p[|p| - 1] == '/' then "" else FinalElement(p[..|p| - 1]) + [p[|p| - 1]]
  }

  /** `path.Ext(p)`: the suffix of `p` from the final `.` of its final element, or `""` when
      that element has no `.`. */
  function PathExt(p: string): (e: string)
    ensures |e| <= |p| && e == p[|p| - |e|..]
  {
    if p == [] || p[|p| - 1] == '/' then ""
    else if p[|p| - 1] == '.' then "."
    else
      var e := PathExt(p[..|p| - 1]);
      if e == [] then "" else e + [p[|p| - 1]]
  }

  /** The extension is empty exactly when the final element has no `.`. */
  lemma {:induction false} PathExtEmpty(p: string)
    ensures PathExt(p) == [] <==> '.' !in FinalElement(p)
  {
    if p != [] && p[|p| - 1] != '/' {
      var q, c := p[..|p| - 1], p[|p| - 1];
      assert FinalElement(p) == FinalElement(q) + [c];
      assert '.' in FinalElement(p) <==> '.' in FinalElement(q) || c == '.';
      if c != '.' {
        PathExtEmpty(q);
      }
    }
  }

  /** A non-empty extension starts with a `.` and holds no other `.` and no `/`. */
  lemma {:induction false} PathExtShape(p: string)
    ensures PathExt(p) != [] ==>
              PathExt(p)[0] == '.' && '.' !in PathExt(p)[1..] && '/' !in PathExt(p)
  {
    if p != [] && p[|p| - 1] != '/' && p[|p| - 1] != '.' {
      var q, c := p[..|p| - 1], p[|p| - 1];
      var e := PathExt(q);
      PathExtShape(q);
      if e != [] {
        assert PathExt(p) == e + [c];
        assert (e + [c])[1..] == e[1..] + [c];
        NotInAppend('.', e[1..], c);
        NotInAppend('/', e, c);
      }
    }
  }
}
