/**
  The parts of Python's `str` that the pipeline relies on: `strip()`,
  `split(sep)`, `isdigit()`, the `int()` and `float()` constructors on text,
  and the `d` / `.2f` format specifications. Each parser is paired with the
  printer it inverts.
*/
module PyText {
  import opened Wrappers
  import PyNum

  // ---------------------------------------------------------------- whitespace

  /** Python's `str.isspace` for a single character. */
  predicate IsSpace(c: char) {
    var n := c as int;
    n == 32 || 9 <= n <= 13 || 28 <= n <= 31 || n == 0x85 || n == 0xA0 || n == 0x1680
    || 0x2000 <= n <= 0x200A || n == 0x2028 || n == 0x2029 || n == 0x202F || n == 0x205F
    || n == 0x3000
  }

  predicate AllSpace(s: string) {
    forall i :: 0 <= i < |s| ==> IsSpace(s[i])
  }

  function StripLeft(s: string): (r: string)
    ensures |r| <= |s|
    ensures r == [] || !IsSpace(r[0])
  {
    if |s| > 0 && IsSpace(s[0]) then StripLeft(s[1..]) else s
  }

  function StripRight(s: string): (r: string)
    ensures |r| <= |s|
    ensures r == [] || !IsSpace(r[|r| - 1])
  {
    if |s| > 0 && IsSpace(s[|s| - 1]) then StripRight(s[..|s| - 1]) else s
  }

  /**
    Python's `s.strip()`: drop leading whitespace one character at a time,
    then trailing whitespace; the middle is kept.
  */
  function Strip(s: string): (r: string)
    ensures r == [] || (!IsSpace(r[0]) && !IsSpace(r[|r| - 1]))
  {
    if |s| > 0 && IsSpace(s[0]) then Strip(s[1..])
    else
      StripRightPrefix(s);
      StripRight(s)
  }

  /** `StripLeft` keeps a suffix of its input. */
  lemma {:induction false} StripLeftSuffix(s: string)
    ensures StripLeft(s) == s[|s| - |StripLeft(s)|..]
  {
    if |s| > 0 && IsSpace(s[0]) {
      StripLeftSuffix(s[1..]);
    }
  }

  /** `StripRight` keeps a prefix of its input. */
  lemma {:induction false} StripRightPrefix(s: string)
    ensures StripRight(s) == s[..|StripRight(s)|]
  {
    if |s| > 0 && IsSpace(s[|s| - 1]) {
      StripRightPrefix(s[..|s| - 1]);
    }
  }

  /** Stripping is stripping the left end, then the right end. */
  lemma {:induction false} StripLeftRight(s: string)
    ensures Strip(s) == StripRight(StripLeft(s))
  {
    if |s| > 0 && IsSpace(s[0]) {
      StripLeftRight(s[1..]);
    }
  }

  /** What `StripLeft` drops is whitespace. */
  lemma {:induction false} StripLeftDropsSpace(s: string)
    ensures AllSpace(s[..|s| - |StripLeft(s)|])
  {
    if |s| > 0 && IsSpace(s[0]) {
      var r := StripLeft(s[1..]);
      StripLeftDropsSpace(s[1..]);
      forall i | 0 < i < |s| - |r|
        ensures IsSpace(s[i])
      {
        assert s[i] == s[1..][..|s| - 1 - |r|][i - 1];
      }
    }
  }

  /** What `StripRight` drops is whitespace. */
  lemma {:induction false} StripRightDropsSpace(s: string)
    ensures AllSpace(s[|StripRight(s)|..])
  {
    if |s| > 0 && IsSpace(s[|s| - 1]) {
      var r := StripRight(s[..|s| - 1]);
      StripRightDropsSpace(s[..|s| - 1]);
      forall i | |r| <= i < |s| - 1
        ensures IsSpace(s[i])
      {
        assert s[i] == s[..|s| - 1][|r|..][i - |r|];
      }
    }
  }

  /** `s.strip()` is empty exactly when `s` is all whitespace. */
  lemma StripEmpty(s: string)
    ensures Strip(s) == [] <==> AllSpace(s)
  {
    StripLeftRight(s);
    var l := StripLeft(s);
    StripLeftSuffix(s);
    StripRightPrefix(l);
    StripLeftDropsSpace(s);
    StripRightDropsSpace(l);
    assert s == s[..|s| - |l|] + l;
    if Strip(s) == [] {
      assert l == l[|Strip(s)|..];
    } else {
      assert Strip(s)[0] == s[|s| - |l|];
    }
  }

  /** Every character of `s.strip()` comes from `s`. */
  lemma StripSubset(s: string)
    ensures forall c :: c in Strip(s) ==> c in s
  {
    StripLeftRight(s);
    var l := StripLeft(s);
    var r := StripRight(l);
    StripLeftSuffix(s);
    StripRightPrefix(l);
    forall c | c in r
      ensures c in s
    {
      var i :| 0 <= i < |r| && r[i] == c;
      assert r[i] == l[i];
      assert l[i] == s[|s| - |l| + i];
    }
  }

  /** Stripping twice changes nothing. */
  lemma StripIdempotent(s: string)
    ensures Strip(Strip(s)) == Strip(s)
  {
    StripUnchanged(Strip(s));
  }

  /** Text that neither starts nor ends with whitespace is its own strip. */
  lemma StripUnchanged(s: string)
    requires s == [] || (!IsSpace(s[0]) && !IsSpace(s[|s| - 1]))
    ensures Strip(s) == s
  {
  }

  // ---------------------------------------------------------------- split / join

  function IndexOf(s: string, c: char): (i: nat)
    requires c in s
    ensures i < |s| && s[i] == c && c !in s[..i]
  {
    if s[0] == c then 0
    else
      var i := IndexOf(s[1..], c);
      assert s[..i + 1] == [s[0]] + s[1..][..i];
      i + 1
  }

  /** The text that `parts` came from: the parts with `sep` between them. */
  function Join(parts: seq<string>, sep: char): string
    requires |parts| >= 1
  {
    if |parts| == 1 then parts[0] else parts[0] + [sep] + Join(parts[1..], sep)
  }

  /**
    Python's `s.split(sep)` for a one-character separator: one more piece
    than there are separators, none of which holds the separator, and
    joining them back gives `s`.
  */
  function Split(s: string, sep: char): (parts: seq<string>)
    ensures |parts| >= 1
    decreases |s|
  {
    if sep !in s then [s]
    else
      var i := IndexOf(s, sep);
      [s[..i]] + Split(s[i + 1..], sep)
  }

  /** No piece holds the separator, and joining the pieces gives back `s`. */
  lemma {:induction false} SplitPieces(s: string, sep: char)
    ensures forall k :: 0 <= k < |Split(s, sep)| ==> sep !in Split(s, sep)[k]
    ensures Join(Split(s, sep), sep) == s
    decreases |s|
  {
    if sep in s {
      var i := IndexOf(s, sep);
      var rest := Split(s[i + 1..], sep);
      SplitPieces(s[i + 1..], sep);
      var parts := [s[..i]] + rest;
      assert parts[1..] == rest;
      assert s == s[..i] + [sep] + s[i + 1..];
    }
  }

  /** The first `c` in `a + [c] + b` is the one after `a` when `a` has none. */
  lemma {:induction false} IndexOfAfter(a: string, b: string, c: char)
    requires c !in a
    ensures c in a + [c] + b && IndexOf(a + [c] + b, c) == |a|
  {
    var s := a + [c] + b;
    assert s[|a|] == c;
    if a != [] {
      assert s[1..] == a[1..] + [c] + b;
      IndexOfAfter(a[1..], b, c);
    }
  }

  /** A separator-free prefix followed by the separator splits off as the first piece. */
  lemma SplitCons(a: string, tail: string, sep: char)
    requires sep !in a
    ensures Split(a + [sep] + tail, sep) == [a] + Split(tail, sep)
  {
    var s := a + [sep] + tail;
    IndexOfAfter(a, tail, sep);
    assert s[|a| + 1..] == tail;
    assert s[..|a|] == a;
  }

  /** `split` undoes `Join` whenever no part holds the separator. */
  lemma {:induction false} SplitJoin(parts: seq<string>, sep: char)
    requires |parts| >= 1
    requires forall k :: 0 <= k < |parts| ==> sep !in parts[k]
    ensures Split(Join(parts, sep), sep) == parts
    decreases |parts|
  {
    if |parts| > 1 {
      var tail := Join(parts[1..], sep);
      assert Join(parts, sep) == parts[0] + [sep] + tail;
      SplitCons(parts[0], tail, sep);
      SplitJoin(parts[1..], sep);
      assert [parts[0]] + parts[1..] == parts;
    }
  }

  /** Splitting `a + sep + b` on `sep` gives back `[a, b]`. */
  lemma SplitTwo(a: string, b: string, sep: char)
    requires sep !in a && sep !in b
    ensures Split(a + [sep] + b, sep) == [a, b]
  {
    var parts := [a, b];
    assert parts[1..] == [b];
    SplitJoin(parts, sep);
  }

  /** Splitting `a + sep + b + sep + c` on `sep` gives back `[a, b, c]`. */
  lemma SplitThree(a: string, b: string, c: string, sep: char)
    requires sep !in a && sep !in b && sep !in c
    ensures Split(a + [sep] + b + [sep] + c, sep) == [a, b, c]
  {
    var parts := [a, b, c];
    assert parts[1..] == [b, c];
    assert parts[1..][1..] == [c];
    assert Join([c], sep) == c;
    assert Join([b, c], sep) == b + [sep] + c;
    assert Join(parts, sep) == a + [sep] + (b + [sep] + c);
    assert a + [sep] + (b + [sep] + c) == a + [sep] + b + [sep] + c;
    SplitJoin(parts, sep);
  }

  // ---------------------------------------------------------------- digits

  predicate IsDigit(c: char) {
    '0' <= c <= '9'
  }

  predicate AllDigits(s: string) {
    forall i :: 0 <= i < |s| ==> IsDigit(s[i])
  }

  /** Python's `s.isdigit()` (restricted to the ASCII digits). */
  predicate IsDigits(s: string) {
    |s| > 0 && AllDigits(s)
  }

  function DigitChar(d: nat): (c: char)
    requires d < 10
    ensures IsDigit(c)
  {
    ('0' as int + d) as char
  }

  /** The number a string of decimal digits denotes (leading zeros allowed). */
  function DigitsValue(s: string): nat
    requires AllDigits(s)
  {
    if s == [] then 0
    else DigitsValue(s[..|s| - 1]) * 10 + ((s[|s| - 1] as int) - ('0' as int))
  }

  /** `str(n)` for a natural number: digits only, no leading zero, and it denotes `n`. */
  function NatToString(n: nat): string
  {
    if n < 10 then [DigitChar(n)] else NatToString(n / 10) + [DigitChar(n % 10)]
  }

  /** The digits denote `n`, with no leading zero. */
  lemma {:induction false} NatToStringValue(n: nat)
    ensures IsDigits(NatToString(n))
    ensures DigitsValue(NatToString(n)) == n
    ensures |NatToString(n)| > 1 ==> NatToString(n)[0] != '0'
  {
    if n >= 10 {
      var s := NatToString(n);
      assert s[..|s| - 1] == NatToString(n / 10);
      NatToStringValue(n / 10);
    }
  }

  function Zeros(k: nat): (z: string)
    ensures |z| == k && AllDigits(z)
  {
    if k == 0 then [] else Zeros(k - 1) + ['0']
  }

  /** Leading zeros do not change the value of a digit string. */
  lemma {:induction false} DigitsValueAllZeros(k: nat)
    ensures DigitsValue(Zeros(k)) == 0
  {
    if k > 0 {
      assert Zeros(k)[..k - 1] == Zeros(k - 1);
      DigitsValueAllZeros(k - 1);
    }
  }

  /** Leading zeros do not change the value of a digit string. */
  lemma {:induction false} DigitsValueZeros(k: nat, s: string)
    requires AllDigits(s)
    ensures AllDigits(Zeros(k) + s)
    ensures DigitsValue(Zeros(k) + s) == DigitsValue(s)
  {
    var t := Zeros(k) + s;
    if s == [] {
      assert t == Zeros(k);
      DigitsValueAllZeros(k);
    } else {
      assert t[..|t| - 1] == Zeros(k) + s[..|s| - 1];
      DigitsValueZeros(k, s[..|s| - 1]);
    }
  }

  /** Left-pad with '0' to at least `width` characters. */
  function ZeroPad(s: string, width: nat): (r: string)
    ensures |r| == if |s| >= width then |s| else width
  {
    if |s| >= width then s else Zeros(width - |s|) + s
  }

  /** Padding puts zeros in front and keeps `s` as the tail. */
  lemma ZeroPadZeros(s: string, width: nat)
    ensures ZeroPad(s, width) == Zeros(|ZeroPad(s, width)| - |s|) + s
  {
    if |s| >= width {
      assert Zeros(0) + s == s;
    }
  }

  /** Zero-padding a digit string keeps it a digit string with the same value. */
  lemma ZeroPadDigits(s: string, width: nat)
    requires IsDigits(s)
    ensures IsDigits(ZeroPad(s, width))
    ensures DigitsValue(ZeroPad(s, width)) == DigitsValue(s)
  {
    ZeroPadZeros(s, width);
    DigitsValueZeros(|ZeroPad(s, width)| - |s|, s);
  }

  // ---------------------------------------------------------------- int <-> text

  /** `str(i)` / `f"{i}"` for an integer. */
  function IntToString(i: int): string
  {
    if i < 0 then "-" + NatToString(-i) else NatToString(i)
  }

  /** `f"{i:0{width}d}"`: the sign first, then zeros up to `width` characters in all. */
  function FormatInt(i: int, width: nat): (s: string)
    ensures |s| >= width
  {
    if i < 0 then "-" + ZeroPad(NatToString(Abs(i)), SignedWidth(width))
    else ZeroPad(NatToString(i), width)
  }

  /** `abs(i)`. */
  function Abs(i: int): nat
  {
    if i < 0 then -i else i
  }

  /** The width left for the digits once a sign takes one character of `width`. */
  function SignedWidth(width: nat): nat
  {
    if width > 0 then width - 1 else 0
  }

  /** A number below `10^width` fills exactly `width` digits. */
  lemma FormatIntWidth(n: nat, width: nat)
    requires 0 < width && n < PyNum.Pow10(width)
    ensures IsDigits(FormatInt(n, width)) && |FormatInt(n, width)| == width
  {
    NatToStringLength(n, width);
    NatToStringValue(n);
    ZeroPadDigits(NatToString(n), width);
  }

  lemma {:induction false} NatToStringLength(n: nat, width: nat)
    requires n < PyNum.Pow10(width)
    ensures width > 0 ==> |NatToString(n)| <= width
    decreases width
  {
    if width > 0 && n >= 10 {
      assert n / 10 < PyNum.Pow10(width - 1);
      NatToStringLength(n / 10, width - 1);
    }
  }

  /**
    Python's `int(s)` on text: surrounding whitespace, an optional sign, then
    one or more decimal digits; anything else is `None` (a ValueError).
  */
  function ParseInt(s: string): (r: Option<int>)
    ensures r.Some? ==> Strip(s) != []
  {
    SignedDigits(Strip(s))
  }

  /** An optional sign followed by one or more decimal digits. */
  function SignedDigits(t: string): (r: Option<int>)
    ensures r.Some? ==> t != []
  {
    if |t| > 0 && (t[0] == '+' || t[0] == '-') then
      if IsDigits(t[1..]) then
        var v: int := DigitsValue(t[1..]);
        Some(if t[0] == '-' then -v else v)
      else None
    else if IsDigits(t) then Some(DigitsValue(t))
    else None
  }

  lemma {:induction false} SignedDigitsPlain(t: string)
    requires IsDigits(t)
    ensures SignedDigits(t) == Some(DigitsValue(t) as int)
  {
    assert IsDigit(t[0]);
  }

  lemma {:induction false} SignedDigitsMinus(t: string)
    requires IsDigits(t)
    ensures SignedDigits("-" + t) == Some(-(DigitsValue(t) as int))
  {
    assert ("-" + t)[1..] == t;
  }

  /** `int(t)` on a string of decimal digits. */
  lemma {:induction false} ParseIntDigits(t: string)
    requires IsDigits(t)
    ensures ParseInt(t) == Some(DigitsValue(t) as int)
  {
    SignedDigitsPlain(t);
    StripUnchanged(t);
  }

  /** `int("-" + t)` on a digit string `t` is the negated value of `t`. */
  lemma {:induction false} ParseIntNegative(t: string, i: int)
    requires IsDigits(t) && DigitsValue(t) as int == -i
    ensures ParseInt("-" + t) == Some(i)
  {
    SignedDigitsMinus(t);
    StripUnchanged("-" + t);
  }

  /** The zero-padded digits of `n` are decimal digits denoting `n`. */
  lemma PaddedNatDigits(n: nat, width: nat)
    ensures IsDigits(ZeroPad(NatToString(n), width))
    ensures DigitsValue(ZeroPad(NatToString(n), width)) == n
  {
    NatToStringValue(n);
    ZeroPadDigits(NatToString(n), width);
  }

  /** The zero-padded digits of `n` read back under `int()` as `n`. */
  lemma ParsePaddedNat(n: nat, width: nat)
    ensures ParseInt(ZeroPad(NatToString(n), width)) == Some(n)
  {
    PaddedNatDigits(n, width);
    ParseIntDigits(ZeroPad(NatToString(n), width));
  }

  /** A minus sign before the zero-padded digits of `abs(i)` reads back as `i`. */
  lemma {:induction false} ParsePaddedNegative(i: int, width: nat)
    requires i < 0
    ensures ParseInt("-" + ZeroPad(NatToString(Abs(i)), width)) == Some(i)
  {
    PaddedNatDigits(Abs(i), width);
    ParseIntNegative(ZeroPad(NatToString(Abs(i)), width), i);
  }

  /** `int(f"{i:0{w}d}") == i`: formatting an integer and parsing it back is the identity. */
  lemma {:induction false} ParseFormatInt(i: int, width: nat)
    ensures ParseInt(FormatInt(i, width)) == Some(i)
  {
    if i < 0 {
      ParsePaddedNegative(i, SignedWidth(width));
    } else {
      ParsePaddedNat(i, width);
    }
  }

  /** `int(str(i)) == i`. */
  lemma ParseIntToString(i: int)
    ensures ParseInt(IntToString(i)) == Some(i)
  {
    if i < 0 {
      var n: nat := -i;
      NatToStringValue(n);
      ParseIntNegative(NatToString(n), i);
    } else {
      NatToStringValue(i);
      ParseIntDigits(NatToString(i));
    }
  }

  /** A formatted integer starts with a sign or a digit and holds no ':'. */
  lemma FormatIntText(i: int, width: nat)
    ensures var s := FormatInt(i, width);
      s != [] && !IsSpace(s[0]) && ':' !in s
  {
    if i < 0 {
      var t := ZeroPad(NatToString(Abs(i)), SignedWidth(width));
      PaddedNatDigits(Abs(i), SignedWidth(width));
      DigitsWithout(t, ':');
      assert ("-" + t)[0] == '-';
    } else {
      var t := ZeroPad(NatToString(i), width);
      PaddedNatDigits(i, width);
      DigitsWithout(t, ':');
      assert IsDigit(t[0]);
    }
  }

  /** A string of digits holds no character that is not a digit. */
  lemma DigitsWithout(t: string, c: char)
    requires AllDigits(t) && !IsDigit(c)
    ensures c !in t
  {
  }

  // ---------------------------------------------------------------- float <-> text

  /** The unsigned decimal `ddd`, `ddd.`, `.ddd` or `ddd.ddd` that Python's `float()` reads. */
  function DecimalValue(body: string): (r: Option<real>)
    ensures r.Some? ==> r.value >= 0.0
  {
    if '.' in body then
      var i := IndexOf(body, '.');
      var whole, frac := body[..i], body[i + 1..];
      if AllDigits(whole) && AllDigits(frac) && |whole| + |frac| > 0 then
        Some(DigitsValue(whole) as real + DigitsValue(frac) as real / PyNum.Pow10(|frac|) as real)
      else None
    else if IsDigits(body) then Some(DigitsValue(body) as real)
    else None
  }

  /**
    Python's `float(s)` on plain decimal text: surrounding whitespace, an
    optional sign, then a decimal with or without a point.
  */
  function ParseFloat(s: string): (r: Option<real>)
    ensures r.Some? ==> Strip(s) != []
  {
    SignedDecimal(Strip(s))
  }

  function SignedDecimal(t: string): (r: Option<real>)
    ensures r.Some? ==> t != []
  {
    if |t| > 0 && (t[0] == '+' || t[0] == '-') then
      match DecimalValue(t[1..])
      case Some(v) => Some(if t[0] == '-' then -v else v)
      case None => None
    else DecimalValue(t)
  }

  lemma {:induction false} SignedDecimalDigits(t: string)
    requires IsDigits(t)
    ensures SignedDecimal(t) == Some(DigitsValue(t) as real)
  {
    assert IsDigit(t[0]);
    assert '.' !in t;
  }

  /** `float(t)` on a string of decimal digits reads the number they denote. */
  lemma {:induction false} ParseFloatDigits(t: string)
    requires IsDigits(t)
    ensures ParseFloat(t) == Some(DigitsValue(t) as real)
  {
    SignedDecimalDigits(t);
    StripUnchanged(t);
  }

  /** A zero-padded integer field reads back as the same number under `float()`. */
  lemma ParseFloatFormatInt(n: nat, width: nat)
    ensures ParseFloat(FormatInt(n, width)) == Some(n as real)
  {
    NatToStringValue(n);
    ZeroPadDigits(NatToString(n), width);
    ParseFloatDigits(FormatInt(n, width));
  }

  /**
    `f"{x:0{width}.2f}"`: `x` rounded half-to-even to hundredths, the sign (if
    any) first, then zeros up to `width` characters.
  */
  function FormatFixed2(x: real, width: nat): string
  {
    var c := PyNum.RoundHalfEven(x * 100.0);
    var a := if c < 0 then -c else c;
    if x < 0.0 then "-" + ZeroPad(Fixed2Body(a), if width > 0 then width - 1 else 0)
    else ZeroPad(Fixed2Body(a), width)
  }

  /** A count of hundredths written as whole part, point, two digits. */
  function Fixed2Body(cents: nat): string
  {
    NatToString(cents / 100) + "." + ZeroPad(NatToString(cents % 100), 2)
  }

  /** A point between two digit strings reads as whole part plus fraction. */
  lemma {:induction false} DecimalValuePoint(whole: string, frac: string)
    requires AllDigits(whole) && AllDigits(frac) && |whole| + |frac| > 0
    ensures DecimalValue(whole + "." + frac)
         == Some(DigitsValue(whole) as real + DigitsValue(frac) as real / PyNum.Pow10(|frac|) as real)
  {
    var s := whole + "." + frac;
    assert '.' !in whole;
    IndexOfAfter(whole, frac, '.');
    assert s[..|whole|] == whole;
    assert s[|whole| + 1..] == frac;
  }

  /** The two-digit hundredths field of `Fixed2Body`. */
  lemma {:induction false} TwoDigits(r: nat)
    requires r < 100
    ensures var two := ZeroPad(NatToString(r), 2);
      |two| == 2 && IsDigits(two) && DigitsValue(two) == r
  {
    NatToStringLength(r, 2);
    NatToStringValue(r);
    assert PyNum.Pow10(2) == 100;
    ZeroPadDigits(NatToString(r), 2);
  }

  /** Text without surrounding whitespace is read by `float()` as it stands. */
  lemma {:induction false} ParseFloatUnpadded(s: string)
    requires s != [] && IsDigit(s[0]) && IsDigit(s[|s| - 1])
    ensures ParseFloat(s) == SignedDecimal(s)
  {
    StripUnchanged(s);
  }

  /** `Fixed2Body` padded: whole digits, a point, then exactly two digits. */
  lemma {:induction false} Fixed2Shape(cents: nat, width: nat) returns (whole: string, two: string)
    ensures ZeroPad(Fixed2Body(cents), width) == whole + "." + two
    ensures IsDigits(whole) && DigitsValue(whole) == cents / 100
    ensures IsDigits(two) && |two| == 2 && DigitsValue(two) == cents % 100
  {
    two := ZeroPad(NatToString(cents % 100), 2);
    TwoDigits(cents % 100);
    var body := Fixed2Body(cents);
    var k := |ZeroPad(body, width)| - |body|;
    var z, n := Zeros(k), NatToString(cents / 100);
    whole := z + n;
    ZeroPadZeros(body, width);
    AppendAssoc(z, n + ".", two);
    AppendAssoc(z, n, ".");
    NatToStringValue(cents / 100);
    DigitsValueZeros(k, n);
  }

  lemma AppendAssoc(a: string, b: string, c: string)
    ensures a + (b + c) == (a + b) + c
  {
  }

  /** Whole units plus a fraction of hundredths make up the count of hundredths. */
  lemma CentsValue(whole: nat, frac: nat, scale: nat, cents: nat)
    requires whole == cents / 100 && frac == cents % 100 && scale == 100
    ensures whole as real + frac as real / scale as real == PyNum.Hundredths(cents)
  {
  }

  /** Text of the form digits, point, two digits is read as a count of hundredths. */
  lemma {:induction false} SignedDecimalCents(s: string, whole: string, two: string, cents: nat)
    requires s == whole + "." + two
    requires IsDigits(whole) && DigitsValue(whole) == cents / 100
    requires IsDigits(two) && |two| == 2 && DigitsValue(two) == cents % 100
    ensures s != [] && IsDigit(s[0]) && IsDigit(s[|s| - 1])
    ensures SignedDecimal(s) == Some(PyNum.Hundredths(cents))
  {
    DecimalValuePoint(whole, two);
    assert PyNum.Pow10(|two|) == 100;
    assert s[0] == whole[0] && s[|s| - 1] == two[1];
    CentsValue(DigitsValue(whole), DigitsValue(two), PyNum.Pow10(|two|), cents);
  }

  lemma {:induction false} SignedDecimalFixed2(cents: nat, width: nat, s: string)
    requires s == ZeroPad(Fixed2Body(cents), width)
    ensures s != [] && IsDigit(s[0]) && IsDigit(s[|s| - 1])
    ensures SignedDecimal(s) == Some(PyNum.Hundredths(cents))
  {
    var whole, two := Fixed2Shape(cents, width);
    SignedDecimalCents(s, whole, two, cents);
  }

  /** A padded count of hundredths reads back under `float()` as that many hundredths. */
  lemma {:induction false} ParseFixed2(cents: nat, width: nat, s: string)
    requires s == ZeroPad(Fixed2Body(cents), width)
    ensures ParseFloat(s) == Some(PyNum.Hundredths(cents))
  {
    SignedDecimalFixed2(cents, width, s);
    ParseFloatUnpadded(s);
  }

  /** For `x >= 0` the fixed-point text is the padded count of hundredths. */
  lemma {:induction false} FormatFixed2Cents(x: real, width: nat)
    requires x >= 0.0
    ensures PyNum.RoundHalfEven(x * 100.0) >= 0
    ensures FormatFixed2(x, width) == ZeroPad(Fixed2Body(PyNum.RoundHalfEven(x * 100.0)), width)
  {
  }

  /**
    `float(f"{x:0{w}.2f}")` for `x >= 0` reads back `x` rounded half-to-even
    to hundredths.
  */
  lemma {:induction false} ParseFormatFixed2(x: real, width: nat)
    requires x >= 0.0
    ensures ParseFloat(FormatFixed2(x, width)) == Some(PyNum.Hundredths(PyNum.RoundHalfEven(x * 100.0)))
  {
    FormatFixed2Cents(x, width);
    var cents: nat := PyNum.RoundHalfEven(x * 100.0);
    ParseFixed2(cents, width, FormatFixed2(x, width));
  }
}
