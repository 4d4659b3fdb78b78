/**
  Character-level helpers shared by every rendering in the time tracker:
  decimal digits, zero-padded numbers, the signed integer text written by
  a C++ stream or `Number.toString`, lexicographic string comparison as
  JavaScript's `<` performs it, and splitting a line on a delimiter as
  `std::getline` does.
 */
module Text {

  datatype Option<+T> = None | Some(value: T)

  predicate IsDigit(c: char) {
    '0' <= c <= '9'
  }

  predicate AllDigits(s: string) {
    forall i :: 0 <= i < |s| ==> IsDigit(s[i])
  }

  function DigitChar(d: nat): (c: char)
    requires d < 10
    ensures IsDigit(c)
  {
    ('0' as int + d) as char
  }

  function DigitValue(c: char): (d: nat)
    requires IsDigit(c)
    ensures d < 10
  {
    c as int - '0' as int
  }

  /** The shortest decimal rendering of `n` ("0" for zero). */
  function NatText(n: nat): (s: string)
    ensures |s| >= 1
    ensures AllDigits(s)
    decreases n
  {
    if n < 10 then [DigitChar(n)] else NatText(n / 10) + [DigitChar(n % 10)]
  }

  /** The value of a (possibly empty) string of decimal digits. */
  function DigitsValue(s: string): (n: nat)
    requires AllDigits(s)
    decreases |s|
  {
    if |s| == 0 then 0 else 10 * DigitsValue(s[..|s| - 1]) + DigitValue(s[|s| - 1])
  }

  lemma {:induction false} NatTextRoundTrip(n: nat)
    ensures DigitsValue(NatText(n)) == n
    decreases n
  {
    var s := NatText(n);
    if n >= 10 {
      NatTextRoundTrip(n / 10);
      assert s[..|s| - 1] == NatText(n / 10);
    }
  }

  function Pow10(k: nat): (p: nat)
    ensures p >= 1
  {
    if k == 0 then 1 else 10 * Pow10(k - 1)
  }

  /** `k` copies of '0'. */
  function Zeros(k: nat): (z: string)
    ensures |z| == k
    ensures forall i :: 0 <= i < k ==> z[i] == '0'
  {
    if k == 0 then [] else ['0'] + Zeros(k - 1)
  }

  /** `s` left-filled with '0' up to `width` characters (never truncated). */
  function PadZero(s: string, width: nat): (r: string)
    ensures |r| == if |s| >= width then |s| else width
  {
    if |s| >= width then s else Zeros(width - |s|) + s
  }

  /** Signed decimal rendering, as `<<` on an integer or `Number.toString`. */
  function IntText(n: int): (s: string)
    ensures |s| >= 1
  {
    if n < 0 then "-" + NatText(-n) else NatText(n)
  }

  /** The number `n` written with at least two characters, '0'-filled on the left. */
  function TwoDigits(n: int): string {
    PadZero(IntText(n), 2)
  }

  /** Tens digit then units digit of a number below 100. */
  function Digits2(n: int): (s: string)
    requires 0 <= n < 100
    ensures |s| == 2 && AllDigits(s)
  {
    [DigitChar(n / 10), DigitChar(n % 10)]
  }

  lemma Digits2Value(n: int)
    requires 0 <= n < 100
    ensures DigitValue(Digits2(n)[0]) * 10 + DigitValue(Digits2(n)[1]) == n
    ensures DigitsValue(Digits2(n)) == n
  {
    var s := Digits2(n);
    assert s[..1] == [s[0]];
    assert s[..1][..0] == [];
    assert DigitsValue(s[..1]) == DigitValue(s[0]);
  }

  /** Appending digits shifts the value of the prefix left by their count. */
  lemma {:induction false} DigitsValueAppend(a: string, b: string)
    requires AllDigits(a) && AllDigits(b)
    ensures AllDigits(a + b)
    ensures DigitsValue(a + b) == DigitsValue(a) * Pow10(|b|) + DigitsValue(b)
    decreases |b|
  {
    assert AllDigits(a + b) by {
      forall i | 0 <= i < |a + b| ensures IsDigit((a + b)[i]) {
        if i < |a| { assert (a + b)[i] == a[i]; } else { assert (a + b)[i] == b[i - |a|]; }
      }
    }
    if |b| == 0 {
      assert a + b == a;
    } else {
      var b' := b[..|b| - 1];
      assert (a + b)[..|a + b| - 1] == a + b';
      DigitsValueAppend(a, b');
      var last := b[|b| - 1];
      assert (a + b)[|a + b| - 1] == last;
      assert DigitsValue(b) == 10 * DigitsValue(b') + DigitValue(last);
      assert DigitsValue(a + b) == 10 * DigitsValue(a + b') + DigitValue(last);
      ScaleByTen(DigitsValue(a), Pow10(|b|), Pow10(|b'|));
    }
  }

  /** For 0..99 the '0'-filled text is exactly the tens and the units digit. */
  lemma TwoDigitsSmall(n: int)
    requires 0 <= n < 100
    ensures TwoDigits(n) == Digits2(n)
  {
    if n < 10 {
      var c := DigitChar(n);
      assert IntText(n) == [c];
      assert Zeros(1) == ['0'];
      assert DigitChar(n / 10) == '0';
    } else {
      var hi, lo := DigitChar(n / 10), DigitChar(n % 10);
      assert NatText(n / 10) == [hi];
      assert NatText(n) == [hi, lo];
      assert IntText(n) == [hi, lo];
    }
  }

  /** Strict lexicographic order on strings, as JavaScript's `<` compares them. */
  predicate LexLess(a: string, b: string)
    decreases |a|
  {
    if |b| == 0 then false
    else if |a| == 0 then true
    else if a[0] != b[0] then a[0] < b[0]
    else LexLess(a[1..], b[1..])
  }

  /** On equal-length digit strings, lexicographic order is numeric order. */
  lemma {:induction false} LexLessDigits(a: string, b: string)
    requires |a| == |b| && AllDigits(a) && AllDigits(b)
    ensures LexLess(a, b) <==> DigitsValue(a) < DigitsValue(b)
    decreases |a|
  {
    if |a| > 0 {
      var p := Pow10(|a| - 1);
      var da, db := DigitValue(a[0]), DigitValue(b[0]);
      var ra, rb := DigitsValue(a[1..]), DigitsValue(b[1..]);
      DigitsHead(a);
      DigitsHead(b);
      DigitsBound(a[1..]);
      DigitsBound(b[1..]);
      if a[0] == b[0] {
        LexLessDigits(a[1..], b[1..]);
      } else if da < db {
        LeadingDigitDecides(da, db, ra, rb, p);
      } else {
        LeadingDigitDecides(db, da, rb, ra, p);
      }
    }
  }

  lemma LeadingDigitDecides(da: nat, db: nat, ra: nat, rb: nat, p: nat)
    requires da < db && ra < p && rb < p
    ensures da * p + ra < db * p + rb
  {
    var d: nat := db - da - 1;
    assert db * p == da * p + p + d * p;
  }

  /** Multiplying by a power of ten one step up is ten times the product one step down. */
  lemma ScaleByTen(x: nat, big: nat, small: nat)
    requires big == 10 * small
    ensures x * big == 10 * (x * small)
  {
  }

  lemma {:induction false} DigitsBound(s: string)
    requires AllDigits(s)
    ensures DigitsValue(s) < Pow10(|s|)
    decreases |s|
  {
    if |s| > 0 {
      DigitsBound(s[..|s| - 1]);
    }
  }

  /** Reading the leading digit first gives the same value. */
  lemma {:induction false} DigitsHead(s: string)
    requires |s| > 0 && AllDigits(s)
    ensures DigitsValue(s) == DigitValue(s[0]) * Pow10(|s| - 1) + DigitsValue(s[1..])
    decreases |s|
  {
    if |s| > 1 {
      var init := s[..|s| - 1];
      DigitsHead(init);
      assert init[1..] == s[1..][..|s[1..]| - 1];
      assert init[0] == s[0];
      ScaleByTen(DigitValue(s[0]), Pow10(|s| - 1), Pow10(|s| - 2));
    } else {
      assert s[1..] == [];
    }
  }

  /** The pieces of `s` between occurrences of `sep`, in order. */
  function Split(s: string, sep: char): (parts: seq<string>)
    ensures |parts| >= 1
    ensures forall i :: 0 <= i < |parts| ==> sep !in parts[i]
    decreases |s|
  {
    if |s| == 0 then [""]
    else
      var rest := Split(s[1..], sep);
      if s[0] == sep then [""] + rest
      else [[s[0]] + rest[0]] + rest[1..]
  }

  /** The pieces joined back with `sep` between consecutive ones. */
  function Join(parts: seq<string>, sep: char): string
    decreases |parts|
  {
    if |parts| == 0 then ""
    else if |parts| == 1 then parts[0]
    else parts[0] + [sep] + Join(parts[1..], sep)
  }

  lemma {:induction false} SplitPrefix(a: string, rest: string, sep: char)
    requires sep !in a
    ensures Split(a + [sep] + rest, sep) == [a] + Split(rest, sep)
    decreases |a|
  {
    if |a| == 0 {
      assert (a + [sep] + rest)[1..] == rest;
    } else {
      assert (a + [sep] + rest)[1..] == a[1..] + [sep] + rest;
      SplitPrefix(a[1..], rest, sep);
      assert [a[0]] + a[1..] == a;
    }
  }

  lemma {:induction false} SplitNoSep(a: string, sep: char)
    requires sep !in a
    ensures Split(a, sep) == [a]
    decreases |a|
  {
    if |a| > 0 {
      SplitNoSep(a[1..], sep);
      assert [a[0]] + a[1..] == a;
    }
  }

  /** Splitting undoes joining when no piece contains the separator. */
  lemma {:induction false} SplitJoin(parts: seq<string>, sep: char)
    requires |parts| >= 1
    requires forall i :: 0 <= i < |parts| ==> sep !in parts[i]
    ensures Split(Join(parts, sep), sep) == parts
    decreases |parts|
  {
    if |parts| == 1 {
      SplitNoSep(parts[0], sep);
    } else {
      SplitJoin(parts[1..], sep);
      SplitPrefix(parts[0], Join(parts[1..], sep), sep);
    }
  }

  /** The `i`-th piece, or "" when there are fewer pieces (a failed `getline`). */
  function Piece(parts: seq<string>, i: nat): string {
    if i < |parts| then parts[i] else ""
  }

  predicate IsSpace(c: char) {
    c == ' ' || c == '\t' || c == '\n' || c == '\r' || c == 11 as char || c == 12 as char
  }

  /** Length of the longest all-digit prefix of `s`. */
  function DigitRun(s: string): (k: nat)
    ensures k <= |s| && AllDigits(s[..k])
    ensures k < |s| ==> !IsDigit(s[k])
    decreases |s|
  {
    if |s| > 0 && IsDigit(s[0]) then
      var k := 1 + DigitRun(s[1..]);
      assert s[..k] == [s[0]] + s[1..][..k - 1];
      k
    else 0
  }

  /**
    `std::stringstream(token) >> n` for an integer `n`: leading white space
    is skipped, an optional sign is read, then the longest run of digits;
    with no digit the extraction fails and stores 0.
   */
  function ReadInt(s: string): (n: int)
    decreases |s|
  {
    if |s| > 0 && IsSpace(s[0]) then ReadInt(s[1..])
    else
      var neg := |s| > 0 && s[0] == '-';
      var body := if |s| > 0 && (s[0] == '-' || s[0] == '+') then s[1..] else s;
      var k := DigitRun(body);
      var v: int := DigitsValue(body[..k]);
      if neg then -v else v
  }

  lemma NatTextDigitRun(n: nat)
    ensures DigitRun(NatText(n)) == |NatText(n)|
  {
    var s := NatText(n);
    DigitRunAll(s);
  }

  lemma {:induction false} DigitRunAll(s: string)
    requires AllDigits(s)
    ensures DigitRun(s) == |s|
    decreases |s|
  {
    if |s| > 0 {
      DigitRunAll(s[1..]);
    }
  }

  /** Reading back the text of any integer yields that integer. */
  lemma ReadIntText(n: int)
    ensures ReadInt(IntText(n)) == n
  {
    var m := if n < 0 then -n else n;
    var digits := NatText(m);
    NatTextDigitRun(m);
    NatTextRoundTrip(m);
    assert digits[..|digits|] == digits;
    if n < 0 {
      assert IntText(n)[1..] == digits;
    }
  }
}
