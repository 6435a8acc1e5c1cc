/** Printing and parsing numbers (printnum in lib/printfmt.c, strtol in lib/string.c). */
module Numbers {
  import opened Options

  const LONG_LIMIT := 0x8000_0000

  // ---------------------------------------------------------------- printing

  function DigitChar(d: nat): char
    requires d < 16
  {
    "0123456789abcdef"[d]
  }

  function Pad(c: char, n: int): string { if n <= 0 then "" else seq(n, _ => c) }

  lemma DivFacts(num: nat, base: nat)
    requires 2 <= base
    ensures if num < base then num / base == 0 else num / base < num
    ensures num % base < base && num / base * base + num % base == num
  {}

  /** What printnum puts out. */
  function Printed(num: nat, base: nat, width: int, padc: char): (s: string)
    requires 2 <= base <= 16
    ensures s != ""
    decreases num
  {
    DivFacts(num, base);
    (if num >= base then Printed(num / base, base, width - 1, padc) else Pad(padc, width - 1)) + [DigitChar(num % base)]
  }

  /** printnum, with the characters so far in `out`. */
  method PrintNum(num: nat, base: nat, width: int, padc: char, out: string) returns (more: string)
    requires 2 <= base <= 16
    ensures more == out + Printed(num, base, width, padc)
    decreases num
  {
    hide DigitChar, Pad;
    DivFacts(num, base);
    if num >= base {
      more := PrintNum(num / base, base, width - 1, padc, out);
    } else {
      more := PutPads(width, padc, out);
    }
    more := more + [DigitChar(num % base)];
  }

  /** The padding loop of printnum. */
  method PutPads(width: int, padc: char, out: string) returns (more: string)
    ensures more == out + Pad(padc, width - 1)
  {
    more := out;
    var w := width - 1;
    while w > 0
      invariant w <= width - 1 && (if width > 1 then w >= 0 else w == width - 1) && more == out + Pad(padc, width - 1 - w)
    {
      more := more + [padc];
      w := w - 1;
      assert Pad(padc, width - 1 - w) == Pad(padc, width - 2 - w) + [padc];
    }
    if width <= 1 {
      assert Pad(padc, 0) == "" == Pad(padc, width - 1);
    }
  }

  function Digits(num: nat, base: nat): nat
    requires 2 <= base <= 16
  {
    DivFacts(num, base);
    if num >= base then Digits(num / base, base) + 1 else 1
  }

  // ---------------------------------------------------------------- parsing

  /** The character at i of a C string, which a 0 ends. */
  function CharAt(s: string, i: nat): char { if i < |s| then s[i] else '\0' }

  /** The digit a character stands for, or 36 if none. */
  function DigitOf(c: char): nat {
    if '0' <= c <= '9' then c as nat - '0' as nat
    else if 'a' <= c <= 'z' then c as nat - 'a' as nat + 10
    else if 'A' <= c <= 'Z' then c as nat - 'A' as nat + 10
    else 36
  }

  /** A 32-bit long. */
  function Wrap(x: int): int { (x + LONG_LIMIT) % (2 * LONG_LIMIT) - LONG_LIMIT }

  /** val * base + dig */
  function Shifted(val: int, base: nat, dig: nat): int { Wrap(val * base + dig) }

  predicate IsDigit(c: char, base: nat) { DigitOf(c) < base && DigitOf(c) < 36 }

  function SkipBlanks(s: string, i: nat): (j: nat)
    requires i <= |s|
    ensures i <= j <= |s|
    decreases |s| - i
  {
    if i < |s| && (s[i] == ' ' || s[i] == '\t') then SkipBlanks(s, i + 1) else i
  }

  /** The digit loop: value and end position. */
  function Scan(s: string, i: nat, base: nat, val: int): (int, nat)
    requires i <= |s|
    decreases |s| - i
  {
    if i < |s| && IsDigit(s[i], base) then Scan(s, i + 1, base, Shifted(val, base, DigitOf(s[i]))) else (val, i)
  }

  /** Position and base after an optional base prefix. */
  function Prefix(s: string, i: nat, base: nat): (nat, nat)
    requires i <= |s|
  {
    if (base == 0 || base == 16) && CharAt(s, i) == '0' && CharAt(s, i + 1) == 'x' then (i + 2, 16)
    else if base == 0 && CharAt(s, i) == '0' then (i + 1, 8)
    else if base == 0 then (i, 10)
    else (i, base)
  }

  /** strtol: the value and the end position. */
  function Parsed(s: string, base: nat): (int, nat)
  {
    var i := SkipBlanks(s, 0);
    var neg := CharAt(s, i) == '-';
    var j := if CharAt(s, i) == '+' || neg then i + 1 else i;
    var (k, b) := Prefix(s, j, base);
    var (val, end) := Scan(s, k, b, 0);
    (if neg then Wrap(-val) else val, end)
  }

  method Strtol(s: string, base: nat) returns (val: int, end: nat)
    requires forall i :: 0 <= i < |s| ==> s[i] != '\0'
    ensures (val, end) == Parsed(s, base)
  {
    var i, neg, b := 0, false, base;
    while CharAt(s, i) == ' ' || CharAt(s, i) == '\t'
      invariant i <= |s| && SkipBlanks(s, i) == SkipBlanks(s, 0)
      decreases |s| - i
    {
      i := i + 1;
    }
    if CharAt(s, i) == '+' {
      i := i + 1;
    } else if CharAt(s, i) == '-' {
      i, neg := i + 1, true;
    }
    if (b == 0 || b == 16) && CharAt(s, i) == '0' && CharAt(s, i + 1) == 'x' {
      i, b := i + 2, 16;
    } else if b == 0 && CharAt(s, i) == '0' {
      i, b := i + 1, 8;
    } else if b == 0 {
      b := 10;
    }
    val, end := ScanDigits(s, i, b);
    if neg {
      val := Wrap(-val);
    }
  }

  /** The digit loop of strtol. */
  method ScanDigits(s: string, start: nat, base: nat) returns (val: int, end: nat)
    requires start <= |s| && forall i :: 0 <= i < |s| ==> s[i] != '\0'
    ensures (val, end) == Scan(s, start, base, 0)
  {
    hide Shifted, Wrap, DigitOf, IsDigit;
    var i := start;
    val := 0;
    while true
      invariant start <= i <= |s| && Scan(s, i, base, val) == Scan(s, start, base, 0)
      decreases |s| - i
    {
      if i == |s| { // the terminating 0
        break;
      }
      var dig := Digit(s[i]);
      if dig == None || dig.value >= base {
        ScanStops(s, i, base, val);
        break;
      }
      ScanGoes(s, i, base, val);
      i, val := i + 1, Shifted(val, base, dig.value);
    }
    end := i;
  }

  /** The three ranges of digits. */
  method Digit(c: char) returns (dig: Option<nat>)
    ensures dig == if DigitOf(c) < 36 then Some(DigitOf(c)) else None
  {
    if '0' <= c <= '9' {
      dig := Some(c as nat - '0' as nat);
    } else if 'a' <= c <= 'z' {
      dig := Some(c as nat - 'a' as nat + 10);
    } else if 'A' <= c <= 'Z' {
      dig := Some(c as nat - 'A' as nat + 10);
    } else {
      dig := None;
    }
  }

  lemma ScanStops(s: string, i: nat, base: nat, val: int)
    requires i < |s| && (DigitOf(s[i]) >= base || DigitOf(s[i]) >= 36)
    ensures Scan(s, i, base, val) == (val, i)
  {
    hide DigitOf, Shifted;
  }

  lemma ScanGoes(s: string, i: nat, base: nat, val: int)
    requires i < |s| && DigitOf(s[i]) < base && DigitOf(s[i]) < 36
    ensures Scan(s, i, base, val) == Scan(s, i + 1, base, Shifted(val, base, DigitOf(s[i])))
  {
    hide DigitOf, Shifted;
  }

  // ---------------------------------------------------------------- they undo each other

  ghost predicate AllDigits(s: string, base: nat) {
    forall i :: 0 <= i < |s| ==> DigitOf(s[i]) < base
  }

  /** The number a string of digits stands for. */
  function Value(s: string, base: nat): nat {
    if s == "" then 0 else Value(s[..|s| - 1], base) * base + DigitOf(s[|s| - 1])
  }

  lemma DigitRoundTrip(d: nat)
    requires d < 16
    ensures DigitOf(DigitChar(d)) == d && DigitChar(d) != 'x' && DigitChar(d) !in " \t+-"
  {}

  lemma ValueMore(s: string, base: nat)
    requires s != "" && base >= 1
    ensures Value(s[..|s| - 1], base) <= Value(s, base)
    ensures Value(s, base) == Value(s[..|s| - 1], base) * base + DigitOf(s[|s| - 1])
  {
    hide DigitOf;
    MulGe(Value(s[..|s| - 1], base), base);
  }

  lemma MulGe(x: nat, base: nat)
    requires base >= 1
    ensures x * base >= x
  {}

  lemma {:induction false} ValuePrefix(s: string, base: nat, i: nat)
    requires i <= |s| && base >= 1
    ensures Value(s[..i], base) <= Value(s, base)
  {
    hide DigitOf, Value;
    if i < |s| {
      ValuePrefix(s[..|s| - 1], base, i);
      assert s[..|s| - 1][..i] == s[..i];
      ValueMore(s, base);
    } else {
      assert s[..i] == s;
    }
  }

  lemma {:induction false} ScanValue(s: string, i: nat, base: nat)
    requires i <= |s| && 1 <= base <= 36 && AllDigits(s, base) && Value(s, base) < LONG_LIMIT
    ensures Scan(s, i, base, Value(s[..i], base)) == (Value(s, base), |s|)
    decreases |s| - i
  {
    hide DigitOf, Value;
    if i < |s| {
      assert s[..i + 1][..i] == s[..i];
      ValuePrefix(s, base, i + 1);
      ValueMore(s[..i + 1], base);
      WrapSmall(Value(s[..i + 1], base));
      ScanGoes(s, i, base, Value(s[..i], base));
      ScanValue(s, i + 1, base);
    } else {
      assert s[..i] == s;
    }
  }

  lemma ScanAll(s: string, base: nat)
    requires 1 <= base <= 36 && AllDigits(s, base) && Value(s, base) < LONG_LIMIT
    ensures Scan(s, 0, base, 0) == (Value(s, base), |s|)
  {
    ScanValue(s, 0, base);
    assert s[..0] == "";
    hide DigitOf;
  }

  lemma WrapSmall(x: nat)
    requires x < LONG_LIMIT
    ensures Wrap(x) == x
  {}

  /** The output is the digits, padded on the left to the width. */
  lemma {:induction false} PrintedShape(num: nat, base: nat, width: int, padc: char)
    requires 2 <= base <= 16
    ensures Printed(num, base, width, padc) == Pad(padc, width - Digits(num, base)) + Printed(num, base, 0, padc)
    ensures |Printed(num, base, width, padc)| == if width > Digits(num, base) then width else Digits(num, base)
    decreases num
  {
    hide *;
    DivFacts(num, base);
    PrintedStep(num, base, width, padc);
    PrintedStep(num, base, 0, padc);
    DigitsStep(num, base);
    PadLength(padc, width - Digits(num, base));
    if num >= base {
      PrintedShape(num / base, base, width - 1, padc);
      PrintedShape(num / base, base, -1, padc);
      PadLength(padc, -1 - Digits(num / base, base));
    } else {
      PadLength(padc, -1);
    }
  }

  lemma PadLength(c: char, n: int)
    ensures |Pad(c, n)| == if n > 0 then n else 0
  {}

  lemma DigitsStep(num: nat, base: nat)
    requires 2 <= base <= 16
    ensures Digits(num, base) == if num >= base then Digits(num / base, base) + 1 else 1
  {}

  lemma {:induction false} PrintedValue(num: nat, base: nat, width: int)
    requires 2 <= base <= 16
    ensures AllDigits(Printed(num, base, width, '0'), base) && Value(Printed(num, base, width, '0'), base) == num
    ensures 'x' !in Printed(num, base, width, '0')
    decreases num
  {
    hide *;
    DivFacts(num, base);
    PrintedStep(num, base, width, '0');
    if num >= base {
      PrintedValue(num / base, base, width - 1);
      DigitAppended(Printed(num / base, base, width - 1, '0'), num / base, num % base, base);
    } else {
      ZerosValue(width - 1, base);
      DigitAppended(Pad('0', width - 1), 0, num % base, base);
    }
  }

  lemma PrintedStep(num: nat, base: nat, width: int, padc: char)
    requires 2 <= base <= 16
    ensures Printed(num, base, width, padc) ==
              (if num >= base then Printed(num / base, base, width - 1, padc) else Pad(padc, width - 1)) + [DigitChar(num % base)]
  {}

  lemma DigitAppended(s: string, v: nat, d: nat, base: nat)
    requires d < base <= 16 && AllDigits(s, base) && Value(s, base) == v && 'x' !in s
    ensures var t := s + [DigitChar(d)]; AllDigits(t, base) && Value(t, base) == v * base + d && 'x' !in t
  {
    DigitRoundTrip(d);
    hide DigitOf, DigitChar;
    var t := s + [DigitChar(d)];
    assert t[..|t| - 1] == s && t[|t| - 1] == DigitChar(d);
  }

  lemma {:induction false} ZerosValue(n: int, base: nat)
    ensures Value(Pad('0', n), base) == 0 && 'x' !in Pad('0', n) && (base > 0 ==> AllDigits(Pad('0', n), base))
    decreases n
  {
    if n > 0 {
      assert Pad('0', n)[..n - 1] == Pad('0', n - 1);
      ZerosValue(n - 1, base);
    }
  }

  /** The digits do not depend on the padding. */
  lemma {:induction false} UnpaddedSame(num: nat, base: nat, width: int, padc: char)
    requires 2 <= base <= 16 && width <= 0
    ensures Printed(num, base, width, padc) == Printed(num, base, 0, '0')
    decreases num
  {
    DivFacts(num, base);
    if num >= base {
      UnpaddedSame(num / base, base, width - 1, padc);
      UnpaddedSame(num / base, base, -1, '0');
    }
  }

  lemma {:induction false} ScanShift(p: string, s: string, i: nat, base: nat, val: int)
    requires i <= |s|
    ensures Scan(p + s, |p| + i, base, val) == (Scan(s, i, base, val).0, |p| + Scan(s, i, base, val).1)
    decreases |s| - i
  {
    hide DigitOf, IsDigit, Shifted;
    if i < |s| {
      assert (p + s)[|p| + i] == s[i];
      ScanShift(p, s, i + 1, base, Shifted(val, base, DigitOf(s[i])));
    }
  }

  /** Parsing what was printed gives the number back and consumes everything, for zero or blank padding to any
      width; and the output is as long as the wider of the width and the digits. */
  lemma PrintParse(num: nat, base: nat, width: int, padc: char)
    requires num < LONG_LIMIT && (base == 8 || base == 10 || base == 16) && (padc == '0' || padc == ' ')
    ensures var s := Printed(num, base, width, padc);
            && Parsed(s, base) == (num, |s|)
            && |s| == if width > Digits(num, base) then width else Digits(num, base)
  {
    hide *;
    PrintedShape(num, base, width, padc);
    if padc == '0' {
      PrintedValue(num, base, width);
      ParseDigits(Printed(num, base, width, padc), "", base, num);
      assert "" + Printed(num, base, width, padc) == Printed(num, base, width, padc);
    } else {
      UnpaddedSame(num, base, 0, ' ');
      PrintedValue(num, base, 0);
      ParseDigits(Printed(num, base, 0, '0'), Pad(' ', width - Digits(num, base)), base, num);
    }
  }

  ghost predicate Blanks(p: string) { forall i :: 0 <= i < |p| ==> p[i] == ' ' }

  lemma PadBlanks(n: int)
    ensures Blanks(Pad(' ', n))
  {}

  /** Blanks followed by digits parse to the value of the digits. */
  lemma ParseDigits(t: string, p: string, base: nat, num: nat)
    requires t != "" && AllDigits(t, base) && 'x' !in t && Value(t, base) == num < LONG_LIMIT
    requires (base == 8 || base == 10 || base == 16) && (p == "" || exists n: int :: p == Pad(' ', n))
    ensures Parsed(p + t, base) == (num, |p + t|)
  {
    hide DigitOf, Value, Scan, Pad;
    FirstIsDigit(t, base);
    if p != "" {
      var n: int :| p == Pad(' ', n);
      PadBlanks(n);
    }
    var s := p + t;
    assert s[|p|] == t[0] && CharAt(s, |p| + 1) == CharAt(t, 1);
    SkipPadding(s, |p|, 0);
    ScanShift(p, t, 0, base, 0);
    ScanAll(t, base);
  }

  lemma {:induction false} SkipPadding(s: string, n: nat, i: nat)
    requires i <= n < |s| && Blanks(s[..n]) && s[n] !in " \t"
    ensures SkipBlanks(s, i) == n
    decreases n - i
  {
    if i < n {
      assert s[i] == s[..n][i] == ' ';
      SkipPadding(s, n, i + 1);
    }
  }

  lemma FirstIsDigit(s: string, base: nat)
    requires s != "" && AllDigits(s, base) && base <= 16 && 'x' !in s
    ensures s[0] !in " \t+-" && CharAt(s, 1) != 'x'
  {
    assert DigitOf(s[0]) < base;
  }

  // ---------------------------------------------------------------- what strtol accepts

  /** Digits and letters, the letters in either case, and nothing else (in ASCII). */
  lemma DigitTable(k: nat, c: char)
    ensures k < 10 ==> DigitOf((0x30 + k) as char) == k
    ensures k < 26 ==> DigitOf((0x61 + k) as char) == DigitOf((0x41 + k) as char) == 10 + k
    ensures DigitOf(c) < 36 ==> 0x30 <= c as int <= 0x39 || 0x41 <= c as int <= 0x5A || 0x61 <= c as int <= 0x7A
  {
    if k < 26 {
      assert 'a' <= (0x61 + k) as char <= 'z' && 'A' <= (0x41 + k) as char <= 'Z';
    }
  }

  /** printnum puts out padding and lower-case digits only. */
  lemma {:induction false} PrintedChars(num: nat, base: nat, width: int, padc: char)
    requires 2 <= base <= 16
    ensures forall c :: c in Printed(num, base, width, padc) ==> c == padc || c in "0123456789abcdef"
    decreases num
  {
    DivFacts(num, base);
    if num >= base {
      PrintedChars(num / base, base, width - 1, padc);
    }
  }

  lemma WrapShift(y: int, k: int)
    ensures Wrap(y + 2 * LONG_LIMIT * k) == Wrap(y)
  {
    var m := 2 * LONG_LIMIT;
    assert (y + LONG_LIMIT + m * k) % m == (y + LONG_LIMIT) % m by { ModShift(y + LONG_LIMIT, m, k); }
  }

  lemma ModShift(x: int, m: nat, k: int)
    requires m > 0
    ensures (x + m * k) % m == x % m
  {
    var q, r := x / m, x % m;
    assert x + m * k == m * (q + k) + r;
    ModUnique(x + m * k, m, q + k, r);
  }

  lemma ModUnique(x: int, m: nat, q: int, r: nat)
    requires r < m && x == m * q + r
    ensures x % m == r
  {
    var q', r' := x / m, x % m;
    assert m * (q - q') == r' - r;
    if q > q' {
      MulAtLeast(m, q - q');
    } else if q < q' {
      MulAtLeast(m, q' - q);
    }
  }

  lemma MulAtLeast(m: nat, k: int)
    requires k >= 1
    ensures m * k >= m
  {}

  /** Wrapping around at every digit comes to wrapping around at the end. */
  lemma WrapDigit(x: int, base: nat, d: nat)
    ensures Shifted(Wrap(x), base, d) == Wrap(x * base + d)
  {
    var q := (x + LONG_LIMIT) / (2 * LONG_LIMIT);
    assert x == Wrap(x) + 2 * LONG_LIMIT * q;
    MulOut(Wrap(x), q, base);
    WrapShift(Wrap(x) * base + d, q * base);
  }

  lemma MulOut(w: int, q: int, base: nat)
    ensures (w + 2 * LONG_LIMIT * q) * base == w * base + 2 * LONG_LIMIT * (q * base)
  {}

  lemma WrapNegated(x: int)
    ensures Wrap(-Wrap(x)) == Wrap(-x)
  {
    var q := (x + LONG_LIMIT) / (2 * LONG_LIMIT);
    assert x == Wrap(x) + 2 * LONG_LIMIT * q;
    WrapShift(-Wrap(x), -q);
  }

  /** The digit loop takes digits up to the first character that is none, and wraps around. */
  lemma {:induction false} ScanRun(s: string, n: nat, i: nat, base: nat)
    requires i <= n <= |s| && 1 <= base <= 36 && AllDigits(s[..n], base) && (n < |s| ==> !IsDigit(s[n], base))
    ensures Scan(s, i, base, Wrap(Value(s[..i], base))) == (Wrap(Value(s[..n], base)), n)
    decreases n - i
  {
    hide DigitOf, Value, Wrap, Shifted;
    if i < n {
      assert s[..n][i] == s[i] && s[..i + 1][..i] == s[..i];
      ValueMore(s[..i + 1], base);
      WrapDigit(Value(s[..i], base), base, DigitOf(s[i]));
      ScanGoes(s, i, base, Wrap(Value(s[..i], base)));
      ScanRun(s, n, i + 1, base);
    }
  }

  lemma ScanNumber(p: string, t: string, rest: string, base: nat)
    requires 1 <= base <= 36 && AllDigits(t, base) && (rest != "" ==> !IsDigit(rest[0], base))
    ensures Scan(p + (t + rest), |p|, base, 0) == (Wrap(Value(t, base)), |p| + |t|)
  {
    hide DigitOf, IsDigit, Scan;
    var s := t + rest;
    assert s[..|t|] == t && s[..0] == "" && (|t| < |s| ==> s[|t|] == rest[0]);
    WrapSmall(0);
    ScanRun(s, |t|, 0, base);
    ScanShift(p, s, 0, base, 0);
  }

  /** How the parts of a numeral fit together: sign, base prefix, digits of that base, and what comes after. */
  ghost predicate Numeral(sign: string, prefix: string, t: string, rest: string, base: nat, b: nat) {
    && (sign == "" || sign == "+" || sign == "-")
    && AllDigits(t, b) && (rest != "" ==> !IsDigit(rest[0], b))
    && (|| (prefix == "0x" && (base == 0 || base == 16) && b == 16)
        || (prefix == "0" && base == 0 && b == 8 && CharAt(t + rest, 0) != 'x')
        || (prefix == "" && base == 0 && b == 10 && CharAt(t + rest, 0) != '0')
        || (prefix == "" && 2 <= base == b <= 36 && !(base == 16 && CharAt(t + rest, 0) == '0' && CharAt(t + rest, 1) == 'x')))
    && (sign == "" ==> CharAt(prefix + (t + rest), 0) !in " \t+-")
  }

  /** strtol, for every way to write a number: blanks and tabs, a sign, a prefix that the base allows, digits, and
      anything that is no digit. The end is just after the digits, and the value is in 32-bit arithmetic. */
  lemma StrtolMeans(p: string, sign: string, prefix: string, t: string, rest: string, base: nat, b: nat)
    requires Numeral(sign, prefix, t, rest, base, b) && forall c :: c in p ==> c == ' ' || c == '\t'
    ensures var s := p + (sign + (prefix + (t + rest)));
            var v: int := Value(t, b);
            && Parsed(s, base) == (Wrap(if sign == "-" then -v else v), |p| + |sign| + |prefix| + |t|)
            && (v < LONG_LIMIT ==> Parsed(s, base).0 == if sign == "-" then -v else v)
  {
    hide DigitOf, Value, Scan, Wrap;
    var tail := prefix + (t + rest);
    var s := p + (sign + tail);
    var v: int := Value(t, b);
    SkipAll(p, sign + tail, 0);
    var head := p + sign + prefix;
    assert head + (t + rest) == s;
    ScanNumber(head, t, rest, b);
    assert forall k: nat :: CharAt(s, |p| + k) == CharAt(sign + tail, k);
    assert forall k: nat :: CharAt(s, |p| + |sign| + k) == CharAt(tail, k);
    assert forall k: nat :: CharAt(tail, |prefix| + k) == CharAt(t + rest, k);
    WrapNegated(v);
    if v < LONG_LIMIT {
      WrapLimits(v);
    }
  }

  lemma WrapLimits(v: int)
    requires 0 <= v < LONG_LIMIT
    ensures Wrap(v) == v && Wrap(-v) == -v
  {}

  lemma {:induction false} SkipAll(p: string, s: string, i: nat)
    requires i <= |p| && (forall c :: c in p ==> c == ' ' || c == '\t') && CharAt(s, 0) !in " \t"
    ensures SkipBlanks(p + s, i) == |p|
    decreases |p| - i
  {
    if i < |p| {
      assert (p + s)[i] == p[i] && p[i] in p;
      SkipAll(p, s, i + 1);
    } else if s != "" {
      assert (p + s)[i] == s[0];
    }
  }
}
