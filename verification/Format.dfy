/** Printing numbers into a bounded buffer (libs/printfmt.c) and reading them back
    (libs/string.c). */
module Format {

  const TWO63 := 0x8000_0000_0000_0000

  // ---------------------------------------------------------------- printing

  function Digit(d: int): (c: char)
    requires 0 <= d < 16
    ensures d < 10 ==> '0' <= c <= '9' && c as int - '0' as int == d
    ensures d >= 10 ==> 'a' <= c <= 'f' && c as int - 'a' as int == d - 10
  {
    "0123456789abcdef"[d]
  }

  /** The bases whose digits printnum can print: in base 1 it ends for 0 only. */
  predicate Ends(num: nat, base: int) {
    1 <= base <= 16 && (base == 1 ==> num == 0)
  }

  /** In base 1 the recursive call is the call itself. */
  lemma BaseOne(num: nat)
    ensures Quot(num, 1) == num && (num >= 1 <==> !Ends(num, 1))
  {
  }

  /** do_div */
  function Quot(num: nat, base: int): (q: nat)
    requires 1 <= base <= 16
    ensures num >= base >= 2 ==> 1 <= q < num
  {
    num / base
  }

  function Rem(num: nat, base: int): (r: nat)
    requires 1 <= base <= 16
    ensures r < base
    ensures num == Quot(num, base) * base + r
  {
    num % base
  }

  function Digits(num: nat, base: int): (s: string)
    requires Ends(num, base)
    ensures |s| >= 1
  {
    if num < base then [Digit(num)] else Digits(Quot(num, base), base) + [Digit(Rem(num, base))]
  }

  function Pad(padc: char, k: int): (s: string)
    ensures |s| == if k < 0 then 0 else k
    ensures forall i :: 0 <= i < |s| ==> s[i] == padc
  {
    if k <= 0 then "" else Pad(padc, k - 1) + [padc]
  }

  lemma SmallRem(num: nat, base: int)
    requires 1 <= base <= 16 && num < base
    ensures Rem(num, base) == num
  {
  }

  /** The number, padded on the left to `width`. */
  function Printed(num: nat, base: int, width: int, padc: char): string
    requires Ends(num, base)
  {
    var s := Digits(num, base);
    Pad(padc, width - |s|) + s
  }

  lemma PadMore(padc: char, k: nat)
    ensures Pad(padc, k + 1) == Pad(padc, k) + [padc] && Pad(padc, 0) == ""
  {
  }

  /** The last digit apart. */
  lemma PrintedStep(num: nat, base: int, width: int, padc: char)
    requires Ends(num, base)
    ensures num >= base ==> Ends(Quot(num, base), base) && Quot(num, base) < num
    ensures var front := if num < base then Pad(padc, if width - 1 > 0 then width - 1 else 0) else Printed(Quot(num, base), base, width - 1, padc);
            Printed(num, base, width, padc) == front + [Digit(Rem(num, base))]
  {
    hide Quot, Rem, Digit, Pad;
    var d := Digit(Rem(num, base));
    if num < base {
      SmallRem(num, base);
      PadNone(padc, width - 1);
    } else {
      var s := Digits(Quot(num, base), base);
      assert Digits(num, base) == s + [d];
      assert Pad(padc, width - 1 - |s|) + (s + [d]) == Pad(padc, width - 1 - |s|) + s + [d];
    }
  }

  lemma PadNone(padc: char, k: int)
    ensures Pad(padc, k) == Pad(padc, if k > 0 then k else 0)
  {
  }

  /** struct sprintbuf with sprintputch. `out` is everything that was put. */
  class SprintBuf {
    const data: array<char>
    const ebuf: nat
    var buf: nat
    var cnt: nat
    ghost var out: string

    ghost predicate Valid()
      reads this, data
    {
      && ebuf < data.Length && cnt == |out|
      && buf == (if |out| < ebuf then |out| else ebuf)
      && data[..buf] == out[..buf]
    }

    constructor (str: array<char>, size: nat)
      requires 1 <= size <= str.Length
      ensures Valid() && data == str && ebuf == size - 1 && out == ""
    {
      data, ebuf, buf, cnt, out := str, size - 1, 0, 0, "";
    }

    method Putch(ch: char)
      requires Valid()
      modifies this, data
      ensures Valid() && out == old(out) + [ch]
      ensures old(buf) <= buf && forall k :: buf <= k < data.Length ==> data[k] == old(data[k])
    {
      cnt := cnt + 1;
      out := out + [ch];
      if buf < ebuf {
        data[buf] := ch;
        buf := buf + 1;
      }
    }

    /** printnum */
    method PrintNum(num: nat, base: int, width: int, padc: char)
      requires Valid() && Ends(num, base)
      modifies this, data
      ensures Valid() && out == old(out) + Printed(num, base, width, padc)
      ensures old(buf) <= buf && forall k :: buf <= k < data.Length ==> data[k] == old(data[k])
      decreases num
    {
      hide Quot, Rem, Digit, Digits, Printed, Pad;
      PrintedStep(num, base, width, padc);
      var result, mod := Quot(num, base), Rem(num, base);
      if num >= base {
        PrintNum(result, base, width - 1, padc);
      } else {
        var w := width - 1;
        ghost var k := 0;
        PadMore(padc, 0);
        while w > 0
          invariant Valid() && out == old(out) + Pad(padc, k) && (w > 0 ==> k == width - 1 - w)
          invariant 0 <= k && (w <= 0 ==> k == if width - 1 > 0 then width - 1 else 0)
          invariant old(buf) <= buf && forall m :: buf <= m < data.Length ==> data[m] == old(data[m])
        {
          PadMore(padc, k);
          Putch(padc);
          k := k + 1;
          w := w - 1;
        }
      }
      Putch(Digit(mod));
    }
  }

  /** vsnprintf; `text` is what vprintfmt puts out. */
  method Vsnprintf(str: array?<char>, size: nat, text: string) returns (cnt: int)
    requires str != null ==> size <= str.Length
    modifies if str == null then {} else {str}
    ensures str == null || size == 0 ==> cnt == -3 && (str != null ==> str[..] == old(str[..]))
    ensures str != null && size > 0 ==>
      var n := if |text| < size then |text| else size - 1;
      cnt == |text| && str[..n] == text[..n] && str[n] == '\0' && forall k :: n < k < str.Length ==> str[k] == old(str[k])
  {
    if str == null || size == 0 {
      return -3;
    }
    var b := new SprintBuf(str, size);
    var i := 0;
    while i < |text|
      invariant b.Valid() && 0 <= i <= |text| && b.out == text[..i]
      invariant b.data == str && b.ebuf == size - 1 && fresh(b)
      invariant forall k :: b.buf <= k < str.Length ==> str[k] == old(str[k])
    {
      b.Putch(text[i]);
      i := i + 1;
    }
    assert text[..i] == text;
    str[b.buf] := '\0';
    cnt := b.cnt;
  }

  // ---------------------------------------------------------------- parsing

  /** A string ends with a null character. */
  function CharAt(s: string, i: nat): char {
    if i < |s| then s[i] else '\0'
  }

  function DigitValue(c: char): int {
    if '0' <= c <= '9' then c as int - '0' as int
    else if 'a' <= c <= 'z' then c as int - 'a' as int + 10
    else if 'A' <= c <= 'Z' then c as int - 'A' as int + 10
    else -1
  }

  /** The digits of every base up to 36 are these characters, small or capital, and no other. */
  lemma DigitSays(c: char)
    ensures '0' <= c <= '9' <==> 0 <= DigitValue(c) < 10
    ensures 'a' <= c <= 'z' || 'A' <= c <= 'Z' <==> 10 <= DigitValue(c)
    ensures DigitValue(c) >= 0 ==> c == "0123456789abcdefghijklmnopqrstuvwxyz"[DigitValue(c)] || c == "0123456789ABCDEFGHIJKLMNOPQRSTUVWXYZ"[DigitValue(c)]
    ensures -1 <= DigitValue(c) < 36
  {
  }

  /** The value kept in a 64-bit signed variable. */
  function Long(x: int): (r: int)
    ensures -TWO63 <= r < TWO63 && (r - x) % (2 * TWO63) == 0
  {
    (x + TWO63) % (2 * TWO63) - TWO63
  }

  /** The digits from `i` on: their value on top of `val`, and where they end. */
  function Scan(s: string, i: nat, base: int, val: int): (int, nat)
    decreases |s| - i
  {
    if i < |s| && 0 <= DigitValue(s[i]) < base then Scan(s, i + 1, base, Long(val * base + DigitValue(s[i]))) else (val, i)
  }

  function SkipBlanks(s: string, i: nat): nat
    decreases |s| - i
  {
    if i < |s| && (s[i] == ' ' || s[i] == '\t') then SkipBlanks(s, i + 1) else i
  }

  /** What strtol computes. */
  function StrtolOf(s: string, base: int): (int, nat) {
    var i := SkipBlanks(s, 0);
    var neg := CharAt(s, i) == '-';
    var j := if CharAt(s, i) == '+' || neg then i + 1 else i;
    var hex := (base == 0 || base == 16) && CharAt(s, j) == '0' && CharAt(s, j + 1) == 'x';
    var k := if hex then j + 2 else if base == 0 && CharAt(s, j) == '0' then j + 1 else j;
    var b := if hex then 16 else if base == 0 && CharAt(s, j) == '0' then 8 else if base == 0 then 10 else base;
    var r := Scan(s, k, b, 0);
    (if neg then Long(-r.0) else r.0, r.1)
  }

  /** The digit loop of strtol. */
  method ReadDigits(str: string, start: nat, base: int) returns (s: nat, val: int)
    requires '\0' !in str
    ensures (val, s) == Scan(str, start, base, 0)
  {
    hide Long;
    s, val := start, 0;
    while true
      invariant start <= s && Scan(str, s, base, val) == Scan(str, start, base, 0)
      decreases |str| - s
    {
      var c := CharAt(str, s);
      var dig;
      if '0' <= c <= '9' {
        dig := c as int - '0' as int;
      } else if 'a' <= c <= 'z' {
        dig := c as int - 'a' as int + 10;
      } else if 'A' <= c <= 'Z' {
        dig := c as int - 'A' as int + 10;
      } else {
        break;
      }
      if dig >= base {
        break;
      }
      s, val := s + 1, Long(val * base + dig);
    }
  }

  method Strtol(str: string, base0: int) returns (r: int, end: nat)
    requires '\0' !in str
    ensures (r, end) == StrtolOf(str, base0)
  {
    hide Long, Scan;
    var neg, base, s, val := false, base0, 0, 0;
    while CharAt(str, s) == ' ' || CharAt(str, s) == '\t'
      invariant 0 <= s <= |str| && SkipBlanks(str, s) == SkipBlanks(str, 0)
      decreases |str| - s
    {
      s := s + 1;
    }
    if CharAt(str, s) == '+' {
      s := s + 1;
    } else if CharAt(str, s) == '-' {
      s, neg := s + 1, true;
    }
    if (base == 0 || base == 16) && CharAt(str, s) == '0' && CharAt(str, s + 1) == 'x' {
      s, base := s + 2, 16;
    } else if base == 0 && CharAt(str, s) == '0' {
      s, base := s + 1, 8;
    } else if base == 0 {
      base := 10;
    }
    end, val := ReadDigits(str, s, base);
    r := if neg then Long(-val) else val;
  }

  // ---------------------------------------------------------------- there and back

  lemma DigitValues(d: int)
    requires 0 <= d < 16
    ensures DigitValue(Digit(d)) == d && Digit(d) != ' ' && Digit(d) != '\t' && Digit(d) != '+' && Digit(d) != '-' && Digit(d) != 'x'
  {
  }

  /** One more digit at the end. */
  lemma {:induction false} ScanMore(s: string, c: char, i: nat, base: int, val: int, v: int)
    requires i <= |s| && Scan(s, i, base, val) == (v, |s|) && 0 <= DigitValue(c) < base
    ensures Scan(s + [c], i, base, val) == (Long(v * base + DigitValue(c)), |s| + 1)
    decreases |s| - i
  {
    var t := s + [c];
    if i < |s| {
      assert t[i] == s[i];
      ScanMore(s, c, i + 1, base, Long(val * base + DigitValue(s[i])), v);
    } else {
      assert t[i] == c;
      assert Scan(t, i + 1, base, Long(val * base + DigitValue(c))) == (Long(val * base + DigitValue(c)), i + 1);
    }
  }

  lemma LongSmall(x: int)
    requires 0 <= x < TWO63
    ensures Long(x) == x
  {
  }

  lemma QuotTimes(n: nat, base: int)
    requires 2 <= base <= 16 && n < TWO63
    ensures Long(Quot(n, base) * base + Rem(n, base)) == n && Long(0 * base + n) == n
  {
    hide Long, Quot, Rem;
    LongSmall(n);
  }

  /** Reading the digits of `n` behind `pre`, itself read as nothing or as zeros. */
  lemma {:induction false} ScanDigits(pre: string, i: nat, n: nat, base: int)
    requires 2 <= base <= 16 && n < TWO63 && i <= |pre| && Scan(pre, i, base, 0) == (0, |pre|)
    ensures Scan(pre + Digits(n, base), i, base, 0) == (n, |pre| + |Digits(n, base)|)
    decreases n
  {
    hide Long, Quot, Rem, Digit, DigitValue, Scan;
    QuotTimes(n, base);
    if n < base {
      DigitValues(n);
      ScanMore(pre, Digit(n), i, base, 0, 0);
    } else {
      var q, r := Quot(n, base), Rem(n, base);
      ScanDigits(pre, i, q, base);
      DigitValues(r);
      ScanMore(pre + Digits(q, base), Digit(r), i, base, 0, q);
      assert pre + Digits(n, base) == pre + Digits(q, base) + [Digit(r)];
    }
  }

  lemma {:induction false} ScanZeros(k: int, base: int)
    requires 2 <= base <= 16
    ensures Scan(Pad('0', k), 0, base, 0) == (0, |Pad('0', k)|)
  {
    if k > 0 {
      ScanZeros(k - 1, base);
      ScanMore(Pad('0', k - 1), '0', 0, base, 0, 0);
    }
  }

  lemma {:induction false} SkipPad(s: string, i: nat, k: nat)
    requires i <= k < |s| && (forall j :: i <= j < k ==> s[j] == ' ' || s[j] == '\t') && s[k] != ' ' && s[k] != '\t'
    ensures SkipBlanks(s, i) == k
    decreases k - i
  {
    if i < k { SkipPad(s, i + 1, k); }
  }

  lemma {:induction false} DigitsAreDigits(n: nat, base: int, i: nat)
    requires 2 <= base <= 16 && i < |Digits(n, base)|
    ensures var c := Digits(n, base)[i]; c != ' ' && c != '\t' && c != '+' && c != '-' && c != 'x'
    decreases n
  {
    hide Quot, Rem, Digit;
    if n >= base {
      DigitValues(Rem(n, base));
      if i < |Digits(Quot(n, base), base)| { DigitsAreDigits(Quot(n, base), base, i); }
    } else {
      DigitValues(n);
    }
  }

  /** Neither a sign nor a base prefix stands before the digits at `start`. */
  lemma PlainNumber(t: string, start: nat, base: int)
    requires start < |t| && 2 <= base <= 16 && (forall j :: 0 <= j < start ==> t[j] == ' ')
    requires t[start] != ' ' && t[start] != '\t' && t[start] != '+' && t[start] != '-'
    requires start + 1 < |t| ==> t[start + 1] != 'x'
    ensures StrtolOf(t, base) == Scan(t, start, base, 0)
  {
    SkipPad(t, 0, start);
  }

  lemma AfterPad(pre: string, s: string, n: nat, base: int)
    requires 2 <= base <= 16 && s == Digits(n, base)
    ensures forall i :: |pre| <= i < |pre + s| ==> var c := (pre + s)[i]; c != ' ' && c != '\t' && c != '+' && c != '-' && c != 'x'
  {
    forall i | |pre| <= i < |pre + s| ensures var c := (pre + s)[i]; c != ' ' && c != '\t' && c != '+' && c != '-' && c != 'x' {
      DigitsAreDigits(n, base, i - |pre|);
      assert (pre + s)[i] == s[i - |pre|];
    }
  }

  /** strtol reads back what printnum printed, to the end, in any base and field. */
  lemma PrintThenParse(n: nat, base: int, width: int, padc: char)
    requires n < TWO63 && 2 <= base <= 16 && (padc == '0' || padc == ' ')
    ensures StrtolOf(Printed(n, base, width, padc), base) == (n, |Printed(n, base, width, padc)|)
  {
    hide StrtolOf, Scan, Digits, Digit, Long, Pad;
    var s := Digits(n, base);
    var pre := Pad(padc, width - |s|);
    var t := pre + s;
    AfterPad(pre, s, n, base);
    var start := if padc == ' ' then |pre| else 0;
    PlainNumber(t, start, base);
    if padc == '0' {
      ScanZeros(width - |s|, base);
    } else {
      ScanNothing(pre, base);
    }
    ScanDigits(pre, start, n, base);
  }

  lemma ScanNothing(pre: string, base: int)
    ensures Scan(pre, |pre|, base, 0) == (0, |pre|)
  {
  }

  /** The field is as wide as asked for, or as the number needs. */
  lemma PrintedWidth(n: nat, base: int, width: int, padc: char)
    requires 2 <= base <= 16
    ensures |Printed(n, base, width, padc)| == if width > |Digits(n, base)| then width else |Digits(n, base)|
  {
  }

  // ---------------------------------------------------------------- signs and prefixes

  lemma {:induction false} FirstDigit(n: nat, base: int)
    requires 2 <= base <= 16
    ensures Digits(n, base)[0] == '0' <==> n == 0
    ensures var c := Digits(n, base)[0]; c != ' ' && c != '\t' && c != '+' && c != '-' && c != 'x' && 0 <= DigitValue(c) < base
    decreases n
  {
    if n >= base {
      FirstDigit(Quot(n, base), base);
    } else {
      DigitValues(n);
    }
  }

  /** Reading stops at what is no digit of the base. */
  lemma {:induction false} ScanStops(s: string, rest: string, i: nat, base: int, val: int)
    requires i <= |s| && Scan(s, i, base, val).1 == |s| && (rest == "" || !(0 <= DigitValue(rest[0]) < base))
    ensures Scan(s + rest, i, base, val) == Scan(s, i, base, val)
    decreases |s| - i
  {
    if i < |s| {
      assert (s + rest)[i] == s[i];
      ScanStops(s, rest, i + 1, base, Long(val * base + DigitValue(s[i])));
    } else if rest != "" {
      assert (s + rest)[i] == rest[0];
    }
  }

  predicate Blank(s: string) {
    forall i :: 0 <= i < |s| ==> s[i] == ' ' || s[i] == '\t'
  }

  datatype Sign = NoSign | Plus | Minus {
    function Text(): (s: string)
      ensures |s| <= 1
    {
      match this
      case NoSign => ""
      case Plus => "+"
      case Minus => "-"
    }
  }

  datatype Prefix = Hex | Octal | Plain {
    function Text(): (s: string)
      ensures |s| <= 2
    {
      match this
      case Hex => "0x"
      case Octal => "0"
      case Plain => ""
    }
  }

  /** The ways strtol lets the base be said: base 16 by 0x, where it is asked for or left open;
      octal by 0 and decimal by nothing, where it is left open; the base asked for by nothing. */
  predicate Says(prefix: Prefix, base: int, b: int) {
    match prefix
    case Hex => b == 16 && (base == 0 || base == 16)
    case Octal => b == 8 && base == 0
    case Plain => if base == 0 then b == 10 else b == base
  }

  /** What strtol makes of the first three characters it looks at. */
  lemma StrtolByChars(s: string, base: int, i: nat, sign: Sign, prefix: Prefix, b: int)
    requires SkipBlanks(s, 0) == i && Says(prefix, base, b) && base >= 0
    requires CharAt(s, i) == '-' <==> sign == Minus
    requires CharAt(s, i) == '+' <==> sign == Plus
    requires var j := i + |sign.Text()|;
             match prefix
             case Hex => CharAt(s, j) == '0' && CharAt(s, j + 1) == 'x'
             case Octal => CharAt(s, j) == '0' && CharAt(s, j + 1) != 'x'
             case Plain => (base == 0 ==> CharAt(s, j) != '0') && (base == 16 ==> !(CharAt(s, j) == '0' && CharAt(s, j + 1) == 'x'))
    ensures var r := Scan(s, i + |sign.Text()| + |prefix.Text()|, b, 0);
            StrtolOf(s, base) == (if sign == Minus then Long(-r.0) else r.0, r.1)
  {
    hide Long, Scan, CharAt, SkipBlanks;
    match sign
    case NoSign =>
    case Plus =>
    case Minus =>
  }

  /** Where the digits begin and in which base they are read. */
  lemma Prefixes(s: string, i: nat, sign: Sign, prefix: Prefix, base: int, b: int, n: nat, rest: string)
    requires 2 <= b <= 16 && Says(prefix, base, b)
    requires i <= |s| && s[i..] == sign.Text() + prefix.Text() + Digits(n, b) + rest && SkipBlanks(s, 0) == i
    requires rest == "" || !(0 <= DigitValue(rest[0]) < b)
    requires prefix == Plain && n == 0 && rest != "" ==> rest[0] != 'x'
    requires prefix == Plain && base == 0 ==> n > 0
    ensures var r := Scan(s, i + |sign.Text()| + |prefix.Text()|, b, 0);
            StrtolOf(s, base) == (if sign == Minus then Long(-r.0) else r.0, r.1)
  {
    hide Long, Scan, Digits, DigitValue, CharAt, SkipBlanks, StrtolOf;
    FirstDigit(n, b);
    SecondDigit(n, b);
    TextChars(s, i, sign.Text(), prefix.Text(), Digits(n, b), rest);
    assert prefix == Octal ==> CharAt(s, i + |sign.Text()| + 1) == Digits(n, b)[0];
    StrtolByChars(s, base, i, sign, prefix, b);
  }

  /** The characters strtol looks at before the digits. */
  lemma TextChars(s: string, i: nat, sign: string, prefix: string, digits: string, rest: string)
    requires i <= |s| && s[i..] == sign + prefix + digits + rest && |digits| >= 1 && |sign| <= 1 && |prefix| <= 2
    ensures CharAt(s, i) == if sign != "" then sign[0] else if prefix != "" then prefix[0] else digits[0]
    ensures CharAt(s, i + |sign|) == if prefix != "" then prefix[0] else digits[0]
    ensures CharAt(s, i + |sign| + 1) == if |prefix| == 2 then prefix[1] else if |prefix| == 1 then digits[0]
                                         else if |digits| >= 2 then digits[1] else if rest != "" then rest[0] else '\0'
  {
    var u := sign + prefix + digits + rest;
    assert forall m :: 0 <= m < |u| ==> s[i + m] == s[i..][m] == u[m];
  }

  lemma SecondDigit(n: nat, base: int)
    requires 2 <= base <= 16
    ensures |Digits(n, base)| > 1 ==> Digits(n, base)[1] != 'x' && Digits(n, base)[0] != '0'
  {
    FirstDigit(n, base);
    if |Digits(n, base)| > 1 { DigitsAreDigits(n, base, 1); }
  }

  /** strtol reads a number written after any blanks, with any sign and any way of saying its
      base, up to the first character that is no digit of it. */
  lemma WrittenThenParsed(blanks: string, sign: Sign, prefix: Prefix, n: nat, base: int, b: int, rest: string)
    requires Blank(blanks) && 2 <= b <= 16 && Says(prefix, base, b) && n < TWO63
    requires rest == "" || !(0 <= DigitValue(rest[0]) < b)
    requires prefix == Plain && n == 0 && rest != "" ==> rest[0] != 'x'
    requires prefix == Plain && base == 0 ==> n > 0
    ensures var text := blanks + sign.Text() + prefix.Text() + Digits(n, b);
            StrtolOf(text + rest, base) == (if sign == Minus then 0 - n else n, |text|)
  {
    hide Digits, DigitValue, Scan, StrtolOf;
    var head := blanks + sign.Text() + prefix.Text();
    var text := head + Digits(n, b);
    FirstDigit(n, b);
    NoBlank(blanks, sign, prefix, Digits(n, b), rest);
    Prefixes(text + rest, |blanks|, sign, prefix, base, b, n, rest);
    ScanNothing(head, b);
    ScanDigits(head, |head|, n, b);
    ScanStops(text, rest, |head|, b, 0);
    assert Long(0 - n) == 0 - n;
  }

  /** The blanks end where the number begins. */
  lemma NoBlank(blanks: string, sign: Sign, prefix: Prefix, digits: string, rest: string)
    requires Blank(blanks) && |digits| >= 1 && digits[0] != ' ' && digits[0] != '\t'
    ensures var s := blanks + sign.Text() + prefix.Text() + digits + rest;
            && s[|blanks|..] == sign.Text() + prefix.Text() + digits + rest && SkipBlanks(s, 0) == |blanks|
  {
    var u := sign.Text() + prefix.Text() + digits + rest;
    var s := blanks + sign.Text() + prefix.Text() + digits + rest;
    assert s == blanks + u;
    assert s[|blanks|] == u[0] && u[0] != ' ' && u[0] != '\t';
    forall m | 0 <= m < |blanks| ensures s[m] == ' ' || s[m] == '\t' { assert s[m] == blanks[m]; }
    SkipPad(s, 0, |blanks|);
  }

  /** The comment on strtol allows 0X as well; the code reads the 0 and stops. */
  lemma CapitalPrefix()
    ensures StrtolOf("0X10", 16) == (0, 1) && StrtolOf("0x10", 16) == (16, 4)
  {
    assert Scan("0X10", 1, 16, 0) == (0, 1);
    SmallPrefix();
  }

  lemma SmallPrefix()
    ensures StrtolOf("0x10", 16) == (16, 4)
  {
    assert Scan("0x10", 4, 16, 16) == (16, 4);
    assert Scan("0x10", 3, 16, 1) == (16, 4) && Scan("0x10", 2, 16, 0) == (16, 4);
  }
}
