/**
 Numbers as text: printnum of lab8/libs/printfmt.c and strtol of lab8/libs/string.c. Strings are given without
 their terminating NUL, which is what is read at their end.
 */
module NumText {
  import opened Powers

  const HEX := "0123456789abcdef"

  // ---------- printing ----------

  function Digits(num: nat, base: nat): (s: string)
    requires 2 <= base <= 16
    ensures |s| >= 1
    decreases num
  {
    (if num >= base then Smaller(num, base); Digits(num / base, base) else []) + [HEX[num % base]]
  }

  lemma Smaller(num: nat, base: nat)
    requires 2 <= base <= num
    ensures 1 <= num / base < num
  {
    DivMod(num, base);
    Quotient(num, base, num / base, num % base);
  }

  lemma Quotient(num: nat, base: nat, q: nat, r: nat)
    requires 2 <= base <= num && num == q * base + r && r < base
    ensures 1 <= q < num
  {
    Scale(q, 2, base);
  }

  lemma DivMod(num: nat, base: nat)
    requires base >= 2
    ensures num == (num / base) * base + num % base && 0 <= num % base < base && num / base >= 0
  {
  }

  lemma DigitsStep(num: nat, base: nat)
    requires 2 <= base <= 16
    ensures num >= base ==> num / base >= 1 && Digits(num, base) == Digits(num / base, base) + [HEX[num % base]]
    ensures num < base ==> num % base == num && Digits(num, base) == [HEX[num]]
  {
    if num >= base {
      Smaller(num, base);
    }
  }

  function Pad(n: int, c: char): (s: string)
    ensures |s| == if n > 0 then n else 0
    ensures forall i :: 0 <= i < |s| ==> s[i] == c
  {
    if n > 0 then [c] + Pad(n - 1, c) else []
  }

  /** At least `width` characters, filled up on the left. */
  function Printed(num: nat, base: nat, width: int, c: char): (s: string)
    requires 2 <= base <= 16
    ensures |s| == if width > |Digits(num, base)| then width else |Digits(num, base)|
  {
    Pad(width - |Digits(num, base)|, c) + Digits(num, base)
  }

  lemma {:induction false} PadSnoc(n: int, c: char)
    requires n > 0
    ensures Pad(n, c) == Pad(n - 1, c) + [c]
    decreases n
  {
    if n > 1 {
      PadSnoc(n - 1, c);
      assert Pad(n, c) == [c] + (Pad(n - 2, c) + [c]) == ([c] + Pad(n - 2, c)) + [c];
    }
  }

  /** Where putch sends its characters. */
  class Sink {
    var out: string

    constructor ()
      ensures out == []
    {
      out := [];
    }

    method Putch(c: char)
      modifies this
      ensures out == old(out) + [c]
    {
      out := out + [c];
    }

    /** printnum, which pads at its innermost call. */
    method PrintNum(num: nat, base: nat, width: int, padc: char)
      requires 2 <= base <= 16
      modifies this
      ensures out == old(out) + Printed(num, base, width, padc)
      decreases num
    {
      hide Digits, Pad;
      DivMod(num, base);
      DigitsStep(num, base);
      var result, mod := num / base, num % base;
      if num >= base {
        Smaller(num, base);
        PrintNum(result, base, width - 1, padc);
      } else {
        PadOut(width, padc);
      }
      Putch(HEX[mod]);
    }

    /** The padding loop of printnum. */
    method PadOut(width: int, padc: char)
      modifies this
      ensures out == old(out) + Pad(width - 1, padc)
    {
      var w := width - 1;
      while w > 0
        invariant w <= width - 1 && (if width >= 1 then w >= 0 else w == width - 1)
        invariant out == old(out) + Pad(width - 1 - w, padc)
        decreases w
      {
        Putch(padc);
        PadSnoc(width - w, padc);
        w := w - 1;
      }
    }
  }

  // ---------- reading ----------

  /** The value of a digit character, or -1. */
  function DigitOf(c: char): (d: int)
    ensures -1 <= d < 36
  {
    if '0' <= c <= '9' then c as int - '0' as int
    else if 'a' <= c <= 'z' then c as int - 'a' as int + 10
    else if 'A' <= c <= 'Z' then c as int - 'A' as int + 10
    else -1
  }

  function Lower(c: char): char {
    if 'A' <= c <= 'Z' then (c as int + 32) as char else c
  }

  const ALPHABET := "0123456789" + "abcdefghijklmnopqrstuvwxyz"

  /** A digit's value is its place in the alphabet of digits, whatever its case. */
  lemma DigitPlace(c: char)
    ensures DigitOf(c) >= 0 <==> Lower(c) in ALPHABET
    ensures DigitOf(c) >= 0 ==> ALPHABET[DigitOf(c)] == Lower(c)
  {
    forall i | 0 <= i < |ALPHABET| && ALPHABET[i] == Lower(c) ensures DigitOf(c) == i {
      Place(c, i);
    }
    if DigitOf(c) >= 0 {
      InAlphabet(c);
    }
  }

  lemma Place(c: char, i: nat)
    requires i < |ALPHABET| && ALPHABET[i] == Lower(c)
    ensures DigitOf(c) == i
  {
    if i < 10 {
      assert "0123456789"[i] == Lower(c);
    } else {
      LetterPlace(c, i - 10);
    }
  }

  lemma LetterPlace(c: char, i: nat)
    requires i < 26 && "abcdefghijklmnopqrstuvwxyz"[i] == Lower(c)
    ensures DigitOf(c) == i + 10
  {
  }

  lemma InAlphabet(c: char)
    requires DigitOf(c) >= 0
    ensures Lower(c) in ALPHABET
  {
    if '0' <= c <= '9' {
      assert Lower(c) in "0123456789";
    }
  }

  predicate IsDigit(c: char, base: int) {
    0 <= DigitOf(c) < base
  }

  predicate IsBlank(c: char) {
    c == ' ' || c == '\t'
  }

  /** The character at position `i`, NUL at the end. */
  function At(s: string, i: nat): char {
    if i < |s| then s[i] else '\0'
  }

  /** The value of a string of digits, without bound. */
  function Value(s: string, base: int): int {
    if s == [] then 0 else Value(s[..|s| - 1], base) * base + DigitOf(s[|s| - 1])
  }

  /** The first position from `i` on that is not blank. */
  function BlankEnd(s: string, i: nat): (e: nat)
    requires i <= |s|
    ensures i <= e <= |s| && !IsBlank(At(s, e))
    ensures forall j :: i <= j < e ==> IsBlank(s[j])
    decreases |s| - i
  {
    if i < |s| && IsBlank(s[i]) then BlankEnd(s, i + 1) else i
  }

  /** The first position from `i` on that is no digit of the base. */
  function DigitEnd(s: string, i: nat, base: int): (e: nat)
    requires i <= |s|
    ensures i <= e <= |s| && !IsDigit(At(s, e), base)
    ensures forall j :: i <= j < e ==> IsDigit(s[j], base)
    decreases |s| - i
  {
    if i < |s| && IsDigit(s[i], base) then DigitEnd(s, i + 1, base) else i
  }

  /** Base and start of the digits after the sign. */
  function Prefix(s: string, i: nat, base: int): (r: (int, nat))
    requires i <= |s|
    ensures i <= r.1 <= |s|
  {
    if (base == 0 || base == 16) && At(s, i) == '0' && At(s, i + 1) == 'x' then (16, i + 2)
    else if base == 0 && At(s, i) == '0' then (8, i + 1)
    else if base == 0 then (10, i)
    else (base, i)
  }

  function SignEnd(s: string, i: nat): (e: nat)
    requires i <= |s|
    ensures i <= e <= |s|
  {
    if At(s, i) == '+' || At(s, i) == '-' then i + 1 else i
  }

  /** strtol: the longest run of digits after blanks, a sign and a base prefix, in 64 bits. */
  method Strtol(s: string, base: int) returns (val: int, end: nat)
    ensures var sign := BlankEnd(s, 0);
            var prefix := Prefix(s, SignEnd(s, sign), base);
            && end == DigitEnd(s, prefix.1, prefix.0)
            && val == Signed64(if At(s, sign) == '-' then -Value(s[prefix.1..end],
                                                                 prefix.0) else Value(s[prefix.1..end], prefix.0))
  {
    hide Signed64, Value, DigitEnd, IsDigit, Prefix;
    var i := 0;
    while i < |s| && (s[i] == ' ' || s[i] == '\t')
      invariant i <= |s| && BlankEnd(s, 0) == BlankEnd(s, i)
    {
      i := i + 1;
    }
    var neg := false;
    if At(s, i) == '+' {
      i := i + 1;
    } else if At(s, i) == '-' {
      i := i + 1;
      neg := true;
    }
    var b;
    b, i := ReadPrefix(s, i, base);
    val, end := ReadDigits(s, i, b);
    if neg {
      NegSigned(Value(s[i..end], b));
      val := Signed64(-val);
    }
  }

  /** The base prefix of strtol. */
  method ReadPrefix(s: string, start: nat, base: int) returns (b: int, i: nat)
    requires start <= |s|
    ensures (b, i) == Prefix(s, start, base)
  {
    b, i := base, start;
    if (b == 0 || b == 16) && At(s, i) == '0' && At(s, i + 1) == 'x' {
      i := i + 2;
      b := 16;
    } else if b == 0 && At(s, i) == '0' {
      i := i + 1;
      b := 8;
    } else if b == 0 {
      b := 10;
    }
  }

  /** One more digit, in 64 bits. */
  function Shifted(val: int, base: int, dig: int): int {
    Signed64(val * base + dig)
  }

  lemma DigitStep(s: string, start: nat, end: nat, base: int)
    requires start <= end < |s| && IsDigit(s[end], base)
    ensures DigitEnd(s, end, base) == DigitEnd(s, end + 1, base)
    ensures Shifted(Signed64(Value(s[start..end], base)), base, DigitOf(s[end]))
         == Signed64(Value(s[start..end + 1], base))
  {
    hide Signed64, Value, DigitOf, IsDigit;
    ValueSnoc(s[start..end], s[end], base);
    assert s[start..end] + [s[end]] == s[start..end + 1];
    StepSigned(Value(s[start..end], base), base, DigitOf(s[end]));
  }

  lemma DigitStop(s: string, end: nat, base: int)
    requires end <= |s| && !IsDigit(At(s, end), base)
    ensures DigitEnd(s, end, base) == end
  {
    hide IsDigit;
  }

  lemma NoValue(s: string, start: nat, base: int)
    requires start <= |s|
    ensures Signed64(Value(s[start..start], base)) == 0
  {
  }

  /** The digit loop of strtol. */
  method ReadDigits(s: string, start: nat, base: int) returns (val: int, end: nat)
    requires start <= |s|
    ensures end == DigitEnd(s, start, base) && val == Signed64(Value(s[start..end], base))
  {
    hide Signed64, Value, DigitOf, DigitEnd, Shifted;
    NoValue(s, start, base);
    NulIsNoDigit();
    val, end := 0, start;
    while true
      invariant start <= end <= |s| && DigitEnd(s, start, base) == DigitEnd(s, end, base)
      invariant val == Signed64(Value(s[start..end], base))
      decreases |s| - end
    {
      var dig := DigitOf(At(s, end));
      if dig < 0 || dig >= base {
        DigitStop(s, end, base);
        break;
      }
      DigitStep(s, start, end, base);
      end := end + 1;
      val := Shifted(val, base, dig);
    }
  }

  lemma NulIsNoDigit()
    ensures DigitOf('\0') == -1
  {
  }

  lemma ValueSnoc(s: string, c: char, base: int)
    ensures Value(s + [c], base) == Value(s, base) * base + DigitOf(c)
  {
    assert (s + [c])[..|s|] == s;
  }

  lemma ValueOne(c: char, base: int)
    ensures Value([c], base) == DigitOf(c)
  {
    assert [c][..0] == [];
  }

  /** Signed64 changes a number by a multiple of 2^64, and any number so changed has the same value. */
  lemma SignedShift(x: int) returns (k: int)
    ensures Signed64(x) == x + 0x1_0000_0000_0000_0000 * k
  {
    k := -((x + 0x8000_0000_0000_0000) / 0x1_0000_0000_0000_0000);
  }

  lemma SignedSame(x: int, k: int)
    ensures Signed64(x + 0x1_0000_0000_0000_0000 * k) == Signed64(x)
  {
    var m := 0x1_0000_0000_0000_0000;
    var y := x + 0x8000_0000_0000_0000;
    assert y == m * (y / m) + y % m;
    assert y + m * k == m * (y / m + k) + y % m;
    RemainderOf(m, y / m + k, y % m);
  }

  lemma RemainderOf(m: int, q: int, r: int)
    requires 0 <= r < m
    ensures (m * q + r) % m == r
  {
    var z := m * q + r;
    var p := z / m;
    assert z == m * p + z % m;
    if p < q {
      Scale(m, p + 1, q);
    } else if p > q {
      Scale(m, q + 1, p);
    }
  }

  lemma StepSigned(x: int, base: int, dig: int)
    ensures Signed64(Signed64(x) * base + dig) == Signed64(x * base + dig)
  {
    hide Signed64;
    var m := 0x1_0000_0000_0000_0000;
    var k := SignedShift(x);
    assert (x + m * k) * base + dig == x * base + dig + m * (k * base);
    SignedSame(x * base + dig, k * base);
  }

  lemma NegSigned(x: int)
    ensures Signed64(-Signed64(x)) == Signed64(-x)
  {
    hide Signed64;
    var k := SignedShift(x);
    SignedSame(-x, -k);
  }

  // ---------- round trip ----------

  lemma HexDigit(d: nat)
    requires d < 16
    ensures DigitOf(HEX[d]) == d && HEX[d] != 'x' && !IsBlank(HEX[d]) && HEX[d] != '+' && HEX[d] != '-'
    ensures ('0' <= HEX[d] <= '9' || 'a' <= HEX[d] <= 'f') && (HEX[d] == '0' <==> d == 0)
  {
  }

  /** Digits of the base, with small letters only. */
  ghost predicate Plain(s: string, base: int) {
    forall i :: 0 <= i < |s| ==> IsDigit(s[i], base) && ('0' <= s[i] <= '9' || 'a' <= s[i] <= 'f')
  }

  /** The digits are digits of the base, and their value is the number. */
  lemma {:induction false} DigitsValue(num: nat, base: nat)
    requires 2 <= base <= 16
    ensures Plain(Digits(num, base), base) && Value(Digits(num, base), base) == num
    decreases num
  {
    hide Digits, Value, DigitOf;
    DivMod(num, base);
    DigitsStep(num, base);
    HexDigit(num % base);
    if num >= base {
      Smaller(num, base);
      DigitsValue(num / base, base);
      ValueSnoc(Digits(num / base, base), HEX[num % base], base);
    } else {
      ValueOne(HEX[num], base);
    }
  }

  /** No leading zero: the digits are the shortest text of the number. */
  lemma {:induction false} NoLeadingZero(num: nat, base: nat)
    requires 2 <= base <= 16 && num > 0
    ensures Digits(num, base)[0] != '0'
    decreases num
  {
    hide Digits;
    DivMod(num, base);
    DigitsStep(num, base);
    HexDigit(num % base);
    if num >= base {
      Smaller(num, base);
      NoLeadingZero(num / base, base);
    }
  }

  lemma {:induction false} ZerosValue(n: int, s: string, base: int)
    requires base >= 2
    ensures Value(Pad(n, '0') + s, base) == Value(s, base)
    decreases |s|, n
  {
    if s == [] {
      assert Pad(n, '0') + s == Pad(n, '0');
      if n > 0 {
        PadSnoc(n, '0');
        ZerosValue(n - 1, [], base);
        assert Pad(n - 1, '0') + [] == Pad(n - 1, '0');
        ValueSnoc(Pad(n - 1, '0'), '0', base);
      }
    } else {
      var front, last := s[..|s| - 1], s[|s| - 1];
      ZerosValue(n, front, base);
      assert Pad(n, '0') + s == (Pad(n, '0') + front) + [last];
      ValueSnoc(Pad(n, '0') + front, last, base);
    }
  }

  /** Where the pieces of a plain string after `n` blanks lie. */
  lemma PlainPieces(s: string, n: nat, base: nat)
    requires 2 <= base <= 16 && n < |s| && (forall i :: 0 <= i < n ==> s[i] == ' ') && Plain(s[n..], base)
    ensures BlankEnd(s, 0) == n && SignEnd(s, n) == n && At(s, n) != '-' && Prefix(s, n, base) == (base, n)
            && DigitEnd(s, n, base) == |s|
  {
    var t := s[n..];
    assert t[0] == s[n];
    assert n + 1 < |s| ==> t[1] == s[n + 1];
    forall i | n <= i < |s| ensures IsDigit(s[i], base) {
      assert t[i - n] == s[i];
    }
    var b, e := BlankEnd(s, 0), DigitEnd(s, n, base);
  }

  lemma SignedKeeps(num: int)
    requires 0 <= num < 0x8000_0000_0000_0000
    ensures Signed64(num) == num
  {
  }

  /** Printing and reading back in the same base: for blanks or zeros as padding and any width, all of the text
      is read, and the value is the number, as a signed number of 64 bits. */
  method PrintThenRead(num: nat, base: nat, width: int, padc: char) returns (text: string, val: int, end: nat)
    requires 2 <= base <= 16 && (padc == ' ' || padc == '0')
    ensures |text| == if width > |Digits(num, base)| then width else |Digits(num, base)|
    ensures end == |text| && val == Signed64(num)
    ensures num < 0x8000_0000_0000_0000 ==> val == num
  {
    hide Signed64, Printed, Value, BlankEnd, DigitEnd, SignEnd, Prefix, At;
    var sink := new Sink();
    sink.PrintNum(num, base, width, padc);
    text := sink.out;
    assert text == Printed(num, base, width, padc);
    ghost var n := PrintedPieces(num, base, width, padc);
    PlainPieces(text, n, base);
    val, end := Strtol(text, base);
    assert text[n..end] == text[n..];
    if num < 0x8000_0000_0000_0000 {
      SignedKeeps(num);
    }
  }

  /** The blanks and the digits of a printed number. */
  lemma PrintedPieces(num: nat, base: nat, width: int, c: char) returns (n: nat)
    requires 2 <= base <= 16 && (c == ' ' || c == '0')
    ensures var s := Printed(num, base, width, c);
            && n < |s| && (forall i :: 0 <= i < n ==> s[i] == ' ')
            && Plain(s[n..], base) && Value(s[n..], base) == num
  {
    hide Value, Digits, Pad;
    var s, digits := Printed(num, base, width, c), Digits(num, base);
    DigitsValue(num, base);
    if c == ' ' {
      n := |s| - |digits|;
      assert s[n..] == digits;
    } else {
      n := 0;
      ZerosValue(width - |digits|, digits, base);
      assert s[n..] == s;
      ZeroIsPlain(base);
    }
  }

  lemma ZeroIsPlain(base: int)
    requires base >= 2
    ensures IsDigit('0', base)
  {
  }

  // ---------- literals ----------

  datatype Radix = Hex | Octal | Decimal {
    function Base(): nat {
      match this case Hex => 16 case Octal => 8 case Decimal => 10
    }

    function Lead(): string {
      match this case Hex => "0x" case Octal => "0" case Decimal => ""
    }
  }

  function UpperChar(c: char): char {
    if 'a' <= c <= 'z' then (c as int - 32) as char else c
  }

  function Upper(s: string): (r: string)
    ensures |r| == |s|
  {
    seq(|s|, i requires 0 <= i < |s| => UpperChar(s[i]))
  }

  predicate IsSign(sign: string) {
    sign == "" || sign == "+" || sign == "-"
  }

  function Shown(num: nat, base: nat, upper: bool): string
    requires 2 <= base <= 16
  {
    if upper then Upper(Digits(num, base)) else Digits(num, base)
  }

  /** A number as in a C program, after blanks and a sign. */
  function Literal(blanks: nat, sign: string, radix: Radix, num: nat, upper: bool): string {
    Pad(blanks, ' ') + sign + (radix.Lead() + Shown(num, radix.Base(), upper))
  }

  /** Digits in either case. */
  ghost predicate Numeral(s: string, base: int) {
    forall i :: 0 <= i < |s| ==>
      IsDigit(s[i], base) && ('0' <= s[i] <= '9' || 'a' <= s[i] <= 'f' || 'A' <= s[i] <= 'F')
  }

  lemma {:induction false} UpperNumeral(s: string, base: int)
    requires Plain(s, base)
    ensures Numeral(Upper(s), base) && Value(Upper(s), base) == Value(s, base)
  {
    if s != [] {
      var front := s[..|s| - 1];
      UpperNumeral(front, base);
      assert Upper(s)[..|s| - 1] == Upper(front);
    }
  }

  lemma SignedAt(s: string, blanks: nat, sign: string, rest: string)
    requires s == Pad(blanks, ' ') + sign + rest && IsSign(sign)
    requires rest != [] && !IsBlank(rest[0]) && rest[0] != '+' && rest[0] != '-'
    ensures BlankEnd(s, 0) == blanks && SignEnd(s, blanks) == blanks + |sign|
    ensures At(s, blanks) == '-' <==> sign == "-"
    ensures s[blanks + |sign|..] == rest
  {
    assert s[blanks] == (sign + rest)[0];
    var e := BlankEnd(s, 0);
  }

  /** What strtol takes as the base and the digits of a literal. */
  lemma HexAt(s: string, i: nat, digits: string, base: int)
    requires i <= |s| && s[i..] == "0x" + digits && (base == 0 || base == 16)
    ensures Prefix(s, i, base) == (16, i + 2) && s[i + 2..] == digits
  {
    var t := s[i..];
    assert t[0] == s[i] && t[1] == s[i + 1] && t[2..] == digits;
  }

  lemma OctalAt(s: string, i: nat, digits: string)
    requires i <= |s| && s[i..] == "0" + digits && digits != [] && digits[0] != 'x'
    ensures Prefix(s, i, 0) == (8, i + 1) && s[i + 1..] == digits
  {
    var t := s[i..];
    assert t[0] == s[i] && t[1] == s[i + 1] && t[1..] == digits;
  }

  /** A lone 0 is taken for the lead of an octal number. */
  lemma DecimalAt(s: string, i: nat)
    requires i < |s| && (s[i] == '0' ==> i + 1 == |s|)
    ensures Prefix(s, i, 0) == if s[i] == '0' then (8, |s|) else (10, i)
  {
  }

  lemma LeadAt(s: string, i: nat, radix: Radix, digits: string, base: int)
    requires i <= |s| && s[i..] == radix.Lead() + digits && digits != [] && digits[0] != 'x'
    requires base == 0 || (base == 16 && radix.Hex?)
    requires radix.Decimal? && digits[0] == '0' ==> |digits| == 1
    ensures var p := Prefix(s, i, base);
            if radix.Decimal? && digits[0] == '0' then p == (8, |s|) else p.0 == radix.Base() && s[p.1..] == digits
  {
    hide Prefix;
    match radix
    case Hex => HexAt(s, i, digits, base);
    case Octal => OctalAt(s, i, digits);
    case Decimal =>
      assert s[i..] == digits;
      DecimalAt(s, i);
  }

  lemma AllDigits(s: string, i: nat, base: int)
    requires i <= |s| && Numeral(s[i..], base)
    ensures DigitEnd(s, i, base) == |s|
  {
    hide IsDigit;
    assert forall j :: i <= j < |s| ==> s[j] == s[i..][j - i];
  }

  /** The text and the digits of a literal. */
  lemma LiteralPieces(blanks: nat, sign: string, radix: Radix, num: nat, upper: bool, base: int)
    requires IsSign(sign) && (base == 0 || (base == 16 && radix.Hex?))
    ensures var s := Literal(blanks, sign, radix, num, upper);
            && BlankEnd(s, 0) == blanks && (At(s, blanks) == '-' <==> sign == "-")
            && var p := Prefix(s, SignEnd(s, blanks), base);
            DigitEnd(s, p.1, p.0) == |s| && Value(s[p.1..], p.0) == num
  {
    hide Value, BlankEnd, DigitEnd, SignEnd, Prefix, At, Digits, Pad, Numeral, IsSign, IsBlank, Shown;
    var shown := Shown(num, radix.Base(), upper);
    ShownDigits(num, radix.Base(), upper);
    var s := Literal(blanks, sign, radix, num, upper);
    LeadStarts(radix, shown);
    SignedAt(s, blanks, sign, radix.Lead() + shown);
    DigitsAt(s, blanks + |sign|, radix, num, shown, base);
  }

  /** The digits of a literal are read to its end. */
  lemma DigitsAt(s: string, i: nat, radix: Radix, num: nat, digits: string, base: int)
    requires i <= |s| && s[i..] == radix.Lead() + digits && digits != [] && digits[0] != 'x'
    requires base == 0 || (base == 16 && radix.Hex?)
    requires Numeral(digits, radix.Base()) && Value(digits, radix.Base()) == num
    requires (digits[0] == '0' <==> num == 0) && (num == 0 ==> |digits| == 1)
    ensures var p := Prefix(s, i, base);
            DigitEnd(s, p.1, p.0) == |s| && Value(s[p.1..], p.0) == num
  {
    hide Value, DigitEnd, Prefix, Numeral;
    LeadAt(s, i, radix, digits, base);
    var p := Prefix(s, i, base);
    NoDigits(p.0);
    assert p.1 == |s| ==> s[p.1..] == [];
    AllDigits(s, p.1, p.0);
  }

  lemma LeadStarts(radix: Radix, digits: string)
    requires digits != [] && Numeral(digits, radix.Base())
    ensures var rest := radix.Lead() + digits;
            rest != [] && !IsBlank(rest[0]) && rest[0] != '+' && rest[0] != '-' && digits[0] != 'x'
  {
    hide IsDigit;
  }

  lemma NoDigits(base: int)
    ensures Value([], base) == 0 && Numeral([], base)
  {
  }

  /** The digits in either case have the number as value, and no leading zero but that of zero. */
  lemma ShownDigits(num: nat, base: nat, upper: bool)
    requires 2 <= base <= 16
    ensures var d := Shown(num, base, upper);
            && d != [] && Numeral(d, base) && Value(d, base) == num
            && (d[0] == '0' <==> num == 0) && (num == 0 ==> |d| == 1)
  {
    hide Value, Digits, Plain, Numeral, Upper;
    DigitsValue(num, base);
    UpperNumeral(Digits(num, base), base);
    PlainNumeral(Digits(num, base), base);
    if num > 0 {
      NoLeadingZero(num, base);
    } else {
      ZeroDigits(base);
    }
  }

  lemma ZeroDigits(base: nat)
    requires 2 <= base <= 16
    ensures Digits(0, base) == "0"
  {
    DigitsStep(0, base);
  }

  lemma PlainNumeral(s: string, base: int)
    requires Plain(s, base)
    ensures Numeral(s, base) && (s != [] ==> (Upper(s)[0] == '0' <==> s[0] == '0'))
  {
    hide IsDigit;
  }

  /** strtol with base 0, or 16 for hexadecimal, reads all of a literal, with its sign and in either case. */
  method ReadLiteral(blanks: nat, sign: string, radix: Radix, num: nat, upper: bool, base: int)
    returns (val: int, end: nat)
    requires IsSign(sign) && (base == 0 || (base == 16 && radix.Hex?))
    ensures end == |Literal(blanks, sign, radix, num, upper)|
    ensures val == Signed64(if sign == "-" then 0 - num else num)
  {
    hide Signed64, Value, BlankEnd, DigitEnd, SignEnd, Prefix, At, Literal;
    LiteralPieces(blanks, sign, radix, num, upper, base);
    var text := Literal(blanks, sign, radix, num, upper);
    val, end := Strtol(text, base);
    ghost var p := Prefix(text, SignEnd(text, blanks), base);
    assert text[p.1..end] == text[p.1..];
  }

  /** But a capital X is no prefix: only the 0 before it is read. */
  lemma CapitalPrefix(s: string, i: nat, base: int)
    requires (base == 0 || base == 16) && i + 1 < |s| && s[i] == '0' && s[i + 1] == 'X'
    ensures var p := Prefix(s, i, base);
            DigitEnd(s, p.1, p.0) == i + 1 && Value(s[p.1..i + 1], p.0) == 0
  {
    if base == 16 {
      assert s[i..i + 1] == ['0'];
      ValueOne('0', 16);
      assert DigitEnd(s, i, 16) == DigitEnd(s, i + 1, 16);
    }
  }
}
