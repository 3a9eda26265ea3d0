/** What rt_vsnprintf would print into a buffer without end.

    The configuration is that of the repository: precision is compiled in, the `0x` prefix and
    64-bit arguments are not.  `fmt` holds the characters in front of the terminating NUL. */
module FormatSpec {
  import opened RtDef

  /** A variable argument: a 32-bit word, a string, or a null string. */
  datatype Arg = Word(w: nat) | Text(s: string) | Null

  datatype Flags = Flags(zeropad: bool, sign: bool, plus: bool, space: bool, left: bool, large: bool)

  const NO_FLAGS: Flags := Flags(false, false, false, false, false, false)

  // ---- digits ----

  function Digit(d: nat, large: bool): char
    requires d < 16
  {
    (if large then "0123456789ABCDEF" else "0123456789abcdef")[d]
  }

  /** divide: any base but 10 counts as 16. */
  function Base(base: nat): (b: nat)
    ensures b == 10 || b == 16
  {
    if base == 10 then 10 else 16
  }

  /** The digits of `n`, last first. */
  function Reversed(n: nat, b: nat, large: bool): string
    requires 2 <= b <= 16
  {
    if n == 0 then "" else [Digit(n % b, large)] + Reversed(n / b, b, large)
  }

  /** The content of `tmp`. */
  function Tmp(n: nat, base: nat, large: bool): string {
    if n == 0 then "0" else Reversed(n, Base(base), large)
  }

  function Flip(s: string): (r: string)
    ensures |r| == |s|
  {
    if s == "" then "" else Flip(s[1..]) + [s[0]]
  }

  function Digits(n: nat, base: nat, large: bool): string {
    Flip(Tmp(n, base, large))
  }

  function Fill(c: char, n: int): (r: string)
    ensures |r| == if n > 0 then n else 0
  {
    if n <= 0 then "" else [c] + Fill(c, n - 1)
  }

  // ---- print_number ----

  function Signed(w: nat): int {
    if w % WORD >= 0x8000_0000 then w % WORD - WORD else w % WORD
  }

  function SignOf(w: nat, f: Flags): string {
    if !f.sign then "" else if Signed(w) < 0 then "-" else if f.plus then "+" else if f.space then " " else ""
  }

  function Magnitude(w: nat, f: Flags): nat {
    if f.sign && Signed(w) < 0 then -Signed(w) else w % WORD
  }

  /** The sign, the digits filled up with zeros to the precision, and the field filled up on one
      side.  With a precision of zero no digit is printed. */
  function Field(sign: string, digits: string, width: int, precision: int, f: Flags): string {
    var most := if |digits| > precision then |digits| else precision;
    var body := Fill('0', most - |digits|) + (if precision == 0 then "" else digits);
    var pad := width - most - |sign|;
    if f.left then sign + body + Fill(' ', pad)
    else if f.zeropad then sign + Fill('0', pad) + body
    else Fill(' ', pad) + sign + body
  }

  /** print_number. */
  function Number(w: nat, base: nat, width: int, precision: int, f: Flags): string {
    Field(SignOf(w, f), Digits(Magnitude(w, f), base, f.large), width, precision, f)
  }

  // ---- the parts of a conversion ----

  function At(fmt: string, i: nat): char {
    if i < |fmt| then fmt[i] else '\0'
  }

  predicate IsDigit(c: char) { '0' <= c <= '9' }

  function DigitValue(c: char): nat
    requires IsDigit(c)
  {
    c as nat - '0' as nat
  }

  /** skip_atoi from position `i` on, with `n` read so far. */
  function SkipAtoi(fmt: string, i: nat, n: nat): (r: (nat, nat))
    ensures i <= r.1 && (i <= |fmt| ==> r.1 <= |fmt|)
    ensures IsDigit(At(fmt, i)) ==> i < r.1
    decreases |fmt| - i
  {
    if i < |fmt| && IsDigit(fmt[i]) then SkipAtoi(fmt, i + 1, n * 10 + DigitValue(fmt[i])) else (n, i)
  }

  /** The flag characters from position `i` on. */
  function GetFlags(fmt: string, i: nat, f: Flags): (r: (Flags, nat))
    ensures i <= r.1 && (i <= |fmt| ==> r.1 <= |fmt|)
    decreases |fmt| - i
  {
    if i >= |fmt| then (f, i)
    else if fmt[i] == '-' then GetFlags(fmt, i + 1, f.(left := true))
    else if fmt[i] == '+' then GetFlags(fmt, i + 1, f.(plus := true))
    else if fmt[i] == ' ' then GetFlags(fmt, i + 1, f.(space := true))
    else if fmt[i] == '#' then GetFlags(fmt, i + 1, f)
    else if fmt[i] == '0' then GetFlags(fmt, i + 1, f.(zeropad := true))
    else (f, i)
  }

  /** The next argument; what a call reads beyond its arguments is not defined, and taken as 0. */
  function FirstArg(args: seq<Arg>): Arg {
    if args == [] then Word(0) else args[0]
  }

  function OtherArgs(args: seq<Arg>): seq<Arg> {
    if args == [] then [] else args[1..]
  }

  /** An argument where a number is expected, and one where a string is. */
  function WordOf(a: Arg): nat {
    if a.Word? then a.w % WORD else 0
  }

  function TextOf(a: Arg): string {
    if a.Text? then a.s else "(NULL)"
  }

  /** A conversion with its position after the conversion character and the arguments after it. */
  datatype Spec = Spec(flags: Flags, width: int, precision: int, qualifier: char, next: nat, args: seq<Arg>)

  function GetWidth(fmt: string, s: Spec): (r: Spec)
    requires s.next <= |fmt|
    ensures s.next <= r.next <= |fmt|
  {
    if IsDigit(At(fmt, s.next)) then
      var (n, i) := SkipAtoi(fmt, s.next, 0);
      s.(width := n, next := i)
    else if At(fmt, s.next) == '*' then
      var w := Signed(WordOf(FirstArg(s.args)));
      s.(width := if w < 0 then -w else w, flags := s.flags.(left := s.flags.left || w < 0), next := s.next + 1, args := OtherArgs(s.args))
    else s
  }

  function GetPrecision(fmt: string, s: Spec): (r: Spec)
    requires s.next <= |fmt|
    ensures s.next <= r.next <= |fmt|
  {
    if At(fmt, s.next) != '.' then s
    else if IsDigit(At(fmt, s.next + 1)) then
      var (n, i) := SkipAtoi(fmt, s.next + 1, 0);
      s.(precision := n, next := i)
    else if At(fmt, s.next + 1) == '*' then
      var p := Signed(WordOf(FirstArg(s.args)));
      s.(precision := if p < 0 then 0 else p, next := s.next + 2, args := OtherArgs(s.args))
    else s.(precision := 0, next := s.next + 1)
  }

  function GetQualifier(fmt: string, s: Spec): (r: Spec)
    requires s.next <= |fmt|
    ensures s.next <= r.next <= |fmt|
  {
    if At(fmt, s.next) == 'h' || At(fmt, s.next) == 'l' then s.(qualifier := fmt[s.next], next := s.next + 1) else s
  }

  /** Everything between a '%' at position `i` and its conversion character. */
  function Parse(fmt: string, i: nat, args: seq<Arg>): (s: Spec)
    requires i < |fmt|
    ensures i < s.next <= |fmt|
  {
    var (f, k) := GetFlags(fmt, i + 1, NO_FLAGS);
    GetQualifier(fmt, GetPrecision(fmt, GetWidth(fmt, Spec(f, -1, -1, '\0', k, args))))
  }

  /** An integer argument as print_number gets it. */
  function Narrow(w: nat, qualifier: char, sign: bool): nat {
    if qualifier != 'h' then w
    else if sign && w % 0x1_0000 >= 0x8000 then WORD - 0x1_0000 + w % 0x1_0000
    else w % 0x1_0000
  }

  function Integer(s: Spec, base: nat, f: Flags): string {
    Number(Narrow(WordOf(FirstArg(s.args)), s.qualifier, f.sign), base, s.width, s.precision, f)
  }

  function Character(s: Spec): string {
    var c := (WordOf(FirstArg(s.args)) % 0x100) as char;
    if s.flags.left then [c] + Fill(' ', s.width - 1) else Fill(' ', s.width - 1) + [c]
  }

  function Str(s: Spec): string {
    var text := TextOf(FirstArg(s.args));
    var shown := if 0 < s.precision < |text| then text[..s.precision] else text;
    if s.flags.left then shown + Fill(' ', s.width - |shown|) else Fill(' ', s.width - |shown|) + shown
  }

  /** Whether a conversion character takes an argument. */
  predicate Takes(c: char) {
    c in "cspoXxdiu"
  }

  /** The text of a conversion. */
  function Convert(c: char, s: Spec): string {
    var f := s.flags;
    if c == 'c' then Character(s)
    else if c == 's' then Str(s)
    else if c == 'p' then
      if s.width == -1 then Number(WordOf(FirstArg(s.args)), 16, 8, s.precision, f.(zeropad := true))
      else Number(WordOf(FirstArg(s.args)), 16, s.width, s.precision, f)
    else if c == '%' then "%"
    else if c == 'o' then Integer(s, 8, f)
    else if c == 'X' then Integer(s, 16, f.(large := true))
    else if c == 'x' then Integer(s, 16, f)
    else if c == 'd' || c == 'i' then Integer(s, 10, f.(sign := true))
    else if c == 'u' then Integer(s, 10, f)
    else if c != '\0' then ['%', c]
    else "%"
  }

  /** The unbounded output from position `i` on. */
  function Output(fmt: string, i: nat, args: seq<Arg>): string
    decreases |fmt| - i
  {
    if i >= |fmt| then ""
    else if fmt[i] != '%' then [fmt[i]] + Output(fmt, i + 1, args)
    else
      var s := Parse(fmt, i, args);
      var c := At(fmt, s.next);
      Convert(c, s) + Output(fmt, s.next + 1, if Takes(c) then OtherArgs(s.args) else s.args)
  }

  // ---- digits mean numbers ----

  function ValueOf(c: char): nat {
    if '0' <= c <= '9' then c as nat - '0' as nat
    else if 'a' <= c <= 'f' then c as nat - 'a' as nat + 10
    else if 'A' <= c <= 'F' then c as nat - 'A' as nat + 10
    else 0
  }

  /** The number that a string of digits stands for. */
  function Value(s: string, b: nat): nat {
    if s == "" then 0 else Value(s[..|s|-1], b) * b + ValueOf(s[|s|-1])
  }

  lemma DigitRight(d: nat, large: bool)
    requires d < 16
    ensures ValueOf(Digit(d, large)) == d && (d < 10 ==> IsDigit(Digit(d, large)))
  {
  }

  lemma {:induction false} ReversedRight(n: nat, b: nat, large: bool)
    requires 2 <= b <= 16
    ensures Value(Flip(Reversed(n, b, large)), b) == n
    ensures b <= 10 ==> forall c :: c in Flip(Reversed(n, b, large)) ==> IsDigit(c)
    ensures n > 0 ==> Reversed(n, b, large) != "" && Flip(Reversed(n, b, large))[0] != '0'
    decreases n
  {
    if n > 0 {
      ReversedRight(n / b, b, large);
      DigitRight(n % b, large);
      var r := Reversed(n, b, large);
      assert r[1..] == Reversed(n / b, b, large);
      var high := Flip(r[1..]);
      assert Flip(r) == high + [r[0]] && Flip(r)[..|r|-1] == high;
      DivMod(n, b);
      if n / b == 0 {
        assert high == "";
      }
    }
  }

  lemma DivMod(n: nat, b: nat)
    requires b > 0
    ensures n / b * b + n % b == n
  {
  }

  /** The printed digits stand for the number, with no leading zero. */
  lemma DigitsRight(n: nat, base: nat, large: bool)
    ensures Value(Digits(n, base, large), Base(base)) == n
    ensures Digits(n, base, large) != "" && (n > 0 ==> Digits(n, base, large)[0] != '0')
    ensures base == 10 ==> forall c :: c in Digits(n, base, large) ==> IsDigit(c)
  {
    ReversedRight(n, Base(base), large);
    if n == 0 {
      assert Flip("0") == "0";
      assert Value("0", Base(base)) == Value("", Base(base)) * Base(base) + 0;
    }
  }

  /** `n` followed by digits, read from the left. */
  function ReadOn(n: nat, s: string): nat
    requires forall c :: c in s ==> IsDigit(c)
    decreases |s|
  {
    if s == "" then n else ReadOn(n * 10 + DigitValue(s[0]), s[1..])
  }

  lemma {:induction false} ReadOnLast(n: nat, s: string, c: char)
    requires (forall d :: d in s ==> IsDigit(d)) && IsDigit(c)
    ensures forall d :: d in s + [c] ==> IsDigit(d)
    ensures ReadOn(n, s + [c]) == ReadOn(n, s) * 10 + DigitValue(c)
    decreases |s|
  {
    if s == "" {
      assert "" + [c] == [c] && [c][1..] == "";
      assert ReadOn(n, [c]) == ReadOn(n * 10 + DigitValue(c), "");
    } else {
      assert (s + [c])[1..] == s[1..] + [c];
      ReadOnLast(n * 10 + DigitValue(s[0]), s[1..], c);
    }
  }

  lemma {:induction false} ReadOnValue(s: string)
    requires forall c :: c in s ==> IsDigit(c)
    ensures ReadOn(0, s) == Value(s, 10)
    decreases |s|
  {
    if s != "" {
      var k := |s| - 1;
      assert s == s[..k] + [s[k]];
      ReadOnValue(s[..k]);
      ReadOnLast(0, s[..k], s[k]);
    }
  }

  lemma {:induction false} SkipReads(fmt: string, i: nat, j: nat, n: nat)
    requires i <= j <= |fmt| && !IsDigit(At(fmt, j)) && forall c :: c in fmt[i..j] ==> IsDigit(c)
    ensures SkipAtoi(fmt, i, n) == (ReadOn(n, fmt[i..j]), j)
    decreases j - i
  {
    if i < j {
      assert fmt[i] in fmt[i..j] && fmt[i..j][1..] == fmt[i+1..j];
      SkipReads(fmt, i + 1, j, n * 10 + DigitValue(fmt[i]));
    }
  }

  /** skip_atoi reads back the digits that print_number emits for a number, wherever they stand. */
  lemma SkipReadsDigits(before: string, n: nat, after: string)
    requires !IsDigit(At(after, 0))
    ensures SkipAtoi(before + Digits(n, 10, false) + after, |before|, 0) == (n, |before| + |Digits(n, 10, false)|)
  {
    var d := Digits(n, 10, false);
    var fmt := before + d + after;
    DigitsRight(n, 10, false);
    assert fmt[|before|..|before| + |d|] == d;
    SkipReads(fmt, |before|, |before| + |d|, 0);
    ReadOnValue(d);
  }

  // ---- fields ----

  /** `out` is the sign and the digits with zeros between them, blanks in front only when the field is
      flush right and not filled with zeros, blanks behind only when it is flush left. */
  ghost predicate LaidOut(out: string, sign: string, digits: string, f: Flags, blanks: nat, zeros: nat, after: nat) {
    && out == Fill(' ', blanks) + sign + Fill('0', zeros) + digits + Fill(' ', after)
    && (blanks > 0 ==> !f.left && !f.zeropad)
    && (after > 0 ==> f.left)
  }

  function Positive(n: int): nat { if n > 0 then n else 0 }

  lemma FillPositive(c: char, n: int)
    ensures Fill(c, n) == Fill(c, Positive(n))
  {
  }

  lemma {:induction false} FillTwice(c: char, m: nat, n: nat)
    ensures Fill(c, m) + Fill(c, n) == Fill(c, m + n)
  {
    if m > 0 {
      FillTwice(c, m - 1, n);
      assert Fill(c, m) + Fill(c, n) == [c] + (Fill(c, m - 1) + Fill(c, n));
    } else {
      assert Fill(c, 0) + Fill(c, n) == Fill(c, n);
    }
  }

  /** Unless the precision is zero, a number is printed in full, after its sign. */
  lemma NumberShape(w: nat, base: nat, width: int, precision: int, f: Flags)
    requires precision != 0
    ensures exists blanks: nat, zeros: nat, after: nat ::
      LaidOut(Number(w, base, width, precision, f), SignOf(w, f), Digits(Magnitude(w, f), base, f.large), f, blanks, zeros, after)
  {
    var sign, digits := SignOf(w, f), Digits(Magnitude(w, f), base, f.large);
    FieldShape(sign, digits, width, precision, f);
    hide LaidOut;
    var blanks: nat, zeros: nat, after: nat :| LaidOut(Field(sign, digits, width, precision, f), sign, digits, f, blanks, zeros, after);
    assert LaidOut(Number(w, base, width, precision, f), sign, digits, f, blanks, zeros, after);
  }

  lemma FieldShape(sign: string, digits: string, width: int, precision: int, f: Flags)
    requires precision != 0
    ensures exists blanks: nat, zeros: nat, after: nat ::
      LaidOut(Field(sign, digits, width, precision, f), sign, digits, f, blanks, zeros, after)
  {
    var most := if |digits| > precision then |digits| else precision;
    var zeros: nat := most - |digits|;
    var pad := Positive(width - most - |sign|);
    FillPositive(' ', width - most - |sign|);
    FillPositive('0', width - most - |sign|);
    FillTwice('0', pad, zeros);
    var z, blanks, none := Fill('0', zeros), Fill(' ', pad), Fill(' ', 0);
    assert none == "";
    hide Fill;
    var out := Field(sign, digits, width, precision, f);
    if f.left {
      FlushLeft(sign, z, digits, blanks);
      assert LaidOut(out, sign, digits, f, 0, zeros, pad);
    } else if f.zeropad {
      Zeroed(sign, Fill('0', pad), z, digits);
      assert LaidOut(out, sign, digits, f, 0, pad + zeros, 0);
    } else {
      FlushRight(sign, z, digits, blanks);
      assert LaidOut(out, sign, digits, f, pad, zeros, 0);
    }
  }

  lemma FlushLeft(sign: string, z: string, digits: string, blanks: string)
    ensures sign + (z + digits) + blanks == "" + sign + z + digits + blanks
  {
  }

  lemma Zeroed(sign: string, fill: string, z: string, digits: string)
    ensures sign + fill + (z + digits) == "" + sign + (fill + z) + digits + ""
  {
  }

  lemma FlushRight(sign: string, z: string, digits: string, blanks: string)
    ensures blanks + sign + (z + digits) == blanks + sign + z + digits + ""
  {
  }

  /** Unless the precision is zero, a number fills its field exactly. */
  lemma NumberWidth(w: nat, base: nat, width: int, precision: int, f: Flags)
    requires precision != 0
    ensures
      var digits := |Digits(Magnitude(w, f), base, f.large)|;
      var natural := |SignOf(w, f)| + if digits > precision then digits else precision;
      |Number(w, base, width, precision, f)| == if width > natural then width else natural
  {
  }

  /** With a precision of zero no digit appears, whatever the number. */
  lemma PrecisionZero(w: nat, base: nat, width: int, f: Flags)
    ensures var out := Number(w, base, width, 0, f);
      forall c :: c in out ==> c in " +-" || (f.zeropad && !f.left && c == '0')
  {
    FillOnly(' ', width);
    var digits := Digits(Magnitude(w, f), base, f.large);
    var pad := width - |digits| - |SignOf(w, f)|;
    FillOnly(' ', pad);
    FillOnly('0', pad);
  }

  /** `digits` stand somewhere in `out`. */
  ghost predicate Shown(out: string, digits: string) {
    exists before, after :: out == before + digits + after
  }

  lemma ShownFirst(out: string, digits: string)
    requires Shown(out, digits) && digits != ""
    ensures digits[0] in out
  {
    var before, after :| out == before + digits + after;
    assert out[|before|] == digits[0];
  }

  lemma {:induction false} ReversedClean(n: nat, b: nat, large: bool)
    requires 2 <= b <= 16
    ensures forall c :: c in Flip(Reversed(n, b, large)) ==> c !in " +-"
    decreases n
  {
    if n > 0 {
      ReversedClean(n / b, b, large);
      var r := Reversed(n, b, large);
      assert r[1..] == Reversed(n / b, b, large);
      assert Flip(r) == Flip(r[1..]) + [Digit(n % b, large)];
    }
  }

  /** The digits of a number other than zero are printed if and only if the precision is not zero. */
  lemma DigitsShown(w: nat, base: nat, width: int, precision: int, f: Flags)
    requires Magnitude(w, f) > 0
    ensures Shown(Number(w, base, width, precision, f), Digits(Magnitude(w, f), base, f.large)) <==> precision != 0
  {
    var out, digits := Number(w, base, width, precision, f), Digits(Magnitude(w, f), base, f.large);
    DigitsRight(Magnitude(w, f), base, f.large);
    ReversedClean(Magnitude(w, f), Base(base), f.large);
    if precision != 0 {
      NumberShape(w, base, width, precision, f);
      var blanks: nat, zeros: nat, rest: nat :| LaidOut(out, SignOf(w, f), digits, f, blanks, zeros, rest);
      assert out == (Fill(' ', blanks) + SignOf(w, f) + Fill('0', zeros)) + digits + Fill(' ', rest);
    } else {
      PrecisionZero(w, base, width, f);
      assert digits[0] in digits;
      if Shown(out, digits) {
        ShownFirst(out, digits);
        assert false;
      }
    }
  }

  lemma {:induction false} FillOnly(c: char, n: int)
    ensures forall x :: x in Fill(c, n) ==> x == c
  {
    if n > 0 {
      FillOnly(c, n - 1);
    }
  }

  lemma PlainNumber(w: nat, f: Flags)
    requires f == NO_FLAGS.(sign := true) && w < 0x8000_0000
    ensures Number(w, 10, -1, -1, f) == Digits(w, 10, false)
  {
    var d := Digits(w, 10, false);
    hide Digits;
    assert SignOf(w, f) == "" && Magnitude(w, f) == w;
    var pad := -1 - |d| - 0;
    assert Fill(' ', pad) == "" && Fill('0', 0) == "";
    assert "" + d == d;
    assert Number(w, 10, -1, -1, f) == Fill(' ', pad) + "" + (Fill('0', 0) + d);
  }

  lemma ParseD(args: seq<Arg>)
    ensures Parse("%d", 0, args) == Spec(NO_FLAGS, -1, -1, '\0', 1, args)
  {
    assert GetFlags("%d", 1, NO_FLAGS) == (NO_FLAGS, 1);
  }

  lemma OutputD(args: seq<Arg>)
    ensures Output("%d", 0, args) == Convert('d', Spec(NO_FLAGS, -1, -1, '\0', 1, args))
  {
    ParseD(args);
    hide Parse, Convert;
    assert Output("%d", 2, OtherArgs(args)) == "";
    var text := Convert('d', Spec(NO_FLAGS, -1, -1, '\0', 1, args));
    assert At("%d", 1) == 'd';
    assert Output("%d", 0, args) == text + "";
  }

  /** "%d" prints a non-negative int so that skip_atoi reads it back. */
  lemma DecimalRoundTrip(v: nat)
    requires v < 0x8000_0000
    ensures Output("%d", 0, [Word(v)]) == Digits(v, 10, false)
    ensures SkipAtoi(Output("%d", 0, [Word(v)]), 0, 0).0 == v
  {
    hide Number, Digits, Output, SkipAtoi;
    OutputD([Word(v)]);
    PlainNumber(v, NO_FLAGS.(sign := true));
    SkipReadsDigits("", v, "");
    assert "" + Digits(v, 10, false) + "" == Digits(v, 10, false);
  }

  // ---- %o ----

  /** What "%o" is documented to print. */
  function Octal(n: nat): string {
    Flip(if n == 0 then "0" else Reversed(n, 8, false))
  }

  lemma {:induction false} LargerBase(s: string)
    ensures Value(s, 16) >= Value(s, 8)
  {
    if s != "" {
      LargerBase(s[..|s|-1]);
    }
  }

  lemma FlipEqual(a: string, b: string)
    requires Flip(a) == Flip(b)
    ensures a == b
    decreases |a|
  {
    if a != "" && b != "" {
      assert Flip(a)[..|a|-1] == Flip(a[1..]) && Flip(b)[..|b|-1] == Flip(b[1..]);
      assert Flip(a)[|a|-1] == a[0] && Flip(b)[|b|-1] == b[0];
      FlipEqual(a[1..], b[1..]);
      assert a == [a[0]] + a[1..] && b == [b[0]] + b[1..];
    }
  }

  /** Because divide knows no other base, "%o" prints hexadecimal digits: they are the octal ones
      exactly when the number is a single octal digit. */
  lemma OctalOnlyBelow8(n: nat)
    ensures Digits(n, 8, false) == Digits(n, 16, false)
    ensures Digits(n, 8, false) == Octal(n) <==> n < 8
  {
    if 0 < n < 8 {
      assert n / 16 == 0 && n / 8 == 0 && n % 16 == n && n % 8 == n;
      assert Reversed(n, 16, false) == [Digit(n, false)] + Reversed(0, 16, false);
      assert Reversed(n, 8, false) == [Digit(n, false)] + Reversed(0, 8, false);
    } else if n >= 8 && Digits(n, 8, false) == Octal(n) {
      var a, b := Reversed(n, 16, false), Reversed(n, 8, false);
      FlipEqual(a, b);
      assert a[1..] == Reversed(n / 16, 16, false) && b[1..] == Reversed(n / 8, 8, false);
      ReversedRight(n / 16, 16, false);
      ReversedRight(n / 8, 8, false);
      LargerBase(Flip(a[1..]));
      assert false;
    }
  }

  /** The number eight. */
  lemma OctalExample()
    ensures Digits(8, 8, false) == "8" && Octal(8) == "10"
  {
    assert Reversed(8, 16, false) == ['8'] + Reversed(0, 16, false);
    assert Reversed(1, 8, false) == ['1'] + Reversed(0, 8, false);
    assert Reversed(8, 8, false) == ['0'] + Reversed(1, 8, false) == "01";
    assert "01"[1..] == "1" && "1"[1..] == "" && Flip("1") == "1";
  }
}

/** kservice.c: the formatter that writes into a bounded buffer. */
module Format {
  import opened FormatSpec
  import opened RtDef

  /** skip_atoi. */
  method SkipAtoiFrom(fmt: string, start: nat) returns (n: nat, i: nat)
    ensures (n, i) == SkipAtoi(fmt, start, 0)
  {
    n, i := 0, start;
    while i < |fmt| && IsDigit(fmt[i])
      invariant SkipAtoi(fmt, i, n) == SkipAtoi(fmt, start, 0)
      decreases |fmt| - i
    {
      n := n * 10 + DigitValue(fmt[i]);
      i := i + 1;
    }
  }

  method ReadFlags(fmt: string, start: nat) returns (f: Flags, i: nat)
    requires start <= |fmt|
    ensures (f, i) == GetFlags(fmt, start, NO_FLAGS)
  {
    f, i := NO_FLAGS, start;
    while i < |fmt| && fmt[i] in "-+ #0"
      invariant i <= |fmt| && GetFlags(fmt, i, f) == GetFlags(fmt, start, NO_FLAGS)
      decreases |fmt| - i
    {
      match fmt[i] {
        case '-' => f := f.(left := true);
        case '+' => f := f.(plus := true);
        case ' ' => f := f.(space := true);
        case '0' => f := f.(zeropad := true);
        case _ =>
      }
      i := i + 1;
    }
  }

  method ReadWidth(fmt: string, s: Spec) returns (r: Spec)
    requires s.next <= |fmt|
    ensures r == GetWidth(fmt, s)
  {
    hide SkipAtoi;
    r := s;
    if IsDigit(At(fmt, s.next)) {
      var n, i := SkipAtoiFrom(fmt, s.next);
      r := r.(width := n, next := i);
    } else if At(fmt, s.next) == '*' {
      var w := Signed(WordOf(FirstArg(s.args)));
      r := r.(next := s.next + 1, args := OtherArgs(s.args), width := w);
      if w < 0 {
        r := r.(width := -w, flags := r.flags.(left := true));
      }
    }
  }

  method ReadPrecision(fmt: string, s: Spec) returns (r: Spec)
    requires s.next <= |fmt|
    ensures r == GetPrecision(fmt, s)
  {
    hide SkipAtoi;
    r := s;
    if At(fmt, s.next) == '.' {
      var precision: int, i: nat, args := -1, s.next + 1, s.args;
      if IsDigit(At(fmt, i)) {
        precision, i := SkipAtoiFrom(fmt, i);
      } else if At(fmt, i) == '*' {
        i := i + 1;
        precision := Signed(WordOf(FirstArg(args)));
        args := OtherArgs(args);
      }
      if precision < 0 {
        precision := 0;
      }
      r := s.(precision := precision, next := i, args := args);
    }
  }

  /** The flags, width, precision and qualifier of the conversion at position `start`. */
  method ReadSpec(fmt: string, start: nat, args: seq<Arg>) returns (s: Spec)
    requires start < |fmt|
    ensures s == Parse(fmt, start, args)
  {
    hide GetFlags, GetWidth, GetPrecision;
    var f, k := ReadFlags(fmt, start + 1);
    s := Spec(f, -1, -1, '\0', k, args);
    s := ReadWidth(fmt, s);
    s := ReadPrecision(fmt, s);
    if At(fmt, s.next) == 'h' || At(fmt, s.next) == 'l' {
      s := s.(qualifier := fmt[s.next], next := s.next + 1);
    }
  }

  /** The digits of a number, last first, as they go into `tmp`. */
  method MakeDigits(num: nat, base: nat, large: bool) returns (tmp: string)
    ensures tmp == Tmp(num, base, large)
  {
    tmp := "";
    if num == 0 {
      tmp := "0";
    } else {
      hide Reversed, Digit;
      var n: nat, b := num, Base(base);
      assert "" + Reversed(n, b, large) == Reversed(n, b, large);
      while n != 0
        invariant tmp + Reversed(n, b, large) == Reversed(num, b, large)
        decreases n
      {
        DigitStep(tmp, n, b, large);
        tmp := tmp + [Digit(n % b, large)];
        n := n / b;
      }
      NoDigits(tmp, b, large);
    }
  }

  lemma DigitStep(tmp: string, n: nat, b: nat, large: bool)
    requires n > 0 && (b == 10 || b == 16)
    ensures tmp + Reversed(n, b, large) == tmp + [Digit(n % b, large)] + Reversed(n / b, b, large)
    ensures n / b < n
  {
    hide Digit;
  }

  lemma NoDigits(tmp: string, b: nat, large: bool)
    requires b == 10 || b == 16
    ensures tmp + Reversed(0, b, large) == tmp
  {
  }

  class Printer {
    const buf: array<char>
    const size: nat
    var str: nat              // how far the output has come
    ghost var out: string     // all of it
    ghost const was: seq<char>

    ghost predicate Valid()
      reads this, buf
    {
      && size <= buf.Length == |was| && str == |out|
      && (forall k :: 0 <= k < str && k < size ==> buf[k] == out[k])
      && (forall k :: 0 <= k < buf.Length && (k >= str || k >= size) ==> buf[k] == was[k])
    }

    constructor (buf: array<char>, size: nat)
      requires size <= buf.Length
      ensures Valid() && out == "" && this.buf == buf && this.size == size && was == buf[..]
    {
      this.buf, this.size := buf, size;
      str, out := 0, "";
      was := buf[..];
    }

    method Put(c: char)
      requires Valid()
      modifies this, buf
      ensures Valid() && out == old(out) + [c]
    {
      if str < size {
        buf[str] := c;
      }
      str := str + 1;
      out := out + [c];
    }

    method PutFill(c: char, n: int)
      requires Valid()
      modifies this, buf
      ensures Valid() && out == old(out) + Fill(c, n)
    {
      var left := n;
      assert out + Fill(c, left) == old(out) + Fill(c, n);
      while left > 0
        invariant Valid() && out + Fill(c, left) == old(out) + Fill(c, n)
        decreases left
      {
        ghost var o := out;
        Put(c);
        left := left - 1;
        assert o + ([c] + Fill(c, left)) == out + Fill(c, left);
      }
      assert Fill(c, left) == "";
    }

    /** Puts the characters of `tmp` from the last to the first. */
    method PutBackwards(tmp: string)
      requires Valid()
      modifies this, buf
      ensures Valid() && out == old(out) + Flip(tmp)
    {
      var i := |tmp|;
      assert tmp[i..] == "";
      while i > 0
        invariant i <= |tmp| && Valid() && out == old(out) + Flip(tmp[i..])
      {
        i := i - 1;
        assert tmp[i..][1..] == tmp[i+1..];
        ghost var o := out;
        Put(tmp[i]);
        assert o + [tmp[i]] == old(out) + (Flip(tmp[i+1..]) + [tmp[i]]);
      }
      assert tmp[0..] == tmp;
    }

    method PutAll(s: string)
      requires Valid()
      modifies this, buf
      ensures Valid() && out == old(out) + s
    {
      var i := 0;
      while i < |s|
        invariant i <= |s| && Valid() && out == old(out) + s[..i]
      {
        Put(s[i]);
        i := i + 1;
        assert s[..i] == s[..i-1] + [s[i-1]];
      }
      assert s[..i] == s;
    }

    /** The padding in front of the digits, with the sign; what is left of the field comes back. */
    method PutLead(sign: string, f: Flags, n: int) returns (size: int)
      requires Valid() && |sign| <= 1 && !(f.left && f.zeropad)
      modifies this, buf
      ensures Valid() && out == old(out) + Lead(sign, f, n)
      ensures if f.left then size == n - |sign| else size <= 0
    {
      hide Valid;
      size := n;
      ghost var start := out;
      if !f.zeropad && !f.left {
        if sign != "" && size > 0 {
          size := size - 1;
        }
        PutFill(' ', size);
        size := if size > 0 then -1 else size - 1;
      }
      ghost var spaces := out;
      PutAll(sign);
      size := size - |sign|;
      ghost var size2 := size;
      if !f.left {
        PutFill(if f.zeropad then '0' else ' ', size);
        size := if size > 0 then -1 else size - 1;
      }
      LeadParts(start, sign, spaces, size2, out, n, f);
    }

    /** The field of a number whose digits are in `tmp`, last first. */
    method PutField(sign: string, tmp: string, s: int, precision: int, f: Flags)
      requires Valid() && |sign| <= 1 && !(f.left && f.zeropad)
      modifies this, buf
      ensures Valid() && out == old(out) + Field(sign, Flip(tmp), s, precision, f)
    {
      hide Fill, Flip, Valid, Lead, Field;
      var i := |tmp|;
      var most := if i > precision then i else precision;
      ghost var start := out;
      var size := PutLead(sign, f, s - most);
      PutFill('0', most - i);
      ghost var out1 := out;
      if precision != 0 {
        PutBackwards(tmp);
      }
      ghost var out2 := out;
      PutFill(' ', size);
      NoFill(size);
      FieldParts(start, sign, Flip(tmp), s, precision, f, out1, out2, out);
    }

    /** print_number. */
    method PrintNumber(w: nat, base: nat, s: int, precision: int, flags: Flags)
      requires Valid() && w < WORD
      modifies this, buf
      ensures Valid() && out == old(out) + Number(w, base, s, precision, flags)
    {
      hide Tmp, Field, Flip, Valid;
      var f := if flags.left then flags.(zeropad := false) else flags;
      var sign, num := SignOf(w, f), w;
      if f.sign && Signed(w) < 0 {
        num := -Signed(w);
      }
      var tmp := MakeDigits(num, base, f.large);
      PutField(sign, tmp, s, precision, f);
      LeftField(sign, Flip(tmp), s, precision, flags);
    }

    method PutCharacter(s: Spec)
      requires Valid()
      modifies this, buf
      ensures Valid() && out == old(out) + Character(s)
    {
      hide Fill, Valid;
      ghost var start := out;
      var width := s.width;
      if !s.flags.left {
        PutFill(' ', width - 1);
        width := if width > 1 then 0 else width - 1;
      }
      ghost var out1 := out;
      Put((WordOf(FirstArg(s.args)) % 0x100) as char);
      PutFill(' ', width - 1);
      NoFill(width - 1);
      Sides(start, out1, [(WordOf(FirstArg(s.args)) % 0x100) as char], out, Fill(' ', s.width - 1), s.flags.left);
    }

    method PutStr(s: Spec)
      requires Valid()
      modifies this, buf
      ensures Valid() && out == old(out) + Str(s)
    {
      hide Fill, Valid;
      ghost var start := out;
      var text := TextOf(FirstArg(s.args));
      var len := |text|;
      if s.precision > 0 && len > s.precision {
        len := s.precision;
      }
      var width := s.width;
      if !s.flags.left {
        PutFill(' ', width - len);
        width := if width > len then len - 1 else width - 1;
      }
      ghost var out1 := out;
      assert text[..|text|] == text;
      PutAll(text[..len]);
      PutFill(' ', width - len);
      NoFill(width - len);
      Sides(start, out1, text[..len], out, Fill(' ', s.width - len), s.flags.left);
    }

    /** The conversion `c`, with what stands between it and its '%'. */
    method PutConversion(c: char, s: Spec)
      requires Valid()
      modifies this, buf
      ensures Valid() && out == old(out) + Convert(c, s)
    {
      hide Valid, Number, Character, Str;
      var base, flags := 10, s.flags;
      match c {
        case 'c' => PutCharacter(s);
        case 's' => PutStr(s);
        case 'p' =>
          var width := s.width;
          if width == -1 {
            width := 8;
            flags := flags.(zeropad := true);
          }
          PrintNumber(WordOf(FirstArg(s.args)), 16, width, s.precision, flags);
        case '%' => Put('%');
        case 'o' => PutInteger(s, 8, flags);
        case 'X' => PutInteger(s, 16, flags.(large := true));
        case 'x' => PutInteger(s, 16, flags);
        case 'd' => PutInteger(s, 10, flags.(sign := true));
        case 'i' => PutInteger(s, 10, flags.(sign := true));
        case 'u' => PutInteger(s, 10, flags);
        case _ =>
          Put('%');
          if c != '\0' {
            Put(c);
          }
      }
    }

    method PutInteger(s: Spec, base: nat, flags: Flags)
      requires Valid()
      modifies this, buf
      ensures Valid() && out == old(out) + Integer(s, base, flags)
    {
      hide Valid, Number;
      var num := WordOf(FirstArg(s.args));
      if s.qualifier == 'h' {
        num := num % 0x1_0000;
        if flags.sign && num >= 0x8000 {
          num := WORD - 0x1_0000 + num;
        }
      }
      PrintNumber(num, base, s.width, s.precision, flags);
    }

    /** The loop over the format. */
    method PutFormat(fmt: string, args: seq<Arg>)
      requires Valid() && out == ""
      modifies this, buf
      ensures Valid() && out == Output(fmt, 0, args)
    {
      hide Valid, Convert, Parse, Output;
      var i, rest := 0, args;
      assert "" + Output(fmt, 0, args) == Output(fmt, 0, args);
      while i < |fmt|
        invariant Valid() && out + Output(fmt, i, rest) == Output(fmt, 0, args)
        decreases |fmt| - i
      {
        OneStep(out, fmt, i, rest);
        if fmt[i] != '%' {
          Put(fmt[i]);
          i := i + 1;
        } else {
          var s := ReadSpec(fmt, i, rest);
          var c := At(fmt, s.next);
          PutConversion(c, s);
          rest := if Takes(c) then OtherArgs(s.args) else s.args;
          i := s.next + 1;
        }
      }
      NoStep(fmt, i, rest);
    }
  }

  /** What print_number puts in front of the digits. */
  ghost function Lead(sign: string, f: Flags, n: int): string {
    if f.left then sign else if f.zeropad then sign + Fill('0', n - |sign|) else Fill(' ', n - |sign|) + sign
  }

  /** What one round of the loop adds to the output so far. */
  lemma OneStep(o: string, fmt: string, i: nat, args: seq<Arg>)
    requires i < |fmt|
    ensures fmt[i] != '%' ==> o + Output(fmt, i, args) == o + [fmt[i]] + Output(fmt, i + 1, args)
    ensures fmt[i] == '%' ==>
      var s := Parse(fmt, i, args);
      var c := At(fmt, s.next);
      o + Output(fmt, i, args) == o + Convert(c, s) + Output(fmt, s.next + 1, if Takes(c) then OtherArgs(s.args) else s.args)
  {
    hide Parse, Convert;
  }

  lemma NoStep(fmt: string, i: nat, args: seq<Arg>)
    ensures i >= |fmt| ==> Output(fmt, i, args) == ""
  {
  }

  lemma NoFill(n: int)
    ensures n <= 0 ==> Fill(' ', n) == ""
  {
  }

  lemma LeadParts(start: string, sign: string, spaces: string, size2: int, out: string, n: int, f: Flags)
    requires |sign| <= 1 && !(f.left && f.zeropad)
    requires
      var size0 := if sign != "" && n > 0 then n - 1 else n;
      if f.zeropad || f.left then spaces == start && size2 == n - |sign|
      else spaces == start + Fill(' ', size0) && size2 == (if size0 > 0 then -1 else size0 - 1) - |sign|
    requires out == spaces + sign + (if f.left then "" else Fill(if f.zeropad then '0' else ' ', size2))
    ensures out == start + Lead(sign, f, n)
  {
    hide Fill;
    if !f.left && !f.zeropad {
      NoFill(size2);
      FewerSpaces(n, |sign|);
      assert spaces == start + Fill(' ', n - |sign|);
    }
  }

  /** The sign takes one place of the padding, if there is any. */
  lemma FewerSpaces(n: int, sign: nat)
    requires sign <= 1
    ensures Fill(' ', if sign == 1 && n > 0 then n - 1 else n) == Fill(' ', n - sign)
  {
    NoFill(n);
    NoFill(n - sign);
  }

  /** A field in the order in which it is put. */
  lemma FieldParts(start: string, sign: string, digits: string, s: int, precision: int, f: Flags, out1: string, out2: string, out: string)
    requires
      var most := if |digits| > precision then |digits| else precision;
      && out1 == start + Lead(sign, f, s - most) + Fill('0', most - |digits|)
      && out2 == out1 + (if precision != 0 then digits else "")
      && out == out2 + (if f.left then Fill(' ', s - most - |sign|) else "")
    ensures out == start + Field(sign, digits, s, precision, f)
  {
    hide Fill, Lead, Field;
    FieldIs(sign, digits, s, precision, f);
    var most := if |digits| > precision then |digits| else precision;
    var lead, zeros, tail := Lead(sign, f, s - most), Fill('0', most - |digits|), if precision == 0 then "" else digits;
    Grouped(start, lead, zeros, tail, if f.left then Fill(' ', s - most - |sign|) else "");
  }

  lemma Grouped(a: string, b: string, c: string, d: string, e: string)
    ensures a + b + c + d + e == a + (b + c + d + e)
  {
  }

  lemma FieldIs(sign: string, digits: string, s: int, precision: int, f: Flags)
    ensures
      var most := if |digits| > precision then |digits| else precision;
      Field(sign, digits, s, precision, f) ==
        Lead(sign, f, s - most) + Fill('0', most - |digits|) + (if precision == 0 then "" else digits)
          + (if f.left then Fill(' ', s - most - |sign|) else "")
  {
    hide Fill;
    var most := if |digits| > precision then |digits| else precision;
    var lead, zeros, tail := Lead(sign, f, s - most), Fill('0', most - |digits|), if precision == 0 then "" else digits;
    assert lead + zeros + tail == lead + (zeros + tail);
    if !f.left {
      assert lead + zeros + tail + "" == lead + zeros + tail;
    }
  }

  /** To the left no zeros are used for padding. */
  lemma LeftField(sign: string, digits: string, s: int, precision: int, f: Flags)
    ensures f.left ==> Field(sign, digits, s, precision, f.(zeropad := false)) == Field(sign, digits, s, precision, f)
  {
    hide Fill;
  }

  /** Padding on one side of a text. */
  lemma Sides(start: string, out1: string, text: string, out: string, pad: string, left: bool)
    requires out1 == if left then start else start + pad
    requires out == out1 + text + if left then pad else ""
    ensures out == start + if left then text + pad else pad + text
  {
  }

  /** rt_vsnprintf: the buffer holds as much of the unbounded output as fits, and a NUL; the length of
      the unbounded output is returned. */
  method VsnPrintf(buf: array<char>, size: nat, fmt: string, args: seq<Arg>) returns (n: nat)
    requires size <= buf.Length
    modifies buf
    ensures n == |Output(fmt, 0, args)|
    ensures size > 0 ==>
      var shown := if n < size then n else size - 1;
      buf[..shown] == Output(fmt, 0, args)[..shown] && buf[shown] == '\0'
    ensures forall k :: size <= k < buf.Length || n < k < buf.Length ==> buf[k] == old(buf[k])
  {
    hide Output;
    var p := new Printer(buf, size);
    p.PutFormat(fmt, args);
    if size > 0 {
      if p.str < size {
        buf[p.str] := '\0';
      } else {
        buf[size - 1] := '\0';
      }
    }
    n := p.str;
  }
}
