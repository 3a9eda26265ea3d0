/** What a format means: a format string is read back as the pieces that it was written from, and each
    conversion prints what it stands for. */
module FormatLaws {
  import opened FormatSpec
  import opened RtDef

  // ---- formats as they are written ----

  /** A width or a precision: not given, a number, taken from the arguments, or (a precision only) a dot alone. */
  datatype Amount = Omitted | Fixed(n: nat) | Star | Bare

  /** Plain text, or a conversion; a qualifier of NUL stands for none. */
  datatype Piece =
    | Plain(text: string)
    | Conversion(flags: string, width: Amount, precision: Amount, qualifier: char, c: char)

  predicate IsFlag(c: char) { c in "-+ #0" }

  /** Characters that cannot be taken for an earlier part of a conversion. */
  predicate Closes(c: char) { !IsFlag(c) && !IsDigit(c) && c !in ".*hl" && c != '\0' }

  /** Plain text holds no '%'; a width is not written with a leading zero, which would be a flag. */
  ghost predicate WellFormed(p: Piece) {
    match p
    case Plain(text) => '%' !in text
    case Conversion(flags, width, precision, qualifier, c) =>
      && (forall x :: x in flags ==> IsFlag(x))
      && !width.Bare? && (width.Fixed? ==> width.n > 0)
      && qualifier in ['\0', 'h', 'l'] && Closes(c)
  }

  function AmountText(a: Amount): string {
    match a
    case Fixed(n) => Digits(n, 10, false)
    case Star => "*"
    case _ => ""
  }

  function PrecisionText(a: Amount): string {
    if a.Omitted? then "" else "." + AmountText(a)
  }

  function QualifierText(q: char): string {
    if q == '\0' then "" else [q]
  }

  function Tail(q: char, c: char): string {
    QualifierText(q) + [c]
  }

  function Text(p: Piece): string {
    match p
    case Plain(text) => text
    case Conversion(flags, width, precision, qualifier, c) =>
      "%" + (flags + (AmountText(width) + (PrecisionText(precision) + Tail(qualifier, c))))
  }

  function Written(ps: seq<Piece>): string {
    if ps == [] then "" else Text(ps[0]) + Written(ps[1..])
  }

  // ---- what they mean ----

  function With(f: Flags, flags: string): Flags {
    f.(left := f.left || '-' in flags, plus := f.plus || '+' in flags, space := f.space || ' ' in flags, zeropad := f.zeropad || '0' in flags)
  }

  /** The next argument, where a width or a precision is taken from the arguments. */
  function Asked(args: seq<Arg>): int {
    Signed(WordOf(FirstArg(args)))
  }

  function ArgsAfter(a: Amount, args: seq<Arg>): seq<Arg> {
    if a.Star? then OtherArgs(args) else args
  }

  /** A negative width from the arguments stands for a flag and the width. */
  function WidthOf(a: Amount, args: seq<Arg>): int {
    match a
    case Fixed(n) => n
    case Star => if Asked(args) < 0 then -Asked(args) else Asked(args)
    case _ => -1
  }

  /** A dot alone and a negative precision from the arguments stand for zero. */
  function PrecisionOf(a: Amount, args: seq<Arg>): int {
    match a
    case Omitted => -1
    case Fixed(n) => n
    case Star => if Asked(args) < 0 then 0 else Asked(args)
    case Bare => 0
  }

  /** The parts of a conversion whose conversion character stands at position `next`. */
  function SpecOf(p: Piece, next: nat, args: seq<Arg>): Spec
    requires p.Conversion?
  {
    var f := With(NO_FLAGS, p.flags);
    var rest := ArgsAfter(p.width, args);
    Spec(f.(left := f.left || (p.width.Star? && Asked(args) < 0)), WidthOf(p.width, args), PrecisionOf(p.precision, rest),
         p.qualifier, next, ArgsAfter(p.precision, rest))
  }

  /** What a piece prints. */
  function Printed(p: Piece, args: seq<Arg>): string {
    if p.Plain? then p.text else Convert(p.c, SpecOf(p, 0, args))
  }

  /** The arguments that it leaves. */
  function Left(p: Piece, args: seq<Arg>): seq<Arg> {
    if p.Plain? then args else
    var rest := SpecOf(p, 0, args).args;
    if Takes(p.c) then OtherArgs(rest) else rest
  }

  /** What the pieces print. */
  function Meaning(ps: seq<Piece>, args: seq<Arg>): string
    decreases |ps|
  {
    if ps == [] then "" else Printed(ps[0], args) + Meaning(ps[1..], Left(ps[0], args))
  }

  // ---- reading what was written ----

  /** At position `i` of the format stands `x`, and behind it `rest`. */
  ghost predicate Stands(fmt: string, i: nat, x: string, rest: string) {
    i + |x| <= |fmt| && fmt[i..] == x + rest
  }

  lemma StandsNext(fmt: string, i: nat, x: string, y: string, rest: string)
    requires Stands(fmt, i, x, y + rest)
    ensures Stands(fmt, i + |x|, y, rest) && fmt[i..i + |x|] == x
    ensures y + rest != "" ==> i + |x| < |fmt| && At(fmt, i + |x|) == (y + rest)[0]
  {
    assert fmt[i..][|x|..] == fmt[i + |x|..];
    assert fmt[i..][..|x|] == fmt[i..i + |x|];
    assert |fmt[i + |x|..]| == |y + rest|;
  }

  lemma {:induction false} FlagsRead(fmt: string, i: nat, j: nat, f: Flags)
    requires i <= j < |fmt| && (forall x :: x in fmt[i..j] ==> IsFlag(x)) && !IsFlag(fmt[j])
    ensures GetFlags(fmt, i, f) == (With(f, fmt[i..j]), j)
    decreases j - i
  {
    if i < j {
      hide With;
      assert fmt[i..j] == [fmt[i]] + fmt[i+1..j];
      assert fmt[i] in fmt[i..j];
      WithFirst(f, fmt[i], fmt[i+1..j]);
      FlagsRead(fmt, i + 1, j, WithOne(f, fmt[i]));
    } else {
      assert fmt[i..j] == "";
    }
  }

  function WithOne(f: Flags, x: char): Flags {
    if x == '-' then f.(left := true) else if x == '+' then f.(plus := true)
    else if x == ' ' then f.(space := true) else if x == '0' then f.(zeropad := true) else f
  }

  lemma WithFirst(f: Flags, x: char, flags: string)
    requires IsFlag(x)
    ensures With(WithOne(f, x), flags) == With(f, [x] + flags)
  {
    InEither('-', x, flags);
    InEither('+', x, flags);
    InEither(' ', x, flags);
    InEither('0', x, flags);
  }

  lemma InEither(c: char, x: char, flags: string)
    ensures c in [x] + flags <==> c == x || c in flags
  {
  }

  lemma DigitsStand(fmt: string, i: nat, d: string, rest: string)
    requires Stands(fmt, i, d, rest) && rest != "" && !IsDigit(rest[0]) && d != "" && forall c :: c in d ==> IsDigit(c)
    ensures SkipAtoi(fmt, i, 0) == (ReadOn(0, d), i + |d|) && At(fmt, i) == d[0]
  {
    hide SkipAtoi, ReadOn, IsDigit;
    assert rest == "" + rest;
    StandsNext(fmt, i, d, "", rest);
    assert fmt[i] == fmt[i..][0];
    SkipReads(fmt, i, i + |d|, 0);
  }

  lemma NumberRead(fmt: string, i: nat, n: nat, rest: string)
    requires Stands(fmt, i, Digits(n, 10, false), rest) && rest != "" && !IsDigit(rest[0])
    ensures SkipAtoi(fmt, i, 0) == (n, i + |Digits(n, 10, false)|)
    ensures IsDigit(At(fmt, i)) && (n > 0 ==> At(fmt, i) != '0')
  {
    hide SkipAtoi, Digits, Stands, ReadOn, IsDigit, At, Value;
    var d := Digits(n, 10, false);
    DigitsRight(n, 10, false);
    DigitsStand(fmt, i, d, rest);
    ReadOnValue(d);
    assert d[0] in d;
  }

  /** The parts of a conversion up to its width, precision or qualifier. */
  lemma WidthRead(fmt: string, s: Spec, w: Amount, rest: string)
    requires !w.Bare? && Stands(fmt, s.next, AmountText(w), rest) && rest != "" && !IsDigit(rest[0]) && rest[0] != '*'
    ensures GetWidth(fmt, s) == s.(width := if w.Omitted? then s.width else WidthOf(w, s.args),
                                   flags := s.flags.(left := s.flags.left || (w.Star? && Asked(s.args) < 0)),
                                   next := s.next + |AmountText(w)|, args := ArgsAfter(w, s.args))
  {
    hide SkipAtoi, Digits, Signed;
    assert rest == "" + rest;
    StandsNext(fmt, s.next, AmountText(w), "", rest);
    if w.Fixed? {
      NumberRead(fmt, s.next, w.n, rest);
    } else {
      assert fmt[s.next] == fmt[s.next..][0];
    }
  }

  lemma PrecisionRead(fmt: string, s: Spec, p: Amount, rest: string)
    requires Stands(fmt, s.next, PrecisionText(p), rest) && rest != "" && !IsDigit(rest[0]) && rest[0] !in ".*"
    ensures GetPrecision(fmt, s) == s.(precision := if p.Omitted? then s.precision else PrecisionOf(p, s.args),
                                       next := s.next + |PrecisionText(p)|, args := ArgsAfter(p, s.args))
  {
    hide SkipAtoi, Digits, Signed;
    assert fmt[s.next] == fmt[s.next..][0];
    if !p.Omitted? {
      assert "." + AmountText(p) + rest == "." + (AmountText(p) + rest);
      StandsNext(fmt, s.next, ".", AmountText(p), rest);
      assert rest == "" + rest;
      StandsNext(fmt, s.next + 1, AmountText(p), "", rest);
      if p.Fixed? {
        NumberRead(fmt, s.next + 1, p.n, rest);
      } else {
        assert fmt[s.next + 1] == fmt[s.next + 1..][0];
      }
    }
  }

  lemma QualifierRead(fmt: string, s: Spec, q: char, c: char, rest: string)
    requires q in ['\0', 'h', 'l'] && Closes(c) && Stands(fmt, s.next, QualifierText(q), [c] + rest)
    ensures GetQualifier(fmt, s) == s.(qualifier := if q == '\0' then s.qualifier else q, next := s.next + |QualifierText(q)|)
    ensures At(fmt, s.next + |QualifierText(q)|) == c
  {
    StandsNext(fmt, s.next, QualifierText(q), [c], rest);
    assert fmt[s.next] == fmt[s.next..][0];
  }

  lemma TailStarts(q: char, c: char)
    requires q in ['\0', 'h', 'l'] && Closes(c)
    ensures var t := Tail(q, c)[0]; !IsFlag(t) && !IsDigit(t) && t !in ".*"
  {
  }

  lemma AmountStarts(n: nat)
    ensures var d := Digits(n, 10, false); d != "" && IsDigit(d[0]) && (n > 0 ==> d[0] != '0')
  {
    hide Digits;
    DigitsRight(n, 10, false);
    assert Digits(n, 10, false)[0] in Digits(n, 10, false);
  }

  /** What follows the flags does not begin like one. */
  lemma RestStarts(p: Piece, rest: string)
    requires p.Conversion? && WellFormed(p)
    ensures var t := PrecisionText(p.precision) + (Tail(p.qualifier, p.c) + rest);
      && t != "" && !IsDigit(t[0]) && t[0] != '*' && !IsFlag(t[0])
      && var u := AmountText(p.width) + t; u != "" && !IsFlag(u[0])
  {
    hide Digits;
    TailStarts(p.qualifier, p.c);
    if p.width.Fixed? {
      AmountStarts(p.width.n);
    }
  }

  /** Where the parts of a conversion stand. */
  ghost predicate PartsStand(fmt: string, i: nat, p: Piece, rest: string)
    requires p.Conversion?
  {
    var w, e, q := AmountText(p.width), PrecisionText(p.precision), QualifierText(p.qualifier);
    var k := i + 1 + |p.flags|;
    && k < |fmt| && fmt[i] == '%' && fmt[i+1..k] == p.flags && !IsFlag(fmt[k])
    && Stands(fmt, k, w, e + (Tail(p.qualifier, p.c) + rest))
    && Stands(fmt, k + |w|, e, Tail(p.qualifier, p.c) + rest)
    && Stands(fmt, k + |w| + |e|, q, [p.c] + rest)
    && i + |Text(p)| - 1 == k + |w| + |e| + |q|
  }

  /** Four strings one behind the other. */
  lemma InTurn(fmt: string, i: nat, a: string, b: string, c: string, d: string, rest: string)
    requires i < |fmt| && fmt[i..] == "%" + (a + (b + (c + (d + rest))))
    ensures var k := i + 1 + |a|;
      && k <= |fmt| && fmt[i] == '%' && fmt[i+1..k] == a && fmt[k..] == b + (c + (d + rest))
      && Stands(fmt, k, b, c + (d + rest)) && Stands(fmt, k + |b|, c, d + rest) && Stands(fmt, k + |b| + |c|, d, rest)
  {
    assert Stands(fmt, i, "%", a + (b + (c + (d + rest)))) by {
      assert |fmt[i..]| >= 1;
    }
    hide Stands;
    StandsNext(fmt, i, "%", a, b + (c + (d + rest)));
    StandsNext(fmt, i + 1, a, b, c + (d + rest));
    StandsNext(fmt, i + 1 + |a|, b, c, d + rest);
    StandsNext(fmt, i + 1 + |a| + |b|, c, d, rest);
    assert fmt[i] == fmt[i..][0];
    StandsAt(fmt, i + 1 + |a|, b, c + (d + rest));
  }

  lemma StandsAt(fmt: string, i: nat, x: string, rest: string)
    requires Stands(fmt, i, x, rest)
    ensures i <= |fmt| && fmt[i..] == x + rest
  {
  }

  lemma TextLength(p: Piece)
    requires p.Conversion?
    ensures |Text(p)| == 2 + |p.flags| + |AmountText(p.width)| + |PrecisionText(p.precision)| + |QualifierText(p.qualifier)|
  {
    hide AmountText, PrecisionText, QualifierText;
  }

  lemma PartsFound(fmt: string, i: nat, p: Piece, rest: string)
    requires p.Conversion? && WellFormed(p) && Stands(fmt, i, Text(p), rest)
    ensures PartsStand(fmt, i, p, rest) && i < |fmt| && |Text(p)| >= 2
  {
    hide AmountText, PrecisionText, QualifierText, IsFlag, Closes, WellFormed, Stands, Text;
    var w, e, q := AmountText(p.width), PrecisionText(p.precision), QualifierText(p.qualifier);
    RestStarts(p, rest);
    Grouped(p, rest);
    TextLength(p);
    StandsAt(fmt, i, Text(p), rest);
    TailGrouped(p.qualifier, p.c, rest);
    InTurn(fmt, i, p.flags, w, e, q, [p.c] + rest);
    var k := i + 1 + |p.flags|;
    assert fmt[k] == fmt[k..][0];
  }

  lemma TailGrouped(q: char, c: char, rest: string)
    ensures Tail(q, c) + rest == QualifierText(q) + ([c] + rest)
  {
    hide QualifierText;
  }

  /** A conversion is read back as it was written. */
  lemma ParseReads(fmt: string, i: nat, p: Piece, rest: string, args: seq<Arg>)
    requires p.Conversion? && WellFormed(p) && Stands(fmt, i, Text(p), rest) && i < |fmt|
    ensures Parse(fmt, i, args) == SpecOf(p, i + |Text(p)| - 1, args) && At(fmt, i + |Text(p)| - 1) == p.c
    ensures |Text(p)| >= 2 && fmt[i] == '%'
  {
    hide Signed, GetFlags, GetWidth, GetPrecision, GetQualifier, IsFlag, Closes, Parse, SpecOf, Stands, Text;
    hide AmountText, PrecisionText, QualifierText, With, WidthOf, PrecisionOf, ArgsAfter, Asked;
    PartsFound(fmt, i, p, rest);
    RestStarts(p, rest);
    TailStarts(p.qualifier, p.c);
    var k := i + 1 + |p.flags|;
    FlagsRead(fmt, i + 1, k, NO_FLAGS);
    var s := Spec(With(NO_FLAGS, p.flags), -1, -1, '\0', k, args);
    WidthRead(fmt, s, p.width, PrecisionText(p.precision) + (Tail(p.qualifier, p.c) + rest));
    var s1 := GetWidth(fmt, s);
    PrecisionRead(fmt, s1, p.precision, Tail(p.qualifier, p.c) + rest);
    var s2 := GetPrecision(fmt, s1);
    QualifierRead(fmt, s2, p.qualifier, p.c, rest);
    ParseIs(fmt, i, args, s, s1, s2);
    SpecIs(p, i + |Text(p)| - 1, args, s, s1, s2, GetQualifier(fmt, s2));
  }

  lemma ParseIs(fmt: string, i: nat, args: seq<Arg>, s: Spec, s1: Spec, s2: Spec)
    requires i < |fmt| && GetFlags(fmt, i + 1, NO_FLAGS) == (s.flags, s.next) && s == Spec(s.flags, -1, -1, '\0', s.next, args)
    requires s.next <= |fmt| && s1 == GetWidth(fmt, s) && s1.next <= |fmt| && s2 == GetPrecision(fmt, s1) && s2.next <= |fmt|
    ensures Parse(fmt, i, args) == GetQualifier(fmt, s2)
  {
    hide GetFlags, GetWidth, GetPrecision, GetQualifier;
  }

  /** The three readings together give the parts of the conversion. */
  lemma SpecIs(p: Piece, next: nat, args: seq<Arg>, s: Spec, s1: Spec, s2: Spec, s3: Spec)
    requires p.Conversion? && !p.width.Bare? && s == Spec(With(NO_FLAGS, p.flags), -1, -1, '\0', s.next, args)
    requires s1 == s.(width := if p.width.Omitted? then s.width else WidthOf(p.width, s.args),
                      flags := s.flags.(left := s.flags.left || (p.width.Star? && Asked(s.args) < 0)),
                      next := s1.next, args := ArgsAfter(p.width, s.args))
    requires s2 == s1.(precision := if p.precision.Omitted? then s1.precision else PrecisionOf(p.precision, s1.args),
                       next := s2.next, args := ArgsAfter(p.precision, s1.args))
    requires s3 == s2.(qualifier := if p.qualifier == '\0' then s2.qualifier else p.qualifier, next := next)
    ensures s3 == SpecOf(p, next, args)
  {
    hide Signed, With;
  }

  lemma Grouped(p: Piece, rest: string)
    requires p.Conversion?
    ensures Text(p) + rest ==
      "%" + (p.flags + (AmountText(p.width) + (PrecisionText(p.precision) + (Tail(p.qualifier, p.c) + rest))))
  {
    hide AmountText, PrecisionText, Tail;
  }

  lemma {:induction false} PlainPrints(fmt: string, i: nat, j: nat, args: seq<Arg>)
    requires i <= j <= |fmt| && '%' !in fmt[i..j]
    ensures Output(fmt, i, args) == fmt[i..j] + Output(fmt, j, args)
    decreases j - i
  {
    hide Parse, Convert;
    if i < j {
      assert fmt[i..j] == [fmt[i]] + fmt[i+1..j];
      assert fmt[i] in fmt[i..j];
      PlainPrints(fmt, i + 1, j, args);
    }
  }

  lemma ConversionPrints(fmt: string, i: nat, s: Spec, args: seq<Arg>)
    requires i < |fmt| && fmt[i] == '%' && s == Parse(fmt, i, args)
    ensures var c := At(fmt, s.next);
      Output(fmt, i, args) == Convert(c, s) + Output(fmt, s.next + 1, if Takes(c) then OtherArgs(s.args) else s.args)
  {
    hide Parse, Convert;
  }

  lemma PieceRead(fmt: string, i: nat, p: Piece, rest: string, args: seq<Arg>)
    requires WellFormed(p) && Stands(fmt, i, Text(p), rest)
    ensures i + |Text(p)| <= |fmt| && fmt[i + |Text(p)|..] == rest
    ensures Output(fmt, i, args) == Printed(p, args) + Output(fmt, i + |Text(p)|, Left(p, args))
  {
    hide Text, Parse, Convert, SpecOf, WellFormed, Stands, Output;
    assert rest == "" + rest;
    StandsNext(fmt, i, Text(p), "", rest);
    StandsAt(fmt, i + |Text(p)|, "", rest);
    match p
    case Plain(text) =>
      PlainIs(p);
      PlainPrints(fmt, i, i + |text|, args);
    case Conversion(_, _, _, _, c) =>
      NotEmpty(p);
      NotAtEnd(fmt, i, Text(p), rest);
      ParseReads(fmt, i, p, rest, args);
      SameConversion(c, p, i + |Text(p)| - 1, args);
      ConversionPrints(fmt, i, SpecOf(p, i + |Text(p)| - 1, args), args);
  }

  lemma NotAtEnd(fmt: string, i: nat, x: string, rest: string)
    requires Stands(fmt, i, x, rest) && x != ""
    ensures i < |fmt|
  {
  }

  lemma NothingPrints(fmt: string, i: nat, args: seq<Arg>)
    requires i >= |fmt|
    ensures Output(fmt, i, args) == ""
  {
  }

  /** A format prints what the pieces mean that it was written from: plain text as it stands, each conversion with its
      own flags, width, precision and qualifier and with the next of the arguments. */
  lemma {:induction false} OutputMeans(fmt: string, i: nat, ps: seq<Piece>, args: seq<Arg>)
    requires i <= |fmt| && fmt[i..] == Written(ps) && forall p :: p in ps ==> WellFormed(p)
    ensures Output(fmt, i, args) == Meaning(ps, args)
    decreases |ps|
  {
    hide Text, WellFormed, Output, Printed, Left;
    if ps == [] {
      assert |fmt[i..]| == 0;
      NothingPrints(fmt, i, args);
    } else {
      var p, rest := ps[0], Written(ps[1..]);
      assert |fmt[i..]| == |Text(p) + rest|;
      PieceRead(fmt, i, p, rest, args);
      OutputMeans(fmt, i + |Text(p)|, ps[1..], Left(p, args));
    }
  }

  lemma PlainIs(p: Piece)
    requires p.Plain? && WellFormed(p)
    ensures Text(p) == p.text && '%' !in p.text
  {
  }

  lemma NotEmpty(p: Piece)
    requires p.Conversion?
    ensures Text(p) != ""
  {
  }

  /** Where a conversion stands does not matter. */
  lemma SameConversion(c: char, p: Piece, next: nat, args: seq<Arg>)
    requires p.Conversion?
    ensures Convert(c, SpecOf(p, next, args)) == Convert(c, SpecOf(p, 0, args))
    ensures SpecOf(p, next, args).args == SpecOf(p, 0, args).args && SpecOf(p, next, args).next == next
  {
    hide Number, Signed, With;
  }

  // ---- what the conversions print ----

  /** The conversions of numbers; those of the second group print hexadecimal digits. */
  predicate Numeric(c: char) { c in "diu" || c in "xXpo" }

  function BaseOf(c: char): nat { if c in "xXpo" then 16 else 10 }

  function Signed16(w: nat): int {
    if w % 0x1_0000 >= 0x8000 then w % 0x1_0000 - 0x1_0000 else w % 0x1_0000
  }

  /** The number that a conversion is asked to print: a short one with 'h', except for pointers. */
  function NumberOf(c: char, qualifier: char, w: nat): int {
    if c in "di" then (if qualifier == 'h' then Signed16(w) else Signed(w))
    else if qualifier == 'h' && c != 'p' then w % 0x1_0000
    else w % WORD
  }

  function Size(n: int): nat { if n < 0 then -n else n }

  function SignFor(c: char, n: int, f: Flags): string {
    if n < 0 then "-" else if c !in "di" then "" else if f.plus then "+" else if f.space then " " else ""
  }

  function WidthFor(c: char, s: Spec): int {
    if c == 'p' && s.width == -1 then 8 else s.width
  }

  /** The digits of the number in the base of the conversion: none more than needed, in capitals for 'X' only. */
  ghost predicate DigitsOf(digits: string, c: char, n: nat) {
    && digits != "" && Value(digits, BaseOf(c)) == n && (n > 0 ==> digits[0] != '0') && (n == 0 ==> digits == "0")
    && forall x :: x in digits ==> x in (if c == 'X' then "0123456789ABCDEF" else "0123456789abcdef")
  }

  /** The sign and the digits, filled up with zeros to the precision, and to the width on the side that the flags ask for. */
  ghost predicate ShownAs(out: string, c: char, s: Spec, n: int, digits: string, f: Flags, blanks: nat, zeros: nat, after: nat) {
    var sign := SignFor(c, n, s.flags);
    var body := if |digits| > s.precision then |digits| else s.precision;
    && f.left == s.flags.left && f.zeropad == (s.flags.zeropad || (c == 'p' && s.width == -1))
    && DigitsOf(digits, c, Size(n)) && LaidOut(out, sign, digits, f, blanks, zeros, after)
    && |out| == if WidthFor(c, s) > |sign| + body then WidthFor(c, s) else |sign| + body
  }

  ghost predicate ShowsNumber(out: string, c: char, s: Spec, n: int) {
    exists digits: string, f: Flags, blanks: nat, zeros: nat, after: nat :: ShownAs(out, c, s, n, digits, f, blanks, zeros, after)
  }

  lemma {:induction false} ReversedChars(n: nat, b: nat, large: bool)
    requires 2 <= b <= 16
    ensures forall x :: x in Flip(Reversed(n, b, large)) ==> x in (if large then "0123456789ABCDEF" else "0123456789abcdef")
    decreases n
  {
    if n > 0 {
      ReversedChars(n / b, b, large);
      var r := Reversed(n, b, large);
      assert r[1..] == Reversed(n / b, b, large);
      assert Flip(r) == Flip(r[1..]) + [Digit(n % b, large)];
      DigitChar(n % b, large);
    }
  }

  lemma DigitChar(d: nat, large: bool)
    requires d < 16
    ensures Digit(d, large) in (if large then "0123456789ABCDEF" else "0123456789abcdef")
  {
  }

  lemma DigitsFor(n: nat, c: char)
    requires Numeric(c)
    ensures DigitsOf(Digits(n, BaseOf(c), c == 'X'), c, n)
    ensures c == 'o' ==> Digits(n, 8, false) == Digits(n, 16, false)
  {
    hide Digit, Value;
    DigitsRight(n, BaseOf(c), c == 'X');
    ReversedChars(n, BaseOf(c), c == 'X');
    if n == 0 {
      assert Flip("0") == "0";
    }
  }

  /** The sign and the magnitude of what print_number gets. */
  lemma NarrowRight(c: char, qualifier: char, w: nat, f: Flags)
    requires Numeric(c) && f.sign == (c in "di") && w < WORD
    ensures var v := if c == 'p' then w else Narrow(w, qualifier, f.sign);
      Magnitude(v, f) == Size(NumberOf(c, qualifier, w)) && SignOf(v, f) == SignFor(c, NumberOf(c, qualifier, w), f)
  {
  }

  /** The call of print_number that a conversion makes. */
  function FlagsFor(c: char, s: Spec): Flags {
    if c == 'p' then s.flags.(zeropad := s.flags.zeropad || s.width == -1)
    else s.flags.(large := s.flags.large || c == 'X', sign := s.flags.sign || c in "di")
  }

  lemma CallsNumber(c: char, s: Spec)
    requires Numeric(c)
    ensures var w, f := WordOf(FirstArg(s.args)), FlagsFor(c, s);
      Convert(c, s) == Number(if c == 'p' then w else Narrow(w, s.qualifier, f.sign), if c == 'o' then 8 else BaseOf(c), WidthFor(c, s), s.precision, f)
  {
    hide Number, Narrow;
  }

  /** Unless the precision is zero, %d, %i, %u, %x, %X, %p and %o print the number they are asked for: digits that stand
      for it in their base, its sign, and the field filled up as flags, width and precision say. */
  lemma NumberMeans(c: char, s: Spec)
    requires Numeric(c) && s.precision != 0 && !s.flags.sign && !s.flags.large
    ensures ShowsNumber(Convert(c, s), c, s, NumberOf(c, s.qualifier, WordOf(FirstArg(s.args))))
  {
    hide Number, Narrow, Magnitude, SignOf, NumberOf, Digits, LaidOut, DigitsOf, SignFor;
    var w, f := WordOf(FirstArg(s.args)), FlagsFor(c, s);
    var v, base := if c == 'p' then w else Narrow(w, s.qualifier, f.sign), if c == 'o' then 8 else BaseOf(c);
    var n := NumberOf(c, s.qualifier, w);
    CallsNumber(c, s);
    NarrowRight(c, s.qualifier, w, f);
    NumberShape(v, base, WidthFor(c, s), s.precision, f);
    NumberWidth(v, base, WidthFor(c, s), s.precision, f);
    DigitsFor(Size(n), c);
    var out, digits := Convert(c, s), Digits(Size(n), BaseOf(c), c == 'X');
    var blanks: nat, zeros: nat, after: nat :| LaidOut(out, SignOf(v, f), Digits(Magnitude(v, f), base, f.large), f, blanks, zeros, after);
    SignSame(c, n, s.flags, f);
    assert ShownAs(out, c, s, n, digits, f, blanks, zeros, after);
  }

  lemma SignSame(c: char, n: int, f: Flags, g: Flags)
    requires g.plus == f.plus && g.space == f.space
    ensures SignFor(c, n, g) == SignFor(c, n, f)
  {
  }

  /** `shown` with blanks on one side, to the width. */
  ghost predicate Padded(out: string, shown: string, width: int, left: bool) {
    && out == (if left then shown + Fill(' ', |out| - |shown|) else Fill(' ', |out| - |shown|) + shown)
    && |out| == if width > |shown| then width else |shown|
  }

  /** %s prints the string, or if a precision above zero is shorter, as much of it as that; a null string prints as
      "(NULL)".  With a precision of zero it prints all of it. */
  lemma StringMeans(s: Spec)
    ensures var text := TextOf(FirstArg(s.args));
      exists shown: string :: shown <= text && Padded(Convert('s', s), shown, s.width, s.flags.left)
                         && |shown| == if s.precision > 0 && s.precision < |text| then s.precision else |text|
  {
    var text := TextOf(FirstArg(s.args));
    var shown := if 0 < s.precision < |text| then text[..s.precision] else text;
    BlanksFor(s.width - |shown|);
    assert Padded(Convert('s', s), shown, s.width, s.flags.left);
  }

  lemma BlanksFor(n: int)
    ensures Fill(' ', n) == Fill(' ', if n > 0 then n else 0)
  {
  }

  /** %c prints the character with the low byte of the argument for its code. */
  lemma CharacterMeans(s: Spec)
    ensures Padded(Convert('c', s), [(WordOf(FirstArg(s.args)) % 0x100) as char], s.width, s.flags.left)
  {
    BlanksFor(s.width - 1);
  }

  /** A conversion character that takes no argument stands for itself, "%%" and the end of the format for a '%'. */
  lemma OtherMeans(c: char, s: Spec)
    requires !Takes(c)
    ensures Convert(c, s) == if c == '%' || c == '\0' then "%" else ['%', c]
  {
  }
}
