/** What each conversion of vsnprintf writes, said of the specification itself and not of the parser's fields. */
module FormatMeaning {
  import opened Common
  import opened FormatText
  import opened FormatParser

  // ----- What a specification asks for -----

  /** The flag `-`, or a negative width argument. */
  predicate AtLeft(s: Spec, args: seq<Arg>) { '-' in s.flags || (s.width.Star? && NextInt(args) < 0) }

  function FieldWidth(s: Spec, args: seq<Arg>): nat {
    match s.width
    case Absent => 0
    case Given(n) => n
    case Star => if NextInt(args) < 0 then -NextInt(args) else NextInt(args)
  }

  function AfterWidth(s: Spec, args: seq<Arg>): seq<Arg> { if s.width.Star? then Others(args) else args }

  /** The precision, -1 for none: a negative argument is none. */
  function FieldPrecision(s: Spec, args: seq<Arg>): int {
    match s.precision
    case Absent => -1
    case Given(n) => n
    case Star => var n := NextInt(AfterWidth(s, args)); if n < 0 then -1 else n
  }

  /** The arguments from the converted one on. */
  function FromValue(s: Spec, args: seq<Arg>): seq<Arg> {
    if s.precision.Star? then Others(AfterWidth(s, args)) else AfterWidth(s, args)
  }

  lemma InFirst(flags: string, ch: char)
    requires flags != ""
    ensures ch in flags <==> ch == flags[0] || ch in flags[1..]
  {
    assert flags == [flags[0]] + flags[1..];
  }

  lemma FlagsInFirst(flags: string)
    requires flags != ""
    ensures '0' in flags <==> flags[0] == '0' || '0' in flags[1..]
    ensures '-' in flags <==> flags[0] == '-' || '-' in flags[1..]
    ensures '+' in flags <==> flags[0] == '+' || '+' in flags[1..]
    ensures ' ' in flags <==> flags[0] == ' ' || ' ' in flags[1..]
    ensures '#' in flags <==> flags[0] == '#' || '#' in flags[1..]
  {
    InFirst(flags, '0');
    InFirst(flags, '-');
    InFirst(flags, '+');
    InFirst(flags, ' ');
    InFirst(flags, '#');
  }

  /** Each flag character sets its own flag. */
  lemma {:induction false} FlagsAre(f: Flags, flags: string)
    ensures AllFlags(f, flags) ==
      Flags(f.zero || '0' in flags, f.minus || '-' in flags, f.plus || '+' in flags, f.signed, f.upper,
            f.space || ' ' in flags, f.hash || '#' in flags)
    decreases |flags|
  {
    if flags != "" {
      FlagsInFirst(flags);
      FlagsAre(WithFlag(f, flags[0]), flags[1..]);
    }
  }

  /** The flags as the parser should hold them. */
  function FlagsOf(s: Spec, args: seq<Arg>): Flags {
    Flags('0' in s.flags, AtLeft(s, args), '+' in s.flags, false, false, ' ' in s.flags, '#' in s.flags)
  }

  lemma MeantIs(s: Spec, out: string, args: seq<Arg>)
    ensures Meant(s, out, args) ==
      Machine(out, Parse(InDatatype, FlagsOf(s, args), FieldWidth(s, args), FieldPrecision(s, args), s.len),
              FromValue(s, args))
  {
    FlagsAre(NO_FLAGS, s.flags);
  }

  // ----- Numbers -----

  /** A number in its field: blanks, a sign, a prefix, digits, blanks. */
  datatype Field = Field(left: string, sign: string, prefix: string, digits: string, right: string) {
    function Text(): string { left + sign + prefix + digits + right }
  }

  predicate Blank(t: string) { forall i :: 0 <= i < |t| ==> t[i] == ' ' }

  predicate Alphabet(digits: string, capital: bool) {
    forall i :: 0 <= i < |digits| ==> digits[i] in (if capital then "0123456789ABCDEF" else "0123456789abcdef")
  }

  lemma {:induction false} RunAlphabet(value: nat, base: nat, upper: bool, n: nat)
    requires IsBase(base)
    ensures Alphabet(DigitRun(value, base, upper, n), upper)
    decreases n
  {
    if n > 0 {
      RunAlphabet(Quotient(value, base), base, upper, n - 1);
      DigitIn(Remainder(value, base), upper);
    }
  }

  lemma DigitIn(d: nat, upper: bool)
    requires d < 16
    ensures Digit(d, upper) in (if upper then "0123456789ABCDEF" else "0123456789abcdef")
  {
    var all := if upper then "0123456789ABCDEF" else "0123456789abcdef";
    assert all[d] == Digit(d, upper);
  }

  /** How a field is laid out: at the left; or with zeros before the digits; or at the right. */
  predicate LaidOut(x: Field, width: int, left: bool, zeros: bool, least: nat) {
    && Blank(x.left) && Blank(x.right)
    && (left || zeros ==> x.left == "") && (!left ==> x.right == "")
    && |x.digits| == (if zeros && !left then Max(least, width - |x.sign| - |x.prefix|) else least)
    && |x.Text()| == Max(width, |x.sign| + |x.prefix| + least)
  }

  lemma PaddedDigits(magnitude: nat, base: nat, upper: bool, n: nat, pad: int)
    requires IsBase(base) && n >= Count(magnitude, base)
    ensures var t := Repeat('0', pad) + DigitRun(magnitude, base, upper, n);
      Reading(t, base) == magnitude && Alphabet(t, upper) && |t| == n + Max(pad, 0)
  {
    var run := DigitRun(magnitude, base, upper, n);
    DigitsRead(magnitude, base, upper, n);
    RunAlphabet(magnitude, base, upper, n);
    var k := if pad < 0 then 0 else pad;
    assert Repeat('0', pad) == Repeat('0', k);
    ZerosRead(k, run, base);
  }

  /** The parts of a number's text are a field. */
  lemma PartsField(f: Flags, pad: int, sign: string, prefix: string, run: string) returns (x: Field)
    ensures Parts(f, pad, sign, prefix, run) == x.Text() && x.sign == sign && x.prefix == prefix
    ensures x.digits == Repeat('0', if f.zero && !f.minus then pad else 0) + run
    ensures x.left == Repeat(' ', if !f.minus && !f.zero then pad else 0)
    ensures x.right == Repeat(' ', if f.minus then pad else 0)
  {
    var zeros := if f.zero && !f.minus then Repeat('0', pad) else "";
    var left := if !f.minus && !f.zero then Repeat(' ', pad) else "";
    var right := if f.minus then Repeat(' ', pad) else "";
    x := Field(left, sign, prefix, zeros + run, right);
    Regroup(left + sign + prefix, zeros, run);
  }

  lemma FieldLaidOut(x: Field, f: Flags, width: int, least: nat)
    requires var pad := width - (least + |x.sign| + |x.prefix|);
      && |x.digits| == least + Max(if f.zero && !f.minus then pad else 0, 0)
      && x.left == Repeat(' ', if !f.minus && !f.zero then pad else 0)
      && x.right == Repeat(' ', if f.minus then pad else 0)
    ensures LaidOut(x, width, f.minus, f.zero, least)
  {
  }

  /** An integer's text is such a field. */
  lemma IntField(f: Flags, width: int, precision: int, base: nat, value: nat) returns (x: Field)
    requires IsBase(base) && value < TWO64
    ensures IntText(f, width, precision, base, value) == x.Text()
    ensures x.sign == Sign(f, Negative(f, value)) && x.prefix == Prefix(f, base)
    ensures Reading(x.digits, base) == Magnitude(f, value) && Alphabet(x.digits, f.upper)
    ensures LaidOut(x, width, f.minus, f.zero, Wanted(f, precision, base, Magnitude(f, value)))
  {
    var magnitude, pad := Magnitude(f, value), width - Chars(f, precision, base, value);
    var n := Wanted(f, precision, base, magnitude);
    PaddedDigits(magnitude, base, f.upper, n, if f.zero && !f.minus then pad else 0);
    x := PartsField(f, pad, Sign(f, Negative(f, value)), Prefix(f, base), DigitRun(magnitude, base, f.upper, n));
    FieldLaidOut(x, f, width, n);
  }

  /** The number of values of an argument's type. */
  function Modulus(s: Spec): nat {
    if s.conv == 'p' || s.conv == 'P' then 0x1_0000_0000_0000_0000
    else if LengthText(s.len) == "hh" then 0x100
    else if LengthText(s.len) == "h" then 0x1_0000
    else if LengthText(s.len) == "" then 0x1_0000_0000
    else 0x1_0000_0000_0000_0000
  }

  /** The value of an argument as one of its type: signed for `d` and `i`. */
  function ValueOf(s: Spec, v: int): int {
    var m := Modulus(s);
    var r := v % m;
    if (s.conv == 'd' || s.conv == 'i') && r >= m / 2 then r - m else r
  }

  /** A value that fits its type is itself. */
  lemma FittingValue(s: Spec, v: int)
    requires if s.conv == 'd' || s.conv == 'i' then -(Modulus(s) / 2) <= v < Modulus(s) / 2 else 0 <= v < Modulus(s)
    ensures ValueOf(s, v) == v
  {
  }

  function BaseOf(conv: char): nat { if conv == 'o' then 8 else if conv in "xXpP" then 16 else 10 }

  /** Digits that a number must have: its own, at least one, as many as the precision says, and 16 for a pointer. The
      alternate octal form starts with a zero. */
  function LeastDigits(s: Spec, precision: int, n: nat): (d: nat)
  {
    var own := Count(n, BaseOf(s.conv));
    var wanted := if s.conv == 'p' || s.conv == 'P' then 16 else precision;
    Max(Max(1, wanted), if s.conv == 'o' && '#' in s.flags then own + 1 else own)
  }

  predicate Signed(sign: string, s: Spec, n: int) {
    sign == if n < 0 then "-" else if '+' in s.flags then "+" else if ' ' in s.flags then " " else ""
  }

  predicate Prefixed(prefix: string, s: Spec) {
    prefix ==
      if s.conv == 'p' || (s.conv == 'x' && '#' in s.flags) then "0x"
      else if s.conv == 'P' || (s.conv == 'X' && '#' in s.flags) then "0X"
      else ""
  }

  /** The field shows the value of v as the specification asks. */
  ghost predicate Shows(x: Field, s: Spec, args: seq<Arg>) {
    var n := ValueOf(s, NextInt(FromValue(s, args)));
    var magnitude := if n < 0 then -n else n;
    && Signed(x.sign, s, n) && Prefixed(x.prefix, s)
    && Reading(x.digits, BaseOf(s.conv)) == magnitude && Alphabet(x.digits, s.conv == 'X' || s.conv == 'P')
    && LaidOut(x, FieldWidth(s, args), AtLeft(s, args), '0' in s.flags,
               LeastDigits(s, FieldPrecision(s, args), magnitude))
  }

  lemma ValueConverted(s: Spec, f: Flags, len: Datalen, v: int)
    requires s.conv in "diuxXopP" && len == (if s.conv in "pP" then PtrdiffLen else s.len)
    requires f.signed == (s.conv in "di")
    ensures var n, c := ValueOf(s, v), Converted(len, s.conv in "di", v);
      (Negative(f, c) <==> n < 0) && Magnitude(f, c) == if n < 0 then -n else n
  {
  }

  lemma WantedIs(s: Spec, f: Flags, precision: int, n: nat)
    requires f.hash == ('#' in s.flags || s.conv in "pP")
    ensures Wanted(f, if s.conv in "pP" then 16 else precision, BaseOf(s.conv), n) == LeastDigits(s, precision, n)
  {
  }

  /** The fields for a conversion character, as the specification asks. */
  lemma IntSpecIs(s: Spec, args: seq<Arg>)
    requires s.conv in "diuxXopP"
    ensures var f := FlagsOf(s, args);
      IntSpecOf(Parse(InDatatype, f, FieldWidth(s, args), FieldPrecision(s, args), s.len), s.conv) ==
        IntSpec(NumberFlags(s, args),
                if s.conv in "pP" then 16 else FieldPrecision(s, args), BaseOf(s.conv),
                if s.conv in "pP" then PtrdiffLen else s.len, s.conv in "di")
  {
  }

  /** The flags that a conversion character adds to those of the specification. */
  function NumberFlags(s: Spec, args: seq<Arg>): Flags {
    var f := FlagsOf(s, args);
    f.(signed := s.conv in "di", upper := s.conv in "XP", hash := f.hash || s.conv in "pP")
  }

  function ValueLength(s: Spec): Datalen { if s.conv in "pP" then PtrdiffLen else s.len }

  function DigitPrecision(s: Spec, precision: int): int { if s.conv in "pP" then 16 else precision }

  lemma FieldShows(x: Field, s: Spec, args: seq<Arg>, f: Flags, c: nat)
    requires s.conv in "diuxXopP" && f == NumberFlags(s, args) && c < TWO64
    requires c == Converted(ValueLength(s), s.conv in "di", NextInt(FromValue(s, args)))
    requires x.sign == Sign(f, Negative(f, c)) && x.prefix == Prefix(f, BaseOf(s.conv))
    requires Reading(x.digits, BaseOf(s.conv)) == Magnitude(f, c) && Alphabet(x.digits, f.upper)
    requires LaidOut(x, FieldWidth(s, args), f.minus, f.zero,
      Wanted(f, DigitPrecision(s, FieldPrecision(s, args)), BaseOf(s.conv), Magnitude(f, c)))
    ensures Shows(x, s, args)
  {
    ValueConverted(s, f, ValueLength(s), NextInt(FromValue(s, args)));
    WantedIs(s, f, FieldPrecision(s, args), Magnitude(f, c));
  }

  /** What a number's conversion writes, from the fields that it sets. */
  lemma ConversionIs(s: Spec, args: seq<Arg>, c: nat)
    requires s.conv in "diuxXopP" && c == Converted(ValueLength(s), s.conv in "di", NextInt(FromValue(s, args)))
    ensures Conversion(Parse(InDatatype, FlagsOf(s, args), FieldWidth(s, args), FieldPrecision(s, args), s.len), s.conv,
                       FromValue(s, args)) ==
      IntText(NumberFlags(s, args), FieldWidth(s, args), DigitPrecision(s, FieldPrecision(s, args)), BaseOf(s.conv), c)
  {
    IntSpecIs(s, args);
  }

  lemma NumberConverted(s: Spec, args: seq<Arg>) returns (x: Field)
    requires s.conv in "diuxXopP"
    ensures Conversion(Parse(InDatatype, FlagsOf(s, args), FieldWidth(s, args), FieldPrecision(s, args), s.len), s.conv,
                       FromValue(s, args)) == x.Text()
    ensures Shows(x, s, args)
  {
    var f, c := NumberFlags(s, args), Converted(ValueLength(s), s.conv in "di", NextInt(FromValue(s, args)));
    ConversionIs(s, args, c);
    x := IntField(f, FieldWidth(s, args), DigitPrecision(s, FieldPrecision(s, args)), BaseOf(s.conv), c);
    FieldShows(x, s, args, f, c);
  }

  /** Every number is written as its specification asks, whatever its flags, width, precision and length, and takes the
      arguments up to its own. */
  lemma NumberWritten(s: Spec, out: string, args: seq<Arg>) returns (x: Field)
    requires s.conv in "diuxXopP"
    ensures After(Conv(s), out, args) == Machine(out + x.Text(), OUTSIDE, Others(FromValue(s, args)))
    ensures Shows(x, s, args)
  {
    MeantIs(s, out, args);
    x := NumberConverted(s, args);
  }

  // ----- Strings and characters -----

  /** The characters that a precision leaves of a text. */
  function Shortened(t: string, precision: int): string { if 0 <= precision < |t| then t[..precision] else t }

  /** In its field at the left, or at the right after blanks or zeros. */
  function Placed(t: string, s: Spec, args: seq<Arg>): string {
    var pad := FieldWidth(s, args) - |t|;
    if AtLeft(s, args) then t + Repeat(' ', pad)
    else Repeat(if '0' in s.flags then '0' else ' ', pad) + t
  }

  lemma StringWritten(s: Spec, out: string, args: seq<Arg>)
    requires s.conv == 's'
    ensures After(Conv(s), out, args) ==
      Machine(out + Placed(Shortened(NextStr(FromValue(s, args)), FieldPrecision(s, args)), s, args), OUTSIDE,
              Others(FromValue(s, args)))
  {
    MeantIs(s, out, args);
  }

  /** A character is written as a text of one, and the character 0 as an empty one. */
  lemma CharWritten(s: Spec, out: string, args: seq<Arg>)
    requires s.conv == 'c'
    ensures var v := NextInt(FromValue(s, args)) % 0x100;
      After(Conv(s), out, args) ==
        Machine(out + Placed(Shortened(if v == 0 then "" else [v as char], FieldPrecision(s, args)), s, args), OUTSIDE,
                Others(FromValue(s, args)))
  {
    MeantIs(s, out, args);
  }

  /** `n` writes nothing, but takes its argument; any character that is no conversion is written itself, and takes
      none. */
  lemma OtherWritten(s: Spec, out: string, args: seq<Arg>)
    requires s.conv !in "scdiuxXopP"
    ensures After(Conv(s), out, args) ==
      if s.conv == 'n' then Machine(out, OUTSIDE, Others(FromValue(s, args)))
      else Machine(out + [s.conv], OUTSIDE, FromValue(s, args))
  {
    MeantIs(s, out, args);
  }

  // ----- Whole formats -----

  lemma DecimalExamples()
    ensures Decimal(3) == "3" && Decimal(4) == "4" && Decimal(17) == "17"
  {
    assert Decimal(0) == "";
    assert Decimal(3) == Decimal(0) + ['3'] && Decimal(4) == Decimal(0) + ['4'] && Decimal(1) == Decimal(0) + ['1'];
    assert Decimal(17) == Decimal(1) + ['7'];
  }

  /** How specifications are written: with flags and a width; */
  lemma WidthExample(conv: char)
    ensures Written(Spec("0", Given(4), Absent, IntLen, conv)) == "%04" + [conv]
  {
    DecimalExamples();
  }

  /** with a precision and a length; */
  lemma PrecisionExample(conv: char)
    ensures Written(Spec("-+", Given(17), Given(3), LongLen, conv)) == "%-+17.3l" + [conv]
    ensures Written(Spec("", Absent, Given(0), ShortLen, conv)) == "%.h" + [conv]
  {
    DecimalExamples();
  }

  /** with arguments for width and precision; and the other lengths. */
  lemma StarExample(conv: char)
    ensures Written(Spec(" #", Star, Star, CharLen, conv)) == "% #*.*hh" + [conv]
    ensures LengthText(LongLongLen) == "ll" && LengthText(IntmaxLen) == "j" && LengthText(SizeLen) == "z"
    ensures LengthText(PtrdiffLen) == "t"
  {
  }

  /** A format of text, one number, and text. */
  lemma NumberFormatted(before: string, s: Spec, after: string, args: seq<Arg>) returns (x: Field)
    requires Proper(s) && s.conv in "diuxXopP" && ProperPiece(Plain(before)) && ProperPiece(Plain(after))
    ensures Formatted(before + Written(s) + after, args) == before + x.Text() + after && Shows(x, s, args)
  {
    var pieces := [Plain(before), Conv(s), Plain(after)];
    FormatParsed(pieces, "", args);
    x := NumberWritten(s, before, args);
    FormatOfThree(before, s, after);
    RenderedThree(before, s, after, args);
  }

  lemma FormatFirst(p: Piece, rest: seq<Piece>)
    ensures Format([p] + rest) == PieceText(p) + Format(rest)
  {
    assert ([p] + rest)[1..] == rest;
  }

  lemma RenderedFirst(p: Piece, rest: seq<Piece>, out: string, args: seq<Arg>)
    ensures Rendered([p] + rest, out, args) == Rendered(rest, After(p, out, args).out, After(p, out, args).args)
  {
    assert ([p] + rest)[1..] == rest;
  }

  lemma FormatOfThree(before: string, s: Spec, after: string)
    ensures Format([Plain(before), Conv(s), Plain(after)]) == before + Written(s) + after
  {
    FormatFirst(Plain(before), [Conv(s), Plain(after)]);
    assert [Plain(before)] + [Conv(s), Plain(after)] == [Plain(before), Conv(s), Plain(after)];
    FormatFirst(Conv(s), [Plain(after)]);
    assert [Conv(s)] + [Plain(after)] == [Conv(s), Plain(after)];
    FormatFirst(Plain(after), []);
    assert [Plain(after)] + [] == [Plain(after)] && after + "" == after;
    Regroup(before, Written(s), after);
  }

  lemma RenderedThree(before: string, s: Spec, after: string, args: seq<Arg>)
    ensures Rendered([Plain(before), Conv(s), Plain(after)], "", args) == After(Conv(s), before, args).out + after
  {
    RenderedFirst(Plain(before), [Conv(s), Plain(after)], "", args);
    assert [Plain(before)] + [Conv(s), Plain(after)] == [Plain(before), Conv(s), Plain(after)];
    assert "" + before == before;
    RenderedFirst(Conv(s), [Plain(after)], before, args);
    assert [Conv(s)] + [Plain(after)] == [Conv(s), Plain(after)];
    var m := After(Conv(s), before, args);
    RenderedFirst(Plain(after), [], m.out, m.args);
    assert [Plain(after)] + [] == [Plain(after)];
  }
}
