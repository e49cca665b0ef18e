/** The format state machine of vsnprintf, which may look at a character again in its next state. */
module FormatParser {
  import opened FormatText

  datatype Phase = InChars | InFlags | InWidth | InPrecision | InDatalen | InDatatype

  /** The fields of struct parse that the parser keeps between characters. */
  datatype Parse = Parse(phase: Phase, flags: Flags, width: int, precision: int, len: Datalen)

  const OUTSIDE := Parse(InChars, NO_FLAGS, 0, -1, IntLen)

  /** The parser, what it has written, and the arguments it has not used. */
  datatype Machine = Machine(out: string, p: Parse, args: seq<Arg>)

  predicate IsDigit(ch: char) { '0' <= ch <= '9' }

  predicate IsFlag(ch: char) { ch in "0-+ #" }

  function WithFlag(f: Flags, ch: char): Flags {
    if ch == '0' then f.(zero := true)
    else if ch == '-' then f.(minus := true)
    else if ch == '+' then f.(plus := true)
    else if ch == ' ' then f.(space := true)
    else if ch == '#' then f.(hash := true)
    else f
  }

  function WidthStep(m: Machine, ch: char): (Machine, bool) {
    var p := m.p;
    if IsDigit(ch) then (m.(p := p.(width := p.width * 10 + (ch as int - '0' as int))), true)
    else if ch == '*' then
      var w := NextInt(m.args);
      (m.(p := if w < 0 then p.(width := -w, flags := p.flags.(minus := true)) else p.(width := w),
          args := Others(m.args)), true)
    else if ch == '.' then (m.(p := p.(precision := 0, phase := InPrecision)), true)
    else (m.(p := p.(phase := InDatalen)), false)
  }

  function PrecisionStep(m: Machine, ch: char): (Machine, bool) {
    var p := m.p;
    if IsDigit(ch) then (m.(p := p.(precision := p.precision * 10 + (ch as int - '0' as int))), true)
    else if ch == '*' then
      var n := NextInt(m.args);
      (m.(p := p.(precision := if n < 0 then -1 else n), args := Others(m.args)), true)
    else (m.(p := p.(phase := InDatalen)), false)
  }

  /** The length, and how many characters name it, when `next` follows (NUL at the end). */
  function LengthAt(len: Datalen, ch: char, next: char): (Datalen, nat) {
    if ch == 'l' then (if next == 'l' then (LongLongLen, 2) else (LongLen, 1))
    else if ch == 'h' then (if next == 'h' then (CharLen, 2) else (ShortLen, 1))
    else if ch == 'j' then (IntmaxLen, 1)
    else if ch == 'z' then (SizeLen, 1)
    else if ch == 't' then (PtrdiffLen, 1)
    else (len, 0)
  }

  predicate IsInt(ch: char) { ch in "diuxXopP" }

  /** How an integer conversion writes its argument. */
  datatype IntSpec = IntSpec(flags: Flags, precision: int, base: nat, len: Datalen, signed: bool)

  function IntSpecOf(p: Parse, ch: char): (r: IntSpec)
    ensures IsBase(r.base)
  {
    var f := p.flags;
    if ch == 'd' || ch == 'i' then IntSpec(f.(signed := true), p.precision, 10, p.len, true)
    else if ch == 'x' then IntSpec(f, p.precision, 16, p.len, false)
    else if ch == 'X' then IntSpec(f.(upper := true), p.precision, 16, p.len, false)
    else if ch == 'o' then IntSpec(f, p.precision, 8, p.len, false)
    else if ch == 'p' then IntSpec(f.(hash := true), 16, 16, PtrdiffLen, false)
    else if ch == 'P' then IntSpec(f.(hash := true, upper := true), 16, 16, PtrdiffLen, false)
    else IntSpec(f, p.precision, 10, p.len, false)
  }

  /** What a conversion writes. */
  function Conversion(p: Parse, ch: char, args: seq<Arg>): string {
    var v := NextInt(args);
    if ch == 's' then StrText(p.flags, p.width, p.precision, NextStr(args))
    else if ch == 'c' then StrText(p.flags, p.width, p.precision, if v % 0x100 == 0 then "" else [(v % 0x100) as char])
    else if IsInt(ch) then
      var s := IntSpecOf(p, ch);
      IntText(s.flags, p.width, s.precision, s.base, Converted(s.len, s.signed, v))
    else if ch == 'n' then ""
    else [ch]
  }

  predicate TakesArg(ch: char) { ch in "scdiuxXopPn" }

  /** One turn of the loop: the machine after it, and how many characters it used. */
  function Step(m: Machine, fmt: string): (r: (Machine, nat))
    requires fmt != ""
    ensures r.1 <= |fmt| && (r.1 == 0 ==> Rank(r.0.p.phase) < Rank(m.p.phase))
  {
    var ch, p := fmt[0], m.p;
    match p.phase
    case InChars =>
      if ch == '%' then (m.(p := OUTSIDE.(phase := InFlags)), 1) else (m.(out := m.out + [ch]), 1)
    case InFlags =>
      if IsFlag(ch) then (m.(p := p.(flags := WithFlag(p.flags, ch))), 1) else (m.(p := p.(phase := InWidth)), 0)
    case InWidth =>
      var (next, used) := WidthStep(m, ch);
      (next, if used then 1 else 0)
    case InPrecision =>
      var (next, used) := PrecisionStep(m, ch);
      (next, if used then 1 else 0)
    case InDatalen =>
      var (len, used) := LengthAt(p.len, ch, if |fmt| > 1 then fmt[1] else '\0');
      (m.(p := p.(phase := InDatatype, len := len)), if used <= |fmt| then used else |fmt|)
    case InDatatype =>
      (Machine(m.out + Conversion(p, ch, m.args), OUTSIDE, if TakesArg(ch) then Others(m.args) else m.args), 1)
  }

  function Rank(phase: Phase): nat {
    match phase
    case InChars => 0
    case InFlags => 4
    case InWidth => 3
    case InPrecision => 3
    case InDatalen => 2
    case InDatatype => 1
  }

  /** The loop. It ends although characters are looked at again: then the rank of the state falls. */
  function Run(m: Machine, fmt: string): Machine
    decreases |fmt|, Rank(m.p.phase)
  {
    if fmt == "" then m
    else
      var (next, used) := Step(m, fmt);
      Run(next, fmt[used..])
  }

  lemma RunStep(m: Machine, fmt: string)
    requires fmt != ""
    ensures Run(m, fmt) == Run(Step(m, fmt).0, fmt[Step(m, fmt).1..])
  {
  }

  /** Everything vsnprintf writes, without regard to the size of the buffer. */
  function Formatted(fmt: string, args: seq<Arg>): string {
    Run(Machine("", OUTSIDE, args), fmt).out
  }

  // ----- Format specifications read back -----

  /** A width or precision: none, a number, or `*` for the next argument. */
  datatype Amount = Absent | Given(n: nat) | Star

  /** A conversion as it is meant. */
  datatype Spec = Spec(flags: string, width: Amount, precision: Amount, len: Datalen, conv: char)

  /** A conversion character: one that no earlier part of a specification takes. */
  predicate IsConv(ch: char) { !IsFlag(ch) && !IsDigit(ch) && ch !in "*.hljzt\0" }

  ghost predicate Proper(s: Spec) {
    (forall i :: 0 <= i < |s.flags| ==> IsFlag(s.flags[i])) && IsConv(s.conv)
  }

  function Decimal(n: nat): string {
    if n == 0 then "" else Decimal(n / 10) + [('0' as int + n % 10) as char]
  }

  function LengthText(len: Datalen): string {
    match len
    case CharLen => "hh"
    case ShortLen => "h"
    case IntLen => ""
    case LongLen => "l"
    case LongLongLen => "ll"
    case IntmaxLen => "j"
    case SizeLen => "z"
    case PtrdiffLen => "t"
  }

  /** A width of 0 is written as none. */
  function AmountText(a: Amount): string {
    match a
    case Absent => ""
    case Given(n) => Decimal(n)
    case Star => "*"
  }

  function PrecisionText(a: Amount): string { if a.Absent? then "" else "." + AmountText(a) }

  function Written(s: Spec): string {
    "%" + (s.flags + (AmountText(s.width) + (PrecisionText(s.precision) + (LengthText(s.len) + [s.conv]))))
  }

  function AllFlags(f: Flags, flags: string): Flags
    decreases flags
  {
    if flags == "" then f else AllFlags(WithFlag(f, flags[0]), flags[1..])
  }

  /** A width as it is meant: a negative argument asks for the left side. */
  function WithWidth(m: Machine, a: Amount): Machine {
    var p := m.p;
    match a
    case Absent => m
    case Given(n) => m.(p := p.(width := n))
    case Star =>
      var w := NextInt(m.args);
      m.(p := if w < 0 then p.(width := -w, flags := p.flags.(minus := true)) else p.(width := w),
         args := Others(m.args))
  }

  /** A precision as it is meant: a negative argument is none. */
  function WithPrecision(m: Machine, a: Amount): Machine {
    var p := m.p;
    match a
    case Absent => m
    case Given(n) => m.(p := p.(precision := n))
    case Star =>
      var n := NextInt(m.args);
      m.(p := p.(precision := if n < 0 then -1 else n), args := Others(m.args))
  }

  /** The parser's fields before a conversion is written, and the arguments that are left for it. */
  function Meant(s: Spec, out: string, args: seq<Arg>): Machine {
    var m := Machine(out, Parse(InDatatype, AllFlags(NO_FLAGS, s.flags), 0, -1, s.len), args);
    WithPrecision(WithWidth(m, s.width), s.precision)
  }

  lemma {:induction false} FlagsRun(m: Machine, flags: string, rest: string)
    requires m.p.phase == InFlags && forall i :: 0 <= i < |flags| ==> IsFlag(flags[i])
    ensures Run(m, flags + rest) == Run(m.(p := m.p.(flags := AllFlags(m.p.flags, flags))), rest)
    decreases |flags|
  {
    if flags == "" {
      assert "" + rest == rest;
    } else {
      assert (flags + rest)[1..] == flags[1..] + rest;
      FlagsRun(m.(p := m.p.(flags := WithFlag(m.p.flags, flags[0]))), flags[1..], rest);
    }
  }

  function Digits(value: int, ds: string): int
    decreases ds
  {
    if ds == "" then value else Digits(value * 10 + (ds[0] as int - '0' as int), ds[1..])
  }

  lemma {:induction false} DigitsAppend(value: int, ds: string, ch: char)
    ensures Digits(value, ds + [ch]) == Digits(value, ds) * 10 + (ch as int - '0' as int)
    decreases |ds|
  {
    if ds == "" {
      assert ("" + [ch])[1..] == "" && ("" + [ch])[0] == ch;
    } else {
      assert (ds + [ch])[1..] == ds[1..] + [ch];
      DigitsAppend(value * 10 + (ds[0] as int - '0' as int), ds[1..], ch);
    }
  }

  lemma {:induction false} DecimalReads(n: nat)
    ensures Digits(0, Decimal(n)) == n && Reading(Decimal(n), 10) == n
    ensures forall i :: 0 <= i < |Decimal(n)| ==> IsDigit(Decimal(n)[i])
    ensures n > 0 ==> Decimal(n) != "" && Decimal(n)[0] != '0'
  {
    if n > 0 {
      DecimalReads(n / 10);
      DigitsAppend(0, Decimal(n / 10), ('0' as int + n % 10) as char);
    }
  }

  lemma {:induction false} WidthRun(m: Machine, ds: string, rest: string)
    requires m.p.phase == InWidth && forall i :: 0 <= i < |ds| ==> IsDigit(ds[i])
    ensures Run(m, ds + rest) == Run(m.(p := m.p.(width := Digits(m.p.width, ds))), rest)
    decreases |ds|
  {
    if ds == "" {
      assert "" + rest == rest;
    } else {
      assert (ds + rest)[1..] == ds[1..] + rest;
      WidthRun(WidthStep(m, ds[0]).0, ds[1..], rest);
    }
  }

  lemma {:induction false} PrecisionRun(m: Machine, ds: string, rest: string)
    requires m.p.phase == InPrecision && forall i :: 0 <= i < |ds| ==> IsDigit(ds[i])
    ensures Run(m, ds + rest) == Run(m.(p := m.p.(precision := Digits(m.p.precision, ds))), rest)
    decreases |ds|
  {
    if ds == "" {
      assert "" + rest == rest;
    } else {
      assert (ds + rest)[1..] == ds[1..] + rest;
      PrecisionRun(PrecisionStep(m, ds[0]).0, ds[1..], rest);
    }
  }

  /** The name of a length is recognized in front of a conversion. */
  lemma LengthRead(m: Machine, len: Datalen, tail: string)
    requires m.p.phase == InDatalen && m.p.len == IntLen && tail != "" && IsConv(tail[0])
    ensures Step(m, LengthText(len) + tail) == (m.(p := m.p.(phase := InDatatype, len := len)), |LengthText(len)|)
  {
    var fmt := LengthText(len) + tail;
    assert len.IntLen? ==> fmt[0] == tail[0];
    assert |LengthText(len)| == 1 ==> fmt[0] == LengthText(len)[0] && fmt[1] == tail[0];
  }

  /** From the length on: the conversion is written, and the parser is outside again. */
  lemma ConvRun(m: Machine, len: Datalen, conv: char, rest: string)
    requires m.p.phase == InDatalen && m.p.len == IntLen && IsConv(conv)
    ensures Run(m, LengthText(len) + [conv] + rest) ==
      Run(Done(m.(p := m.p.(phase := InDatatype, len := len)), conv), rest)
  {
    var name, tail := LengthText(len), [conv] + rest;
    var m1 := m.(p := m.p.(phase := InDatatype, len := len));
    assert name + [conv] + rest == name + tail;
    LengthRead(m, len, tail);
    RunStep(m, name + tail);
    assert (name + tail)[|name|..] == tail;
    RunStep(m1, tail);
    assert tail[1..] == rest;
  }

  /** Text that may follow a width or a precision: it starts with nothing that these would take. */
  predicate EndsAmount(t: string) { t != "" && !IsFlag(t[0]) && !IsDigit(t[0]) && t[0] != '*' && t[0] != '.' }

  lemma TailStarts(s: Spec, rest: string)
    requires Proper(s)
    ensures EndsAmount(LengthText(s.len) + [s.conv] + rest)
  {
  }

  /** The width is read up to the precision, the length or the conversion. */
  lemma WidthRead(m: Machine, a: Amount, t: string)
    requires m.p.phase == InWidth && m.p.width == 0
    ensures Run(m, AmountText(a) + t) == Run(WithWidth(m, a), t)
  {
    match a
    case Absent =>
      assert "" + t == t;
    case Given(n) =>
      DecimalReads(n);
      WidthRun(m, Decimal(n), t);
    case Star =>
      assert ("*" + t)[1..] == t;
      assert Step(m, "*" + t) == (WithWidth(m, a), 1);
  }

  /** A precision is read up to the length or the conversion. */
  lemma PrecisionRead(m: Machine, a: Amount, t: string)
    requires m.p.phase == InPrecision && m.p.precision == 0 && !a.Absent?
    ensures Run(m, AmountText(a) + t) == Run(WithPrecision(m, a), t)
  {
    match a
    case Given(n) =>
      DecimalReads(n);
      PrecisionRun(m, Decimal(n), t);
    case Star =>
      assert ("*" + t)[1..] == t;
      assert Step(m, "*" + t) == (WithPrecision(m, a), 1);
  }

  /** Where a width or a precision ends, the length is looked for. */
  lemma AmountEnds(m: Machine, t: string)
    requires (m.p.phase == InWidth || m.p.phase == InPrecision) && EndsAmount(t)
    ensures Run(m, t) == Run(m.(p := m.p.(phase := InDatalen)), t)
  {
    assert t[0..] == t;
    assert Step(m, t) == (m.(p := m.p.(phase := InDatalen)), 0);
  }

  /** From the width on, when there is a precision or not. */
  lemma PrecisionPart(m: Machine, a: Amount, t: string)
    requires m.p.phase == InWidth && m.p.precision == -1 && EndsAmount(t)
    ensures var m' := WithPrecision(m, a);
      Run(m, PrecisionText(a) + t) == Run(m'.(p := m'.p.(phase := InDatalen)), t)
  {
    if a.Absent? {
      assert "" + t == t;
      AmountEnds(m, t);
    } else {
      var m1 := m.(p := m.p.(precision := 0, phase := InPrecision));
      var fmt := PrecisionText(a) + t;
      assert fmt[1..] == AmountText(a) + t;
      assert Step(m, fmt) == (m1, 1);
      PrecisionRead(m1, a, t);
      AmountEnds(WithPrecision(m1, a), t);
    }
  }

  /** What follows the flags of a specification. */
  function FromWidth(s: Spec, rest: string): string {
    AmountText(s.width) + (PrecisionText(s.precision) + (LengthText(s.len) + [s.conv] + rest))
  }

  lemma WrittenRest(s: Spec, rest: string)
    ensures Written(s) + rest == ['%'] + (s.flags + FromWidth(s, rest))
  {
    Regroup(AmountText(s.width), PrecisionText(s.precision) + (LengthText(s.len) + [s.conv]), rest);
    Regroup(PrecisionText(s.precision), LengthText(s.len) + [s.conv], rest);
    Regroup(s.flags, AmountText(s.width) + (PrecisionText(s.precision) + (LengthText(s.len) + [s.conv])), rest);
    Regroup("%", s.flags + (AmountText(s.width) + (PrecisionText(s.precision) + (LengthText(s.len) + [s.conv]))), rest);
  }

  /** The flags end where the width starts: it starts with a digit that is no flag, or is absent. */
  lemma FlagsEnd(m: Machine, s: Spec, rest: string)
    requires Proper(s) && m.p.phase == InFlags
    ensures Run(m, FromWidth(s, rest)) == Run(m.(p := m.p.(phase := InWidth)), FromWidth(s, rest))
  {
    var t3 := LengthText(s.len) + [s.conv] + rest;
    var t2 := PrecisionText(s.precision) + t3;
    var t := AmountText(s.width) + t2;
    TailStarts(s, rest);
    assert t2[0] == if s.precision.Absent? then t3[0] else '.';
    WidthStarts(s.width);
    assert t[0] == if AmountText(s.width) == "" then t2[0] else AmountText(s.width)[0];
    assert t[0..] == t && !IsFlag(t[0]);
  }

  lemma WidthStarts(a: Amount)
    ensures AmountText(a) != "" ==> !IsFlag(AmountText(a)[0])
  {
    if a.Given? { DecimalReads(a.n); }
  }

  /** What the machine is after a conversion. */
  function Done(m: Machine, conv: char): Machine {
    Machine(m.out + Conversion(m.p, conv, m.args), OUTSIDE, if TakesArg(conv) then Others(m.args) else m.args)
  }

  /** The order in which the parser fills its fields does not matter. */
  lemma MeantFields(s: Spec, m: Machine, out: string, args: seq<Arg>)
    requires m == Machine(out, OUTSIDE.(phase := InWidth, flags := AllFlags(NO_FLAGS, s.flags)), args)
    ensures var m' := WithPrecision(WithWidth(m, s.width), s.precision);
      Meant(s, out, args) == m'.(p := m'.p.(phase := InDatatype, len := s.len)) && m'.p.len == IntLen
  {
  }

  /** Every specification is parsed as it is meant: its conversion is written, and parsing goes on after it. */
  lemma SpecParsed(s: Spec, out: string, args: seq<Arg>, rest: string)
    requires Proper(s)
    ensures Run(Machine(out, OUTSIDE, args), Written(s) + rest) == Run(Done(Meant(s, out, args), s.conv), rest)
  {
    FlagsPart(s, out, args, rest);
    var m := Machine(out, OUTSIDE.(phase := InWidth, flags := AllFlags(NO_FLAGS, s.flags)), args);
    AfterFlags(m, s, rest);
    MeantFields(s, m, out, args);
  }

  /** A specification is read up to its width. */
  lemma FlagsPart(s: Spec, out: string, args: seq<Arg>, rest: string)
    requires Proper(s)
    ensures Run(Machine(out, OUTSIDE, args), Written(s) + rest) ==
      Run(Machine(out, OUTSIDE.(phase := InWidth, flags := AllFlags(NO_FLAGS, s.flags)), args), FromWidth(s, rest))
  {
    WrittenRest(s, rest);
    var m0, t := Machine(out, OUTSIDE, args), s.flags + FromWidth(s, rest);
    var m1 := m0.(p := OUTSIDE.(phase := InFlags));
    assert (['%'] + t)[1..] == t;
    assert Run(m0, ['%'] + t) == Run(m1, t);
    FlagsRun(m1, s.flags, FromWidth(s, rest));
    FlagsEnd(m1.(p := m1.p.(flags := AllFlags(NO_FLAGS, s.flags))), s, rest);
  }

  /** From the width to the end of a specification. */
  lemma AfterFlags(m: Machine, s: Spec, rest: string)
    requires Proper(s) && m.p == OUTSIDE.(phase := InWidth, flags := m.p.flags)
    ensures var m' := WithPrecision(WithWidth(m, s.width), s.precision);
      Run(m, FromWidth(s, rest)) == Run(Done(m'.(p := m'.p.(phase := InDatatype, len := s.len)), s.conv), rest)
  {
    var t3 := LengthText(s.len) + [s.conv] + rest;
    var t2 := PrecisionText(s.precision) + t3;
    TailStarts(s, rest);
    WidthRead(m, s.width, t2);
    var m1 := WithWidth(m, s.width);
    PrecisionPart(m1, s.precision, t3);
    var m2 := WithPrecision(m1, s.precision);
    ConvRun(m2.(p := m2.p.(phase := InDatalen)), s.len, s.conv, rest);
  }

  /** Text without conversions is copied. */
  lemma {:induction false} PlainCopied(m: Machine, text: string, rest: string)
    requires m.p == OUTSIDE && '%' !in text
    ensures Run(m, text + rest) == Run(m.(out := m.out + text), rest)
    decreases |text|
  {
    if text == "" {
      assert "" + rest == rest && m.out + "" == m.out;
    } else {
      assert (text + rest)[1..] == text[1..] + rest;
      assert (m.out + [text[0]]) + text[1..] == m.out + text;
      PlainCopied(m.(out := m.out + [text[0]]), text[1..], rest);
    }
  }

  /** A piece of a format: plain text, or a conversion. */
  datatype Piece = Plain(text: string) | Conv(spec: Spec)

  ghost predicate ProperPiece(p: Piece) {
    match p
    case Plain(text) => '%' !in text && '\0' !in text
    case Conv(s) => Proper(s)
  }

  function PieceText(p: Piece): string {
    match p
    case Plain(text) => text
    case Conv(s) => Written(s)
  }

  /** The machine after a piece, as it is meant. */
  function After(p: Piece, out: string, args: seq<Arg>): Machine {
    match p
    case Plain(text) => Machine(out + text, OUTSIDE, args)
    case Conv(s) => Done(Meant(s, out, args), s.conv)
  }

  function Format(pieces: seq<Piece>): string {
    if pieces == [] then "" else PieceText(pieces[0]) + Format(pieces[1..])
  }

  /** What the pieces are meant to write, one after the other. */
  function Rendered(pieces: seq<Piece>, out: string, args: seq<Arg>): string
    decreases |pieces|
  {
    if pieces == [] then out
    else
      var m := After(pieces[0], out, args);
      Rendered(pieces[1..], m.out, m.args)
  }

  lemma PieceParsed(p: Piece, out: string, args: seq<Arg>, rest: string)
    requires ProperPiece(p)
    ensures After(p, out, args).p == OUTSIDE
    ensures Run(Machine(out, OUTSIDE, args), PieceText(p) + rest) == Run(After(p, out, args), rest)
  {
    match p
    case Plain(text) => PlainCopied(Machine(out, OUTSIDE, args), text, rest);
    case Conv(s) => SpecParsed(s, out, args, rest);
  }

  /** Parsing a format gives what its pieces are meant to write. */
  lemma {:induction false} FormatParsed(pieces: seq<Piece>, out: string, args: seq<Arg>)
    requires forall i :: 0 <= i < |pieces| ==> ProperPiece(pieces[i])
    ensures Run(Machine(out, OUTSIDE, args), Format(pieces)).out == Rendered(pieces, out, args)
    decreases |pieces|
  {
    if pieces != [] {
      assert ProperPiece(pieces[0]);
      PieceParsed(pieces[0], out, args, Format(pieces[1..]));
      var m := After(pieces[0], out, args);
      FormatParsed(pieces[1..], m.out, m.args);
    }
  }

  // ----- Percent signs and pointers -----

  /** `%%` writes a percent sign and takes no argument. */
  lemma PercentWritten(out: string, args: seq<Arg>)
    ensures Rendered([Conv(Spec("", Absent, Absent, IntLen, '%'))], out, args) == out + "%"
    ensures Format([Conv(Spec("", Absent, Absent, IntLen, '%'))]) == "%%"
  {
  }
}
