/** vsnprintf in place: a sized buffer, and a position that runs on past its end. */
module Format {
  import opened FormatText
  import opened FormatParser

  class Printer {
    const buf: array<char>
    var pos: nat
    var phase: Phase
    var flags: Flags
    var width: int
    var precision: int
    var len: Datalen
    var base: nat
    var args: seq<Arg>
    ghost var out: string      // what has been written, with what did not fit

    constructor (buf: array<char>, args: seq<Arg>)
      ensures this.buf == buf && Fits() && View() == Machine("", OUTSIDE, args)
    {
      this.buf, this.args := buf, args;
      pos, out := 0, "";
      phase, flags, width, precision, len, base := InChars, NO_FLAGS, 0, -1, IntLen, 10;
    }

    /** The buffer holds as much of the output as it can. */
    ghost predicate Fits()
      reads this`pos, this`out, buf
    {
      pos == |out| && forall i :: 0 <= i < pos && i < buf.Length ==> buf[i] == out[i]
    }

    /** The parser as a value; its fields mean nothing between conversions. */
    ghost function View(): Machine
      reads this
    {
      Machine(out, if phase == InChars then OUTSIDE else Parse(phase, flags, width, precision, len), args)
    }

    /** addchar. */
    method AddChar(ch: char)
      requires Fits()
      modifies this`pos, this`out, buf
      ensures Fits() && out == old(out) + [ch]
    {
      if pos < buf.Length { buf[pos] := ch; }
      pos := pos + 1;
      out := out + [ch];
    }

    /** Pads until no more than `target` of the width is left. */
    method Pad(ch: char, target: int)
      requires Fits()
      modifies this`pos, this`out, this`width, buf
      ensures Fits() && out == old(out) + Repeat(ch, old(width) - target)
      ensures width == if old(width) > target then target else old(width)
    {
      ghost var was, n := out, 0;
      assert was + Repeat(ch, 0) == was;
      while width > target
        invariant Fits() && n >= 0 && width == old(width) - n && (n == 0 || width >= target)
        invariant out == was + Repeat(ch, n)
        decreases width - target
      {
        assert Repeat(ch, n) + [ch] == Repeat(ch, n + 1);
        AddChar(ch);
        width := width - 1;
        n := n + 1;
      }
      assert Repeat(ch, n) == Repeat(ch, old(width) - target);
    }

    /** Adds characters one by one. */
    method AddChars(s: string)
      requires Fits()
      modifies this`pos, this`out, buf
      ensures Fits() && out == old(out) + s
    {
      ghost var was := out;
      var i := 0;
      assert was + s[..0] == was;
      while i < |s|
        invariant i <= |s| && Fits() && out == was + s[..i]
      {
        assert s[..i] + [s[i]] == s[..i + 1];
        AddChar(s[i]);
        i := i + 1;
      }
      assert s[..|s|] == s;
    }

    /** addstring. */
    method AddString(s: string)
      requires Fits()
      modifies this`pos, this`out, this`width, buf
      ensures Fits() && out == old(out) + StrText(flags, old(width), precision, s)
    {
      var slen := |s|;
      if precision > -1 && precision < slen { slen := precision; }
      assert s[..slen] == Cut(s, precision);
      ghost var was, pad := out, width - slen;
      PadIf(!flags.minus, if flags.zero then '0' else ' ', slen);
      AddChars(s[..slen]);
      PadIf(flags.minus, ' ', slen);
      JoinString(was, flags, pad, s[..slen]);
    }

    /** Padding on one side, if this is the side for it. */
    method PadIf(here: bool, ch: char, target: int)
      requires Fits()
      modifies this`pos, this`out, this`width, buf
      ensures Fits() && out == old(out) + (if here then Repeat(ch, old(width) - target) else "")
      ensures !here ==> width == old(width)
    {
      assert out + "" == out;
      if here && width > target { Pad(ch, target); }
    }

    /** The number of digits of a value. */
    method CountDigits(value: nat) returns (ndigits: nat)
      requires IsBase(base)
      ensures ndigits == Count(value, base)
    {
      ndigits := 0;
      var tmpval := value;
      while tmpval != 0
        invariant ndigits + Count(tmpval, base) == Count(value, base)
        decreases tmpval
      {
        tmpval := Quotient(tmpval, base);
        ndigits := ndigits + 1;
      }
    }

    /** Writes digits from the last one backwards, those that the buffer has room for. */
    method WriteDigits(magnitude: nat, n: nat)
      requires Fits() && IsBase(base)
      modifies this`pos, this`out, buf
      ensures Fits() && out == old(out) + DigitRun(magnitude, base, flags.upper, n)
    {
      ghost var was, run, done := out, DigitRun(magnitude, base, flags.upper, n), "";
      pos := pos + n;
      var ptr, ndigits, value := pos, n, magnitude;
      while ndigits > 0
        invariant 0 <= ndigits <= n && ptr == |was| + ndigits && |done| == n - ndigits && pos == |was| + n
        invariant DigitRun(value, base, flags.upper, ndigits) + done == run
        invariant forall i :: 0 <= i < |was| && i < buf.Length ==> buf[i] == was[i]
        invariant forall i :: ptr <= i < pos && i < buf.Length ==> buf[i] == done[i - ptr]
      {
        ptr := ptr - 1;
        ndigits := ndigits - 1;
        var d := Digit(Remainder(value, base), flags.upper);
        if ptr < buf.Length { buf[ptr] := d; }
        Regroup(DigitRun(Quotient(value, base), base, flags.upper, ndigits), [d], done);
        done := [d] + done;
        value := Quotient(value, base);
      }
      assert done == run;
      out := was + run;
    }

    /** How many digits to write: addint's first part, which may raise the precision. */
    method Required(magnitude: nat) returns (ndigits: nat)
      requires IsBase(base)
      modifies this`precision
      ensures ndigits == Wanted(flags, old(precision), base, magnitude)
    {
      ndigits := CountDigits(magnitude);
      if flags.hash && base == 8 {
        if precision < ndigits + 1 { precision := ndigits + 1; }
      }
      if ndigits < precision {
        ndigits := precision;
      } else if magnitude == 0 {
        ndigits := 1;
      }
    }

    /** addint. */
    method AddInt(value0: nat)
      requires Fits() && IsBase(base) && value0 < TWO64
      modifies this`pos, this`out, this`width, this`precision, buf
      ensures Fits() && out == old(out) + IntText(flags, old(width), old(precision), base, value0)
    {
      var minus, value := false, value0;
      if flags.signed && value >= TWO63 {
        minus, value := true, TWO64 - value;
      }
      var ndigits := Required(value);
      var nchars := CountChars(ndigits, minus);
      AddParts(minus, value, ndigits, nchars);
    }

    /** The number of digits, sign and prefix characters. */
    method CountChars(ndigits: nat, minus: bool) returns (nchars: nat)
      ensures nchars == ndigits + |Sign(flags, minus)| + |Prefix(flags, base)|
    {
      nchars := ndigits;
      if minus || flags.plus || flags.space { nchars := nchars + 1; }
      if flags.hash && base == 16 { nchars := nchars + 2; }
    }

    /** The part of addint that writes. */
    method AddParts(minus: bool, magnitude: nat, ndigits: nat, nchars: nat)
      requires Fits() && IsBase(base)
      modifies this`pos, this`out, this`width, buf
      ensures Fits() && out == old(out) + Parts(flags, old(width) - nchars, Sign(flags, minus), Prefix(flags, base),
                                               DigitRun(magnitude, base, flags.upper, ndigits))
    {
      ghost var was, pad := out, width - nchars;
      PadIf(!flags.minus && !flags.zero, ' ', nchars);
      AddSign(minus);
      AddPrefix();
      PadIf(flags.zero && !flags.minus, '0', nchars);
      WriteDigits(magnitude, ndigits);
      PadIf(flags.minus, ' ', nchars);
      JoinInt(was, flags, pad, Sign(flags, minus), Prefix(flags, base),
        DigitRun(magnitude, base, flags.upper, ndigits));
    }

    method AddSign(minus: bool)
      requires Fits()
      modifies this`pos, this`out, buf
      ensures Fits() && out == old(out) + Sign(flags, minus)
    {
      assert out + "" == out;
      if minus {
        AddChar('-');
      } else if flags.plus {
        AddChar('+');
      } else if flags.space {
        AddChar(' ');
      }
    }

    method AddPrefix()
      requires Fits()
      modifies this`pos, this`out, buf
      ensures Fits() && out == old(out) + Prefix(flags, base)
    {
      assert out + "" == out;
      if flags.hash && base == 16 {
        ghost var was := out;
        AddChar('0');
        AddChar(if flags.upper then 'X' else 'x');
        assert out == was + Prefix(flags, base);
      }
    }

    // ----- The parser -----

    /** Outside conversions. */
    method TurnChars(ch: char)
      requires Fits() && phase == InChars
      modifies this, buf
      ensures Fits() && (ch == '%' ==> View() == old(View()).(p := OUTSIDE.(phase := InFlags)))
      ensures ch != '%' ==> View() == old(View()).(out := old(out) + [ch])
    {
      if ch == '%' {
        phase := InFlags;
        flags, width, precision, len, base := NO_FLAGS, 0, -1, IntLen, 10;
      } else {
        AddChar(ch);
      }
    }

    method TurnFlags(ch: char) returns (used: bool)
      requires Fits() && phase == InFlags
      modifies this`phase, this`flags
      ensures Fits() && used == IsFlag(ch)
      ensures
        var m := old(View());
        View() == m.(p := if used then m.p.(flags := WithFlag(m.p.flags, ch)) else m.p.(phase := InWidth))
    {
      used := true;
      if ch == '0' {
        flags := flags.(zero := true);
      } else if ch == '-' {
        flags := flags.(minus := true);
      } else if ch == '+' {
        flags := flags.(plus := true);
      } else if ch == ' ' {
        flags := flags.(space := true);
      } else if ch == '#' {
        flags := flags.(hash := true);
      } else {
        phase := InWidth;
        used := false;   // the next state looks at it again
      }
    }

    method TurnWidth(ch: char) returns (used: bool)
      requires Fits() && phase == InWidth
      modifies this`phase, this`flags, this`width, this`precision, this`args
      ensures Fits() && (View(), used) == WidthStep(old(View()), ch)
    {
      used := true;
      if IsDigit(ch) {
        width := width * 10 + (ch as int - '0' as int);
      } else if ch == '*' {
        width := NextInt(args);
        args := Others(args);
        if width < 0 {
          width := -width;
          flags := flags.(minus := true);
        }
      } else if ch == '.' {
        precision := 0;
        phase := InPrecision;
      } else {
        phase := InDatalen;
        used := false;   // the next state looks at it again
      }
    }

    method TurnPrecision(ch: char) returns (used: bool)
      requires Fits() && phase == InPrecision
      modifies this`phase, this`precision, this`args
      ensures Fits() && (View(), used) == PrecisionStep(old(View()), ch)
    {
      used := true;
      if IsDigit(ch) {
        precision := precision * 10 + (ch as int - '0' as int);
      } else if ch == '*' {
        precision := NextInt(args);
        args := Others(args);
        if precision < 0 { precision := -1; }
      } else {
        phase := InDatalen;
        used := false;   // the next state looks at it again
      }
    }

    /** The data length; `next` is the character after this one. */
    method TurnDatalen(ch: char, next: char) returns (used: nat)
      requires Fits() && phase == InDatalen
      modifies this`phase, this`len
      ensures Fits() && used == LengthAt(old(len), ch, next).1
      ensures var m := old(View()); View() == m.(p := m.p.(phase := InDatatype, len := LengthAt(m.p.len, ch, next).0))
    {
      used := 1;
      if ch == 'l' {
        len := LongLen;
        if next == 'l' { used, len := 2, LongLongLen; }
      } else if ch == 'h' {
        len := ShortLen;
        if next == 'h' { used, len := 2, CharLen; }
      } else if ch == 'j' {
        len := IntmaxLen;
      } else if ch == 'z' {
        len := SizeLen;
      } else if ch == 't' {
        len := PtrdiffLen;
      } else {
        used := 0;       // the next state looks at it again
      }
      phase := InDatatype;
    }

    /** An integer conversion, from the next argument. */
    method ConvertInt(signed: bool)
      requires Fits() && IsBase(base)
      modifies this`pos, this`out, this`width, this`precision, this`args, buf
      ensures Fits() && args == Others(old(args))
      ensures out == old(out) + IntText(flags, old(width), old(precision), base,
        Converted(len, signed, NextInt(old(args))))
    {
      var value := Converted(len, signed, NextInt(args));
      args := Others(args);
      AddInt(value);
    }

    method ConvertStr(s: string)
      requires Fits()
      modifies this`pos, this`out, this`width, this`args, buf
      ensures Fits() && args == Others(old(args)) && out == old(out) + StrText(flags, old(width), precision, s)
    {
      args := Others(args);
      AddString(s);
    }

    /** The fields for an integer conversion. */
    method Prepare(ch: char) returns (signed: bool)
      requires IsInt(ch)
      modifies this`flags, this`precision, this`base, this`len
      ensures IntSpec(flags, precision, base, len, signed) ==
        IntSpecOf(old(Parse(phase, flags, width, precision, len)), ch)
    {
      signed := false;
      if ch == 'd' || ch == 'i' {
        flags := flags.(signed := true);
        base := 10;
        signed := true;
      } else if ch == 'u' {
        base := 10;
      } else if ch == 'X' || ch == 'x' {
        if ch == 'X' { flags := flags.(upper := true); }
        base := 16;
      } else if ch == 'o' {
        base := 8;
      } else {
        if ch == 'P' { flags := flags.(upper := true); }
        base, precision, len := 16, 16, PtrdiffLen;
        flags := flags.(hash := true);
      }
    }

    /** A conversion. */
    method TurnDatatype(ch: char)
      requires Fits() && phase == InDatatype
      modifies this, buf
      ensures Fits()
      ensures var m := old(View());
        View() == Machine(m.out + Conversion(m.p, ch, m.args), OUTSIDE, if TakesArg(ch) then Others(m.args) else m.args)
    {
      if ch == 's' {
        ConvertStr(NextStr(args));
      } else if ch == 'c' {
        var v := NextInt(args);
        ConvertStr(if v % 0x100 == 0 then "" else [(v % 0x100) as char]);
      } else if IsInt(ch) {
        var signed := Prepare(ch);
        ConvertInt(signed);
      } else if ch == 'n' {
        args := Others(args);      // the store through the pointer is not modelled
      } else {
        AddChar(ch);
      }
      phase := InChars;
    }

    /** One turn of the loop at character i of the format. */
    method Turn(fmt: string, i: nat) returns (j: nat)
      requires Fits() && i < |fmt|
      modifies this, buf
      ensures Fits() && View() == Step(old(View()), fmt[i..]).0 && j == i + Step(old(View()), fmt[i..]).1
    {
      var ch := fmt[i];
      j := i + 1;
      match phase {
        case InChars =>
          TurnChars(ch);
        case InFlags =>
          var used := TurnFlags(ch);
          if !used { j := j - 1; }
        case InWidth =>
          var used := TurnWidth(ch);
          if !used { j := j - 1; }
        case InPrecision =>
          var used := TurnPrecision(ch);
          if !used { j := j - 1; }
        case InDatalen =>
          var used := TurnDatalen(ch, if i + 1 < |fmt| then fmt[i + 1] else '\0');
          j := i + used;
        case InDatatype =>
          TurnDatatype(ch);
      }
    }

    /** The terminator; false if its store would be outside the buffer. */
    method Terminate() returns (inside: bool)
      requires Fits()
      modifies buf
      ensures inside <==> buf.Length == 0 || pos <= buf.Length
      ensures pos < buf.Length ==> buf[pos] == '\0' && buf[..pos] == out
      ensures pos == buf.Length > 0 ==> buf[pos - 1] == '\0' && buf[..pos - 1] == out[..pos - 1]
      ensures pos > buf.Length ==> buf[..] == out[..buf.Length]
    {
      inside := true;
      if pos < buf.Length {
        buf[pos] := '\0';
      } else if buf.Length > 0 {
        if pos - 1 < buf.Length { buf[pos - 1] := '\0'; } else { inside := false; }
      }
    }

    /** vsnprintf: the length of the whole output, of which the buffer holds as much as fits. */
    method Vsnprintf(fmt: string) returns (count: nat, inside: bool)
      requires Fits() && View() == Machine("", OUTSIDE, args) && NoNul(fmt)
      modifies this, buf
      ensures var text := Formatted(fmt, old(args));
        && count == |text| && (inside <==> buf.Length == 0 || count <= buf.Length)
        && (count < buf.Length ==> buf[..count] == text && buf[count] == '\0')
        && (count == buf.Length > 0 ==> buf[..count - 1] == text[..count - 1] && buf[count - 1] == '\0')
        && (count > buf.Length ==> buf[..] == text[..buf.Length])
    {
      ghost var m := View();
      var i := 0;
      assert fmt[0..] == fmt;
      while i < |fmt|
        invariant i <= |fmt| && Fits() && Run(View(), fmt[i..]) == Run(m, fmt)
        decreases |fmt| - i, Rank(phase)
      {
        ghost var m1, rest := View(), fmt[i..];
        var j := Turn(fmt, i);
        assert rest[j - i..] == fmt[j..];
        i := j;
      }
      count := pos;
      inside := Terminate();
    }
  }

  predicate NoNul(s: string) { '\0' !in s }

  lemma JoinString(was: string, f: Flags, pad: int, t: string)
    ensures var left := if !f.minus then Repeat(if f.zero then '0' else ' ', pad) else "";
      var right := if f.minus then Repeat(' ', pad) else "";
      was + left + t + right ==
        was + if f.minus then t + Repeat(' ', pad) else Repeat(if f.zero then '0' else ' ', pad) + t
  {
    if f.minus { Regroup(was, t, Repeat(' ', pad)); }
  }

  lemma JoinInt(was: string, f: Flags, pad: int, sign: string, prefix: string, run: string)
    ensures var left := if !f.minus && !f.zero then Repeat(' ', pad) else "";
      var zeros := if f.zero && !f.minus then Repeat('0', pad) else "";
      var right := if f.minus then Repeat(' ', pad) else "";
      was + left + sign + prefix + zeros + run + right == was + Parts(f, pad, sign, prefix, run)
  {
  }
}
