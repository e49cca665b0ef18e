/** Integer conversions as section 7.21.6.1 of ISO/IEC 9899:2011 describes them, and when vsnprintf's differ. */
module FormatStandard {
  import opened FormatText

  /** The digits of a value, without zeros in front; none for 0. */
  function Numeral(value: nat, base: nat, upper: bool): string
    requires IsBase(base)
  {
    if value == 0 then "" else Numeral(Quotient(value, base), base, upper) + [Digit(Remainder(value, base), upper)]
  }

  /** The least number of digits: the precision, 1 if there is none. The alternate octal form adds one where the
      first would not be a zero. */
  function LeastDigits(f: Flags, precision: int, base: nat, magnitude: nat): (n: nat)
    requires IsBase(base)
  {
    var least := if precision < 0 then 1 else precision;
    var count := Count(magnitude, base);
    if f.hash && base == 8 && least <= count then count + 1 else least
  }

  /** The value in digits, with zeros in front up to the least number. */
  function StandardDigits(f: Flags, precision: int, base: nat, magnitude: nat): string
    requires IsBase(base)
  {
    var d := Numeral(magnitude, base, f.upper);
    Repeat('0', LeastDigits(f, precision, base, magnitude) - |d|) + d
  }

  /** Only a signed conversion starts with a plus sign or a space. */
  function StandardSign(f: Flags, negative: bool): string {
    if negative then "-" else if !f.signed then "" else if f.plus then "+" else if f.space then " " else ""
  }

  /** Only a nonzero result gets a prefix. */
  function StandardPrefix(f: Flags, base: nat, magnitude: nat): string {
    if f.hash && base == 16 && magnitude != 0 then (if f.upper then "0X" else "0x") else ""
  }

  /** In its field: at the left; or with zeros after sign and prefix, if no precision is given; or at the right. */
  function Justified(f: Flags, width: int, precision: int, front: string, digits: string): string {
    var pad := width - |front| - |digits|;
    if f.minus then front + digits + Repeat(' ', pad)
    else if f.zero && precision < 0 then front + Repeat('0', pad) + digits
    else Repeat(' ', pad) + front + digits
  }

  function StandardText(f: Flags, width: int, precision: int, base: nat, value: nat): string
    requires IsBase(base) && value < TWO64
  {
    var m := Magnitude(f, value);
    Justified(f, width, precision, StandardSign(f, Negative(f, value)) + StandardPrefix(f, base, m),
              StandardDigits(f, precision, base, m))
  }

  // ----- Where vsnprintf departs from it -----

  /** It writes a digit for the value 0 although the precision is 0. */
  predicate ShowsZero(f: Flags, precision: int, base: nat, value: nat) {
    value == 0 && precision == 0 && !(f.hash && base == 8)
  }

  /** It writes a prefix for the value 0. */
  predicate PrefixesZero(f: Flags, base: nat, value: nat) { value == 0 && f.hash && base == 16 }

  /** It writes a space for a sign although the conversion is unsigned, and the space does not pass for padding. */
  predicate ShowsSpace(f: Flags, width: int, precision: int, base: nat, value: nat)
    requires IsBase(base) && value < TWO64
  {
    f.space && (width < Chars(f, precision, base, value) || f.minus || (f.zero && precision < 0))
  }

  /** It writes a sign although the conversion is unsigned. */
  predicate SignsUnsigned(f: Flags, width: int, precision: int, base: nat, value: nat)
    requires IsBase(base) && value < TWO64
  {
    !f.signed && (f.plus || ShowsSpace(f, width, precision, base, value))
  }

  /** It pads with zeros although a precision is given. */
  predicate PadsWithZeros(f: Flags, width: int, precision: int, base: nat, value: nat)
    requires IsBase(base) && value < TWO64
  {
    f.zero && !f.minus && precision >= 0 && width > Chars(f, precision, base, value)
  }

  predicate Departs(f: Flags, width: int, precision: int, base: nat, value: nat)
    requires IsBase(base) && value < TWO64
  {
    || ShowsZero(f, precision, base, value)
    || PrefixesZero(f, base, value)
    || SignsUnsigned(f, width, precision, base, value)
    || PadsWithZeros(f, width, precision, base, value)
  }

  // ----- Digits -----

  lemma {:induction false} NumeralCount(value: nat, base: nat, upper: bool)
    requires IsBase(base)
    ensures |Numeral(value, base, upper)| == Count(value, base)
    ensures forall i :: 0 <= i < |Numeral(value, base, upper)| ==> DigitValue(Numeral(value, base, upper)[i]) >= 0
  {
    if value != 0 { NumeralCount(Quotient(value, base), base, upper); }
  }

  /** The digits generated backwards are the value's own, after as many zeros as there is room for. */
  lemma {:induction false} RunNumeral(value: nat, base: nat, upper: bool, n: nat)
    requires IsBase(base) && n >= Count(value, base)
    ensures DigitRun(value, base, upper, n) == Repeat('0', n - Count(value, base)) + Numeral(value, base, upper)
    decreases n
  {
    if n > 0 {
      RunNumeral(Quotient(value, base), base, upper, n - 1);
      if value == 0 {
        assert Quotient(value, base) == 0 && Digit(Remainder(value, base), upper) == '0';
        assert Repeat('0', n) == Repeat('0', n - 1) + ['0'];
      }
    }
  }

  /** The digits are the standard's, but for a zero with precision 0. */
  lemma DigitsAgree(f: Flags, precision: int, base: nat, value: nat)
    requires IsBase(base) && value < TWO64
    ensures var m := Magnitude(f, value);
      var run := DigitRun(m, base, f.upper, Wanted(f, precision, base, m));
      && (m == 0 <==> value == 0)
      && if ShowsZero(f, precision, base, value) then StandardDigits(f, precision, base, m) == "" && run == "0"
         else StandardDigits(f, precision, base, m) == run && run != "" && DigitValue(run[0]) >= 0
  {
    var m := Magnitude(f, value);
    var n := Wanted(f, precision, base, m);
    NumeralCount(m, base, f.upper);
    RunNumeral(m, base, f.upper, n);
  }

  /** Characters of the standard's text for 0: blanks, zeros and a sign. */
  lemma ZeroText(f: Flags, width: int, precision: int, base: nat, i: nat)
    requires IsBase(base) && i < |StandardText(f, width, precision, base, 0)|
    ensures StandardText(f, width, precision, base, 0)[i] in " 0-+"
    ensures ShowsZero(f, precision, base, 0) ==> StandardText(f, width, precision, base, 0)[i] != '0'
  {
  }

  /** Whatever the digits, a part of the text is found in it. */
  lemma InParts(f: Flags, pad: int, sign: string, prefix: string, run: string, ch: char)
    requires ch in sign || ch in prefix || ch in run
    ensures ch in Parts(f, pad, sign, prefix, run)
  {
    var a := if !f.minus && !f.zero then Repeat(' ', pad) else "";
    var z := if f.zero && !f.minus then Repeat('0', pad) else "";
    var b := if f.minus then Repeat(' ', pad) else "";
    assert Parts(f, pad, sign, prefix, run) == a + sign + prefix + z + run + b;
  }

  lemma ShowsZeroDiffers(f: Flags, width: int, precision: int, base: nat, value: nat)
    requires IsBase(base) && value < TWO64 && ShowsZero(f, precision, base, value)
    ensures IntText(f, width, precision, base, value) != StandardText(f, width, precision, base, value)
  {
    var t := IntText(f, width, precision, base, value);
    DigitsAgree(f, precision, base, value);
    InParts(f, width - Chars(f, precision, base, value), Sign(f, Negative(f, value)), Prefix(f, base), "0", '0');
    var i :| 0 <= i < |t| && t[i] == '0';
    if i < |StandardText(f, width, precision, base, value)| { ZeroText(f, width, precision, base, i); }
  }

  lemma PrefixesZeroDiffers(f: Flags, width: int, precision: int, base: nat, value: nat)
    requires IsBase(base) && value < TWO64 && PrefixesZero(f, base, value)
    ensures IntText(f, width, precision, base, value) != StandardText(f, width, precision, base, value)
  {
    var t := IntText(f, width, precision, base, value);
    var run := DigitRun(Magnitude(f, value), base, f.upper, Wanted(f, precision, base, Magnitude(f, value)));
    var x := if f.upper then 'X' else 'x';
    assert Prefix(f, base)[1] == x;
    InParts(f, width - Chars(f, precision, base, value), Sign(f, Negative(f, value)), Prefix(f, base), run, x);
    var i :| 0 <= i < |t| && t[i] == x;
    if i < |StandardText(f, width, precision, base, value)| { ZeroText(f, width, precision, base, i); }
  }

  // ----- Layout -----

  predicate IsSign(sign: string) { sign in ["", "-", "+", " "] }

  predicate IsPrefix(prefix: string) { prefix in ["", "0x", "0X"] }

  /** With the standard's sign the layouts differ only where zeros pad a number with a precision. */
  lemma SameSign(f: Flags, width: int, precision: int, sign: string, prefix: string, run: string)
    requires IsSign(sign) && IsPrefix(prefix) && run != "" && DigitValue(run[0]) >= 0
    ensures var chars := |run| + |sign| + |prefix|;
      Parts(f, width - chars, sign, prefix, run) == Justified(f, width, precision, sign + prefix, run)
      <==> !(f.zero && !f.minus && precision >= 0 && width > chars)
  {
    var pad := width - (|run| + |sign| + |prefix|);
    var t, u := Parts(f, pad, sign, prefix, run), Justified(f, width, precision, sign + prefix, run);
    var front := sign + prefix;
    if f.minus {
      assert t == front + run + Repeat(' ', pad);
    } else if !f.zero {
      assert t == Repeat(' ', pad) + front + run;
    } else {
      assert t == front + Repeat('0', pad) + run;
      if precision >= 0 {
        assert u == Repeat(' ', pad) + front + run;
        if pad <= 0 {
          assert t == u;
        } else {
          assert t[|sign|] in "0" && u[|sign|] in " -+";
        }
      }
    }
  }

  /** Without a sign in the standard's text, only a space can agree with it, as padding. */
  lemma NoSign(f: Flags, width: int, precision: int, sign: string, prefix: string, run: string)
    requires sign in ["+", " "] && IsPrefix(prefix) && run != "" && DigitValue(run[0]) >= 0
    ensures var chars := |run| + |sign| + |prefix|;
      Parts(f, width - chars, sign, prefix, run) == Justified(f, width, precision, prefix, run)
      <==> (&& sign == " " && width >= chars && !f.minus
            && (!f.zero || (precision >= 0 && width == chars)))
  {
    var pad := width - (|run| + |sign| + |prefix|);
    var t, u := Parts(f, pad, sign, prefix, run), Justified(f, width, precision, prefix, run);
    if f.minus {
      assert t == sign + prefix + run + Repeat(' ', pad);
      assert t[0] == sign[0] && u[0] != sign[0];
    } else if f.zero {
      assert t == sign + prefix + Repeat('0', pad) + run;
      if precision < 0 {
        assert t[0] == sign[0] && u[0] != sign[0];
      } else if pad > 0 {
        assert u[0] == u[1] == ' ' && t[1] == '0';
      } else if pad == 0 {
        assert Repeat(' ', 1) == " " && u == " " + prefix + run;
        assert t[0] == sign[0];
      } else {
        assert |u| < |t|;
      }
    } else {
      assert t == Repeat(' ', pad) + sign + prefix + run;
      if pad >= 0 {
        assert Repeat(' ', pad + 1) == Repeat(' ', pad) + " ";
        assert t[pad] == sign[0] && u[pad] == ' ';
      }
    }
  }

  lemma SignsAgree(f: Flags, value: nat)
    requires value < TWO64
    ensures var negative := Negative(f, value);
      && IsSign(Sign(f, negative))
      && if !f.signed && (f.plus || f.space)
         then StandardSign(f, negative) == "" && Sign(f, negative) == if f.plus then "+" else " "
         else StandardSign(f, negative) == Sign(f, negative)
  {
  }

  /** But for a zero with precision 0 or a prefix, both texts arrange the same prefix and digits. */
  lemma TextsOf(f: Flags, width: int, precision: int, base: nat, value: nat)
    returns (sign: string, prefix: string, run: string)
    requires IsBase(base) && value < TWO64 && !ShowsZero(f, precision, base, value) && !PrefixesZero(f, base, value)
    ensures IsSign(sign) && IsPrefix(prefix) && run != "" && DigitValue(run[0]) >= 0
    ensures sign == Sign(f, Negative(f, value)) && |run| + |sign| + |prefix| == Chars(f, precision, base, value)
    ensures IntText(f, width, precision, base, value) ==
      Parts(f, width - (|run| + |sign| + |prefix|), sign, prefix, run)
    ensures StandardText(f, width, precision, base, value)
         == Justified(f, width, precision, StandardSign(f, Negative(f, value)) + prefix, run)
  {
    DigitsAgree(f, precision, base, value);
    var m := Magnitude(f, value);
    run := DigitRun(m, base, f.upper, Wanted(f, precision, base, m));
    sign, prefix := Sign(f, Negative(f, value)), Prefix(f, base);
  }

  lemma SignedExactly(f: Flags, width: int, precision: int, base: nat, value: nat)
    requires IsBase(base) && value < TWO64 && !ShowsZero(f, precision, base, value) && !PrefixesZero(f, base, value)
    requires f.signed || (!f.plus && !f.space)
    ensures IntText(f, width, precision, base, value) == StandardText(f, width, precision, base, value)
      <==> !PadsWithZeros(f, width, precision, base, value)
  {
    var sign, prefix, run := TextsOf(f, width, precision, base, value);
    SignsAgree(f, value);
    SameSign(f, width, precision, sign, prefix, run);
  }

  lemma UnsignedExactly(f: Flags, width: int, precision: int, base: nat, value: nat)
    requires IsBase(base) && value < TWO64 && !ShowsZero(f, precision, base, value) && !PrefixesZero(f, base, value)
    requires !f.signed && (f.plus || f.space)
    ensures IntText(f, width, precision, base, value) == StandardText(f, width, precision, base, value)
      <==> !SignsUnsigned(f, width, precision, base, value) && !PadsWithZeros(f, width, precision, base, value)
  {
    var sign, prefix, run := TextsOf(f, width, precision, base, value);
    SignsAgree(f, value);
    assert "" + prefix == prefix;
    NoSign(f, width, precision, sign, prefix, run);
  }

  /** vsnprintf writes an integer as the standard says if and only if none of the four departures applies. */
  lemma StandardExactly(f: Flags, width: int, precision: int, base: nat, value: nat)
    requires IsBase(base) && value < TWO64
    ensures IntText(f, width, precision, base, value) == StandardText(f, width, precision, base, value)
      <==> !Departs(f, width, precision, base, value)
  {
    if ShowsZero(f, precision, base, value) {
      ShowsZeroDiffers(f, width, precision, base, value);
    } else if PrefixesZero(f, base, value) {
      PrefixesZeroDiffers(f, width, precision, base, value);
    } else if f.signed || (!f.plus && !f.space) {
      SignedExactly(f, width, precision, base, value);
    } else {
      UnsignedExactly(f, width, precision, base, value);
    }
  }

  // ----- One input for each -----

  lemma ZeroShown()
    ensures IntText(NO_FLAGS, 0, 0, 10, 0) == "0" && StandardText(NO_FLAGS, 0, 0, 10, 0) == ""
  {
  }

  lemma ZeroPrefixed()
    ensures var f := NO_FLAGS.(hash := true);
      IntText(f, 0, -1, 16, 0) == "0x0" && StandardText(f, 0, -1, 16, 0) == "0"
  {
  }

  lemma UnsignedSigned()
    ensures var f := NO_FLAGS.(plus := true);
      IntText(f, 0, -1, 10, 7) == "+7" && StandardText(f, 0, -1, 10, 7) == "7"
  {
  }

  lemma ZerosDespitePrecision()
    ensures var f := NO_FLAGS.(zero := true);
      IntText(f, 3, 1, 10, 7) == "007" && StandardText(f, 3, 1, 10, 7) == "  7"
  {
  }
}
