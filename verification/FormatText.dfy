/** What vsnprintf writes: padded integers and strings, and the parser of format strings. */
module FormatText {
  import opened Common

  const TWO63 := 0x8000_0000_0000_0000
  const TWO64 := 0x1_0000_0000_0000_0000

  datatype Flags = Flags(zero: bool, minus: bool, plus: bool, signed: bool, upper: bool, space: bool, hash: bool)

  const NO_FLAGS := Flags(false, false, false, false, false, false, false)

  function Repeat(ch: char, n: int): (s: string)
    ensures |s| == (if n < 0 then 0 else n) && forall i :: 0 <= i < |s| ==> s[i] == ch
  {
    seq(if n < 0 then 0 else n, _ => ch)
  }

  // ----- Strings -----

  /** The characters of a string that are written, at most `precision` of them unless that is negative. */
  function Cut(s: string, precision: int): (t: string)
    ensures |t| == if 0 <= precision < |s| then precision else |s|
    ensures t <= s
  {
    if 0 <= precision < |s| then s[..precision] else s
  }

  function StrText(f: Flags, width: int, precision: int, s: string): string {
    var t := Cut(s, precision);
    if f.minus then t + Repeat(' ', width - |t|)
    else Repeat(if f.zero then '0' else ' ', width - |t|) + t
  }

  /** A string takes its width, or more if it is longer. */
  lemma StrLength(f: Flags, width: int, precision: int, s: string)
    ensures |StrText(f, width, precision, s)| == Max(width, |Cut(s, precision)|)
  {
  }

  // ----- Integers -----

  predicate IsBase(base: nat) { base == 8 || base == 10 || base == 16 }

  // Arithmetic in a base, each with constant factors.

  function Quotient(v: nat, base: nat): nat {
    if base == 8 then v / 8 else if base == 10 then v / 10 else v / 16
  }

  function Remainder(v: nat, base: nat): (r: nat)
    ensures r < 16 && (IsBase(base) ==> r < base)
  {
    if base == 8 then v % 8 else if base == 10 then v % 10 else v % 16
  }

  function Times(v: int, base: nat): int {
    if base == 8 then v * 8 else if base == 10 then v * 10 else v * 16
  }

  function Digit(d: nat, upper: bool): char
    requires d < 16
  {
    if d < 10 then ('0' as int + d) as char else ((if upper then 'A' else 'a') as int + (d - 10)) as char
  }

  /** Reading one digit. */
  function DigitValue(ch: char): int {
    if '0' <= ch <= '9' then ch as int - '0' as int
    else if 'a' <= ch <= 'f' then ch as int - 'a' as int + 10
    else if 'A' <= ch <= 'F' then ch as int - 'A' as int + 10
    else -1
  }

  /** Reading a run of digits. */
  function Reading(s: string, base: nat): int {
    if s == "" then 0 else Times(Reading(s[..|s| - 1], base), base) + DigitValue(s[|s| - 1])
  }

  /** The number of digits of a value; 0 has none. */
  function Count(value: nat, base: nat): nat
    requires IsBase(base)
  {
    if value == 0 then 0 else 1 + Count(Quotient(value, base), base)
  }

  /** The last n digits of a value, from the lowest up. */
  function DigitRun(value: nat, base: nat, upper: bool, n: nat): (s: string)
    requires IsBase(base)
    ensures |s| == n
    decreases n
  {
    if n == 0 then "" else DigitRun(Quotient(value, base), base, upper, n - 1) + [Digit(Remainder(value, base), upper)]
  }

  /** Enough digits read back as the value. */
  lemma {:induction false} DigitsRead(value: nat, base: nat, upper: bool, n: nat)
    requires IsBase(base) && n >= Count(value, base)
    ensures Reading(DigitRun(value, base, upper, n), base) == value
    decreases n
  {
    if n > 0 {
      DigitsRead(Quotient(value, base), base, upper, n - 1);
      var s := DigitRun(value, base, upper, n);
      assert s[..n - 1] == DigitRun(Quotient(value, base), base, upper, n - 1);
      assert DigitValue(s[n - 1]) == Remainder(value, base);
      DivMod(value, base);
    }
  }

  lemma DivMod(value: nat, base: nat)
    requires IsBase(base)
    ensures Times(Quotient(value, base), base) + Remainder(value, base) == value
  {
  }

  /** Zeros in front do not change the reading. */
  lemma {:induction false} ZerosRead(n: nat, s: string, base: nat)
    ensures Reading(Repeat('0', n) + s, base) == Reading(s, base)
    decreases n, |s|
  {
    var t := Repeat('0', n) + s;
    if s == "" {
      if n > 0 {
        assert t[..n - 1] == Repeat('0', n - 1) + "";
        ZerosRead(n - 1, "", base);
      }
    } else {
      assert t[..|t| - 1] == Repeat('0', n) + s[..|s| - 1];
      ZerosRead(n, s[..|s| - 1], base);
    }
  }

  /** Whether a 64-bit value is to be shown as negative. */
  predicate Negative(f: Flags, value: nat) { f.signed && value >= TWO63 }

  function Magnitude(f: Flags, value: nat): nat
    requires value < TWO64
  {
    if Negative(f, value) then TWO64 - value else value
  }

  function Sign(f: Flags, negative: bool): string {
    if negative then "-" else if f.plus then "+" else if f.space then " " else ""
  }

  function Prefix(f: Flags, base: nat): string {
    if f.hash && base == 16 then (if f.upper then "0X" else "0x") else ""
  }

  /** How many digits are written: as many as the value has or the precision wants, one more in alternate octal, one
      for 0. */
  function Wanted(f: Flags, precision: int, base: nat, magnitude: nat): (n: nat)
    requires IsBase(base)
    ensures n >= Count(magnitude, base) && n >= 1 && n >= precision
  {
    var count := Count(magnitude, base);
    var least := if f.hash && base == 8 && precision < count + 1 then count + 1 else precision;
    if count < least then least else if magnitude == 0 then 1 else count
  }

  /** Sign, prefix and digits, without padding. */
  function Chars(f: Flags, precision: int, base: nat, value: nat): nat
    requires IsBase(base) && value < TWO64
  {
    Wanted(f, precision, base, Magnitude(f, value)) + |Sign(f, Negative(f, value))| + |Prefix(f, base)|
  }

  /** Sign, prefix and digits with their padding: spaces before or after, or zeros between prefix and digits. */
  function Parts(f: Flags, pad: int, sign: string, prefix: string, run: string): string {
    (if !f.minus && !f.zero then Repeat(' ', pad) else "")
    + sign + prefix
    + (if f.zero && !f.minus then Repeat('0', pad) else "")
    + run
    + (if f.minus then Repeat(' ', pad) else "")
  }

  function IntText(f: Flags, width: int, precision: int, base: nat, value: nat): string
    requires IsBase(base) && value < TWO64
  {
    var magnitude := Magnitude(f, value);
    Parts(f, width - Chars(f, precision, base, value), Sign(f, Negative(f, value)), Prefix(f, base),
          DigitRun(magnitude, base, f.upper, Wanted(f, precision, base, magnitude)))
  }

  /** An integer takes exactly its width, or what its characters need if that is more. */
  lemma IntLength(f: Flags, width: int, precision: int, base: nat, value: nat)
    requires IsBase(base) && value < TWO64
    ensures |IntText(f, width, precision, base, value)| == Max(width, Chars(f, precision, base, value))
  {
  }

  /** Between padding and sign, the digits read back as the magnitude, for every flag, width and precision. */
  lemma IntReads(f: Flags, width: int, precision: int, base: nat, value: nat)
    returns (left: string, digits: string, right: string)
    requires IsBase(base) && value < TWO64
    ensures IntText(f, width, precision, base, value) ==
      left + Sign(f, Negative(f, value)) + Prefix(f, base) + digits + right
    ensures (forall i :: 0 <= i < |left| ==> left[i] == ' ') && (forall i :: 0 <= i < |right| ==> right[i] == ' ')
    ensures digits != "" && Reading(digits, base) == Magnitude(f, value)
  {
    var magnitude, pad := Magnitude(f, value), width - Chars(f, precision, base, value);
    var run := DigitRun(magnitude, base, f.upper, Wanted(f, precision, base, magnitude));
    var zeros := if f.zero && !f.minus then Repeat('0', pad) else "";
    left := if !f.minus && !f.zero then Repeat(' ', pad) else "";
    right := if f.minus then Repeat(' ', pad) else "";
    digits := zeros + run;
    assert Reading(digits, base) == magnitude by {
      assert zeros == Repeat('0', |zeros|);
      DigitsRead(magnitude, base, f.upper, |run|);
      ZerosRead(|zeros|, run, base);
    }
    Regroup(left + Sign(f, Negative(f, value)) + Prefix(f, base), zeros, run);
  }

  lemma Regroup(a: string, b: string, c: string)
    ensures a + b + c == a + (b + c)
  {
  }

  // ----- Arguments -----

  datatype Datalen = CharLen | ShortLen | IntLen | LongLen | LongLongLen | IntmaxLen | SizeLen | PtrdiffLen

  datatype Arg = IntArg(v: int) | StrArg(s: string) | NullArg

  /** The next argument as an integer; reading one that was not passed is undefined in C, and gives 0 here. */
  function NextInt(args: seq<Arg>): int { if args != [] && args[0].IntArg? then args[0].v else 0 }

  function NextStr(args: seq<Arg>): string {
    if args == [] || !args[0].StrArg? then "(null)" else args[0].s
  }

  function Others(args: seq<Arg>): seq<Arg> { if args == [] then [] else args[1..] }

  /** An integer converted to an unsigned 64-bit value by way of a type of the given length. */
  function Converted(len: Datalen, signed: bool, v: int): (r: nat)
    ensures r < TWO64
  {
    match len
    case CharLen => if signed && v % 0x100 >= 0x80 then v % 0x100 + TWO64 - 0x100 else v % 0x100
    case ShortLen => if signed && v % 0x1_0000 >= 0x8000 then v % 0x1_0000 + TWO64 - 0x1_0000 else v % 0x1_0000
    case IntLen => if signed && v % 0x1_0000_0000 >= 0x8000_0000 then v % 0x1_0000_0000 + TWO64 - 0x1_0000_0000
      else v % 0x1_0000_0000
    case _ => v % TWO64
  }

  /** Half the number of values of a type. */
  function Half(len: Datalen): int {
    match len
    case CharLen => 0x80
    case ShortLen => 0x8000
    case IntLen => 0x8000_0000
    case _ => TWO63
  }

  /** A value that fits its type is shown with its own sign and magnitude. */
  lemma SignedConverted(len: Datalen, f: Flags, v: int)
    requires f.signed && -Half(len) <= v < Half(len)
    ensures Negative(f, Converted(len, true, v)) <==> v < 0
    ensures Magnitude(f, Converted(len, true, v)) == if v < 0 then -v else v
  {
  }
}
