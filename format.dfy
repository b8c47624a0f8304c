/**
  The subset of C `printf` formatting that the firmware relies on: `%d` (signed
  decimal), `%s` (a string copied verbatim) and `%02x` (lower-case hexadecimal,
  zero-padded to two digits). `mg_printf` builds the HTTP response head with it
  and `sprintf` builds the MAC address text.
*/
module Format {

  /** The character of digit `d` (0..15); letters are lower case, as `%x` prints them. */
  function DigitChar(d: nat): char
    requires d < 16
  {
    if d < 10 then ('0' as int + d) as char else ('a' as int + d - 10) as char
  }

  /** The value of a digit character; characters that are not digits count as 0. */
  function DigitValue(c: char): nat
  {
    if '0' <= c <= '9' then c as int - '0' as int
    else if 'a' <= c <= 'f' then c as int - 'a' as int + 10
    else 0
  }

  /** Is `c` a digit of base `base` (lower-case letters above 9)? */
  predicate IsDigitIn(c: char, base: nat)
  {
    ('0' <= c <= '9' && c as int - '0' as int < base) ||
    ('a' <= c <= 'f' && c as int - 'a' as int + 10 < base)
  }

  lemma DigitCharValue(d: nat, base: nat)
    requires d < base <= 16
    ensures IsDigitIn(DigitChar(d), base)
    ensures DigitValue(DigitChar(d)) == d
    ensures DigitChar(d) == '0' <==> d == 0
  {
  }

  /** Euclidean division facts used for the digit recursions. */
  lemma DivMod(n: nat, base: nat)
    requires 2 <= base
    ensures n == (n / base) * base + n % base
    ensures 0 <= n % base < base
    ensures n >= base ==> 1 <= n / base < n
  {
  }

  /** The digits of `n` in base `base`, most significant first, without leading zeros. */
  function Digits(n: nat, base: nat): (s: string)
    requires 2 <= base <= 16
    ensures |s| >= 1
    ensures forall i :: 0 <= i < |s| ==> IsDigitIn(s[i], base)
    ensures s[0] == '0' <==> n == 0
    ensures n < base <==> |s| == 1
    decreases n
  {
    DivMod(n, base);
    DigitCharValue(n % base, base);
    if n < base then [DigitChar(n)] else Digits(n / base, base) + [DigitChar(n % base)]
  }

  /** Reads a digit string back, most significant digit first. */
  function ParseDigits(s: string, base: nat): (n: nat)
    decreases |s|
  {
    if s == [] then 0 else ParseDigits(s[..|s| - 1], base) * base + DigitValue(s[|s| - 1])
  }

  /** Reading back the digits of a number gives that number. */
  lemma {:induction false} DigitsRoundTrip(n: nat, base: nat)
    requires 2 <= base <= 16
    ensures ParseDigits(Digits(n, base), base) == n
  {
    DivMod(n, base);
    DigitCharValue(n % base, base);
    if n >= base {
      var s := Digits(n / base, base);
      DigitsRoundTrip(n / base, base);
      assert (s + [DigitChar(n % base)])[..|s|] == s;
    }
  }

  /** `%d`: an optional minus sign followed by the decimal digits of the magnitude. */
  function Decimal(i: int): (r: string)
    ensures |r| >= 1 && (r[0] == '-' <==> i < 0)
    ensures forall k :: (if i < 0 then 1 else 0) <= k < |r| ==> IsDigitIn(r[k], 10)
    ensures i >= 0 ==> ParseDigits(r, 10) == i
    ensures i < 0 ==> |r| >= 2 && ParseDigits(r[1..], 10) == -i
  {
    var d := Digits(if i < 0 then -i else i, 10);
    DigitsRoundTrip(if i < 0 then -i else i, 10);
    if i < 0 then
      assert ("-" + d)[1..] == d;
      "-" + d
    else
      d
  }

  /** `%02x`: hexadecimal digits, left-padded with '0' to at least two characters. */
  function Hex2(x: nat): (r: string)
    ensures |r| >= 2 && (x < 256 <==> |r| == 2)
    ensures forall k :: 0 <= k < |r| ==> IsDigitIn(r[k], 16)
    ensures ParseDigits(r, 16) == x
  {
    var d := Digits(x, 16);
    DigitsRoundTrip(x, 16);
    DigitsLength16(x);
    if |d| < 2 then
      DigitCharValue(0, 16);
      assert ("0" + d)[..1] == "0" && ("0" + d)[..1][..0] == [];
      "0" + d
    else
      d
  }

  /** A number has at most two hexadecimal digits exactly when it is below 256. */
  lemma DigitsLength16(x: nat)
    ensures x < 256 <==> |Digits(x, 16)| <= 2
  {
    if x >= 16 {
      DivMod(x, 16);
      if x >= 256 {
        DivMod(x / 16, 16);
        assert |Digits(x / 16, 16)| >= 2;
      }
    }
  }

  /** A value below 256 prints as exactly its two hexadecimal digits, high digit first. */
  lemma Hex2OfByte(x: nat)
    requires x < 256
    ensures Hex2(x) == [DigitChar(x / 16), DigitChar(x % 16)]
    ensures IsDigitIn(Hex2(x)[0], 16) && IsDigitIn(Hex2(x)[1], 16)
    ensures ParseDigits(Hex2(x), 16) == x
  {
    DigitCharValue(x / 16, 16);
    DigitCharValue(x % 16, 16);
    if x >= 16 {
      assert Digits(x / 16, 16) == [DigitChar(x / 16)];
    }
    DivMod(x, 16);
    var h := Hex2(x);
    assert h[..1] == [h[0]] && [h[0]][..0] == [];
    assert ParseDigits(h[..1], 16) == DigitValue(h[0]);
  }

  datatype Arg = Int(i: int) | Str(s: string) | Hex(x: nat)

  /**
    A C format string, already split into its literal runs and its conversion
    directives: `%d`, `%s` and `%02x`.
  */
  datatype Directive = Lit(text: string) | SignedDecimal | Verbatim | Hex02

  /** The number of characters in the literal runs of a format. */
  function LiteralLength(fmt: seq<Directive>): nat
    decreases |fmt|
  {
    if fmt == [] then 0 else (if fmt[0].Lit? then |fmt[0].text| else 0) + LiteralLength(fmt[1..])
  }

  function Drop1(args: seq<Arg>): seq<Arg>
  {
    if args == [] then [] else args[1..]
  }

  /**
    `sprintf(fmt, args...)`: literal runs are copied, each directive renders the
    next argument. Passing an argument of the wrong kind, or too few arguments,
    is undefined behaviour in C; here such a directive prints nothing.
  */
  function Sprintf(fmt: seq<Directive>, args: seq<Arg>): (r: string)
    ensures |r| >= LiteralLength(fmt)
    decreases |fmt|
  {
    if fmt == [] then ""
    else match fmt[0]
      case Lit(t) => t + Sprintf(fmt[1..], args)
      case SignedDecimal =>
        (if args != [] && args[0].Int? then Decimal(args[0].i) else "") + Sprintf(fmt[1..], Drop1(args))
      case Verbatim =>
        (if args != [] && args[0].Str? then args[0].s else "") + Sprintf(fmt[1..], Drop1(args))
      case Hex02 =>
        (if args != [] && args[0].Hex? then Hex2(args[0].x) else "") + Sprintf(fmt[1..], Drop1(args))
  }

  /** The output starts with the leading literal run of the format. */
  lemma SprintfStartsWith(fmt: seq<Directive>, args: seq<Arg>)
    requires fmt != [] && fmt[0].Lit?
    ensures fmt[0].text <= Sprintf(fmt, args)
  {
  }

  /** The output ends with the trailing literal run of the format. */
  lemma {:induction false} SprintfEndsWith(fmt: seq<Directive>, args: seq<Arg>)
    requires fmt != [] && fmt[|fmt| - 1].Lit?
    ensures var r, t := Sprintf(fmt, args), fmt[|fmt| - 1].text;
      |r| >= |t| && r[|r| - |t|..] == t
    decreases |fmt|
  {
    var t := fmt[|fmt| - 1].text;
    if |fmt| > 1 {
      SprintfEndsWith(fmt[1..], Drop1(args));
      SprintfEndsWith(fmt[1..], args);
      var r := Sprintf(fmt, args);
      var piece := r[..|r| - |Sprintf(fmt[1..], if fmt[0].Lit? then args else Drop1(args))|];
      assert r == piece + Sprintf(fmt[1..], if fmt[0].Lit? then args else Drop1(args));
    } else {
      assert fmt[1..] == [];
    }
  }
}
