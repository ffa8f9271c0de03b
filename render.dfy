/** The printf conversions the matchers use, written out: `%d`/`%u`-style
    decimal, `%c`, `%02x` and the hexadecimal address standing in for `%pK`. */
module Render {
  import opened Kinds
  import opened Values
  import opened Wrappers

  predicate IsDecimalDigit(c: char)
  {
    '0' <= c <= '9'
  }

  function DecimalDigit(d: nat): (c: char)
    requires d < 10
    ensures IsDecimalDigit(c) && (c as int) - ('0' as int) == d
  {
    "0123456789"[d]
  }

  /** Decimal rendering of a natural number, most significant digit first. */
  function NatToDecimal(n: nat): (s: string)
    ensures |s| >= 1
    ensures forall i :: 0 <= i < |s| ==> IsDecimalDigit(s[i])
  {
    if n < 10 then [DecimalDigit(n)] else NatToDecimal(n / 10) + [DecimalDigit(n % 10)]
  }

  function DigitValue(c: char): (d: nat)
    requires IsDecimalDigit(c)
    ensures d < 10
  {
    (c as int) - ('0' as int)
  }

  /** Reads a string of decimal digits back as a number. */
  function DecimalValue(s: string): nat
    requires forall i :: 0 <= i < |s| ==> IsDecimalDigit(s[i])
  {
    if s == [] then 0 else 10 * DecimalValue(s[..|s| - 1]) + DigitValue(s[|s| - 1])
  }

  lemma {:induction false} DecimalRoundTrip(n: nat)
    ensures DecimalValue(NatToDecimal(n)) == n
  {
    if n >= 10 {
      var s := NatToDecimal(n);
      DecimalRoundTrip(n / 10);
      assert s[..|s| - 1] == NatToDecimal(n / 10);
    }
  }

  /** Decimal rendering of a signed number (`%d`, `%hd`, `%ld`, `%lld`). */
  function IntToDecimal(i: int): (s: string)
    ensures |s| >= 1
  {
    if i < 0 then "-" + NatToDecimal(-i) else NatToDecimal(i)
  }

  lemma NatToDecimalInjective(a: nat, b: nat)
    requires NatToDecimal(a) == NatToDecimal(b)
    ensures a == b
  {
    DecimalRoundTrip(a);
    DecimalRoundTrip(b);
  }

  lemma SignMarksNegative(x: int)
    ensures IntToDecimal(x)[0] == '-' <==> x < 0
  {
    if x >= 0 {
      assert IsDecimalDigit(NatToDecimal(x)[0]);
    }
  }

  /** Distinct numbers are rendered differently, so a trace names its values. */
  lemma IntToDecimalInjective(a: int, b: int)
    requires IntToDecimal(a) == IntToDecimal(b)
    ensures a == b
  {
    SignMarksNegative(a);
    SignMarksNegative(b);
    if a < 0 {
      var sa, sb := NatToDecimal(-a), NatToDecimal(-b);
      assert IntToDecimal(a) == "-" + sa && IntToDecimal(b) == "-" + sb;
      assert sa == IntToDecimal(a)[1..] == sb;
      NatToDecimalInjective(-a, -b);
    } else {
      NatToDecimalInjective(a, b);
    }
  }

  predicate IsHexDigit(c: char)
  {
    '0' <= c <= '9' || 'a' <= c <= 'f'
  }

  function HexDigit(d: nat): (c: char)
    requires d < 16
    ensures IsHexDigit(c)
  {
    "0123456789abcdef"[d]
  }

  function HexDigitValue(c: char): (d: nat)
    ensures d < 16
  {
    if '0' <= c <= '9' then (c as int) - ('0' as int)
    else if 'a' <= c <= 'f' then (c as int) - ('a' as int) + 10
    else 0
  }

  lemma HexDigitRoundTrip(d: nat)
    requires d < 16
    ensures HexDigitValue(HexDigit(d)) == d
  {
  }

  /** The low `width` hexadecimal digits of `n`, zero-padded, most significant
      first: `%02x` for `width == 2` and a value below 0x100. */
  function HexFixed(n: nat, width: nat): (s: string)
    ensures |s| == width
    ensures forall i :: 0 <= i < |s| ==> IsHexDigit(s[i])
  {
    if width == 0 then "" else HexFixed(n / 16, width - 1) + [HexDigit(n % 16)]
  }

  function HexValue(s: string): nat
  {
    if s == [] then 0 else 16 * HexValue(s[..|s| - 1]) + HexDigitValue(s[|s| - 1])
  }

  /** Hexadecimal rendering of a natural number without padding. */
  function HexNat(n: nat): (s: string)
    ensures |s| >= 1
    ensures forall i :: 0 <= i < |s| ==> IsHexDigit(s[i])
  {
    if n < 16 then [HexDigit(n)] else HexNat(n / 16) + [HexDigit(n % 16)]
  }

  lemma HexValueAppend(p: string, c: char)
    ensures HexValue(p + [c]) == 16 * HexValue(p) + HexDigitValue(c)
  {
    assert (p + [c])[..|p|] == p;
  }

  /** One step of `HexNat`: the last digit of `16 * q + d` is `d`. */
  lemma HexNatStep(n: nat, q: nat, d: nat)
    requires n == 16 * q + d && d < 16 && q > 0
    ensures HexNat(n) == HexNat(q) + [HexDigit(d)]
  {
    DivMod16(n, q, d);
  }

  lemma DivMod16(n: nat, q: nat, d: nat)
    requires n == 16 * q + d && d < 16
    ensures n / 16 == q && n % 16 == d
  {
  }

  lemma {:induction false} HexNatRoundTrip(n: nat)
    ensures HexValue(HexNat(n)) == n
  {
    if n < 16 {
      HexDigitRoundTrip(n);
      assert [HexDigit(n)][..0] == [];
    } else {
      HexNatRoundTrip(n / 16);
      HexNatAppendValue(n, n / 16, n % 16);
    }
  }

  lemma HexNatAppendValue(n: nat, q: nat, d: nat)
    requires n == 16 * q + d && d < 16 && q > 0
    requires HexValue(HexNat(q)) == q
    ensures HexValue(HexNat(n)) == n
  {
    HexDigitRoundTrip(d);
    HexNatStep(n, q, d);
    HexValueAppend(HexNat(q), HexDigit(d));
  }

  /** One `"%02x, "` cell of a memory dump. */
  function ByteCell(b: byte): (s: string)
    ensures |s| == 4 && IsHexDigit(s[0]) && IsHexDigit(s[1]) && s[2..] == ", "
  {
    HexFixed(b as nat, 2) + ", "
  }

  /** The cells of every byte of `s`, in order. */
  function HexDump(s: seq<byte>): (t: string)
    ensures |t| == 4 * |s|
  {
    if s == [] then "" else ByteCell(s[0]) + HexDump(s[1..])
  }

  lemma {:induction false} HexDumpAppend(s: seq<byte>, b: byte)
    ensures HexDump(s + [b]) == HexDump(s) + ByteCell(b)
  {
    if s != [] {
      assert (s + [b])[1..] == s[1..] + [b];
      HexDumpAppend(s[1..], b);
    } else {
      assert HexDump([b]) == ByteCell(b) + HexDump([]);
    }
  }

  /** Reads a memory dump back into the bytes it shows. */
  function ParseHexDump(t: string): Option<seq<byte>>
    decreases |t|
  {
    if t == [] then Some([])
    else if |t| < 4 || !IsHexDigit(t[0]) || !IsHexDigit(t[1]) || t[2..4] != ", " then None
    else
      var b := 16 * HexDigitValue(t[0]) + HexDigitValue(t[1]);
      match ParseHexDump(t[4..])
      case None => None
      case Some(rest) => Some([b as byte] + rest)
  }

  lemma CellRoundTrip(b: byte)
    ensures 16 * HexDigitValue(ByteCell(b)[0]) + HexDigitValue(ByteCell(b)[1]) == b as int
  {
    var h := HexFixed(b as nat, 2);
    assert h == HexFixed(b as nat / 16, 1) + [HexDigit(b as nat % 16)];
    assert HexFixed(b as nat / 16, 1) == [HexDigit(b as nat / 16)];
    HexDigitRoundTrip(b as nat / 16);
    HexDigitRoundTrip(b as nat % 16);
  }

  /** A memory dump shows every byte in full: it can be read back. */
  lemma {:induction false} HexDumpRoundTrip(s: seq<byte>)
    ensures ParseHexDump(HexDump(s)) == Some(s)
  {
    if s != [] {
      var t := HexDump(s);
      assert t == ByteCell(s[0]) + HexDump(s[1..]);
      assert t[4..] == HexDump(s[1..]);
      assert t[..4] == ByteCell(s[0]);
      HexDumpRoundTrip(s[1..]);
      CellRoundTrip(s[0]);
      assert [s[0]] + s[1..] == s;
    }
  }

  /** A value of kind `k` as its `FORMAT_<type>` conversion writes it. `%c`
      writes the value converted to `unsigned char`; the pointer is written as
      its hexadecimal digits (the hashing and restriction `%pK` applies are not
      modelled). */
  function Show(k: Kind, v: int): (s: string)
    ensures |s| >= 1
    ensures RenderingOf(k) == Character ==> |s| == 1
    ensures RenderingOf(k) != Character ==> NoBlank(s)
  {
    match RenderingOf(k)
    case Decimal => IntToDecimal(v)
    case Character => [((v % 0x100) as char)]
    case Address => HexNat(if v < 0 then 0 else v)
  }

  /** Two values of one kind show the same text only when they are equal. */
  lemma ShowInjective(k: Kind, a: int, b: int)
    requires InRange(k, a) && InRange(k, b)
    requires Show(k, a) == Show(k, b)
    ensures a == b
  {
    match RenderingOf(k)
    case Decimal =>
      IntToDecimalInjective(a, b);
    case Character =>
      CharacterInjective(k, a, b);
    case Address =>
      AddressInjective(a, b);
  }

  lemma CharacterInjective(k: Kind, a: int, b: int)
    requires RenderingOf(k) == Character
    requires InRange(k, a) && InRange(k, b)
    requires Show(k, a) == Show(k, b)
    ensures a == b
  {
    assert Bits(k) == 8 && Modulus(k) == 0x100;
    var ca, cb := (a % 0x100) as char, (b % 0x100) as char;
    assert [ca] == Show(k, a) && [cb] == Show(k, b);
    assert ca == cb;
    assert a % 0x100 == b % 0x100;
    assert -0x80 <= a < 0x100 && -0x80 <= b < 0x100;
    assert IsSigned(k) ==> -0x80 <= a < 0x80 && -0x80 <= b < 0x80;
  }

  lemma AddressInjective(a: int, b: int)
    requires InRange(Ptr, a) && InRange(Ptr, b)
    requires Show(Ptr, a) == Show(Ptr, b)
    ensures a == b
  {
    HexNatRoundTrip(a);
    HexNatRoundTrip(b);
  }

  /** Text with no blank in it. */
  predicate NoBlank(s: string)
  {
    forall i :: 0 <= i < |s| ==> s[i] != ' '
  }

  // ---------------------------------------------------------------------
  // `%02x` of a plain `char` where `char` is signed

  /** `%02x`: at least two hexadecimal digits. */
  function HexAtLeastTwo(n: nat): (s: string)
    ensures |s| >= 2
  {
    if n < 16 then "0" + HexNat(n) else HexNat(n)
  }

  /** The cell `match_memeq` writes for byte `b` on a target whose plain
      `char` is signed: the byte is read as a `char`, promoted to `int` for
      the variadic call and printed as `unsigned int`, so a byte of 0x80 or
      more carries the sign extension into the text. */
  function SignedCharCell(b: byte): string
  {
    HexAtLeastTwo(if b >= 0x80 then 0xFFFF_FF00 + b as int else b as int) + ", "
  }

  /** With a signed `char`, a byte of 0x80 or more is written with the sign
      extension, as more than two digits: the cell no longer has the shape a
      memory dump is read back by. */
  lemma SignedCharCellWidens(b: byte)
    requires b >= 0x80
    ensures |SignedCharCell(b)| > 4 && SignedCharCell(b) != ByteCell(b)
  {
    var n := 0xFFFF_FF00 + b as int;
    assert HexNat(n) == HexNat(n / 16) + [HexDigit(n % 16)];
    assert HexNat(n / 16) == HexNat(n / 16 / 16) + [HexDigit(n / 16 % 16)];
  }

  /** The byte 0x80 then reads `ffffff80, `, which cannot be read back as a
      dump of `[0x80]` (compare `HexDumpRoundTrip`). */
  lemma SignedCharCellExample()
    ensures SignedCharCell(0x80) == "ffffff80, "
    ensures ParseHexDump(SignedCharCell(0x80)) == None
  {
    HexNatStep(0xFF, 0xF, 0xF);
    HexNatStep(0xFFF, 0xFF, 0xF);
    HexNatStep(0xFFFF, 0xFFF, 0xF);
    HexNatStep(0xF_FFFF, 0xFFFF, 0xF);
    HexNatStep(0xFF_FFFF, 0xF_FFFF, 0xF);
    HexNatStep(0xFFF_FFF8, 0xFF_FFFF, 8);
    HexNatStep(0xFFFF_FF80, 0xFFF_FFF8, 0);
    assert HexNat(0xFFFF_FF80) == "ffffff80";
    assert "ffffff80, "[2..4] == "ff";
  }

  /** Below 0x80 both readings of the byte agree. */
  lemma SignedCharCellAgrees(b: byte)
    requires b < 0x80
    ensures SignedCharCell(b) == ByteCell(b)
  {
    var n := b as nat;
    assert HexFixed(n, 2) == HexFixed(n / 16, 1) + [HexDigit(n % 16)];
    assert HexFixed(n / 16, 1) == [HexDigit(n / 16)];
    if n >= 16 {
      assert HexNat(n) == HexNat(n / 16) + [HexDigit(n % 16)];
    }
  }
}
