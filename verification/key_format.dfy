/** How identifiers and page coordinates are spelled inside cache keys: C#
    string interpolation of an `int` (decimal, leading '-' when negative) and
    of a `Guid` (the "D" format, 32 lower-case hexadecimal digits in groups
    8-4-4-4-12). The lemmas show that both spellings are injective and never
    contain ':', the separator the cache keys use. */
module KeyFormat {
  import opened Common

  const HexDigits: string := "0123456789abcdef"

  function DigitChar(d: nat): (c: char)
    requires d < 16
  {
    HexDigits[d]
  }

  predicate IsDigitChar(c: char)
  {
    c in HexDigits
  }

  /** Decimal spelling of a natural number, most significant digit first. */
  function NatDecimal(n: nat): (s: string)
    ensures 1 <= |s|
    ensures forall i :: 0 <= i < |s| ==> IsDigitChar(s[i])
    ensures n >= 10 <==> |s| >= 2
  {
    if n < 10 then [DigitChar(n)] else NatDecimal(n / 10) + [DigitChar(n % 10)]
  }

  /** Decimal spelling of an `int` as string interpolation writes it. */
  function IntDecimal(n: int): (s: string)
    ensures 1 <= |s|
    ensures s[0] == '-' <==> n < 0
  {
    if n < 0 then "-" + NatDecimal(-n) else NatDecimal(n)
  }

  /** The low `w` hexadecimal digits of `n`, most significant first. */
  function Hex(n: nat, w: nat): (s: string)
    ensures |s| == w
    ensures forall i :: 0 <= i < |s| ==> IsDigitChar(s[i])
  {
    if w == 0 then [] else Hex(n / 16, w - 1) + [DigitChar(n % 16)]
  }

  /** Guid.ToString(): 8-4-4-4-12 groups of lower-case hexadecimal digits. */
  function GuidString(g: Guid): (s: string)
    ensures |s| == 36
  {
    var h := Hex(g as nat, 32);
    h[..8] + "-" + h[8..12] + "-" + h[12..16] + "-" + h[16..20] + "-" + h[20..]
  }

  predicate ColonFree(s: string)
  {
    forall i :: 0 <= i < |s| ==> s[i] != ':'
  }

  lemma DigitCharInjective(a: nat, b: nat)
    requires a < 16 && b < 16 && DigitChar(a) == DigitChar(b)
    ensures a == b
  {
  }

  lemma {:induction false} NatDecimalInjective(a: nat, b: nat)
    requires NatDecimal(a) == NatDecimal(b)
    ensures a == b
  {
    var s := NatDecimal(a);
    if a < 10 {
      DigitCharInjective(a, b);
    } else {
      assert b >= 10;
      assert s[|s| - 1] == DigitChar(a % 10) == DigitChar(b % 10);
      DigitCharInjective(a % 10, b % 10);
      assert NatDecimal(a / 10) == s[..|s| - 1] == NatDecimal(b / 10);
      NatDecimalInjective(a / 10, b / 10);
    }
  }

  /** Distinct `int`s are spelled differently. */
  lemma IntDecimalInjective(a: int, b: int)
    requires IntDecimal(a) == IntDecimal(b)
    ensures a == b
  {
    var s := IntDecimal(a);
    if s[0] == '-' {
      var na, nb := NatDecimal(-a), NatDecimal(-b);
      assert s == "-" + na && s == "-" + nb;
      DropPrefix("-", na, nb);
      NatDecimalInjective(-a, -b);
    } else {
      NatDecimalInjective(a, b);
    }
  }

  lemma IntDecimalColonFree(n: int)
    ensures ColonFree(IntDecimal(n))
  {
    var d := NatDecimal(if n < 0 then -n else n);
    assert forall i :: 0 <= i < |d| ==> d[i] != ':';
  }

  lemma {:induction false} HexInjective(a: nat, b: nat, w: nat)
    requires a < Pow16(w) && b < Pow16(w)
    requires Hex(a, w) == Hex(b, w)
    ensures a == b
  {
    if w > 0 {
      var s := Hex(a, w);
      assert s[w - 1] == DigitChar(a % 16) == DigitChar(b % 16);
      DigitCharInjective(a % 16, b % 16);
      assert Hex(a / 16, w - 1) == s[..w - 1] == Hex(b / 16, w - 1);
      HexInjective(a / 16, b / 16, w - 1);
    }
  }

  /** Removing the four dashes of a GUID's spelling gives back its 32 digits. */
  lemma GuidStringDigits(g: Guid)
    ensures var s := GuidString(g);
      s[..8] + s[9..13] + s[14..18] + s[19..23] + s[24..] == Hex(g as nat, 32)
  {
    var h := Hex(g as nat, 32);
    var s := GuidString(g);
    assert s[..8] == h[..8];
    assert s[9..13] == h[8..12];
    assert s[14..18] == h[12..16];
    assert s[19..23] == h[16..20];
    assert s[24..] == h[20..];
    assert h == h[..8] + h[8..12] + h[12..16] + h[16..20] + h[20..];
  }

  /** Distinct GUIDs are spelled differently. */
  lemma GuidStringInjective(a: Guid, b: Guid)
    requires GuidString(a) == GuidString(b)
    ensures a == b
  {
    GuidStringDigits(a);
    GuidStringDigits(b);
    HexInjective(a as nat, b as nat, 32);
  }

  lemma GuidStringColonFree(g: Guid)
    ensures ColonFree(GuidString(g))
  {
    var h := Hex(g as nat, 32);
    var s := GuidString(g);
    forall i | 0 <= i < 36
      ensures s[i] != ':'
    {
      if i < 8 { assert s[i] == h[i]; }
      else if i == 8 || i == 13 || i == 18 || i == 23 { }
      else if i < 13 { assert s[i] == h[i - 1]; }
      else if i < 18 { assert s[i] == h[i - 2]; }
      else if i < 23 { assert s[i] == h[i - 3]; }
      else { assert s[i] == h[i - 4]; }
    }
  }

  /** Two keys that agree up to a shared prefix agree after it. */
  lemma DropPrefix(p: string, a: string, b: string)
    requires p + a == p + b
    ensures a == b
  {
    assert a == (p + a)[|p|..];
  }

  /** The character right after `a` in `a + ":" + x` is a ':', which a
      colon-free `b` does not hold at that position. */
  lemma ColonAfter(a: string, x: string, b: string)
    requires ColonFree(b) && |a| < |b|
    ensures (a + (":" + x))[|a|] == ':' != b[|a|]
  {
  }

  /** The first ':' of `a + ":" + x` is the one right after `a` when `a`
      contains none, so the two halves of such a key are determined. */
  lemma SplitAtColon(a: string, x: string, b: string, y: string)
    requires ColonFree(a) && ColonFree(b)
    requires a + (":" + x) == b + (":" + y)
    ensures a == b && x == y
  {
    var s := a + (":" + x);
    if |a| < |b| {
      ColonAfter(a, x, b);
      assert false;
    } else if |b| < |a| {
      ColonAfter(b, y, a);
      assert false;
    }
    assert a == s[..|a|] == b;
    DropPrefix(a, ":" + x, ":" + y);
    DropPrefix(":", x, y);
  }
}
