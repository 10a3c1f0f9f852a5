/**
 Numerals to a base, as they are written: literal digits, in either case, with any leading zeros.
 */
module Numerals {
  import opened Rlp

  const LOWER: string := "0123456789abcdef"
  const UPPER: string := "0123456789ABCDEF"

  /** A byte that is the digit for a value, in either case. */
  predicate Glyph(b: Byte, v: nat) {
    v < 16 && (b == LOWER[v] as int || b == UPPER[v] as int)
  }

  /** The bytes are a numeral of the number; no bytes are one of zero. */
  predicate Spells(ds: Bytes, base: nat, n: nat)
    requires 2 <= base <= 16
    decreases |ds|
  {
    if ds == [] then n == 0
    else Glyph(ds[|ds| - 1], n % base) && Spells(ds[..|ds| - 1], base, n / base)
  }

  /** The shortest numeral; none for zero. */
  function Numeral(n: nat, base: nat): (ds: Bytes)
    requires 2 <= base <= 16
    ensures Spells(ds, base, n)
  {
    if n == 0 then []
    else
      var init := Numeral(n / base, base);
      var d := LOWER[n % base] as int;
      GlyphIsByte(n % base);
      assert (init + [d])[..|init|] == init;
      init + [d]
  }

  lemma GlyphIsByte(v: nat)
    requires v < 16
    ensures 0 <= LOWER[v] as int < 128
  {
  }

  lemma ZeroGlyph()
    ensures Glyph('0' as int, 0)
  {
  }

  /** Leading zeros change nothing. */
  lemma {:induction false} LeadingZero(ds: Bytes, base: nat, n: nat)
    requires 2 <= base <= 16 && Spells(ds, base, n)
    ensures Spells(['0' as int] + ds, base, n)
    decreases |ds|
  {
    ZeroGlyph();
    hide Glyph;
    var more: Bytes := ['0' as int] + ds;
    if ds == [] {
      assert more[..0] == [];
      assert n % base == 0 && n / base == 0;
    } else {
      LeadingZero(ds[..|ds| - 1], base, n / base);
      assert more[..|more| - 1] == ['0' as int] + ds[..|ds| - 1];
    }
  }

  /** The values of the digits. */
  lemma {:induction false} GlyphIs(b: Byte, v: nat)
    ensures Glyph(b, v) <==>
      || (48 <= b <= 57 && v == b - 48) || (65 <= b <= 70 && v == b - 55) || (97 <= b <= 102 && v == b - 87)
  {
    if v < 10 {
      assert LOWER[v] as int == 48 + v && UPPER[v] as int == 48 + v;
    } else if v < 16 {
      assert LOWER[v] as int == 87 + v && UPPER[v] as int == 55 + v;
    }
  }
}
