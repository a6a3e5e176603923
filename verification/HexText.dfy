/** Bytes as lowercase hexadecimal text, two digits a byte. */
module HexText {
  import opened Words

  function HexDigit(b: bv8): bv8 { if b < 10 then 0x30 + b else 0x57 + b }

  function Hex(s: seq<bv8>): (t: seq<bv8>)
    ensures |t| == 2 * |s|
  {
    if s == [] then [] else Hex(s[..|s| - 1]) + [HexDigit(s[|s| - 1] >> 4), HexDigit(s[|s| - 1] & 0x0F)]
  }

  lemma ByteFromDigits(a: bv8, b: bv8)
    requires HexDigit(a >> 4) == HexDigit(b >> 4) && HexDigit(a & 0x0F) == HexDigit(b & 0x0F)
    ensures a == b
  {
  }

  /** Different bytes have different texts. */
  lemma {:induction false} HexInjective(s: seq<bv8>, t: seq<bv8>)
    requires Hex(s) == Hex(t)
    ensures s == t
    decreases |s|
  {
    hide HexDigit;
    assert |s| == |t|;
    if s != [] {
      var n := |s| - 1;
      var x, y := Hex(s), Hex(t);
      assert x[..2 * n] == Hex(s[..n]) && y[..2 * n] == Hex(t[..n]);
      HexInjective(s[..n], t[..n]);
      LastDigits(s);
      LastDigits(t);
      ByteFromDigits(s[n], t[n]);
      assert s == s[..n] + [s[n]] && t == t[..n] + [t[n]];
    }
  }

  /** The sixteen digits, 0 to 9 and a to f. */
  const DIGITS: seq<bv8> := [0x30, 0x31, 0x32, 0x33, 0x34, 0x35, 0x36, 0x37, 0x38, 0x39,
                             0x61, 0x62, 0x63, 0x64, 0x65, 0x66]

  lemma DigitIs(b: bv8)
    requires b < 16
    ensures U8(b) < 16 && HexDigit(b) == DIGITS[U8(b)]
  {
    if b == 0 || b == 1 || b == 2 || b == 3 || b == 4 || b == 5 || b == 6 || b == 7 {
    } else {
      assert b == 8 || b == 9 || b == 10 || b == 11 || b == 12 || b == 13 || b == 14 || b == 15;
    }
  }

  lemma Nibbles(b: bv8)
    ensures b >> 4 < 16 && b & 0x0F < 16
    ensures U8(b >> 4) == U8(b) / 16 && U8(b & 0x0F) == U8(b) % 16
  {
  }

  /** Byte i is spelled by the digit of its quotient by sixteen and the digit of its remainder. */
  lemma {:induction false} HexSpells(s: seq<bv8>, i: nat)
    requires i < |s|
    ensures Hex(s)[2 * i] == DIGITS[U8(s[i]) / 16] && Hex(s)[2 * i + 1] == DIGITS[U8(s[i]) % 16]
    decreases |s|
  {
    hide HexDigit, U8;
    if i < |s| - 1 {
      HexSpells(s[..|s| - 1], i);
    } else {
      LastDigits(s);
      Nibbles(s[i]);
      DigitIs(s[i] >> 4);
      DigitIs(s[i] & 0x0F);
    }
  }

  lemma LastDigits(s: seq<bv8>)
    requires s != []
    ensures var n := |s| - 1; Hex(s)[2 * n] == HexDigit(s[n] >> 4) && Hex(s)[2 * n + 1] == HexDigit(s[n] & 0x0F)
  {
    hide HexDigit;
  }
}
