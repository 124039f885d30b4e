/**
 * The `#rrggbbaa` record key of the octree quantizer: how a finalized leaf
 * colour is written (`#`, then each channel as two lower-case hex digits), how it is
 * read back (`u8::from_str_radix(&hex[i..j], 16)` on four two-character
 * slices), and how Rust orders such keys in a `BTreeMap<String, _>`.
 */
module HexKey {
  import opened Wrappers
  import opened Colors

  /** One lower-case hexadecimal digit, as the `x` format of `format!` prints it. */
  function HexDigit(d: nat): (ch: char)
    requires d < 16
    ensures '0' <= ch <= '9' || 'a' <= ch <= 'f'
  {
    if d < 10 then ('0' as nat + d) as char else ('a' as nat + d - 10) as char
  }

  /** A byte as two lower-case hex digits, zero padded. */
  function FormatByte(x: u8): (s: string)
    ensures |s| == 2
  {
    [HexDigit(x as nat / 16), HexDigit(x as nat % 16)]
  }

  /** The key of a colour: `#`, then r, g, b and a as two lower-case hex digits each. */
  function FormatKey(c: RgbaColor): (key: string)
    ensures |key| == 9 && key[0] == '#'
  {
    "#" + FormatByte(c.r) + FormatByte(c.g) + FormatByte(c.b) + FormatByte(c.a)
  }

  /**
   * `char::to_digit(16)`: decimal digits and Latin letters of either case
   * are digits, a letter being worth 10 for 'a' up to 35 for 'z'; only
   * values below the radix are accepted.
   */
  function DigitValue(ch: char): (v: Option<nat>)
    ensures v.Some? ==> v.value < 16
  {
    var d :=
      if '0' <= ch <= '9' then Some(ch as nat - '0' as nat)
      else if 'a' <= ch <= 'z' then Some(ch as nat - 'a' as nat + 10)
      else if 'A' <= ch <= 'Z' then Some(ch as nat - 'A' as nat + 10)
      else None;
    if d.Some? && d.value < 16 then d else None
  }

  /** The value of a digit string read most significant digit first, or None at a non-digit. */
  function DigitsValue(s: string): Option<nat>
  {
    if s == [] then Some(0)
    else
      match (DigitsValue(s[..|s| - 1]), DigitValue(s[|s| - 1]))
      case (Some(high), Some(low)) => Some(16 * high + low)
      case _ => None
  }

  /**
   * `u8::from_str_radix(s, 16)`: the empty string and a lone sign are
   * rejected, one leading '+' is skipped, '-' is an invalid digit for an
   * unsigned type, and a value above 255 overflows.
   */
  function FromStrRadix16(s: string): Option<u8>
  {
    if s == [] || s == "+" || s == "-" then None
    else
      var digits := if s[0] == '+' then s[1..] else s;
      match DigitsValue(digits)
      case Some(v) => if v < 256 then Some(v as u8) else None
      case None => None
  }

  /**
   * The key parse of `get_primary_colors`: slices [1..3], [3..5], [5..7]
   * and [7..9] read as base-16 `u8`s. A key shorter than nine characters
   * makes the slicing fail; the first character is never looked at.
   */
  function ParseKey(key: string): Option<RgbaColor>
  {
    if |key| < 9 then None
    else
      match (FromStrRadix16(key[1..3]), FromStrRadix16(key[3..5]),
             FromStrRadix16(key[5..7]), FromStrRadix16(key[7..9]))
      case (Some(r), Some(g), Some(b), Some(a)) => Some(RgbaColor(r, g, b, a))
      case _ => None
  }

  /** Reading back one formatted byte gives the byte. */
  lemma FormatByteRoundTrip(x: u8)
    ensures FromStrRadix16(FormatByte(x)) == Some(x)
  {
    var hi, lo := x as nat / 16, x as nat % 16;
    DigitRoundTrip(hi);
    DigitRoundTrip(lo);
    TwoDigitsValue(HexDigit(hi), HexDigit(lo));
    assert FormatByte(x) == [HexDigit(hi), HexDigit(lo)];
    assert 16 * hi + lo == x as nat;
  }

  /** Reading back one formatted digit gives the digit. */
  lemma DigitRoundTrip(d: nat)
    requires d < 16
    ensures DigitValue(HexDigit(d)) == Some(d)
  {
  }

  /** A two-character string is read as its first digit times 16 plus its second. */
  lemma TwoDigitsValue(hi: char, lo: char)
    requires DigitValue(hi).Some? && DigitValue(lo).Some?
    ensures DigitsValue([hi, lo]) == Some(16 * DigitValue(hi).value + DigitValue(lo).value)
  {
    assert [hi][..0] == [];
    assert DigitsValue([hi]) == Some(DigitValue(hi).value);
    assert [hi, lo][..1] == [hi];
  }

  /** Parsing a formatted key returns the colour that was formatted. */
  lemma KeyRoundTrip(c: RgbaColor)
    ensures ParseKey(FormatKey(c)) == Some(c)
  {
    var key := FormatKey(c);
    assert key[1..3] == FormatByte(c.r);
    assert key[3..5] == FormatByte(c.g);
    assert key[5..7] == FormatByte(c.b);
    assert key[7..9] == FormatByte(c.a);
    FormatByteRoundTrip(c.r);
    FormatByteRoundTrip(c.g);
    FormatByteRoundTrip(c.b);
    FormatByteRoundTrip(c.a);
  }

  /** Distinct colours get distinct keys, so merging by key merges exactly equal colours. */
  lemma FormatKeyInjective(c1: RgbaColor, c2: RgbaColor)
    ensures FormatKey(c1) == FormatKey(c2) <==> c1 == c2
  {
    if FormatKey(c1) == FormatKey(c2) {
      KeyRoundTrip(c1);
      KeyRoundTrip(c2);
    }
  }

  /** Rust's `Ord` on `String`: lexicographic on the characters (bytes, for ASCII keys). */
  predicate StrLess(s: string, t: string)
  {
    if s == [] then t != []
    else if t == [] then false
    else s[0] < t[0] || (s[0] == t[0] && StrLess(s[1..], t[1..]))
  }

  /** Lexicographic order on (r, g, b, a). */
  predicate ColorLess(c1: RgbaColor, c2: RgbaColor)
  {
    || c1.r < c2.r
    || (c1.r == c2.r && c1.g < c2.g)
    || (c1.r == c2.r && c1.g == c2.g && c1.b < c2.b)
    || (c1.r == c2.r && c1.g == c2.g && c1.b == c2.b && c1.a < c2.a)
  }

  lemma {:induction false} StrLessIrreflexive(s: string)
    ensures !StrLess(s, s)
  {
    if s != [] {
      StrLessIrreflexive(s[1..]);
    }
  }

  lemma {:induction false} StrLessTransitive(s: string, t: string, u: string)
    requires StrLess(s, t) && StrLess(t, u)
    ensures StrLess(s, u)
  {
    if s != [] && t != [] && u != [] && s[0] == t[0] == u[0] {
      StrLessTransitive(s[1..], t[1..], u[1..]);
    }
  }

  lemma {:induction false} StrLessTotal(s: string, t: string)
    ensures s == t || StrLess(s, t) || StrLess(t, s)
  {
    if s != [] && t != [] && s[0] == t[0] {
      StrLessTotal(s[1..], t[1..]);
      if s[1..] == t[1..] {
        assert s == [s[0]] + s[1..] && t == [t[0]] + t[1..];
      }
    }
  }

  /** Comparing two concatenations whose first parts have equal length. */
  lemma {:induction false} StrLessAppend(s: string, s': string, t: string, t': string)
    requires |s| == |t|
    ensures StrLess(s + s', t + t') <==> StrLess(s, t) || (s == t && StrLess(s', t'))
  {
    if s != [] {
      assert (s + s')[1..] == s[1..] + s' && (t + t')[1..] == t[1..] + t';
      StrLessAppend(s[1..], s', t[1..], t');
      if s[0] == t[0] && s[1..] == t[1..] {
        assert s == [s[0]] + s[1..] && t == [t[0]] + t[1..];
      }
      if s == t {
        StrLessIrreflexive(s);
      }
    } else {
      assert s + s' == s' && t + t' == t';
    }
  }

  lemma HexDigitMonotone(d: nat, e: nat)
    requires d < 16 && e < 16
    ensures HexDigit(d) < HexDigit(e) <==> d < e
    ensures HexDigit(d) == HexDigit(e) <==> d == e
  {
  }

  /** Two formatted bytes compare as the bytes do. */
  lemma FormatByteOrder(x: u8, y: u8)
    ensures StrLess(FormatByte(x), FormatByte(y)) <==> x < y
    ensures FormatByte(x) == FormatByte(y) <==> x == y
  {
    var sx, sy := FormatByte(x), FormatByte(y);
    HexDigitMonotone(x as nat / 16, y as nat / 16);
    HexDigitMonotone(x as nat % 16, y as nat % 16);
    assert sx[1..] == [sx[1]] && sy[1..] == [sy[1]];
    assert [sx[1]][1..] == [] && [sy[1]][1..] == [];
    assert StrLess(sx[1..], sy[1..]) <==> sx[1] < sy[1];
    assert x < y <==> x as nat / 16 < y as nat / 16 || (x as nat / 16 == y as nat / 16 && x as nat % 16 < y as nat % 16);
  }

  /**
   * Keys compare as their colours do in (r, g, b, a) order, so iterating
   * the `BTreeMap` visits colours in ascending lexicographic order.
   */
  lemma KeyOrder(c1: RgbaColor, c2: RgbaColor)
    ensures StrLess(FormatKey(c1), FormatKey(c2)) <==> ColorLess(c1, c2)
  {
    var r1, g1, b1, a1 := FormatByte(c1.r), FormatByte(c1.g), FormatByte(c1.b), FormatByte(c1.a);
    var r2, g2, b2, a2 := FormatByte(c2.r), FormatByte(c2.g), FormatByte(c2.b), FormatByte(c2.a);
    FormatByteOrder(c1.r, c2.r);
    FormatByteOrder(c1.g, c2.g);
    FormatByteOrder(c1.b, c2.b);
    FormatByteOrder(c1.a, c2.a);
    assert FormatKey(c1) == "#" + (r1 + (g1 + (b1 + a1)));
    assert FormatKey(c2) == "#" + (r2 + (g2 + (b2 + a2)));
    StrLessAppend(b1, a1, b2, a2);
    StrLessAppend(g1, b1 + a1, g2, b2 + a2);
    StrLessAppend(r1, g1 + (b1 + a1), r2, g2 + (b2 + a2));
    StrLessAppend("#", r1 + (g1 + (b1 + a1)), "#", r2 + (g2 + (b2 + a2)));
    StrLessIrreflexive("#");
  }
}
