/** `binascii.hexlify` and `binascii.unhexlify`: the text form in which shares
    live in share files, travel in `/send-share` replies and the master is
    written to `master_key.txt`. */
module Hex {
  import opened Wrappers
  import opened Bytes

  /** A character `unhexlify` accepts: either case. */
  predicate IsHexDigit(c: char) {
    '0' <= c <= '9' || 'a' <= c <= 'f' || 'A' <= c <= 'F'
  }

  /** A character `hexlify` produces: lower case only. */
  predicate IsLowerHexDigit(c: char) {
    '0' <= c <= '9' || 'a' <= c <= 'f'
  }

  /** Text `unhexlify` decodes without raising: even length, hex digits only. */
  predicate IsHex(s: string) {
    |s| % 2 == 0 && forall i :: 0 <= i < |s| ==> IsHexDigit(s[i])
  }

  /** The value of one hex digit. */
  function DigitValue(c: char): (v: nat)
    requires IsHexDigit(c)
    ensures v < 16
  {
    if '0' <= c <= '9' then c as int - '0' as int
    else if 'a' <= c <= 'f' then c as int - 'a' as int + 10
    else c as int - 'A' as int + 10
  }

  /** The lower-case digit for a nibble. */
  function LowerDigit(v: nat): (c: char)
    requires v < 16
    ensures IsLowerHexDigit(c)
  {
    if v < 10 then ('0' as int + v) as char else ('a' as int + v - 10) as char
  }

  lemma DigitRoundTrip(v: nat)
    requires v < 16
    ensures DigitValue(LowerDigit(v)) == v
  {
  }

  /** The byte a pair of digits spells, high nibble first. */
  function PairValue(hi: char, lo: char): Byte
    requires IsHexDigit(hi) && IsHexDigit(lo)
  {
    (16 * DigitValue(hi) + DigitValue(lo)) as Byte
  }

  /** The two lower-case digits `hexlify` writes for one byte, high nibble
      first. */
  function HexByte(x: Byte): (s: string)
    ensures |s| == 2 && IsLowerHexDigit(s[0]) && IsLowerHexDigit(s[1])
  {
    [LowerDigit(x as int / 16), LowerDigit(x as int % 16)]
  }

  /** `binascii.hexlify(b).decode()`: two lower-case digits per byte. */
  function Hexlify(b: Bytes): (s: string)
    ensures |s| == 2 * |b|
    ensures forall i :: 0 <= i < |s| ==> IsLowerHexDigit(s[i])
  {
    if b == [] then [] else HexByte(b[0]) + Hexlify(b[1..])
  }

  /** `binascii.unhexlify(s)`, with `None` where Python raises: it succeeds
      exactly on even-length all-hex text, one byte per pair of digits. */
  function Unhexlify(s: string): (r: Option<Bytes>)
    ensures r.Some? <==> IsHex(s)
    ensures r.Some? ==> |r.value| == |s| / 2
  {
    if |s| % 2 == 1 then None
    else if s == [] then Some([])
    else if !IsHexDigit(s[0]) || !IsHexDigit(s[1]) then None
    else match Unhexlify(s[2..])
      case None => None
      case Some(rest) => Some([PairValue(s[0], s[1])] + rest)
  }

  /** The two digits of a byte spell that byte. */
  lemma NibblesRejoin(x: Byte)
    ensures PairValue(HexByte(x)[0], HexByte(x)[1]) == x
  {
    var n := x as int;
    DigitRoundTrip(n / 16);
    DigitRoundTrip(n % 16);
    assert 16 * (n / 16) + n % 16 == n;
  }

  /** What `hexlify` writes, `unhexlify` reads back. */
  lemma {:induction false} HexRoundTrip(b: Bytes)
    ensures Unhexlify(Hexlify(b)) == Some(b)
  {
    if b != [] {
      var x, s := b[0], Hexlify(b);
      HexRoundTrip(b[1..]);
      assert s == HexByte(x) + Hexlify(b[1..]);
      assert s[2..] == Hexlify(b[1..]);
      NibblesRejoin(x);
      assert Unhexlify(s) == Some([x] + b[1..]);
      assert [x] + b[1..] == b;
    }
  }

  lemma CharRoundTrip(c: char)
    requires IsLowerHexDigit(c)
    ensures LowerDigit(DigitValue(c)) == c
  {
  }

  /** Two lower-case digits are what `hexlify` writes for the byte they spell. */
  lemma PairDigits(hi: char, lo: char)
    requires IsLowerHexDigit(hi) && IsLowerHexDigit(lo)
    ensures HexByte(PairValue(hi, lo)) == [hi, lo]
  {
    var n := 16 * DigitValue(hi) + DigitValue(lo);
    assert n / 16 == DigitValue(hi) && n % 16 == DigitValue(lo);
    CharRoundTrip(hi);
    CharRoundTrip(lo);
  }

  /** Conversely, lower-case hex text is exactly what `hexlify` gives back
      for the bytes it decodes to. */
  lemma {:induction false} HexRoundTripText(s: string)
    requires IsHex(s)
    requires forall i :: 0 <= i < |s| ==> IsLowerHexDigit(s[i])
    ensures Unhexlify(s).Some? && Hexlify(Unhexlify(s).value) == s
  {
    if s != [] {
      var t := s[2..];
      assert IsHex(t) by {
        forall i | 0 <= i < |t| ensures IsHexDigit(t[i]) {
          assert t[i] == s[i + 2];
        }
      }
      HexRoundTripText(t);
      var p := PairValue(s[0], s[1]);
      var rest := Unhexlify(t).value;
      assert Unhexlify(s).value == [p] + rest;
      assert ([p] + rest)[1..] == rest;
      PairDigits(s[0], s[1]);
      assert s == [s[0], s[1]] + t;
    }
  }

  /** The lower-case form of a character: `A`-`F` become `a`-`f`, every
      other character is kept. */
  function LowerChar(c: char): (l: char)
    ensures IsHexDigit(l) <==> IsHexDigit(c)
    ensures IsHexDigit(c) ==> DigitValue(l) == DigitValue(c)
  {
    if 'A' <= c <= 'F' then (c as int + 32) as char else c
  }

  function LowerText(s: string): (t: string)
    ensures |t| == |s| && forall i :: 0 <= i < |s| ==> t[i] == LowerChar(s[i])
  {
    seq(|s|, i requires 0 <= i < |s| => LowerChar(s[i]))
  }

  /** `unhexlify` reads upper- and lower-case digits alike. */
  lemma {:induction false} UnhexlifyIgnoresCase(s: string)
    ensures Unhexlify(LowerText(s)) == Unhexlify(s)
  {
    var t := LowerText(s);
    if |s| % 2 == 0 && s != [] {
      assert t[2..] == LowerText(s[2..]);
      UnhexlifyIgnoresCase(s[2..]);
      assert IsHexDigit(t[0]) == IsHexDigit(s[0]) && IsHexDigit(t[1]) == IsHexDigit(s[1]);
      if IsHexDigit(s[0]) && IsHexDigit(s[1]) {
        assert PairValue(t[0], t[1]) == PairValue(s[0], s[1]);
      }
    } else if s == [] {
      assert t == [];
    }
  }
}
