/** Base16 (section 8 of RFC 4648) as the signature printer writes it and the validator reads it. */
module Hex {
  import opened Wrappers

  type Bytes = seq<bv8>

  function Digit(n: bv8): char {
    if n == 0 then '0' else if n == 1 then '1' else if n == 2 then '2' else if n == 3 then '3'
    else if n == 4 then '4' else if n == 5 then '5' else if n == 6 then '6' else if n == 7 then '7'
    else if n == 8 then '8' else if n == 9 then '9' else if n == 10 then 'A' else if n == 11 then 'B'
    else if n == 12 then 'C' else if n == 13 then 'D' else if n == 14 then 'E' else 'F'
  }

  function DigitValue(c: char): Option<bv8> {
    if c == '0' then Some(0) else if c == '1' then Some(1) else if c == '2' then Some(2)
    else if c == '3' then Some(3) else if c == '4' then Some(4) else if c == '5' then Some(5)
    else if c == '6' then Some(6) else if c == '7' then Some(7) else if c == '8' then Some(8)
    else if c == '9' then Some(9)
    else if c == 'A' || c == 'a' then Some(10) else if c == 'B' || c == 'b' then Some(11)
    else if c == 'C' || c == 'c' then Some(12) else if c == 'D' || c == 'd' then Some(13)
    else if c == 'E' || c == 'e' then Some(14) else if c == 'F' || c == 'f' then Some(15)
    else None
  }

  function LowerChar(c: char): char {
    if 'A' <= c <= 'Z' then ((c as int) + 32) as char else c
  }

  /** ToLowerInvariant, on ASCII. */
  function Lower(s: string): string {
    seq(|s|, i requires 0 <= i < |s| => LowerChar(s[i]))
  }

  /** Convert.ToHexString */
  function ToHexString(b: Bytes): string {
    if b == [] then [] else [Digit(b[0] >> 4), Digit(b[0] & 0xF)] + ToHexString(b[1..])
  }

  /** Convert.FromHexString; None where it throws. */
  function FromHexString(s: string): Option<Bytes> {
    if s == [] then Some([])
    else if |s| == 1 then None
    else
      var hi, lo, rest := DigitValue(s[0]), DigitValue(s[1]), FromHexString(s[2..]);
      if hi.None? || lo.None? || rest.None? then None
      else Some([(hi.value << 4) | lo.value] + rest.value)
  }

  function TryParseHex(s: string): Option<Bytes> {
    if |s| % 2 != 0 then None else FromHexString(s)
  }

  lemma DigitsOfByte(b: bv8)
    ensures b >> 4 <= 15 && b & 0xF <= 15
    ensures ((b >> 4) << 4) | (b & 0xF) == b
  {
  }

  lemma NibblesOfByte(hi: bv8, lo: bv8)
    requires hi <= 15 && lo <= 15
    ensures ((hi << 4) | lo) >> 4 == hi
    ensures ((hi << 4) | lo) & 0xF == lo
  {
  }

  lemma DigitInverse(n: bv8, c: char)
    requires n <= 15
    ensures DigitValue(c) == Some(n) <==> LowerChar(c) == LowerChar(Digit(n))
  {
  }

  lemma DigitRange(c: char)
    ensures DigitValue(c).Some? ==> DigitValue(c).value <= 15
  {
  }

  /** Two characters decode to a byte exactly when they are its two digits up to case. */
  lemma {:induction false} PairSpells(c: char, d: char, b: bv8)
    ensures DigitValue(c).Some? && DigitValue(d).Some? && (DigitValue(c).value << 4) | DigitValue(d).value == b
       <==> LowerChar(c) == LowerChar(Digit(b >> 4)) && LowerChar(d) == LowerChar(Digit(b & 0xF))
  {
    DigitsOfByte(b);
    DigitInverse(b >> 4, c);
    DigitInverse(b & 0xF, d);
    DigitRange(c);
    DigitRange(d);
    if DigitValue(c).Some? && DigitValue(d).Some? {
      NibblesOfByte(DigitValue(c).value, DigitValue(d).value);
    }
  }

  lemma LowerByPairs(s: string, t: string)
    requires |s| >= 2 && |t| >= 2
    ensures Lower(s) == Lower(t)
       <==> LowerChar(s[0]) == LowerChar(t[0]) && LowerChar(s[1]) == LowerChar(t[1]) && Lower(s[2..]) == Lower(t[2..])
  {
    assert Lower(s) == [LowerChar(s[0]), LowerChar(s[1])] + Lower(s[2..]);
    assert Lower(t) == [LowerChar(t[0]), LowerChar(t[1])] + Lower(t[2..]);
    if Lower(s) == Lower(t) {
      assert Lower(s)[0] == Lower(t)[0] && Lower(s)[1] == Lower(t)[1];
      assert Lower(s)[2..] == Lower(s[2..]) && Lower(t)[2..] == Lower(t[2..]);
    }
  }

  /** A string decodes to `b` exactly when it is the hex spelling of `b` up to the case of its letters. */
  lemma {:induction false} ParsesIffSpells(s: string, b: Bytes)
    ensures FromHexString(s) == Some(b) <==> Lower(s) == Lower(ToHexString(b))
  {
    HexLength(b);
    assert |Lower(s)| == |s| && |Lower(ToHexString(b))| == |ToHexString(b)|;
    if |s| >= 2 && b != [] {
      ParsesIffSpells(s[2..], b[1..]);
      PairSpells(s[0], s[1], b[0]);
      assert ToHexString(b)[2..] == ToHexString(b[1..]);
      LowerByPairs(s, ToHexString(b));
      assert b == [b[0]] + b[1..];
    }
  }

  lemma {:induction false} HexLength(b: Bytes)
    ensures |ToHexString(b)| == 2 * |b|
  {
    if b != [] {
      HexLength(b[1..]);
    }
  }

  /** Lower-casing moves the letters A to Z by 32 and leaves every other character alone. */
  lemma LowerAt(s: string, i: nat)
    requires i < |s|
    ensures |Lower(s)| == |s|
    ensures Lower(s)[i] == if 65 <= s[i] as int <= 90 then (s[i] as int + 32) as char else s[i]
  {
  }

  /** The digits are 0 to 9 and the letters A to F in either case, in the order of their values. */
  lemma DigitMeaning(c: char)
    ensures DigitValue(c).Some? <==> '0' <= c <= '9' || 'A' <= c <= 'F' || 'a' <= c <= 'f'
    ensures DigitValue(c).Some? ==>
              DigitValue(c).value as int
              == c as int - (if '0' <= c <= '9' then '0' as int else if 'A' <= c <= 'F' then 55 else 87)
  {
  }

  lemma ByteOfNibbles(hi: bv8, lo: bv8)
    requires hi <= 15 && lo <= 15
    ensures (hi << 4) | lo == 16 * hi + lo
  {
  }

  /** Two digits make a byte, the more significant one first. */
  lemma {:induction false} ByteAt(s: string, i: nat)
    requires FromHexString(s).Some? && 2 * i + 1 < |s|
    ensures i < |FromHexString(s).value| && DigitValue(s[2 * i]).Some? && DigitValue(s[2 * i + 1]).Some?
    ensures FromHexString(s).value[i] == 16 * DigitValue(s[2 * i]).value + DigitValue(s[2 * i + 1]).value
  {
    if i == 0 {
      DigitRange(s[0]);
      DigitRange(s[1]);
      ByteOfNibbles(DigitValue(s[0]).value, DigitValue(s[1]).value);
    } else {
      ByteAt(s[2..], i - 1);
      assert s[2..][2 * (i - 1)] == s[2 * i] && s[2..][2 * (i - 1) + 1] == s[2 * i + 1];
    }
  }

  lemma LowerTwice(s: string)
    ensures Lower(Lower(s)) == Lower(s)
  {
  }

  /** TryParseHex reads a digest exactly when the text spells it; odd lengths and other digits spell nothing. */
  lemma TryParseHexIff(s: string, b: Bytes)
    ensures TryParseHex(s) == Some(b) <==> Lower(s) == Lower(ToHexString(b))
    ensures TryParseHex(Lower(ToHexString(b))) == Some(b)
  {
    ParsesIffSpells(s, b);
    ParsesIffSpells(Lower(ToHexString(b)), b);
    HexLength(b);
    LowerTwice(ToHexString(b));
    assert |Lower(s)| == |s|;
  }

  lemma {:induction false} RejectedIff(s: string)
    ensures FromHexString(s).None? <==> |s| % 2 != 0 || exists i :: 0 <= i < |s| && DigitValue(s[i]).None?
  {
    if |s| >= 2 {
      RejectedIff(s[2..]);
      assert forall i :: 2 <= i < |s| ==> s[i] == s[2..][i - 2];
    }
  }

  /** The comparison loop, which looks at every byte, decides equality. */
  method FixedTimeEquals(a: Bytes, b: Bytes) returns (equal: bool)
    ensures equal <==> a == b
  {
    if |a| != |b| {
      return false;
    }
    var diff: bv8 := 0;
    for i := 0 to |a|
      invariant diff == 0 <==> a[..i] == b[..i]
    {
      XorIsZero(diff, a[i], b[i]);
      diff := diff | (a[i] ^ b[i]);
      assert a[..i + 1] == a[..i] + [a[i]] && b[..i + 1] == b[..i] + [b[i]];
    }
    assert a[..|a|] == a && b[..|b|] == b;
    return diff == 0;
  }

  lemma XorIsZero(d: bv8, x: bv8, y: bv8)
    ensures d | (x ^ y) == 0 <==> d == 0 && x == y
  {
  }
}
