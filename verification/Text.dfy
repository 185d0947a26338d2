/** The string operations of the header parser: splitting, trimming, and 64-bit decimal numbers. */
module Text {
  import opened Wrappers

  // ----- white space -----

  /** char.IsWhiteSpace */
  predicate IsWhiteSpace(c: char) {
    || '\t' <= c <= '\r' || c == ' ' || c == '\U{85}' || c == '\U{A0}' || c == '\U{1680}'
    || '\U{2000}' <= c <= '\U{200A}' || c == '\U{2028}' || c == '\U{2029}' || c == '\U{202F}'
    || c == '\U{205F}' || c == '\U{3000}'
  }

  /** The white space of Unicode, by code points. */
  lemma WhiteSpaceCodes(c: char)
    ensures IsWhiteSpace(c) <==>
              c as int in {9, 10, 11, 12, 13, 32, 0x85, 0xA0, 0x1680, 0x2000, 0x2001, 0x2002, 0x2003, 0x2004, 0x2005,
                           0x2006, 0x2007, 0x2008, 0x2009, 0x200A, 0x2028, 0x2029, 0x202F, 0x205F, 0x3000}
  {
  }

  function TrimStart(s: string): string {
    if s != [] && IsWhiteSpace(s[0]) then TrimStart(s[1..]) else s
  }

  function TrimEnd(s: string): string {
    if s != [] && IsWhiteSpace(Last(s)) then TrimEnd(s[..|s| - 1]) else s
  }

  function Trim(s: string): string {
    TrimEnd(TrimStart(s))
  }

  predicate IsBlank(s: string) {
    forall c :: c in s ==> IsWhiteSpace(c)
  }

  predicate IsTight(s: string) {
    s != [] ==> !IsWhiteSpace(s[0]) && !IsWhiteSpace(Last(s))
  }

  lemma {:induction false} TrimStartResult(s: string)
    ensures TrimStart(s) != [] ==> !IsWhiteSpace(TrimStart(s)[0])
  {
    if s != [] && IsWhiteSpace(s[0]) {
      TrimStartResult(s[1..]);
    }
  }

  lemma {:induction false} TrimEndResult(s: string)
    ensures TrimEnd(s) <= s && (TrimEnd(s) != [] ==> !IsWhiteSpace(Last(TrimEnd(s))))
  {
    if s != [] && IsWhiteSpace(Last(s)) {
      TrimEndResult(s[..|s| - 1]);
    }
  }

  lemma TrimIsTight(s: string)
    ensures IsTight(Trim(s))
    ensures Trim(Trim(s)) == Trim(s)
  {
    TrimStartResult(s);
    TrimEndResult(TrimStart(s));
  }

  lemma TightTrims(s: string)
    requires IsTight(s)
    ensures Trim(s) == s
  {
  }

  lemma {:induction false} TrimOfPadded(left: string, s: string, right: string)
    requires IsBlank(left) && IsBlank(right)
    ensures Trim(left + s + right) == Trim(s)
  {
    if left != [] {
      assert (left + s + right)[1..] == left[1..] + s + right;
      assert left[0] in left;
      TrimOfPadded(left[1..], s, right);
    } else if s != [] && IsWhiteSpace(s[0]) {
      assert (left + s + right)[1..] == left + s[1..] + right;
      TrimOfPadded(left, s[1..], right);
    } else if s == [] {
      assert left + s + right == right;
      TrimBlank(right);
    } else {
      assert left + s + right == s + right;
      TrimEndOfPadded(s, right);
    }
  }

  lemma {:induction false} TrimBlank(s: string)
    requires IsBlank(s)
    ensures TrimStart(s) == []
  {
    if s != [] {
      assert s[0] in s;
      TrimBlank(s[1..]);
    }
  }

  lemma {:induction false} TrimEndOfPadded(s: string, right: string)
    requires IsBlank(right)
    ensures TrimEnd(s + right) == TrimEnd(s)
  {
    if right == [] {
      assert s + right == s;
    } else {
      assert Last(right) in right;
      assert (s + right)[..|s + right| - 1] == s + right[..|right| - 1];
      TrimEndOfPadded(s, right[..|right| - 1]);
    }
  }

  // ----- splitting -----

  /** string.Split(sep): one piece more than there are separators. */
  function Split(s: string, sep: char): (r: seq<string>)
    ensures r != []
  {
    if s == [] then [[]]
    else
      var rest := Split(s[1..], sep);
      if s[0] == sep then [[]] + rest else [[s[0]] + rest[0]] + rest[1..]
  }

  function Join(pieces: seq<string>, sep: char): string
    requires pieces != []
  {
    if |pieces| == 1 then pieces[0] else pieces[0] + [sep] + Join(pieces[1..], sep)
  }

  predicate Free(piece: string, sep: char) {
    sep !in piece
  }

  /** Every text is the join of its pieces, none of which contains the separator. */
  lemma {:induction false} JoinOfSplit(s: string, sep: char)
    ensures Join(Split(s, sep), sep) == s
    ensures forall p :: p in Split(s, sep) ==> Free(p, sep)
  {
    if s != [] {
      JoinOfSplit(s[1..], sep);
      var rest := Split(s[1..], sep);
      assert s == [s[0]] + s[1..];
      if s[0] == sep {
        assert Split(s, sep)[1..] == rest;
      } else {
        assert Split(s, sep)[0] == [s[0]] + rest[0] && Split(s, sep)[1..] == rest[1..];
        JoinHead(s[0], rest, Split(s, sep), sep);
        assert Free(rest[0], sep);
      }
    }
  }

  lemma JoinHead(c: char, rest: seq<string>, all: seq<string>, sep: char)
    requires rest != [] && all != [] && all[0] == [c] + rest[0] && all[1..] == rest[1..]
    ensures Join(all, sep) == [c] + Join(rest, sep)
  {
    if |rest| > 1 {
      assert [c] + rest[0] + [sep] + Join(rest[1..], sep) == [c] + (rest[0] + [sep] + Join(rest[1..], sep));
    }
  }

  /** What one more character in front does to the pieces. */
  function InFront(c: char, pieces: seq<string>, sep: char): seq<string>
    requires pieces != []
  {
    if c == sep then [[]] + pieces else [[c] + pieces[0]] + pieces[1..]
  }

  lemma InFrontOfConcat(c: char, pieces: seq<string>, more: seq<string>, sep: char)
    requires pieces != []
    ensures InFront(c, pieces + more, sep) == InFront(c, pieces, sep) + more
  {
    assert (pieces + more)[1..] == pieces[1..] + more;
  }

  lemma SplitOfCons(c: char, s: string, sep: char)
    ensures Split([c] + s, sep) == InFront(c, Split(s, sep), sep)
  {
    assert ([c] + s)[1..] == s;
  }

  /** A separator between two texts puts their pieces one after the other. */
  lemma {:induction false} SplitOfConcat(a: string, b: string, sep: char)
    ensures Split(a + [sep] + b, sep) == Split(a, sep) + Split(b, sep)
  {
    if a == [] {
      assert a + [sep] + b == [sep] + b;
      SplitOfCons(sep, b, sep);
    } else {
      var c, rest := a[0], a[1..];
      assert a == [c] + rest;
      assert a + [sep] + b == [c] + (rest + [sep] + b);
      SplitOfConcat(rest, b, sep);
      SplitOfCons(c, rest, sep);
      SplitOfCons(c, rest + [sep] + b, sep);
      InFrontOfConcat(c, Split(rest, sep), Split(b, sep), sep);
    }
  }

  lemma {:induction false} SplitOfFree(p: string, sep: char)
    requires Free(p, sep)
    ensures Split(p, sep) == [p]
  {
    if p != [] {
      assert p == [p[0]] + p[1..];
      SplitOfFree(p[1..], sep);
    }
  }

  /** Splitting a join of such pieces gives exactly those pieces back. */
  lemma {:induction false} SplitOfJoin(pieces: seq<string>, sep: char)
    requires pieces != [] && forall p :: p in pieces ==> Free(p, sep)
    ensures Split(Join(pieces, sep), sep) == pieces
  {
    assert pieces[0] in pieces;
    SplitOfFree(pieces[0], sep);
    if |pieces| > 1 {
      SplitOfJoin(pieces[1..], sep);
      SplitOfConcat(pieces[0], Join(pieces[1..], sep), sep);
      assert pieces == [pieces[0]] + pieces[1..];
    }
  }

  /** p.Split('=', 2) when it has two parts. */
  function SplitPair(p: string): Option<(string, string)> {
    if p == [] then None
    else if p[0] == '=' then Some(([], p[1..]))
    else
      var rest := SplitPair(p[1..]);
      if rest.None? then None else Some(([p[0]] + rest.value.0, rest.value.1))
  }

  lemma {:induction false} SplitPairOf(name: string, value: string)
    requires '=' !in name
    ensures SplitPair(name + ['='] + value) == Some((name, value))
  {
    if name == [] {
      assert name + ['='] + value == ['='] + value;
    } else {
      assert (name + ['='] + value)[1..] == name[1..] + ['='] + value;
      assert name[0] in name && name == [name[0]] + name[1..];
      SplitPairOf(name[1..], value);
    }
  }

  /** A text without '=' has no two parts; any other is split at its first '='. */
  lemma {:induction false} SplitPairIff(p: string)
    ensures SplitPair(p).None? <==> '=' !in p
    ensures SplitPair(p).Some? ==>
              var (name, value) := SplitPair(p).value;
              '=' !in name && p == name + ['='] + value
  {
    if p != [] {
      SplitPairIff(p[1..]);
      assert p == [p[0]] + p[1..];
    }
  }

  // ----- 64-bit decimal numbers -----

  const TWO_63 := 0x8000_0000_0000_0000

  predicate IsInt64(x: int) {
    -TWO_63 <= x < TWO_63
  }

  predicate IsDigit(c: char) {
    '0' <= c <= '9'
  }

  predicate AllDigits(s: string) {
    forall i :: 0 <= i < |s| ==> IsDigit(s[i])
  }

  function Value(s: string): nat
    requires AllDigits(s)
  {
    if s == [] then 0 else Value(s[..|s| - 1]) * 10 + (Last(s) as int - '0' as int)
  }

  function Pow10(n: nat): nat {
    if n == 0 then 1 else 10 * Pow10(n - 1)
  }

  lemma NextPower(k: nat, n: nat)
    ensures k * Pow10(n + 1) == 10 * (k * Pow10(n))
  {
  }

  lemma ValueSnoc(s: string, c: char)
    requires AllDigits(s) && IsDigit(c)
    ensures AllDigits(s + [c]) && Value(s + [c]) == 10 * Value(s) + (c as int - 48)
  {
    assert (s + [c])[..|s|] == s;
  }

  /** The value of digits is decimal, the most significant one first. */
  lemma {:induction false} ValueOfDigit(c: char, rest: string)
    requires IsDigit(c) && AllDigits(rest)
    ensures AllDigits([c] + rest)
    ensures Value([c] + rest) == (c as int - 48) * Pow10(|rest|) + Value(rest)
  {
    if rest == [] {
      ValueSnoc([], c);
      assert [] + [c] == [c] + rest;
    } else {
      var n := |rest| - 1;
      ValueOfDigit(c, rest[..n]);
      ValueSnoc([c] + rest[..n], rest[n]);
      ValueSnoc(rest[..n], rest[n]);
      NextPower(c as int - 48, n);
      assert rest[..n] + [rest[n]] == rest && [c] + rest[..n] + [rest[n]] == [c] + rest;
    }
  }

  /** The white space that number parsing skips is narrower than char.IsWhiteSpace. */
  predicate IsNumberSpace(c: char) {
    '\t' <= c <= '\r' || c == ' '
  }

  lemma NumberSpaceCodes(c: char)
    ensures IsNumberSpace(c) <==> c as int in {9, 10, 11, 12, 13, 32}
  {
  }

  function SkipNumberSpace(s: string): string {
    if s != [] && IsNumberSpace(s[0]) then SkipNumberSpace(s[1..]) else s
  }

  function DigitCount(s: string): (n: nat)
    ensures n <= |s| && AllDigits(s[..n]) && (n < |s| ==> !IsDigit(s[n]))
  {
    if s == [] || !IsDigit(s[0]) then 0
    else
      var n := DigitCount(s[1..]);
      assert s[..n + 1] == [s[0]] + s[1..][..n];
      n + 1
  }

  /** long.TryParse with the default integer style: spaces, a sign, digits, spaces, then NUL characters. */
  function ParseInt64(s: string): (r: Option<int>)
    ensures r.Some? ==> IsInt64(r.value)
  {
    var a := SkipNumberSpace(s);
    var negative := a != [] && a[0] == '-';
    ParseUnsigned(if a != [] && (a[0] == '-' || a[0] == '+') then a[1..] else a, if negative then -1 else 1)
  }

  function ParseUnsigned(body: string, sign: int): (r: Option<int>)
    ensures r.Some? ==> IsInt64(r.value)
  {
    var n := DigitCount(body);
    var tail := SkipNumberSpace(body[n..]);
    if n == 0 || exists i :: 0 <= i < |tail| && tail[i] != '\0' then None
    else
      var v := sign * Value(body[..n]);
      if IsInt64(v) then Some(v) else None
  }

  lemma {:induction false} SkippedIsSuffix(s: string)
    ensures forall c :: c in SkipNumberSpace(s) ==> c in s
  {
    if s != [] && IsNumberSpace(s[0]) {
      SkippedIsSuffix(s[1..]);
    }
  }

  ghost predicate AllSpaces(s: string) {
    forall c :: c in s ==> IsNumberSpace(c)
  }

  ghost predicate AllNul(s: string) {
    forall c :: c in s ==> c == '\0'
  }

  lemma {:induction false} SkipsSpaces(left: string, rest: string)
    requires AllSpaces(left) && (rest == [] || !IsNumberSpace(rest[0]))
    ensures SkipNumberSpace(left + rest) == rest
  {
    if left == [] {
      assert left + rest == rest;
    } else {
      assert left[0] in left && (left + rest)[1..] == left[1..] + rest;
      SkipsSpaces(left[1..], rest);
    }
  }

  lemma {:induction false} SkippedPart(s: string) returns (left: string)
    ensures s == left + SkipNumberSpace(s) && AllSpaces(left)
    ensures SkipNumberSpace(s) == [] || !IsNumberSpace(SkipNumberSpace(s)[0])
  {
    left := [];
    if s != [] && IsNumberSpace(s[0]) {
      left := SkippedPart(s[1..]);
      left := [s[0]] + left;
      assert s == [s[0]] + s[1..];
    }
  }

  lemma {:induction false} CountsDigits(digits: string, rest: string)
    requires AllDigits(digits) && (rest == [] || !IsDigit(rest[0]))
    ensures DigitCount(digits + rest) == |digits|
  {
    if digits == [] {
      assert digits + rest == rest;
    } else {
      assert (digits + rest)[1..] == digits[1..] + rest;
      CountsDigits(digits[1..], rest);
    }
  }

  lemma FirstOf(s: string)
    ensures s == "" || s[0] in s
  {
  }

  lemma UnsignedForm(digits: string, right: string, nuls: string, sign: int)
    requires AllSpaces(right) && AllNul(nuls) && digits != "" && AllDigits(digits)
    ensures
      var v := sign * Value(digits);
      ParseUnsigned(digits + (right + nuls), sign) == if IsInt64(v) then Some(v) else None
  {
    var tail := right + nuls;
    var body := digits + tail;
    FirstOf(right);
    FirstOf(nuls);
    CountsDigits(digits, tail);
    assert body[..|digits|] == digits && body[|digits|..] == tail;
    SkipsSpaces(right, nuls);
    forall i | 0 <= i < |nuls| ensures nuls[i] == '\0' {
      assert nuls[i] in nuls;
    }
  }

  lemma SignedForm(left: string, sign: string, body: string)
    requires AllSpaces(left) && sign in {"", "+", "-"} && body != "" && IsDigit(body[0])
    ensures ParseInt64(left + (sign + body)) == ParseUnsigned(body, if sign == "-" then -1 else 1)
  {
    SkipsSpaces(left, sign + body);
    if sign == "" {
      assert sign + body == body;
    } else {
      assert (sign + body)[0] == sign[0] && (sign + body)[1..] == body;
    }
  }

  /** long.TryParse reads spaces, a sign, digits, spaces and NULs as the decimal value of the digits, if it fits. */
  lemma ParseOfForm(left: string, sign: string, digits: string, right: string, nuls: string)
    requires AllSpaces(left) && AllSpaces(right) && AllNul(nuls)
    requires sign in {"", "+", "-"} && digits != "" && AllDigits(digits)
    ensures
      var n: int := Value(digits);
      var v := if sign == "-" then -n else n;
      ParseInt64(left + (sign + (digits + (right + nuls)))) == if IsInt64(v) then Some(v) else None
  {
    var body := digits + (right + nuls);
    assert body[0] == digits[0];
    SignedForm(left, sign, body);
    UnsignedForm(digits, right, nuls, if sign == "-" then -1 else 1);
  }

  lemma FormOfUnsigned(body: string, sign: int) returns (digits: string, right: string, nuls: string)
    requires ParseUnsigned(body, sign).Some?
    ensures body == digits + (right + nuls)
    ensures AllSpaces(right) && AllNul(nuls) && digits != "" && AllDigits(digits)
  {
    var n := DigitCount(body);
    digits := body[..n];
    right := SkippedPart(body[n..]);
    nuls := SkipNumberSpace(body[n..]);
    assert body == body[..n] + body[n..];
  }

  /** And it reads no other text. */
  lemma FormOfParsed(s: string)
    returns (left: string, sign: string, digits: string, right: string, nuls: string)
    requires ParseInt64(s).Some?
    ensures s == left + (sign + (digits + (right + nuls)))
    ensures AllSpaces(left) && AllSpaces(right) && AllNul(nuls)
    ensures sign in {"", "+", "-"} && digits != "" && AllDigits(digits)
  {
    left := SkippedPart(s);
    var a := SkipNumberSpace(s);
    if a != [] && (a[0] == '-' || a[0] == '+') {
      sign := [a[0]];
      digits, right, nuls := FormOfUnsigned(a[1..], if a[0] == '-' then -1 else 1);
      assert a == sign + a[1..];
    } else {
      sign := "";
      digits, right, nuls := FormOfUnsigned(a, 1);
      assert a == sign + a;
    }
  }

  /** A text that parses as a number has a digit. */
  lemma {:induction false} NumbersAreNotBlank(s: string)
    requires ParseInt64(s).Some?
    ensures !IsBlank(s)
  {
    SkippedIsSuffix(s);
    var a := SkipNumberSpace(s);
    var body := if a != [] && (a[0] == '-' || a[0] == '+') then a[1..] else a;
    assert body[0] == body[..DigitCount(body)][0];
    assert body[0] in a && IsDigit(body[0]) && !IsWhiteSpace(body[0]);
  }

  function DigitChar(d: nat): char
    requires d < 10
  {
    ('0' as int + d) as char
  }

  function PrintNat(n: nat): string {
    if n < 10 then [DigitChar(n)] else PrintNat(n / 10) + [DigitChar(n % 10)]
  }

  function PrintInt(n: int): string {
    if n < 0 then "-" + PrintNat(-n) else PrintNat(n)
  }

  lemma {:induction false} PrintNatValue(n: nat)
    ensures PrintNat(n) != [] && AllDigits(PrintNat(n)) && Value(PrintNat(n)) == n
  {
    if n < 10 {
      assert PrintNat(n)[..0] == [];
    } else {
      PrintNatValue(n / 10);
      var t := PrintNat(n / 10);
      assert PrintNat(n)[..|t|] == t;
    }
  }

  /** No leading zeros. */
  lemma {:induction false} PrintNatIsShort(n: nat)
    requires n > 0
    ensures PrintNat(n) != [] && PrintNat(n)[0] != '0'
  {
    if n >= 10 {
      PrintNatIsShort(n / 10);
    }
  }

  lemma {:induction false} AllCounted(s: string)
    requires AllDigits(s)
    ensures DigitCount(s) == |s|
  {
    if s != [] {
      AllCounted(s[1..]);
    }
  }

  lemma ParseOfDigits(d: string, sign: int)
    requires d != [] && AllDigits(d)
    ensures
      var v := sign * Value(d);
      ParseUnsigned(d, sign) == if IsInt64(v) then Some(v) else None
  {
    AllCounted(d);
    assert d[..|d|] == d && d[|d|..] == [];
  }

  lemma ParseOfMinus(d: string)
    ensures ParseInt64("-" + d) == ParseUnsigned(d, -1)
  {
    assert ("-" + d)[1..] == d;
  }

  lemma ParseOfPlain(d: string)
    requires d != [] && IsDigit(d[0])
    ensures ParseInt64(d) == ParseUnsigned(d, 1)
  {
  }

  lemma PrintedCharacters(n: int)
    ensures PrintInt(n) != [] && forall c :: c in PrintInt(n) ==> IsDigit(c) || c == '-'
  {
    PrintNatValue(if n < 0 then -n else n);
  }

  /** Printing and parsing a 64-bit number gives the number back. */
  lemma ParseOfPrint(n: int)
    requires IsInt64(n)
    ensures ParseInt64(PrintInt(n)) == Some(n)
  {
    if n < 0 {
      PrintNatValue(-n);
      ParseOfMinus(PrintNat(-n));
      ParseOfDigits(PrintNat(-n), -1);
    } else {
      PrintNatValue(n);
      ParseOfPlain(PrintNat(n));
      ParseOfDigits(PrintNat(n), 1);
    }
  }
}
