/**
 The signature validator. The methods follow the source step by step; the verdict functions
 give a reading of the raw header that does not mention the loops, the hex decoder's buffers,
 the accumulating comparison or the wrapped arithmetic.
 */
module Signatures {
  import opened Wrappers
  import opened Text
  import opened Hex

  /** HMAC-SHA256 (section 2 of RFC 2104) and UTF-8, as functions about which only laws are used. */
  datatype Crypto = Crypto(hmac: (Bytes, Bytes) -> Bytes, utf8: string -> Bytes, text: Bytes -> string) {
    ghost predicate TextRoundTrips() {
      forall s :: text(utf8(s)) == s
    }

    function Mac(secret: string, data: Bytes): Bytes {
      hmac(utf8(secret), data)
    }
  }

  datatype Verdict = Checked(ok: bool, reason: Option<string>) | Throws

  const ACCEPTED := Checked(true, None)

  function Rejected(reason: string): Verdict {
    Checked(false, Some(reason))
  }

  type Headers = seq<(string, string)>

  predicate SameIgnoringCase(a: string, b: string) {
    Lower(a) == Lower(b)
  }

  /** The values of a header in order, the empty ones skipped, joined by commas; None if it is absent. */
  function Header(headers: Headers, name: string): Option<string> {
    if headers == [] then None
    else
      var before := Header(headers[..|headers| - 1], name);
      var (n, value) := Last(headers);
      if !SameIgnoringCase(n, name) then before
      else if before.None? || before.value == "" then Some(value)
      else if value == "" then before
      else Some(before.value + "," + value)
  }

  /** One more line: ignored unless it has the name, and joined to what is there unless either is empty. */
  lemma HeaderSnoc(headers: Headers, n: string, v: string, name: string)
    ensures Header(headers + [(n, v)], name)
         == if !SameIgnoringCase(n, name) then Header(headers, name)
            else if Header(headers, name).None? || Header(headers, name).value == "" then Some(v)
            else if v == "" then Header(headers, name)
            else Some(Header(headers, name).value + "," + v)
  {
    assert (headers + [(n, v)])[..|headers|] == headers;
  }

  lemma {:induction false} HeaderIsAbsentIff(headers: Headers, name: string)
    ensures Header(headers, name).None? <==> forall line :: line in headers ==> Lower(line.0) != Lower(name)
  {
    if headers != [] {
      var before, line := headers[..|headers| - 1], Last(headers);
      assert headers == before + [line];
      HeaderIsAbsentIff(before, name);
      HeaderSnoc(before, line.0, line.1, name);
    }
  }

  /** A text spells bytes if it is their hex form in any mixture of cases. */
  predicate Spells(s: string, b: Bytes) {
    SameIgnoringCase(s, ToHexString(b))
  }

  // ----- the time window -----

  function Wrap64(x: int): int {
    (x + TWO_63) % (2 * TWO_63) - TWO_63
  }

  /** Math.Abs on a 64-bit number; None where it throws. */
  function Abs64(x: int): Option<int> {
    if x == -TWO_63 then None else Some(if x < 0 then -x else x)
  }

  predicate IsInt32(x: int) {
    -0x8000_0000 <= x < 0x8000_0000
  }

  predicate IsClock(now: int) {
    0 <= now < 0x4000_0000_0000_0000
  }

  /** The wrapped difference decides like the true one, except that one timestamp makes it throw. */
  lemma WindowIsTrueWindow(now: int, ts: int)
    requires IsClock(now) && IsInt64(ts)
    ensures
      var d := Abs64(Wrap64(now - ts));
      && (d.None? <==> ts == now - TWO_63)
      && (d.Some? ==> forall tolerance :: IsInt32(tolerance) ==>
                        (d.value <= tolerance <==> -tolerance <= now - ts <= tolerance))
  {
    var x := now - ts;
    if x < TWO_63 {
      assert Wrap64(x) == x;
    } else {
      assert Wrap64(x) == x - 2 * TWO_63;
    }
  }

  method Distance(now: int, ts: int) returns (d: Option<int>)
    requires IsClock(now) && IsInt64(ts)
    ensures d.None? <==> ts == now - TWO_63
    ensures d.Some? ==> forall tolerance :: IsInt32(tolerance) ==>
                          (d.value <= tolerance <==> -tolerance <= now - ts <= tolerance)
  {
    WindowIsTrueWindow(now, ts);
    d := Abs64(Wrap64(now - ts));
  }

  // ----- GitHub -----

  const GITHUB_HEADER := "X-Hub-Signature-256"
  const GITHUB_PREFIX := "sha256="

  /** After the prefix, in any case, the header has to spell the MAC of the payload. */
  function GitHubVerdict(k: Crypto, secret: string, headers: Headers, payload: Bytes): Verdict {
    var h := Header(headers, GITHUB_HEADER);
    if h.None? then Rejected("missing:X-Hub-Signature-256")
    else if |h.value| < |GITHUB_PREFIX| || !SameIgnoringCase(h.value[..|GITHUB_PREFIX|], GITHUB_PREFIX) then
      Rejected("bad-format")
    else
      var digits := h.value[|GITHUB_PREFIX|..];
      if |digits| % 2 != 0 || exists i :: 0 <= i < |digits| && DigitValue(digits[i]).None? then Rejected("bad-hex")
      else if Spells(digits, k.Mac(secret, payload)) then ACCEPTED
      else Rejected("mismatch")
  }

  method ValidateGitHub(k: Crypto, secret: string, headers: Headers, payload: Bytes) returns (r: Verdict)
    ensures r == GitHubVerdict(k, secret, headers, payload)
  {
    var sigHeader := Header(headers, GITHUB_HEADER);
    if sigHeader.None? {
      return Rejected("missing:X-Hub-Signature-256");
    }
    var provided := sigHeader.value;
    if |provided| < |GITHUB_PREFIX| || !SameIgnoringCase(provided[..|GITHUB_PREFIX|], GITHUB_PREFIX) {
      return Rejected("bad-format");
    }
    var sigHex := provided[|GITHUB_PREFIX|..];
    RejectedIff(sigHex);
    var providedBytes := TryParseHex(sigHex);
    if providedBytes.None? {
      return Rejected("bad-hex");
    }
    var computed := k.Mac(secret, payload);
    TryParseHexIff(sigHex, computed);
    var matches := FixedTimeEquals(computed, providedBytes.value);
    return if matches then ACCEPTED else Rejected("mismatch");
  }

  // ----- Stripe -----

  const STRIPE_HEADER := "Stripe-Signature"

  /** What one comma-separated piece of the header says. */
  datatype Item = Nothing | Timestamp(text: string) | Signature(text: string)

  function ItemOf(piece: string): Item {
    match SplitPair(Trim(piece))
    case None => Nothing
    case Some((name, value)) =>
      if name == "t" then Timestamp(value) else if name == "v1" then Signature(value) else Nothing
  }

  /** A trimmed piece is a timestamp if it is "t=" and a text, a signature if it is "v1=" and a text, else nothing. */
  lemma ItemMeaning(piece: string, text: string)
    ensures ItemOf(piece) == Timestamp(text) <==> Trim(piece) == "t=" + text
    ensures ItemOf(piece) == Signature(text) <==> Trim(piece) == "v1=" + text
  {
    SplitPairIff(Trim(piece));
    SplitPairOf("t", text);
    SplitPairOf("v1", text);
    assert "t" + ['='] + text == "t=" + text && "v1" + ['='] + text == "v1=" + text;
  }

  /** The last timestamp wins. */
  function TimestampOf(pieces: seq<string>): Option<string> {
    if pieces == [] then None
    else
      var item := ItemOf(Last(pieces));
      if item.Timestamp? then Some(item.text) else TimestampOf(pieces[..|pieces| - 1])
  }

  /** All signatures count, in any order and number. */
  ghost predicate Offers(pieces: seq<string>, signature: string) {
    exists p :: p in pieces && ItemOf(p) == Signature(signature)
  }

  ghost function StripeVerdictOf(k: Crypto, secret: string, tolerance: int, pieces: seq<string>,
                                 payload: Bytes, now: int): Verdict
  {
    var t := TimestampOf(pieces);
    if t.None? || IsBlank(t.value) || (forall v :: !Offers(pieces, v)) then Rejected("bad-format")
    else DatedVerdict(tolerance, t.value, now, OffersMac(pieces, StripeMac(k, secret, t.value, payload)))
  }

  ghost predicate OffersMac(pieces: seq<string>, mac: Bytes) {
    exists v :: Offers(pieces, v) && Spells(v, mac)
  }

  /** First the timestamp has to be a number in the window, then some signature has to match. */
  function DatedVerdict(tolerance: int, t: string, now: int, matches: bool): Verdict {
    var ts := ParseInt64(t);
    if ts.None? then Rejected("bad-timestamp")
    else if ts.value == now - TWO_63 then Throws
    else if !(-tolerance <= now - ts.value <= tolerance) then Rejected("timestamp-out-of-tolerance")
    else if matches then ACCEPTED
    else Rejected("mismatch")
  }

  function StripeMac(k: Crypto, secret: string, t: string, payload: Bytes): Bytes {
    k.Mac(secret, k.utf8(t + "." + k.text(payload)))
  }

  ghost function StripeVerdict(k: Crypto, secret: string, tolerance: int, headers: Headers,
                               payload: Bytes, now: int): Verdict
  {
    var h := Header(headers, STRIPE_HEADER);
    if h.None? then Rejected("missing:Stripe-Signature")
    else StripeVerdictOf(k, secret, tolerance, Split(h.value, ','), payload, now)
  }

  /** Split with RemoveEmptyEntries and TrimEntries: trimmed pieces, the empty ones dropped. */
  function TrimmedPieces(pieces: seq<string>): seq<string> {
    if pieces == [] then []
    else TrimmedPieces(pieces[..|pieces| - 1]) + if Trim(Last(pieces)) == "" then [] else [Trim(Last(pieces))]
  }

  lemma OffersSnoc(pieces: seq<string>, p: string, v: string)
    ensures Offers(pieces + [p], v) <==> Offers(pieces, v) || ItemOf(p) == Signature(v)
  {
    assert p in pieces + [p];
  }

  lemma {:induction false} TrimmingKeepsTimestamp(pieces: seq<string>)
    ensures TimestampOf(TrimmedPieces(pieces)) == TimestampOf(pieces)
    ensures forall p :: p in TrimmedPieces(pieces) ==> Trim(p) == p
  {
    if pieces != [] {
      var before, p := pieces[..|pieces| - 1], Last(pieces);
      TrimmingKeepsTimestamp(before);
      TrimIsTight(p);
      assert ItemOf(Trim(p)) == ItemOf(p);
      if Trim(p) != "" {
        assert TrimmedPieces(pieces)[..|TrimmedPieces(before)|] == TrimmedPieces(before);
      } else {
        assert ItemOf(p) == Nothing;
        assert TrimmedPieces(pieces) == TrimmedPieces(before);
      }
    }
  }

  lemma {:induction false} TrimmingKeepsOffers(pieces: seq<string>, v: string)
    ensures Offers(TrimmedPieces(pieces), v) <==> Offers(pieces, v)
  {
    if pieces != [] {
      var before, p := pieces[..|pieces| - 1], Last(pieces);
      TrimmingKeepsOffers(before, v);
      TrimIsTight(p);
      assert ItemOf(Trim(p)) == ItemOf(p);
      assert pieces == before + [p];
      OffersSnoc(before, p, v);
      OffersSnoc(TrimmedPieces(before), Trim(p), v);
      if Trim(p) == "" {
        assert ItemOf(p) == Nothing;
      }
    }
  }

  /** Trimming and dropping empty pieces changes nothing the header says. */
  lemma TrimmingKeepsReading(pieces: seq<string>)
    ensures TimestampOf(TrimmedPieces(pieces)) == TimestampOf(pieces)
    ensures forall v :: Offers(TrimmedPieces(pieces), v) <==> Offers(pieces, v)
    ensures forall p :: p in TrimmedPieces(pieces) ==> Trim(p) == p
  {
    TrimmingKeepsTimestamp(pieces);
    forall v ensures Offers(TrimmedPieces(pieces), v) <==> Offers(pieces, v) {
      TrimmingKeepsOffers(pieces, v);
    }
  }

  /** Collects the timestamp and the signatures of the trimmed pieces, one after the other. */
  method ReadItems(parts: seq<string>) returns (t: Option<string>, v1: seq<string>)
    requires forall p :: p in parts ==> Trim(p) == p
    ensures t == TimestampOf(parts)
    ensures forall v :: v in v1 <==> Offers(parts, v)
  {
    t, v1 := None, [];
    for i := 0 to |parts|
      invariant t == TimestampOf(parts[..i])
      invariant forall v :: v in v1 <==> Offers(parts[..i], v)
    {
      var p := parts[i];
      assert p in parts && parts[..i + 1] == parts[..i] + [p];
      forall v ensures Offers(parts[..i + 1], v) <==> Offers(parts[..i], v) || ItemOf(p) == Signature(v) {
        OffersSnoc(parts[..i], p, v);
      }
      var kv := SplitPair(p);
      if kv.None? {
        continue;
      }
      if kv.value.0 == "t" {
        t := Some(kv.value.1);
      }
      if kv.value.0 == "v1" {
        v1 := v1 + [kv.value.1];
      }
    }
    assert parts[..|parts|] == parts;
  }

  method ValidateStripe(k: Crypto, secret: string, tolerance: int, headers: Headers, payload: Bytes, now: int)
    returns (r: Verdict)
    requires IsInt32(tolerance) && IsClock(now)
    ensures r == StripeVerdict(k, secret, tolerance, headers, payload, now)
  {
    var sigHeader := Header(headers, STRIPE_HEADER);
    if sigHeader.None? {
      return Rejected("missing:Stripe-Signature");
    }
    ghost var pieces := Split(sigHeader.value, ',');
    TrimmingKeepsReading(pieces);
    var t, v1 := ReadItems(TrimmedPieces(Split(sigHeader.value, ',')));
    CollectedOffers(pieces, v1);
    if t.None? || IsBlank(t.value) || |v1| == 0 {
      return Rejected("bad-format");
    }
    var ts := ParseInt64(t.value);
    if ts.None? {
      return Rejected("bad-timestamp");
    }
    var distance := Distance(now, ts.value);
    if distance.None? {
      return Throws;
    }
    if distance.value > tolerance {
      return Rejected("timestamp-out-of-tolerance");
    }
    var computed := StripeMac(k, secret, t.value, payload);
    CollectedMac(pieces, v1, computed);
    var found := AnySpells(v1, computed);
    return if found then ACCEPTED else Rejected("mismatch");
  }

  lemma CollectedOffers(pieces: seq<string>, v1: seq<string>)
    requires forall v :: v in v1 <==> Offers(pieces, v)
    ensures |v1| == 0 <==> forall v :: !Offers(pieces, v)
  {
    if |v1| > 0 {
      assert v1[0] in v1;
    }
  }

  lemma CollectedMac(pieces: seq<string>, v1: seq<string>, mac: Bytes)
    requires forall v :: v in v1 <==> Offers(pieces, v)
    ensures OffersMac(pieces, mac) <==> exists v :: v in v1 && Spells(v, mac)
  {
  }

  /** Tries the candidates in order until one decodes to the computed bytes. */
  method AnySpells(v1: seq<string>, computed: Bytes) returns (found: bool)
    ensures found <==> exists v :: v in v1 && Spells(v, computed)
  {
    for i := 0 to |v1|
      invariant forall v :: v in v1[..i] ==> !Spells(v, computed)
    {
      TryParseHexIff(v1[i], computed);
      assert v1[i] in v1 && v1[..i + 1] == v1[..i] + [v1[i]];
      var provided := TryParseHex(v1[i]);
      if provided.Some? {
        var equal := FixedTimeEquals(computed, provided.value);
        if equal {
          return true;
        }
      }
    }
    assert v1[..|v1|] == v1;
    return false;
  }

  // ----- what may be done to a header without changing its verdict -----

  ghost predicate SameReading(a: seq<string>, b: seq<string>) {
    TimestampOf(a) == TimestampOf(b) && forall v :: Offers(a, v) <==> Offers(b, v)
  }

  lemma {:induction false} TimestampAppend(a: seq<string>, b: seq<string>)
    ensures TimestampOf(a + b) == if TimestampOf(b).Some? then TimestampOf(b) else TimestampOf(a)
  {
    if b == [] {
      assert a + b == a;
    } else {
      assert (a + b)[..|a + b| - 1] == a + b[..|b| - 1];
      TimestampAppend(a, b[..|b| - 1]);
    }
  }

  /** Replacing a middle part by one with the same reading keeps the reading of the whole. */
  lemma ReadingOfContext(a: seq<string>, x: seq<string>, y: seq<string>, b: seq<string>)
    requires SameReading(x, y)
    ensures SameReading(a + x + b, a + y + b)
  {
    TimestampAppend(a, x);
    TimestampAppend(a, y);
    TimestampAppend(a + x, b);
    TimestampAppend(a + y, b);
    forall v ensures Offers(a + x + b, v) <==> Offers(a + y + b, v) {
      assert Offers(a + x + b, v) <==> Offers(a, v) || Offers(x, v) || Offers(b, v) by { OffersConcat(a, x, b, v); }
      assert Offers(a + y + b, v) <==> Offers(a, v) || Offers(y, v) || Offers(b, v) by { OffersConcat(a, y, b, v); }
    }
  }

  lemma OffersConcat(a: seq<string>, x: seq<string>, b: seq<string>, v: string)
    ensures Offers(a + x + b, v) <==> Offers(a, v) || Offers(x, v) || Offers(b, v)
  {
    forall p ensures p in a + x + b <==> p in a || p in x || p in b {
    }
  }

  /** One timestamp and all signatures are everything the verdict depends on. */
  lemma VerdictFollowsReading(k: Crypto, secret: string, tolerance: int, a: seq<string>, b: seq<string>,
                              payload: Bytes, now: int)
    requires SameReading(a, b)
    ensures StripeVerdictOf(k, secret, tolerance, a, payload, now)
         == StripeVerdictOf(k, secret, tolerance, b, payload, now)
  {
    var t := TimestampOf(a);
    if t.Some? {
      SameOffers(a, b, StripeMac(k, secret, t.value, payload));
    }
  }

  lemma SameOffers(a: seq<string>, b: seq<string>, mac: Bytes)
    requires SameReading(a, b)
    ensures (exists v :: Offers(a, v)) <==> exists v :: Offers(b, v)
    ensures OffersMac(a, mac) <==> OffersMac(b, mac)
  {
  }

  /** A piece that says nothing may be added anywhere. */
  lemma IdlePieceIsIgnored(a: seq<string>, p: string, b: seq<string>)
    requires ItemOf(p) == Nothing
    ensures SameReading(a + [p] + b, a + b)
  {
    assert [p][..0] == [];
    assert SameReading([p], []);
    ReadingOfContext(a, [p], [], b);
    assert a + [] + b == a + b;
  }

  /** White space may be put around any piece. */
  lemma PaddingIsIgnored(a: seq<string>, left: string, p: string, right: string, b: seq<string>)
    requires IsBlank(left) && IsBlank(right)
    ensures SameReading(a + [left + p + right] + b, a + [p] + b)
  {
    TrimOfPadded(left, p, right);
    assert ItemOf(left + p + right) == ItemOf(p);
    SingleReading(left + p + right, p);
    ReadingOfContext(a, [left + p + right], [p], b);
  }

  lemma SingleReading(p: string, q: string)
    requires ItemOf(p) == ItemOf(q)
    ensures SameReading([p], [q])
  {
    assert [p][..0] == [q][..0];
    forall v ensures Offers([p], v) <==> Offers([q], v) {
      OffersSnoc([], p, v);
      OffersSnoc([], q, v);
      assert [] + [p] == [p] && [] + [q] == [q];
    }
  }

  /** Neighbours that are not both timestamps may be exchanged. */
  lemma OrderIsIgnored(a: seq<string>, p: string, q: string, b: seq<string>)
    requires !(ItemOf(p).Timestamp? && ItemOf(q).Timestamp?)
    ensures SameReading(a + [p, q] + b, a + [q, p] + b)
  {
    assert [p, q] == [p] + [q] && [q, p] == [q] + [p];
    TimestampAppend([p], [q]);
    TimestampAppend([q], [p]);
    assert [p][..0] == [q][..0] == [];
    forall v ensures Offers([p, q], v) <==> Offers([q, p], v) {
      forall r ensures r in [p, q] <==> r in [q, p] {
      }
    }
    ReadingOfContext(a, [p, q], [q, p], b);
  }

  /** The pieces may be permuted in any way that leaves the last timestamp the last. */
  lemma PermutationIsIgnored(a: seq<string>, b: seq<string>)
    requires multiset(a) == multiset(b) && TimestampOf(a) == TimestampOf(b)
    ensures SameReading(a, b)
  {
    assert forall p :: p in a <==> p in multiset(a);
    assert forall p :: p in b <==> p in multiset(b);
  }

  /** A signature may be repeated anywhere. */
  lemma RepeatedSignatureIsIgnored(a: seq<string>, p: string, b: seq<string>)
    requires ItemOf(p).Signature? && p in a + b
    ensures SameReading(a + [p] + b, a + b)
  {
    TimestampAppend(a, [p]);
    TimestampAppend(a + [p], b);
    TimestampAppend(a, b);
    assert [p][..0] == [];
    forall v ensures Offers(a + [p] + b, v) <==> Offers(a + b, v) {
      forall q ensures q in a + [p] + b <==> q in a + b {
      }
    }
  }

  /** The comma-separated pieces of all lines of a header, one line after the other. */
  function LinePieces(headers: Headers, name: string): seq<string> {
    if headers == [] then []
    else
      var (n, value) := Last(headers);
      var before := LinePieces(headers[..|headers| - 1], name);
      if SameIgnoringCase(n, name) then before + Split(value, ',') else before
  }

  lemma {:induction false} AbsentHasNoPieces(headers: Headers, name: string)
    requires Header(headers, name).None?
    ensures LinePieces(headers, name) == []
  {
    if headers != [] {
      AbsentHasNoPieces(headers[..|headers| - 1], name);
    }
  }

  /** An empty line after others says nothing. */
  lemma EmptyLineAfter(was: seq<string>, pieces: seq<string>)
    requires SameReading(was, pieces)
    ensures SameReading(was, pieces + [""])
  {
    IdlePieceIsIgnored(pieces, "", []);
    assert pieces + [""] + [] == pieces + [""] && pieces + [] == pieces;
  }

  /** A line after an empty text stands alone. */
  lemma LineAfterEmpty(pieces: seq<string>, more: seq<string>)
    requires SameReading([""], pieces)
    ensures SameReading(more, pieces + more)
  {
    IdlePieceIsIgnored([], "", more);
    assert [] + [""] + more == [""] + more && [] + more == more;
    LineAfter([""], pieces, more);
  }

  lemma LineAfter(was: seq<string>, pieces: seq<string>, more: seq<string>)
    requires SameReading(was, pieces)
    ensures SameReading(was + more, pieces + more)
  {
    ReadingOfContext([], was, pieces, more);
    assert [] + was == was && [] + pieces == pieces;
  }

  /** One more line, given what the lines before it read. */
  lemma OneMoreLine(joined: string, pieces: seq<string>, value: string)
    requires SameReading(Split(joined, ','), pieces)
    ensures
      var text := if joined == "" then value else if value == "" then joined else joined + "," + value;
      SameReading(Split(text, ','), pieces + Split(value, ','))
  {
    if joined == "" {
      LineAfterEmpty(pieces, Split(value, ','));
    } else if value == "" {
      EmptyLineAfter(Split(joined, ','), pieces);
    } else {
      SplitOfConcat(joined, value, ',');
      LineAfter(Split(joined, ','), pieces, Split(value, ','));
    }
  }

  /** However the pieces are spread over header lines, the joined text reads the same. */
  lemma {:induction false} LinesReadAsOne(headers: Headers, name: string)
    requires Header(headers, name).Some?
    ensures SameReading(Split(Header(headers, name).value, ','), LinePieces(headers, name))
  {
    var before := headers[..|headers| - 1];
    var (n, value) := Last(headers);
    if Header(before, name).None? {
      AbsentHasNoPieces(before, name);
      assert LinePieces(headers, name) == Split(value, ',');
    } else {
      LinesReadAsOne(before, name);
      if SameIgnoringCase(n, name) {
        OneMoreLine(Header(before, name).value, LinePieces(before, name), value);
      }
    }
  }

  /**
   On raw requests: if both have the header and its pieces, over however many lines, read the
   same, they get the same verdict. With the lemmas above this covers permuting, repeating,
   padding and adding entries, and moving them to other lines, in any request.
   */
  lemma EquivalentHeaders(k: Crypto, secret: string, tolerance: int, a: Headers, b: Headers, payload: Bytes, now: int)
    requires Header(a, STRIPE_HEADER).Some? <==> Header(b, STRIPE_HEADER).Some?
    requires SameReading(LinePieces(a, STRIPE_HEADER), LinePieces(b, STRIPE_HEADER))
    ensures StripeVerdict(k, secret, tolerance, a, payload, now) == StripeVerdict(k, secret, tolerance, b, payload, now)
  {
    if Header(a, STRIPE_HEADER).Some? {
      var x, y := Split(Header(a, STRIPE_HEADER).value, ','), Split(Header(b, STRIPE_HEADER).value, ',');
      LinesReadAsOne(a, STRIPE_HEADER);
      LinesReadAsOne(b, STRIPE_HEADER);
      assert SameReading(x, y);
      VerdictFollowsReading(k, secret, tolerance, x, y, payload, now);
    }
  }

  lemma OneHeader(name: string, value: string)
    ensures Header([(name, value)], name) == Some(value)
  {
    assert [(name, value)][..0] == [];
  }

  // ----- the entry point -----

  datatype SourceConfig = SourceConfig(
    source: string,
    provider: string,
    secret: Option<string>,
    require: bool,
    tolerance: int)

  function FirstConfig(configs: seq<SourceConfig>, source: string): Option<SourceConfig> {
    if configs == [] then None
    else if SameIgnoringCase(configs[0].source, source) then Some(configs[0])
    else FirstConfig(configs[1..], source)
  }

  /** `i` is the first configuration of the source, whatever its case. */
  ghost predicate IsFirstConfig(configs: seq<SourceConfig>, source: string, i: nat) {
    && i < |configs| && Lower(configs[i].source) == Lower(source)
    && forall j :: 0 <= j < i ==> Lower(configs[j].source) != Lower(source)
  }

  lemma {:induction false} FirstConfigIs(configs: seq<SourceConfig>, source: string)
    ensures FirstConfig(configs, source).None? <==> forall c :: c in configs ==> Lower(c.source) != Lower(source)
    ensures forall i: nat :: IsFirstConfig(configs, source, i) ==> FirstConfig(configs, source) == Some(configs[i])
    ensures FirstConfig(configs, source).Some? ==> exists i: nat :: IsFirstConfig(configs, source, i)
  {
    if configs != [] {
      var rest := configs[1..];
      FirstConfigIs(rest, source);
      assert configs == [configs[0]] + rest;
      if Lower(configs[0].source) == Lower(source) {
        assert IsFirstConfig(configs, source, 0);
      } else {
        forall i: nat | IsFirstConfig(configs, source, i) ensures FirstConfig(configs, source) == Some(configs[i]) {
          assert IsFirstConfig(rest, source, i - 1);
        }
        if i: nat :| IsFirstConfig(rest, source, i) {
          assert IsFirstConfig(configs, source, i + 1);
        }
      }
    }
  }

  predicate IsUnusable(secret: Option<string>) {
    secret.None? || IsBlank(secret.value)
  }

  ghost function SignatureVerdict(k: Crypto, configs: seq<SourceConfig>, source: string, headers: Headers,
                                  payload: Bytes, now: int): Verdict
  {
    var cfg := FirstConfig(configs, source);
    if cfg.None? then Checked(true, Some("no-config"))
    else if !cfg.value.require then Checked(true, Some("skipped"))
    else if IsUnusable(cfg.value.secret) then Rejected("secret-missing")
    else if Lower(cfg.value.provider) == "github" then GitHubVerdict(k, cfg.value.secret.value, headers, payload)
    else if Lower(cfg.value.provider) == "stripe" then
      StripeVerdict(k, cfg.value.secret.value, cfg.value.tolerance, headers, payload, now)
    else Rejected("unknown-provider:" + cfg.value.provider)
  }

  method Validate(k: Crypto, configs: seq<SourceConfig>, source: string, headers: Headers, payload: Bytes, now: int)
    returns (r: Verdict)
    requires forall c :: c in configs ==> IsInt32(c.tolerance)
    requires IsClock(now)
    ensures r == SignatureVerdict(k, configs, source, headers, payload, now)
  {
    FirstConfigIsListed(configs, source);
    var cfg := FirstConfig(configs, source);
    if cfg.None? {
      return Checked(true, Some("no-config"));
    }
    if !cfg.value.require {
      return Checked(true, Some("skipped"));
    }
    if IsUnusable(cfg.value.secret) {
      return Rejected("secret-missing");
    }
    var provider := Lower(cfg.value.provider);
    if provider == "github" {
      r := ValidateGitHub(k, cfg.value.secret.value, headers, payload);
    } else if provider == "stripe" {
      r := ValidateStripe(k, cfg.value.secret.value, cfg.value.tolerance, headers, payload, now);
    } else {
      r := Rejected("unknown-provider:" + cfg.value.provider);
    }
  }

  // ----- what the verdict is worth -----

  /** The header is the prefix, in any case, and the hex spelling of the HMAC of the payload, in any case. */
  ghost predicate GitHubSigned(k: Crypto, secret: string, headers: Headers, payload: Bytes) {
    exists prefix, digits ::
      && Header(headers, "X-Hub-Signature-256") == Some(prefix + digits)
      && Lower(prefix) == "sha256=" && Lower(digits) == Lower(ToHexString(k.hmac(k.utf8(secret), payload)))
  }

  /** On some line a signature spells the HMAC of the last timestamp and the payload, and the time is right. */
  ghost predicate StripeSigned(k: Crypto, secret: string, tolerance: int, headers: Headers, payload: Bytes, now: int) {
    var pieces := LinePieces(headers, "Stripe-Signature");
    var t := TimestampOf(pieces);
    && t.Some? && ParseInt64(t.value).Some?
    && -tolerance <= now - ParseInt64(t.value).value <= tolerance
    && exists v :: Offers(pieces, v)
                   && Lower(v) == Lower(ToHexString(k.hmac(k.utf8(secret), k.utf8(t.value + "." + k.text(payload)))))
  }

  /** Every verdict on a GitHub request, with the reason it gives. */
  lemma GitHubReasons(k: Crypto, secret: string, headers: Headers, payload: Bytes)
    ensures
      var h := Header(headers, "X-Hub-Signature-256");
      var mac := ToHexString(k.hmac(k.utf8(secret), payload));
      GitHubVerdict(k, secret, headers, payload)
      == if h.None? then Checked(false, Some("missing:X-Hub-Signature-256"))
         else if |h.value| < 7 || Lower(h.value[..7]) != "sha256=" then Checked(false, Some("bad-format"))
         else if |h.value| % 2 == 0 || exists i :: 7 <= i < |h.value| && DigitValue(h.value[i]).None?
           then Checked(false, Some("bad-hex"))
         else if Lower(h.value[7..]) == Lower(mac) then Checked(true, None)
         else Checked(false, Some("mismatch"))
  {
    assert Lower("sha256=") == "sha256=";
    var h := Header(headers, "X-Hub-Signature-256");
    if h.Some? && |h.value| >= 7 {
      assert forall i :: 7 <= i < |h.value| ==> h.value[7..][i - 7] == h.value[i];
    }
  }

  lemma GitHubAcceptsIffSigned(k: Crypto, secret: string, headers: Headers, payload: Bytes)
    ensures GitHubVerdict(k, secret, headers, payload) == ACCEPTED <==> GitHubSigned(k, secret, headers, payload)
    ensures GitHubVerdict(k, secret, headers, payload) != ACCEPTED ==> !GitHubVerdict(k, secret, headers, payload).ok
  {
    var mac := k.hmac(k.utf8(secret), payload);
    GitHubReasons(k, secret, headers, payload);
    if GitHubVerdict(k, secret, headers, payload) == ACCEPTED {
      var h := Header(headers, "X-Hub-Signature-256").value;
      assert h == h[..7] + h[7..];
    }
    if GitHubSigned(k, secret, headers, payload) {
      var prefix, digits :|
        && Header(headers, "X-Hub-Signature-256") == Some(prefix + digits)
        && Lower(prefix) == "sha256=" && Lower(digits) == Lower(ToHexString(mac));
      assert |prefix| == |Lower(prefix)| == 7;
      assert (prefix + digits)[..7] == prefix && (prefix + digits)[7..] == digits;
      TryParseHexIff(digits, mac);
      RejectedIff(digits);
      assert forall i :: 7 <= i < |prefix + digits| ==> (prefix + digits)[i] == digits[i - 7];
    }
  }

  /** Every verdict on a Stripe request, by the pieces of all its lines, with the reason it gives. */
  lemma StripeReasons(k: Crypto, secret: string, tolerance: int, headers: Headers, payload: Bytes, now: int)
    requires IsInt32(tolerance) && IsClock(now)
    ensures
      var pieces := LinePieces(headers, "Stripe-Signature");
      var t := TimestampOf(pieces);
      StripeVerdict(k, secret, tolerance, headers, payload, now)
      == if Header(headers, "Stripe-Signature").None? then Checked(false, Some("missing:Stripe-Signature"))
         else if t.None? || IsBlank(t.value) || (forall p :: p in pieces ==> !ItemOf(p).Signature?)
           then Checked(false, Some("bad-format"))
         else if ParseInt64(t.value).None? then Checked(false, Some("bad-timestamp"))
         else if ParseInt64(t.value).value == now - 0x8000_0000_0000_0000 then Throws
         else if StripeSigned(k, secret, tolerance, headers, payload, now) then Checked(true, None)
         else if -tolerance <= now - ParseInt64(t.value).value <= tolerance then Checked(false, Some("mismatch"))
         else Checked(false, Some("timestamp-out-of-tolerance"))
  {
    if Header(headers, "Stripe-Signature").Some? {
      var pieces := LinePieces(headers, "Stripe-Signature");
      LinesReadAsOne(headers, "Stripe-Signature");
      VerdictFollowsReading(k, secret, tolerance, Split(Header(headers, "Stripe-Signature").value, ','), pieces,
                            payload, now);
      SignatureOffered(pieces);
      if TimestampOf(pieces).Some? {
        MacOffered(pieces, StripeMac(k, secret, TimestampOf(pieces).value, payload));
      }
    }
  }

  lemma SignatureOffered(pieces: seq<string>)
    ensures (forall v :: !Offers(pieces, v)) <==> forall p :: p in pieces ==> !ItemOf(p).Signature?
  {
    if p :| p in pieces && ItemOf(p).Signature? {
      assert Offers(pieces, ItemOf(p).text);
    }
  }

  lemma MacOffered(pieces: seq<string>, mac: Bytes)
    ensures OffersMac(pieces, mac) <==> exists v :: Offers(pieces, v) && Lower(v) == Lower(ToHexString(mac))
  {
    if v :| Offers(pieces, v) && Lower(v) == Lower(ToHexString(mac)) {
      assert Spells(v, mac);
    }
  }

  lemma StripeAcceptsIffSigned(k: Crypto, secret: string, tolerance: int, headers: Headers, payload: Bytes, now: int)
    requires IsInt32(tolerance) && IsClock(now)
    ensures
      var r := StripeVerdict(k, secret, tolerance, headers, payload, now);
      && (r == ACCEPTED <==> StripeSigned(k, secret, tolerance, headers, payload, now))
      && (r != ACCEPTED ==> r.Throws? || !r.ok)
  {
    StripeReasons(k, secret, tolerance, headers, payload, now);
    var pieces := LinePieces(headers, "Stripe-Signature");
    SignatureOffered(pieces);
    if Header(headers, "Stripe-Signature").None? {
      AbsentHasNoPieces(headers, "Stripe-Signature");
    } else if TimestampOf(pieces).Some? && ParseInt64(TimestampOf(pieces).value).Some? {
      NumbersAreNotBlank(TimestampOf(pieces).value);
    }
  }

  /** The answer for the first configuration of the source: what needs no signature, and what cannot be checked. */
  lemma ConfiguredVerdict(k: Crypto, configs: seq<SourceConfig>, source: string, headers: Headers, payload: Bytes,
                          now: int, i: nat)
    requires IsFirstConfig(configs, source, i)
    ensures
      var c := configs[i];
      SignatureVerdict(k, configs, source, headers, payload, now)
      == if !c.require then Checked(true, Some("skipped"))
         else if c.secret.None? || (forall ch :: ch in c.secret.value ==> IsWhiteSpace(ch))
           then Checked(false, Some("secret-missing"))
         else if Lower(c.provider) == "github" then GitHubVerdict(k, c.secret.value, headers, payload)
         else if Lower(c.provider) == "stripe"
           then StripeVerdict(k, c.secret.value, c.tolerance, headers, payload, now)
         else Checked(false, Some("unknown-provider:" + c.provider))
  {
    FirstConfigIs(configs, source);
  }

  /** A source without configuration passes. */
  lemma UnconfiguredVerdict(k: Crypto, configs: seq<SourceConfig>, source: string, headers: Headers, payload: Bytes,
                            now: int)
    requires forall c :: c in configs ==> Lower(c.source) != Lower(source)
    ensures SignatureVerdict(k, configs, source, headers, payload, now) == Checked(true, Some("no-config"))
  {
    FirstConfigIs(configs, source);
  }

  /** Under its own configuration a request is signed if that has a usable secret and the provider's header matches. */
  ghost predicate SignedFor(k: Crypto, c: SourceConfig, headers: Headers, payload: Bytes, now: int) {
    && c.secret.Some? && (exists ch :: ch in c.secret.value && !IsWhiteSpace(ch))
    && match Lower(c.provider)
       case "github" => GitHubSigned(k, c.secret.value, headers, payload)
       case "stripe" => StripeSigned(k, c.secret.value, c.tolerance, headers, payload, now)
       case _ => false
  }

  /**
   A request passes exactly if no configuration is for its source, or the first one that is does
   not require a signature, or the request is signed for it.
   */
  lemma PassesIff(k: Crypto, configs: seq<SourceConfig>, source: string, headers: Headers, payload: Bytes, now: int)
    requires forall c :: c in configs ==> IsInt32(c.tolerance)
    requires IsClock(now)
    ensures
      var r := SignatureVerdict(k, configs, source, headers, payload, now);
      r.Checked? && r.ok <==>
        || (forall c :: c in configs ==> Lower(c.source) != Lower(source))
        || exists i: nat :: IsFirstConfig(configs, source, i)
                            && (!configs[i].require || SignedFor(k, configs[i], headers, payload, now))
  {
    FirstConfigIs(configs, source);
    if c :| c in configs && Lower(c.source) == Lower(source) {
      var i: nat :| IsFirstConfig(configs, source, i);
      ConfiguredVerdict(k, configs, source, headers, payload, now, i);
      OnlyFirst(configs, source, i);
      if configs[i].secret.Some? {
        GitHubAcceptsIffSigned(k, configs[i].secret.value, headers, payload);
        StripeAcceptsIffSigned(k, configs[i].secret.value, configs[i].tolerance, headers, payload, now);
      }
    } else {
      UnconfiguredVerdict(k, configs, source, headers, payload, now);
    }
  }

  lemma OnlyFirst(configs: seq<SourceConfig>, source: string, i: nat)
    requires IsFirstConfig(configs, source, i)
    ensures configs[i] in configs
    ensures forall j: nat :: IsFirstConfig(configs, source, j) ==> j == i
  {
  }

  lemma {:induction false} FirstConfigIsListed(configs: seq<SourceConfig>, source: string)
    ensures FirstConfig(configs, source).Some? ==> FirstConfig(configs, source).value in configs
  {
    if configs != [] {
      FirstConfigIsListed(configs[1..], source);
    }
  }
}
