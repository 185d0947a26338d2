/** The load generator: which scenario it plays, how it signs requests, and what the validator makes of them. */
module LoadTest {
  import opened Wrappers
  import opened Text
  import opened Hex
  import opened Signatures

  datatype Scenario = Valid | InvalidSignature | MissingSignature | Replay | ExpiredSignature | InvalidPayload

  /** A configured source; it can sign if its secret is more than white space. */
  datatype RuntimeSource = RuntimeSource(source: string, provider: string, secret: Option<string>, tolerance: int) {
    predicate CanSign() {
      !IsUnusable(secret)
    }
  }

  function NormalizeScenario(s: RuntimeSource, scenario: Scenario): Scenario {
    if !s.CanSign() && (scenario.Valid? || scenario.InvalidSignature? || scenario.ExpiredSignature?) then
      MissingSignature
    else if !SameIgnoringCase(s.provider, "stripe") && scenario.ExpiredSignature? then InvalidSignature
    else scenario
  }

  /**
   What is played for a chosen scenario: without a secret, signed requests go unsigned; an expired
   signature is only played for Stripe, other providers get a wrong one; the rest is played as chosen.
   */
  lemma NormalizedScenario(s: RuntimeSource, chosen: Scenario)
    ensures
      var signable := s.secret.Some? && exists c :: c in s.secret.value && !IsWhiteSpace(c);
      NormalizeScenario(s, chosen)
      == match chosen
         case Valid => if signable then Valid else MissingSignature
         case InvalidSignature => if signable then InvalidSignature else MissingSignature
         case ExpiredSignature =>
           if !signable then MissingSignature
           else if Lower(s.provider) == "stripe" then ExpiredSignature
           else InvalidSignature
         case _ => chosen
  {
    LowerLiteral();
  }

  lemma LowerLiteral()
    ensures Lower("stripe") == "stripe" && Lower("github") == "github"
  {
  }

  // ----- printing signatures -----

  function ComputeGitHubSignature(k: Crypto, secret: string, payload: Bytes): string {
    GITHUB_PREFIX + Lower(ToHexString(k.Mac(secret, payload)))
  }

  function ComputeStripeSignature(k: Crypto, secret: string, timestamp: int, payloadText: string): string {
    Lower(ToHexString(k.Mac(secret, k.utf8(PrintInt(timestamp) + "." + payloadText))))
  }

  function Wrap32(x: int): int {
    (x + 0x8000_0000) % 0x1_0000_0000 - 0x8000_0000
  }

  /** The timestamp to print; the offset of an expired one is computed in 32 bits. */
  function SigningTime(s: RuntimeSource, scenario: Scenario, now: int): int {
    if scenario.ExpiredSignature? then now + Wrap32(-Wrap32(s.tolerance + 120)) else now
  }

  function SigningSecret(s: RuntimeSource, scenario: Scenario): string
    requires s.secret.Some?
  {
    if scenario.InvalidSignature? then s.secret.value + "-invalid" else s.secret.value
  }

  predicate Signs(s: RuntimeSource, scenario: Scenario) {
    !scenario.MissingSignature? && s.CanSign()
  }

  /** The value of X-Hub-Signature-256 in a request; other providers are signed like GitHub, always correctly. */
  function PrintedGitHub(k: Crypto, s: RuntimeSource, scenario: Scenario, payloadText: string): Option<string> {
    if Lower(s.provider) == "stripe" || !Signs(s, scenario) then None
    else
      var secret := if Lower(s.provider) == "github" then SigningSecret(s, scenario) else s.secret.value;
      Some(ComputeGitHubSignature(k, secret, k.utf8(payloadText)))
  }

  /** The value of Stripe-Signature in a request. */
  function PrintedStripe(k: Crypto, s: RuntimeSource, scenario: Scenario, payloadText: string, now: int)
    : Option<string>
  {
    if Lower(s.provider) != "stripe" || !Signs(s, scenario) then None
    else
      var t := SigningTime(s, scenario, now);
      Some("t=" + PrintInt(t) + ",v1=" + ComputeStripeSignature(k, SigningSecret(s, scenario), t, payloadText))
  }

  const ACCEPT := ("Accept", "application/json")

  function Line(name: string, value: Option<string>): Headers {
    if value.None? then [] else [(name, value.value)]
  }

  lemma LineAfterOthers(headers: Headers, name: string, value: Option<string>)
    requires Header(headers, name).None?
    ensures Header(headers + Line(name, value), name) == value
    ensures forall other :: Lower(other) != Lower(name) ==>
              Header(headers + Line(name, value), other) == Header(headers, other)
  {
    if value.None? {
      assert headers + [] == headers;
    } else {
      HeaderSnoc(headers, name, value.value, name);
      forall other | Lower(other) != Lower(name)
        ensures Header(headers + Line(name, value), other) == Header(headers, other)
      {
        HeaderSnoc(headers, name, value.value, other);
      }
    }
  }

  lemma DifferentNames()
    ensures |Lower("Accept")| == 6 && |Lower("X-GitHub-Event")| == 14 && |Lower("X-GitHub-Delivery")| == 17
    ensures |Lower(GITHUB_HEADER)| == 19 && |Lower(STRIPE_HEADER)| == 16 && |Lower("Stripe-Webhook-Id")| == 17
  {
  }

  /** The signature headers of a request to a GitHub source. */
  lemma GitHubLines(id: string, signature: Option<string>)
    ensures
      var headers := [ACCEPT, ("X-GitHub-Event", "push"), ("X-GitHub-Delivery", id)] + Line(GITHUB_HEADER, signature);
      Header(headers, GITHUB_HEADER) == signature && Header(headers, STRIPE_HEADER) == None
  {
    DifferentNames();
    var before := [ACCEPT, ("X-GitHub-Event", "push"), ("X-GitHub-Delivery", id)];
    HeaderIsAbsentIff(before, GITHUB_HEADER);
    HeaderIsAbsentIff(before, STRIPE_HEADER);
    LineAfterOthers(before, GITHUB_HEADER, signature);
  }

  /** Those of a request to a Stripe source. */
  lemma StripeLines(id: string, signature: Option<string>)
    ensures
      var headers := [ACCEPT] + Line(STRIPE_HEADER, signature) + [("Stripe-Webhook-Id", id)];
      Header(headers, GITHUB_HEADER) == None && Header(headers, STRIPE_HEADER) == signature
  {
    DifferentNames();
    HeaderIsAbsentIff([ACCEPT], GITHUB_HEADER);
    HeaderIsAbsentIff([ACCEPT], STRIPE_HEADER);
    LineAfterOthers([ACCEPT], STRIPE_HEADER, signature);
    HeaderSnoc([ACCEPT] + Line(STRIPE_HEADER, signature), "Stripe-Webhook-Id", id, GITHUB_HEADER);
    HeaderSnoc([ACCEPT] + Line(STRIPE_HEADER, signature), "Stripe-Webhook-Id", id, STRIPE_HEADER);
  }

  /** Those of a request to any other source. */
  lemma OtherLines(signature: Option<string>)
    ensures
      var headers := [ACCEPT] + Line(GITHUB_HEADER, signature);
      Header(headers, GITHUB_HEADER) == signature && Header(headers, STRIPE_HEADER) == None
  {
    DifferentNames();
    HeaderIsAbsentIff([ACCEPT], GITHUB_HEADER);
    HeaderIsAbsentIff([ACCEPT], STRIPE_HEADER);
    LineAfterOthers([ACCEPT], GITHUB_HEADER, signature);
  }

  /** The digits every signature ends in: the HMAC under a secret, in lower-case hex. */
  function MacDigits(k: Crypto, secret: string, text: string): string {
    Lower(ToHexString(k.hmac(k.utf8(secret), k.utf8(text))))
  }

  /** What the request carries besides its payload, line by line. */
  method BuildRequest(k: Crypto, s: RuntimeSource, scenario: Scenario, payloadText: string,
                      idempotencyKey: Option<string>, freshId: string, now: int)
    returns (headers: Headers)
    ensures Header(headers, GITHUB_HEADER) == PrintedGitHub(k, s, scenario, payloadText)
    ensures Header(headers, STRIPE_HEADER) == PrintedStripe(k, s, scenario, payloadText, now)
    ensures
      var signs := s.CanSign() && !scenario.MissingSignature?;
      var secret := if s.secret.None? then ""
                    else if scenario.InvalidSignature? then s.secret.value + "-invalid" else s.secret.value;
      var t := PrintInt(SigningTime(s, scenario, now));
      headers == [("Accept", "application/json")] +
        match Lower(s.provider)
        case "github" =>
          [("X-GitHub-Event", "push"),
           ("X-GitHub-Delivery", if scenario.Replay? && idempotencyKey.Some? then idempotencyKey.value else freshId)]
          + if signs then [("X-Hub-Signature-256", "sha256=" + MacDigits(k, secret, payloadText))] else []
        case "stripe" =>
          (if signs then [("Stripe-Signature", "t=" + t + ",v1=" + MacDigits(k, secret, t + "." + payloadText))]
           else [])
          + [("Stripe-Webhook-Id", if idempotencyKey.Some? then idempotencyKey.value else "evt_" + freshId)]
        case _ =>
          if signs then [("X-Hub-Signature-256", "sha256=" + MacDigits(k, s.secret.value, payloadText))] else []
  {
    headers := [("Accept", "application/json")];
    var provider := Lower(s.provider);
    var signs := Signs(s, scenario);
    if provider == "github" {
      headers := headers + [("X-GitHub-Event", "push")];
      var deliveryId := if idempotencyKey.Some? && scenario.Replay? then idempotencyKey.value else freshId;
      headers := headers + [("X-GitHub-Delivery", deliveryId)];
      if signs {
        var signature := ComputeGitHubSignature(k, SigningSecret(s, scenario), k.utf8(payloadText));
        headers := headers + [("X-Hub-Signature-256", signature)];
      }
      ghost var printed := PrintedGitHub(k, s, scenario, payloadText);
      assert headers == [ACCEPT, ("X-GitHub-Event", "push"), ("X-GitHub-Delivery", deliveryId)]
                        + Line(GITHUB_HEADER, printed);
      GitHubLines(deliveryId, printed);
    } else if provider == "stripe" {
      var timestamp := SigningTime(s, scenario, now);
      if signs {
        var signature := ComputeStripeSignature(k, SigningSecret(s, scenario), timestamp, payloadText);
        headers := headers + [("Stripe-Signature", "t=" + PrintInt(timestamp) + ",v1=" + signature)];
      }
      var webhookId := if idempotencyKey.Some? then idempotencyKey.value else "evt_" + freshId;
      headers := headers + [("Stripe-Webhook-Id", webhookId)];
      ghost var printed := PrintedStripe(k, s, scenario, payloadText, now);
      assert headers == [ACCEPT] + Line(STRIPE_HEADER, printed) + [("Stripe-Webhook-Id", webhookId)];
      StripeLines(webhookId, printed);
    } else {
      if signs {
        var signature := ComputeGitHubSignature(k, s.secret.value, k.utf8(payloadText));
        headers := headers + [("X-Hub-Signature-256", signature)];
      }
      ghost var printed := PrintedGitHub(k, s, scenario, payloadText);
      assert headers == [ACCEPT] + Line(GITHUB_HEADER, printed);
      OtherLines(printed);
    }
  }

  // ----- printer and validator agree -----

  /** The validator's configuration that a source of the generator is meant for. */
  predicate Matches(s: RuntimeSource, configs: seq<SourceConfig>) {
    var cfg := FirstConfig(configs, s.source);
    && cfg.Some? && cfg.value.require
    && Lower(cfg.value.provider) == Lower(s.provider)
    && cfg.value.secret == s.secret && cfg.value.tolerance == s.tolerance
  }

  lemma HexSpellsOnlyItself(a: Bytes, b: Bytes)
    ensures Spells(Lower(ToHexString(a)), b) <==> a == b
    ensures |Lower(ToHexString(a))| % 2 == 0
    ensures forall i :: 0 <= i < |Lower(ToHexString(a))| ==> DigitValue(Lower(ToHexString(a))[i]).Some?
  {
    var digits := Lower(ToHexString(a));
    TryParseHexIff(digits, a);
    TryParseHexIff(digits, b);
    LowerTwice(ToHexString(a));
    RejectedIff(digits);
  }

  /**
   Every chosen GitHub scenario gets the verdict it is named for; a wrong secret passes only if the
   MACs coincide, and an expired signature is played as a wrong one.
   */
  lemma GitHubScenarios(k: Crypto, s: RuntimeSource, configs: seq<SourceConfig>, chosen: Scenario,
                        payloadText: string, headers: Headers, now: int)
    requires s.CanSign() && Matches(s, configs) && Lower(s.provider) == "github"
    requires Header(headers, GITHUB_HEADER) == PrintedGitHub(k, s, NormalizeScenario(s, chosen), payloadText)
    ensures
      var verdict := SignatureVerdict(k, configs, s.source, headers, k.utf8(payloadText), now);
      match chosen
      case Valid => verdict == Checked(true, None)
      case Replay => verdict == Checked(true, None)
      case InvalidPayload => verdict == Checked(true, None)
      case MissingSignature => verdict == Checked(false, Some("missing:X-Hub-Signature-256"))
      case _ =>
        if k.Mac(s.secret.value + "-invalid", k.utf8(payloadText)) == k.Mac(s.secret.value, k.utf8(payloadText))
        then verdict == Checked(true, None) else verdict == Checked(false, Some("mismatch"))
  {
    NormalizedScenario(s, chosen);
    var scenario := NormalizeScenario(s, chosen);
    var body := k.utf8(payloadText);
    LowerLiteral();
    if !scenario.MissingSignature? {
      var signed := k.Mac(SigningSecret(s, scenario), body);
      var value := ComputeGitHubSignature(k, SigningSecret(s, scenario), body);
      HexSpellsOnlyItself(signed, k.Mac(s.secret.value, body));
      assert value[..|GITHUB_PREFIX|] == GITHUB_PREFIX;
      assert value[|GITHUB_PREFIX|..] == Lower(ToHexString(signed));
    }
  }

  /** An item printed as name=value is read back whatever a tight value contains. */
  lemma PrintedItem(name: string, value: string)
    requires name != [] && '=' !in name && IsTight(name) && IsTight(value)
    ensures
      var item := name + ['='] + value;
      ItemOf(item) == if name == "t" then Timestamp(value) else if name == "v1" then Signature(value) else Nothing
  {
    var item := name + ['='] + value;
    assert item[0] == name[0] && Last(item) == if value == [] then '=' else Last(value);
    TightTrims(item);
    SplitPairOf(name, value);
  }

  lemma TwoPieceHeader(p: string, q: string)
    requires Free(p, ',') && Free(q, ',')
    ensures Split(p + "," + q, ',') == [p, q]
  {
    var pieces := [p, q];
    assert pieces[1..] == [q];
    assert Join(pieces, ',') == p + [','] + Join([q], ',');
    SplitOfJoin(pieces, ',');
  }

  lemma TwoPieceReading(p: string, q: string, t: string, digits: string)
    requires ItemOf(p) == Timestamp(t) && ItemOf(q) == Signature(digits)
    ensures TimestampOf([p, q]) == Some(t)
    ensures forall v :: Offers([p, q], v) <==> v == digits
  {
    assert [p, q][..1] == [p];
    assert q in [p, q];
  }

  lemma PrintedIsTight(t: int)
    requires IsInt64(t)
    ensures IsTight(PrintInt(t)) && Free(PrintInt(t), ',')
  {
    PrintedCharacters(t);
    assert PrintInt(t)[0] in PrintInt(t) && Last(PrintInt(t)) in PrintInt(t);
  }

  lemma PrintedTimestamp(t: int)
    requires IsInt64(t)
    ensures ItemOf("t=" + PrintInt(t)) == Timestamp(PrintInt(t)) && Free("t=" + PrintInt(t), ',')
  {
    PrintedIsTight(t);
    PrintedItem("t", PrintInt(t));
    assert "t=" + PrintInt(t) == "t" + ['='] + PrintInt(t);
  }

  lemma PrintedSignature(digits: string)
    requires IsTight(digits) && ',' !in digits
    ensures ItemOf("v1=" + digits) == Signature(digits) && Free("v1=" + digits, ',')
  {
    PrintedItem("v1", digits);
    assert "v1=" + digits == "v1" + ['='] + digits;
  }

  /** What the parser reads in a printed Stripe header: the timestamp and the one signature. */
  lemma PrintedStripeReads(t: int, digits: string)
    requires IsInt64(t) && IsTight(digits) && ',' !in digits
    ensures
      var pieces := Split("t=" + PrintInt(t) + ",v1=" + digits, ',');
      && TimestampOf(pieces) == Some(PrintInt(t))
      && forall v :: Offers(pieces, v) <==> v == digits
  {
    var p, q := "t=" + PrintInt(t), "v1=" + digits;
    PrintedTimestamp(t);
    PrintedSignature(digits);
    TwoPieceHeader(p, q);
    TwoPieceReading(p, q, PrintInt(t), digits);
    JoinedText(p, digits);
  }

  lemma JoinedText(p: string, digits: string)
    ensures p + ",v1=" + digits == p + "," + ("v1=" + digits)
  {
    assert ",v1=" == "," + "v1=";
  }

  lemma HexIsPlain(b: Bytes)
    ensures IsTight(Lower(ToHexString(b))) && ',' !in Lower(ToHexString(b))
  {
    HexSpellsOnlyItself(b, b);
    var digits := Lower(ToHexString(b));
    forall i | 0 <= i < |digits| ensures digits[i] != ',' && !IsWhiteSpace(digits[i]) {
      assert DigitValue(digits[i]).Some?;
    }
  }

  /** The verdict on pieces that read as one printed timestamp and one signature. */
  lemma VerdictOfReading(k: Crypto, secret: string, tolerance: int, pieces: seq<string>, t: int, digits: string,
                         payload: Bytes, now: int)
    requires IsInt64(t) && IsClock(now) && t != now - TWO_63
    requires TimestampOf(pieces) == Some(PrintInt(t)) && forall v :: Offers(pieces, v) <==> v == digits
    ensures StripeVerdictOf(k, secret, tolerance, pieces, payload, now)
         == if !(-tolerance <= now - t <= tolerance) then Rejected("timestamp-out-of-tolerance")
            else if Spells(digits, StripeMac(k, secret, PrintInt(t), payload)) then ACCEPTED
            else Rejected("mismatch")
  {
    ParseOfPrint(t);
    PrintedCharacters(t);
    PrintedIsTight(t);
    assert PrintInt(t)[0] in PrintInt(t) && !IsWhiteSpace(PrintInt(t)[0]);
    assert Offers(pieces, digits);
  }

  /** The verdict on a printed Stripe header, by its timestamp and by the secret it was signed with. */
  lemma PrintedStripeVerdict(k: Crypto, signer: string, secret: string, tolerance: int, t: int,
                             payloadText: string, now: int)
    requires k.TextRoundTrips() && IsInt64(t) && IsClock(now) && t != now - TWO_63
    ensures
      var text := PrintInt(t) + "." + payloadText;
      StripeVerdictOf(k, secret, tolerance,
                      Split("t=" + PrintInt(t) + ",v1=" + ComputeStripeSignature(k, signer, t, payloadText), ','),
                      k.utf8(payloadText), now)
      == if !(-tolerance <= now - t <= tolerance) then Rejected("timestamp-out-of-tolerance")
         else if k.Mac(signer, k.utf8(text)) == k.Mac(secret, k.utf8(text)) then ACCEPTED
         else Rejected("mismatch")
  {
    var mac := k.Mac(signer, k.utf8(PrintInt(t) + "." + payloadText));
    var digits := ComputeStripeSignature(k, signer, t, payloadText);
    HexIsPlain(mac);
    PrintedStripeReads(t, digits);
    HexSpellsOnlyItself(mac, StripeMac(k, secret, PrintInt(t), k.utf8(payloadText)));
    VerdictOfReading(k, secret, tolerance, Split("t=" + PrintInt(t) + ",v1=" + digits, ','), t, digits,
                     k.utf8(payloadText), now);
  }

  /**
   Every chosen Stripe scenario, verified within the tolerance of being signed: valid, replayed and
   malformed-payload requests pass, unsigned ones are missing their header, a wrong secret passes
   only if the MACs coincide, and an expired one is judged by its printed timestamp alone.
   */
  lemma StripeScenarios(k: Crypto, s: RuntimeSource, configs: seq<SourceConfig>, chosen: Scenario,
                        payloadText: string, headers: Headers, signedAt: int, now: int)
    requires k.TextRoundTrips() && IsInt32(s.tolerance) && IsClock(signedAt) && IsClock(now)
    requires s.CanSign() && Matches(s, configs) && Lower(s.provider) == "stripe"
    requires Header(headers, STRIPE_HEADER) == PrintedStripe(k, s, NormalizeScenario(s, chosen), payloadText, signedAt)
    requires -s.tolerance <= now - signedAt <= s.tolerance
    ensures
      var verdict := SignatureVerdict(k, configs, s.source, headers, k.utf8(payloadText), now);
      var signed := k.utf8(PrintInt(signedAt) + "." + payloadText);
      match chosen
      case Valid => verdict == Checked(true, None)
      case Replay => verdict == Checked(true, None)
      case InvalidPayload => verdict == Checked(true, None)
      case MissingSignature => verdict == Checked(false, Some("missing:Stripe-Signature"))
      case InvalidSignature =>
        if k.Mac(s.secret.value + "-invalid", signed) == k.Mac(s.secret.value, signed)
        then verdict == Checked(true, None) else verdict == Checked(false, Some("mismatch"))
      case ExpiredSignature =>
        verdict == if ExpiredIsCaught(s.tolerance, now - signedAt)
                   then Checked(false, Some("timestamp-out-of-tolerance")) else Checked(true, None)
  {
    NormalizedScenario(s, chosen);
    var scenario := NormalizeScenario(s, chosen);
    LowerLiteral();
    if !scenario.MissingSignature? {
      var t := SigningTime(s, scenario, signedAt);
      ExpiredTimestamp(s, signedAt, now);
      PrintedStripeVerdict(k, SigningSecret(s, scenario), s.secret.value, s.tolerance, t, payloadText, now);
    }
  }

  /**
   When a request printed as expired is turned away, `delay` seconds after it was signed: always,
   if the verifying clock is less than two minutes behind - except for the last 119 values of a
   32-bit tolerance, whose sum with 120 overflows in the printer.
   */
  predicate ExpiredIsCaught(tolerance: int, delay: int) {
    if tolerance + 120 <= 0x8000_0000 then delay > -120
    else delay < 120 - 2 * (tolerance + 120 - 0x8000_0000)
  }

  lemma ExpiredTimestamp(s: RuntimeSource, signedAt: int, now: int)
    requires IsInt32(s.tolerance) && IsClock(signedAt) && IsClock(now)
    requires -s.tolerance <= now - signedAt <= s.tolerance
    ensures
      var t := SigningTime(s, ExpiredSignature, signedAt);
      && IsInt64(t) && t != now - TWO_63
      && (s.tolerance < 0x8000_0000 - 120 ==> t == signedAt - s.tolerance - 120)
      && (ExpiredIsCaught(s.tolerance, now - signedAt) <==> !(-s.tolerance <= now - t <= s.tolerance))
  {
    var sum := s.tolerance + 120;
    if sum < 0x8000_0000 {
      assert Wrap32(sum) == sum;
      assert Wrap32(-sum) == -sum;
    } else if sum == 0x8000_0000 {
      assert Wrap32(sum) == -0x8000_0000;
      assert Wrap32(0x8000_0000) == -0x8000_0000;
    } else {
      assert Wrap32(sum) == sum - 0x1_0000_0000;
      assert Wrap32(0x1_0000_0000 - sum) == 0x1_0000_0000 - sum;
    }
  }

  /** A request printed as expired is accepted by a validator whose clock is two minutes behind the printer's. */
  lemma ExpiredRequestPasses(k: Crypto, payloadText: string, signedAt: int)
    requires k.TextRoundTrips() && IsClock(signedAt) && signedAt >= 120
    ensures
      var s := RuntimeSource("shop", "stripe", Some("secret"), 300);
      var configs := [SourceConfig("shop", "stripe", Some("secret"), true, 300)];
      var printed := PrintedStripe(k, s, ExpiredSignature, payloadText, signedAt);
      && NormalizeScenario(s, ExpiredSignature) == ExpiredSignature && printed.Some?
      && SignatureVerdict(k, configs, "shop", [(STRIPE_HEADER, printed.value)], k.utf8(payloadText), signedAt - 120)
         == ACCEPTED
  {
    var s := RuntimeSource("shop", "stripe", Some("secret"), 300);
    var configs := [SourceConfig("shop", "stripe", Some("secret"), true, 300)];
    LowerLiteral();
    assert !IsWhiteSpace(s.secret.value[0]) && s.secret.value[0] in s.secret.value;
    var printed := PrintedStripe(k, s, ExpiredSignature, payloadText, signedAt);
    OneHeader(STRIPE_HEADER, printed.value);
    StripeScenarios(k, s, configs, ExpiredSignature, payloadText, [(STRIPE_HEADER, printed.value)],
                    signedAt, signedAt - 120);
  }

  // ----- choosing a scenario -----

  datatype Weights = Weights(valid: real, invalidSignature: real, missingSignature: real,
                             replay: real, expiredSignature: real, invalidPayload: real) {
    function Total(): real {
      valid + invalidSignature + missingSignature + replay + expiredSignature + invalidPayload
    }

    function Of(s: Scenario): real {
      match s
      case Valid => valid
      case InvalidSignature => invalidSignature
      case MissingSignature => missingSignature
      case Replay => replay
      case ExpiredSignature => expiredSignature
      case InvalidPayload => invalidPayload
    }

    predicate Proper() {
      && valid >= 0.0 && invalidSignature >= 0.0 && missingSignature >= 0.0
      && replay >= 0.0 && expiredSignature >= 0.0 && invalidPayload >= 0.0
      && Total() > 0.0
    }
  }

  /** Math.Max(0, ratio) */
  function Positive(ratio: real): real {
    if ratio < 0.0 then 0.0 else ratio
  }

  /** ScenarioDistribution.Create: negative ratios count for nothing, expired ones only for Stripe. */
  function CreateWeights(ratios: Weights, provider: string): Weights {
    var expired := if SameIgnoringCase(provider, "stripe") then Positive(ratios.expiredSignature) else 0.0;
    var w := Weights(Positive(ratios.valid), Positive(ratios.invalidSignature), Positive(ratios.missingSignature),
                     Positive(ratios.replay), expired, Positive(ratios.invalidPayload));
    if w.Total() <= 0.0 then Weights(1.0, 0.0, 0.0, 0.0, 0.0, 0.0) else w
  }

  /** The ratio counts: it is positive, and not the expired one of another provider than Stripe. */
  predicate Counts(ratios: Weights, provider: string, s: Scenario) {
    ratios.Of(s) > 0.0 && (s.ExpiredSignature? ==> Lower(provider) == "stripe")
  }

  /**
   Any ratios give a usable distribution. As soon as one ratio counts, every scenario has its ratio
   if that counts and else no weight; if none counts, only Valid has weight.
   */
  lemma CreatedWeights(ratios: Weights, provider: string)
    ensures CreateWeights(ratios, provider).Proper()
    ensures (exists s: Scenario :: Counts(ratios, provider, s)) ==>
              forall s: Scenario ::
                CreateWeights(ratios, provider).Of(s) == if Counts(ratios, provider, s) then ratios.Of(s) else 0.0
    ensures (forall s: Scenario :: !Counts(ratios, provider, s)) ==>
              CreateWeights(ratios, provider) == Weights(1.0, 0.0, 0.0, 0.0, 0.0, 0.0)
  {
    LowerLiteral();
    var w := CreateWeights(ratios, provider);
    if s: Scenario :| Counts(ratios, provider, s) {
      CountingTotal(ratios, provider, s);
    } else {
      NothingCounts(ratios, provider);
    }
  }

  lemma CountingTotal(ratios: Weights, provider: string, s: Scenario)
    requires Counts(ratios, provider, s)
    ensures CreateWeights(ratios, provider).Total() > 0.0
    ensures forall x: Scenario ::
              CreateWeights(ratios, provider).Of(x) == if Counts(ratios, provider, x) then ratios.Of(x) else 0.0
  {
    LowerLiteral();
    match s
    case Valid => case InvalidSignature => case MissingSignature =>
    case Replay => case ExpiredSignature => case InvalidPayload =>
  }

  lemma NothingCounts(ratios: Weights, provider: string)
    requires forall s: Scenario :: !Counts(ratios, provider, s)
    ensures CreateWeights(ratios, provider) == Weights(1.0, 0.0, 0.0, 0.0, 0.0, 0.0)
  {
    LowerLiteral();
    assert !Counts(ratios, provider, Valid) && !Counts(ratios, provider, InvalidSignature);
    assert !Counts(ratios, provider, MissingSignature) && !Counts(ratios, provider, Replay);
    assert !Counts(ratios, provider, ExpiredSignature) && !Counts(ratios, provider, InvalidPayload);
  }

  /** Each scenario owns exactly its half-open interval of rolls, so one without weight is never chosen. */
  method ChooseScenario(w: Weights, drawn: real) returns (s: Scenario)
    requires w.Proper() && 0.0 <= drawn < w.Total()
    ensures s == Valid <==> 0.0 <= drawn < w.valid
    ensures s == InvalidSignature <==> w.valid <= drawn < w.valid + w.invalidSignature
    ensures
      var before := w.valid + w.invalidSignature;
      s == MissingSignature <==> before <= drawn < before + w.missingSignature
    ensures
      var before := w.valid + w.invalidSignature + w.missingSignature;
      s == Replay <==> before <= drawn < before + w.replay
    ensures
      var before := w.valid + w.invalidSignature + w.missingSignature + w.replay;
      s == ExpiredSignature <==> before <= drawn < before + w.expiredSignature
    ensures
      var before := w.valid + w.invalidSignature + w.missingSignature + w.replay + w.expiredSignature;
      s == InvalidPayload <==> before <= drawn < before + w.invalidPayload
    ensures w.Of(s) > 0.0
  {
    var roll := drawn;
    if roll < w.valid { return Valid; }
    roll := roll - w.valid;
    if roll < w.invalidSignature { return InvalidSignature; }
    roll := roll - w.invalidSignature;
    if roll < w.missingSignature { return MissingSignature; }
    roll := roll - w.missingSignature;
    if roll < w.replay { return Replay; }
    roll := roll - w.replay;
    if roll < w.expiredSignature { return ExpiredSignature; }
    return InvalidPayload;
  }
}
