/** Signing and verifying internal assertions: three base64url parts joined by dots
    (section 7.1 of RFC 7515). The signature scheme is a parameter; all that is ever
    asked of it is that verification accepts what signing produced. */
module InternalAssertion {
  import opened Text
  import opened Base64Url
  import opened AssertionClaims
  import ReplayCache

  datatype Scheme = Scheme(
    sign: (string, string) -> string,           // private key, message
    verify: (string, string, string) -> bool)   // public key, message, signature

  ghost predicate KeyPair(scheme: Scheme, privateKey: string, publicKey: string) {
    forall m :: var s := scheme.sign(privateKey, m);
      |s| == 64 && IsBytes(s) && scheme.verify(publicKey, m, s)
  }

  lemma TextsAreBytes(kid: string, c: Claims)
    requires ValidKid(kid) && ValidClaims(c)
    ensures IsBytes(HeaderText(kid)) && IsBytes(SerializeClaims(c).value)
  {
    hide AssertionJson.PrintObject, IsBytes, AssertionJson.Follows;
    HeaderFollows(kid);
    ObjectIsBytes(HEADER_SCHEMA, HeaderFields(kid));
    ClaimsFollow(c);
    ObjectIsBytes(CLAIM_SCHEMA, ClaimFields(c));
  }

  function SigningInput(kid: string, c: Claims): string
    requires ValidKid(kid) && ValidClaims(c)
  {
    TextsAreBytes(kid, c);
    Encode(HeaderText(kid)) + "." + Encode(SerializeClaims(c).value)
  }

  /** AssertionSigner::sign; None where it throws. */
  function Sign(scheme: Scheme, kid: string, privateKey: string, c: Claims): Option<string> {
    if !ValidKid(kid) || !ValidClaims(c) then None
    else
      var input := SigningInput(kid, c);
      var signature := scheme.sign(privateKey, input);
      if IsBytes(signature) then Some(input + "." + Encode(signature)) else None
  }

  datatype Requirements = Requirements(
    audience: string,
    capability: string,
    purpose: string,
    clockSkew: int,
    maximumLifetime: int)

  datatype Outcome = Accepted(claims: Claims) | Refused(error: string)

  /** Position of the first dot at or after `from`, or the length of the text. */
  function FindDot(s: string, from: nat): (r: nat)
    requires from <= |s|
    ensures from <= r <= |s|
    ensures r < |s| ==> s[r] == '.'
    ensures forall i :: from <= i < r ==> s[i] != '.'
    decreases |s| - from
  {
    if from == |s| || s[from] == '.' then from else FindDot(s, from + 1)
  }

  function SplitThree(text: string): Option<(string, string, string)> {
    var i := FindDot(text, 0);
    if i == |text| then None
    else
      var j := FindDot(text, i + 1);
      if j == |text| || FindDot(text, j + 1) != |text| then None
      else Some((text[..i], text[i + 1..j], text[j + 1..]))
  }

  /** The checks on the claims themselves, in order: None when all pass. */
  function CheckClaims(c: Claims, req: Requirements, now: int): Option<string> {
    if c.issuer != "sisterd" then Some("invalid_issuer")
    else if c.audience != req.audience then Some("invalid_audience")
    else if c.purpose != req.purpose then Some("invalid_purpose")
    else if req.capability !in c.capabilities then Some("capability_missing")
    else if c.issuedAt > now + req.clockSkew then Some("issued_in_future")
    else if c.expiresAt <= now - req.clockSkew then Some("assertion_expired")
    else if c.expiresAt - c.issuedAt > req.maximumLifetime then Some("lifetime_exceeded")
    else None
  }

  /** verify() up to the replay cache; `now` is the clock cut to whole seconds. */
  function Examine(scheme: Scheme, keys: map<string, string>, text: string, req: Requirements, now: int): Outcome {
    if text == [] || |text| > MAXIMUM_ASSERTION_BYTES then Refused("malformed_assertion")
    else match SplitThree(text)
      case None => Refused("malformed_assertion")
      case Some(parts) =>
        match (Decode(parts.0), Decode(parts.1), Decode(parts.2))
        case (Some(header), Some(payload), Some(signature)) =>
          if |signature| != 64 then Refused("malformed_assertion")
          else ExamineParts(scheme, keys, parts.0 + "." + parts.1, header, payload, signature, req, now)
        case _ => Refused("malformed_assertion")
  }

  function ExamineParts(
    scheme: Scheme, keys: map<string, string>, input: string,
    header: string, payload: string, signature: string, req: Requirements, now: int): Outcome
  {
    match ParseHeader(header)
    case None => Refused("malformed_assertion")
    case Some(kid) =>
      if kid !in keys then Refused("unknown_key")
      else if !scheme.verify(keys[kid], input, signature) then Refused("invalid_signature")
      else match ParseClaims(payload)
        case None => Refused("malformed_assertion")
        case Some(c) =>
          match CheckClaims(c, req, now)
          case Some(error) => Refused(error)
          case None => Accepted(c)
  }

  function AttemptOf(c: Claims, req: Requirements, now: int): ReplayCache.Attempt {
    ReplayCache.Attempt(c.jti, c.expiresAt, now - req.clockSkew)
  }

  /** The whole of verify(): the outcome and the replay cache after it. */
  function Verify(
    scheme: Scheme, keys: map<string, string>, seen: ReplayCache.Seen,
    text: string, req: Requirements, now: int): (Outcome, ReplayCache.Seen)
  {
    match Examine(scheme, keys, text, req, now)
    case Refused(error) => (Refused(error), seen)
    case Accepted(c) =>
      var a := AttemptOf(c, req, now);
      (if ReplayCache.Admits(seen, a) then Accepted(c) else Refused("assertion_replayed"),
       ReplayCache.Step(seen, a))
  }

  // ---- Sign, then verify ----

  predicate NoDot(s: string) { forall i :: 0 <= i < |s| ==> s[i] != '.' }

  lemma EncodedHasNoDot(s: string)
    requires IsBytes(s)
    ensures NoDot(Encode(s))
  {
    EncodeShape(s);
  }

  lemma SplitJoined(a: string, b: string, c: string)
    requires NoDot(a) && NoDot(b) && NoDot(c)
    ensures SplitThree(a + "." + b + "." + c) == Some((a, b, c))
  {
    var t := a + "." + b + "." + c;
    var i, j := |a|, |a| + 1 + |b|;
    assert t[i] == '.' && t[j] == '.';
    assert forall k :: 0 <= k < i ==> t[k] == a[k];
    assert forall k :: i < k < j ==> t[k] == b[k - i - 1];
    assert forall k :: j < k < |t| ==> t[k] == c[k - j - 1];
    assert FindDot(t, 0) == i;
    assert FindDot(t, i + 1) == j;
    assert t[..i] == a && t[i + 1..j] == b && t[j + 1..] == c;
  }

  /** Encodings of valid header and claims, with a 64-byte signature, stay below the size bound. */
  lemma CompactFits(kid: string, c: Claims, signature: string)
    requires ValidKid(kid) && ValidClaims(c) && IsBytes(signature) && |signature| == 64
    ensures |SigningInput(kid, c) + "." + Encode(signature)| < MAXIMUM_ASSERTION_BYTES
    ensures IsBytes(HeaderText(kid)) && |Encode(HeaderText(kid))| < MAXIMUM_ASSERTION_BYTES
    ensures IsBytes(SerializeClaims(c).value) && |Encode(SerializeClaims(c).value)| < MAXIMUM_ASSERTION_BYTES
    ensures |Encode(signature)| < MAXIMUM_ASSERTION_BYTES
  {
    hide Encode, EncodeBlock, HeaderText, AssertionJson.PrintObject;
    TextsAreBytes(kid, c);
    HeaderLength(kid);
    PayloadLength(c);
    EncodeShape(HeaderText(kid));
    EncodeShape(SerializeClaims(c).value);
    EncodeShape(signature);
  }

  /** Sign then examine: for every claims value the signer accepts, a verifier holding
      the public key reads exactly those claims, so only the checks on the claims decide. */
  lemma SignThenExamine(
    scheme: Scheme, kid: string, privateKey: string, keys: map<string, string>,
    c: Claims, req: Requirements, now: int)
    requires ValidKid(kid) && ValidClaims(c) && kid in keys && KeyPair(scheme, privateKey, keys[kid])
    ensures Sign(scheme, kid, privateKey, c).Some?
    ensures Examine(scheme, keys, Sign(scheme, kid, privateKey, c).value, req, now)
            == match CheckClaims(c, req, now) case Some(error) => Refused(error) case None => Accepted(c)
  {
    hide Encode, Decode, ParseHeader, ParseClaims, HeaderText, CheckClaims, ValidClaims, SplitThree,
      AssertionJson.PrintObject;
    TextsAreBytes(kid, c);
    var header, payload, input := HeaderText(kid), SerializeClaims(c).value, SigningInput(kid, c);
    var signature := scheme.sign(privateKey, input);
    CompactFits(kid, c, signature);
    EncodedHasNoDot(header);
    EncodedHasNoDot(payload);
    EncodedHasNoDot(signature);
    SplitJoined(Encode(header), Encode(payload), Encode(signature));
    ParseHeaderText(kid);
    ParseSerialize(c);
    DecodeEncode(header);
    DecodeEncode(payload);
    DecodeEncode(signature);
    TextsNotEmpty(kid, c);
  }

  lemma TextsNotEmpty(kid: string, c: Claims)
    requires ValidKid(kid) && ValidClaims(c)
    ensures HeaderText(kid) != [] && SerializeClaims(c).value != []
  {
  }

  /** Sign then verify is the identity: given matching requirements, a time inside the
      window and a token id not in the pruned cache, verify() returns exactly the claims
      that were signed; and it accepts in no other case. */
  lemma SignThenVerify(
    scheme: Scheme, kid: string, privateKey: string, keys: map<string, string>, seen: ReplayCache.Seen,
    c: Claims, req: Requirements, now: int)
    requires ValidKid(kid) && ValidClaims(c) && kid in keys && KeyPair(scheme, privateKey, keys[kid])
    ensures Sign(scheme, kid, privateKey, c).Some?
    ensures var outcome := Verify(scheme, keys, seen, Sign(scheme, kid, privateKey, c).value, req, now).0;
            && (outcome.Accepted? <==>
                  && c.audience == req.audience && c.purpose == req.purpose && req.capability in c.capabilities
                  && c.issuedAt <= now + req.clockSkew && now - req.clockSkew < c.expiresAt
                  && c.expiresAt - c.issuedAt <= req.maximumLifetime
                  && c.jti !in ReplayCache.Prune(seen, now - req.clockSkew))
            && (outcome.Accepted? ==> outcome.claims == c)
  {
    hide Examine, Sign, ReplayCache.Prune, ValidKid, ValidClaims, KeyPair;
    SignThenExamine(scheme, kid, privateKey, keys, c, req, now);
    ValidIssuer(c);
  }

  lemma ValidIssuer(c: Claims)
    requires ValidClaims(c)
    ensures c.issuer == "sisterd"
  {
  }

  /** Whatever text is presented, accepted claims are valid, current and as required;
      in particular the "invalid_issuer" answer is never given. */
  lemma AcceptedAreSound(
    scheme: Scheme, keys: map<string, string>, text: string, req: Requirements, now: int)
    ensures var outcome := Examine(scheme, keys, text, req, now);
            && outcome != Refused("invalid_issuer")
            && (outcome.Accepted? ==>
                  && ValidClaims(outcome.claims) && CheckClaims(outcome.claims, req, now) == None
                  && now - req.clockSkew < outcome.claims.expiresAt
                  && outcome.claims.expiresAt <= now + req.clockSkew + req.maximumLifetime)
  {
    hide Decode, SplitThree, ExamineParts, ValidClaims, CheckClaims;
    if text != [] && SplitThree(text).Some? {
      var parts := SplitThree(text).value;
      match (Decode(parts.0), Decode(parts.1), Decode(parts.2)) {
        case (Some(header), Some(payload), Some(signature)) =>
          PartsAreSound(scheme, keys, parts.0 + "." + parts.1, header, payload, signature, req, now);
        case _ =>
      }
    }
  }

  lemma PartsAreSound(
    scheme: Scheme, keys: map<string, string>, input: string,
    header: string, payload: string, signature: string, req: Requirements, now: int)
    ensures var outcome := ExamineParts(scheme, keys, input, header, payload, signature, req, now);
            && outcome != Refused("invalid_issuer")
            && (outcome.Accepted? ==>
                  && ValidClaims(outcome.claims) && CheckClaims(outcome.claims, req, now) == None
                  && now - req.clockSkew < outcome.claims.expiresAt
                  && outcome.claims.expiresAt <= now + req.clockSkew + req.maximumLifetime)
  {
    hide ParseHeader, ParseClaims, ValidClaims;
    if ParseClaims(payload).Some? {
      ValidIssuer(ParseClaims(payload).value);
    }
  }

  /** What an accepted text says does not depend on who verifies it, or when. */
  lemma SameTextSameClaims(
    scheme: Scheme, text: string,
    keys1: map<string, string>, req1: Requirements, now1: int,
    keys2: map<string, string>, req2: Requirements, now2: int)
    requires Examine(scheme, keys1, text, req1, now1).Accepted?
    requires Examine(scheme, keys2, text, req2, now2).Accepted?
    ensures Examine(scheme, keys1, text, req1, now1).claims == Examine(scheme, keys2, text, req2, now2).claims
  {
    hide Decode, ParseHeader, SplitThree, ParseClaims, CheckClaims;
  }

  /** The key id a text names, as far as it can be read. */
  function KidOf(text: string): Option<string> {
    var parts :- SplitThree(text);
    var header :- Decode(parts.0);
    ParseHeader(header)
  }

  /** What registering a key does to verification: a text signed by the matching private key
      under that id is now judged by its claims alone, and a text that names another id, or
      none, is judged as before. */
  lemma AddedKeyDecides(
    scheme: Scheme, keys: map<string, string>, kid: string, pem: string, privateKey: string, c: Claims,
    text: string, req: Requirements, now: int)
    ensures ValidKid(kid) && ValidClaims(c) && KeyPair(scheme, privateKey, pem) ==>
      && Sign(scheme, kid, privateKey, c).Some?
      && Examine(scheme, keys[kid := pem], Sign(scheme, kid, privateKey, c).value, req, now)
         == match CheckClaims(c, req, now) case Some(error) => Refused(error) case None => Accepted(c)
    ensures KidOf(text) != Some(kid) ==> Examine(scheme, keys[kid := pem], text, req, now) == Examine(scheme, keys, text, req, now)
  {
    if ValidKid(kid) && ValidClaims(c) && KeyPair(scheme, privateKey, pem) {
      hide ValidKid, ValidClaims, KeyPair, Examine, Sign;
      SignThenExamine(scheme, kid, privateKey, keys[kid := pem], c, req, now);
    }
    hide Decode, ParseHeader, SplitThree, ParseClaims, CheckClaims, ValidKid, ValidClaims, KeyPair, Sign;
  }

  // ---- Exactly what is accepted, and what each refusal means ----

  /** The text is three dot-free parts that decode, the third to a signature of 64 bytes, the
      first to a header that names `kid`. */
  ghost predicate Readable(text: string, a: string, b: string, s: string, kid: string) {
    && |text| <= MAXIMUM_ASSERTION_BYTES && text == a + "." + b + "." + s && NoDot(a) && NoDot(b) && NoDot(s)
    && Decode(a).Some? && ParseHeader(Decode(a).value) == Some(kid)
    && Decode(b).Some? && Decode(s).Some? && |Decode(s).value| == 64
  }

  /** The key registered under that name signed the first two parts, and the second holds `c`. */
  ghost predicate SignedAs(scheme: Scheme, keys: map<string, string>, text: string, c: Claims,
                           a: string, b: string, s: string, kid: string) {
    && Readable(text, a, b, s, kid)
    && kid in keys && scheme.verify(keys[kid], a + "." + b, Decode(s).value)
    && ParseClaims(Decode(b).value) == Some(c)
  }

  ghost predicate Vouched(scheme: Scheme, keys: map<string, string>, text: string, c: Claims) {
    exists a, b, s, kid :: SignedAs(scheme, keys, text, c, a, b, s, kid)
  }

  /** The claims are meant for this use and for this time. */
  predicate Meets(c: Claims, req: Requirements, now: int) {
    && c.audience == req.audience && c.purpose == req.purpose && req.capability in c.capabilities
    && c.issuedAt <= now + req.clockSkew && now - req.clockSkew < c.expiresAt
    && c.expiresAt - c.issuedAt <= req.maximumLifetime
  }

  lemma CutAtDots(text: string, i: nat, j: nat)
    requires i < j < |text| && text[i] == '.' && text[j] == '.'
    requires (forall k :: 0 <= k < i ==> text[k] != '.') && (forall k :: i < k < j ==> text[k] != '.')
    requires forall k :: j < k < |text| ==> text[k] != '.'
    ensures text == text[..i] + "." + text[i + 1..j] + "." + text[j + 1..]
    ensures NoDot(text[..i]) && NoDot(text[i + 1..j]) && NoDot(text[j + 1..])
  {
  }

  lemma PartsAreDotFree(text: string)
    requires SplitThree(text).Some?
    ensures var p := SplitThree(text).value;
            text == p.0 + "." + p.1 + "." + p.2 && NoDot(p.0) && NoDot(p.1) && NoDot(p.2)
  {
    var i := FindDot(text, 0);
    CutAtDots(text, i, FindDot(text, i + 1));
  }

  /** Splitting finds exactly three dot-free parts. */
  lemma SplitThreeIff(text: string, a: string, b: string, c: string)
    ensures SplitThree(text) == Some((a, b, c)) <==>
              text == a + "." + b + "." + c && NoDot(a) && NoDot(b) && NoDot(c)
  {
    hide SplitThree, NoDot;
    if text == a + "." + b + "." + c && NoDot(a) && NoDot(b) && NoDot(c) { SplitJoined(a, b, c); }
    if SplitThree(text).Some? { PartsAreDotFree(text); }
  }

  lemma CheckMeansMeets(c: Claims, req: Requirements, now: int)
    requires ValidClaims(c)
    ensures CheckClaims(c, req, now) == None <==> Meets(c, req, now)
  {
    hide ValidClaims;
    ValidIssuer(c);
  }

  /** `text` is accepted with claims `c` exactly when a registered key signed it, it holds
      those claims, and they meet the requirements. */
  lemma AcceptedIff(scheme: Scheme, keys: map<string, string>, text: string, req: Requirements, now: int, c: Claims)
    ensures Examine(scheme, keys, text, req, now) == Accepted(c) <==>
              Vouched(scheme, keys, text, c) && Meets(c, req, now)
  {
    hide Decode, ParseHeader, ParseClaims, CheckClaims, SplitThree, Meets;
    if Examine(scheme, keys, text, req, now) == Accepted(c) {
      var parts := SplitThree(text).value;
      SplitThreeIff(text, parts.0, parts.1, parts.2);
      var kid := ParseHeader(Decode(parts.0).value).value;
      assert SignedAs(scheme, keys, text, c, parts.0, parts.1, parts.2, kid);
      CheckMeansMeets(c, req, now);
    }
    if Vouched(scheme, keys, text, c) && Meets(c, req, now) {
      var a, b, s, kid :| SignedAs(scheme, keys, text, c, a, b, s, kid);
      SplitThreeIff(text, a, b, s);
      CheckMeansMeets(c, req, now);
    }
  }

  /** The word a failed check gives: that of the first one to fail, in this order. */
  lemma RefusalWords(c: Claims, req: Requirements, now: int)
    requires ValidClaims(c)
    ensures var aud, purpose, cap := c.audience == req.audience, c.purpose == req.purpose, req.capability in c.capabilities;
            var begun, live := c.issuedAt <= now + req.clockSkew, now - req.clockSkew < c.expiresAt;
            var word := CheckClaims(c, req, now);
            && (word == Some("invalid_audience") <==> !aud)
            && (word == Some("invalid_purpose") <==> aud && !purpose)
            && (word == Some("capability_missing") <==> aud && purpose && !cap)
            && (word == Some("issued_in_future") <==> aud && purpose && cap && !begun)
            && (word == Some("assertion_expired") <==> aud && purpose && cap && begun && !live)
            && (word == Some("lifetime_exceeded") <==> aud && purpose && cap && begun && live
                                                       && c.expiresAt - c.issuedAt > req.maximumLifetime)
  {
    hide ValidClaims;
    ValidIssuer(c);
  }

  /** What the refusals before the claims mean: an unknown key, a signature that does not
      verify, or a text that cannot be read. */
  lemma RefusalMeaning(scheme: Scheme, keys: map<string, string>, text: string, req: Requirements, now: int,
                       a: string, b: string, s: string, kid: string)
    requires Readable(text, a, b, s, kid)
    ensures var outcome := Examine(scheme, keys, text, req, now);
            && (kid !in keys ==> outcome == Refused("unknown_key"))
            && (kid in keys && !scheme.verify(keys[kid], a + "." + b, Decode(s).value) ==> outcome == Refused("invalid_signature"))
            && (kid in keys && scheme.verify(keys[kid], a + "." + b, Decode(s).value) ==>
                  match ParseClaims(Decode(b).value)
                  case None => outcome == Refused("malformed_assertion")
                  case Some(c) => outcome == match CheckClaims(c, req, now) case Some(word) => Refused(word) case None => Accepted(c))
  {
    hide Decode, ParseHeader, ParseClaims, CheckClaims, SplitThree;
    SplitThreeIff(text, a, b, s);
  }

  lemma UnreadableIsMalformed(scheme: Scheme, keys: map<string, string>, text: string, req: Requirements, now: int)
    requires !exists a, b, s, kid :: Readable(text, a, b, s, kid)
    ensures Examine(scheme, keys, text, req, now) == Refused("malformed_assertion")
  {
    hide Decode, ParseHeader, ParseClaims, CheckClaims, SplitThree;
    if text != [] && |text| <= MAXIMUM_ASSERTION_BYTES && SplitThree(text).Some? {
      var parts := SplitThree(text).value;
      SplitThreeIff(text, parts.0, parts.1, parts.2);
      if Decode(parts.0).Some? && ParseHeader(Decode(parts.0).value).Some? {
        assert !Readable(text, parts.0, parts.1, parts.2, ParseHeader(Decode(parts.0).value).value);
      }
    }
  }
}
