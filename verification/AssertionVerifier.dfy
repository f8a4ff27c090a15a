/** The verifier object: its keys and its replay cache, changed in place. */
module AssertionVerifier {
  import opened Text
  import opened Base64Url
  import opened AssertionClaims
  import opened InternalAssertion
  import opened AssertionReader
  import AssertionJson
  import ReplayCache
  import AssertionRuns

  class Verifier {
    const scheme: Scheme
    const isPublicKey: string -> bool
    var publicKeys: map<string, string>
    var seenJtis: map<string, int>
    ghost var run: AssertionRuns.Run

    /** The cache is what the calls of `verify` so far lead to. */
    ghost predicate Valid()
      reads this
    {
      AssertionRuns.IsRun(scheme, run) && run.caches[|run.calls|] == seenJtis
    }

    constructor (s: Scheme, isKey: string -> bool)
      ensures Valid() && scheme == s && isPublicKey == isKey
      ensures publicKeys == map[] && seenJtis == map[] && run.calls == []
    {
      scheme, isPublicKey := s, isKey;
      publicKeys, seenJtis := map[], map[];
      run := AssertionRuns.Run([], [map[]]);
    }

    /** False where the source throws. Keys under other ids stay, and so does the cache. */
    method AddPublicKey(kid: string, pem: string) returns (ok: bool)
      requires Valid()
      modifies `publicKeys
      ensures Valid() && ok == (ValidKid(kid) && isPublicKey(pem))
      ensures publicKeys == if ok then old(publicKeys)[kid := pem] else old(publicKeys)
      ensures forall k :: k != kid ==>
                (k in publicKeys <==> k in old(publicKeys)) && (k in publicKeys ==> publicKeys[k] == old(publicKeys)[k])
    {
      ok := ValidKid(kid) && isPublicKey(pem);
      if ok {
        publicKeys := publicKeys[kid := pem];
      }
    }

    /** Everything before the replay cache. */
    method ExamineText(text: string, req: Requirements, now: int) returns (outcome: Outcome)
      ensures outcome == Examine(scheme, publicKeys, text, req, now)
    {
      hide Decode, ParseHeader, ParseClaims, CheckClaims;
      if text == [] || |text| > MAXIMUM_ASSERTION_BYTES {
        return Refused("malformed_assertion");
      }
      var firstDot := FindDot(text, 0);
      var secondDot := if firstDot == |text| then |text| else FindDot(text, firstDot + 1);
      if firstDot == |text| || secondDot == |text| || FindDot(text, secondDot + 1) != |text| {
        return Refused("malformed_assertion");
      }
      var header := DecodeText(text[..firstDot]);
      var payload := DecodeText(text[firstDot + 1..secondDot]);
      var signature := DecodeText(text[secondDot + 1..]);
      if header.None? || payload.None? || signature.None? || |signature.value| != 64 {
        return Refused("malformed_assertion");
      }
      assert text[..secondDot] == text[..firstDot] + "." + text[firstDot + 1..secondDot];
      var kid := ReadHeader(header.value);
      if kid.None? {
        return Refused("malformed_assertion");
      }
      if kid.value !in publicKeys {
        return Refused("unknown_key");
      }
      if !scheme.verify(publicKeys[kid.value], text[..secondDot], signature.value) {
        return Refused("invalid_signature");
      }
      var claims := ReadClaims(payload.value);
      if claims.None? {
        return Refused("malformed_assertion");
      }
      var error := CheckClaims(claims.value, req, now);
      outcome := if error.Some? then Refused(error.value) else Accepted(claims.value);
    }

    /** The loop that drops expired ids. */
    method PruneSeen(cutoff: int)
      modifies `seenJtis
      ensures seenJtis == ReplayCache.Prune(old(seenJtis), cutoff)
    {
      var todo := seenJtis.Keys;
      while todo != {}
        invariant todo <= old(seenJtis).Keys
        invariant forall j :: j in seenJtis <==>
          j in old(seenJtis) && (j in todo || old(seenJtis)[j] > cutoff)
        invariant forall j :: j in seenJtis ==> seenJtis[j] == old(seenJtis)[j]
        decreases |todo|
      {
        var j :| j in todo;
        if seenJtis[j] <= cutoff {
          seenJtis := seenJtis - {j};
        }
        todo := todo - {j};
      }
    }

    method VerifyText(text: string, req: Requirements, now: int) returns (outcome: Outcome)
      requires Valid()
      modifies `seenJtis, `run
      ensures Valid()
      ensures (outcome, seenJtis) == Verify(scheme, publicKeys, old(seenJtis), text, req, now)
      ensures run.calls == old(run).calls + [AssertionRuns.Call(publicKeys, text, req, now)]
    {
      hide Examine, AssertionRuns.StepAt;
      ghost var call := AssertionRuns.Call(publicKeys, text, req, now);
      AssertionRuns.RunGrows(scheme, run, call);
      run := AssertionRuns.Run(run.calls + [call], run.caches + [AssertionRuns.Serve(scheme, call, seenJtis).1]);
      outcome := ExamineText(text, req, now);
      if outcome.Refused? {
        return;
      }
      var claims := outcome.claims;
      PruneSeen(now - req.clockSkew);
      if claims.jti in seenJtis {
        outcome := Refused("assertion_replayed");
      } else {
        seenJtis := seenJtis[claims.jti := claims.expiresAt];
      }
    }
  }

  /** parseHeader. */
  method ReadHeader(text: string) returns (kid: Option<string>)
    ensures kid == ParseHeader(text)
  {
    var f := ParseObject(HEADER_SCHEMA, text);
    if f.None? {
      return None;
    }
    HeaderNamesDistinct();
    var alg := At(HEADER_SCHEMA, f.value, 0).text;
    var typ := At(HEADER_SCHEMA, f.value, 1).text;
    var id := At(HEADER_SCHEMA, f.value, 2).text;
    if alg != "EdDSA" || typ != "sister-internal+jwt" || !ValidKid(id) {
      return None;
    }
    kid := Some(id);
  }

  /** parseClaims. */
  method ReadClaims(text: string) returns (claims: Option<Claims>)
    ensures claims == ParseClaims(text)
  {
    hide ValidClaims, AssertionJson.ReadObject, AssertionJson.PrintObject;
    var f := ParseObject(CLAIM_SCHEMA, text);
    if f.None? {
      return None;
    }
    var c := FromFields(f.value);
    var printed := SerializeClaims(c);
    claims := if printed.Some? then Some(c) else None;
  }
}
