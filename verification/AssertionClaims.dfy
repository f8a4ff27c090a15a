/** Claims and headers of the internal assertion: what the printer accepts and that the
    reader gives back exactly what was printed. */
module AssertionClaims {
  import opened Text
  import opened AssertionJson
  import opened Base64Url

  datatype Claims = Claims(
    issuer: string,
    subject: string,
    audience: string,
    capabilities: seq<string>,
    purpose: string,
    issuedAt: Int64,
    expiresAt: Int64,
    jti: string,
    requestId: string)

  predicate KidChar(c: char) { IsAlnum(c) || c == '.' || c == '_' || c == '-' }

  predicate ValidKid(s: string) {
    0 < |s| <= 64 && forall i :: 0 <= i < |s| ==> KidChar(s[i])
  }

  predicate TokenChar(c: char) { KidChar(c) || c == ':' }

  predicate ValidToken(s: string, minimum: nat, maximum: nat) {
    minimum <= |s| <= maximum && forall i :: 0 <= i < |s| ==> TokenChar(s[i])
  }

  predicate IsLower(c: char) { 'a' <= c <= 'z' }

  /** The scan over a capability: dots seen so far, and whether a segment is about to start. */
  predicate CapabilityFrom(s: string, dots: nat, segmentStart: bool) {
    if s == [] then dots == 2 && !segmentStart
    else if s[0] == '.' then !segmentStart && CapabilityFrom(s[1..], dots + 1, true)
    else if segmentStart && !IsLower(s[0]) then false
    else if !IsLower(s[0]) && !IsDigit(s[0]) && s[0] != '_' then false
    else CapabilityFrom(s[1..], dots, false)
  }

  predicate ValidCapability(s: string) {
    0 < |s| <= 120 && CapabilityFrom(s, 0, true)
  }

  predicate ValidClaims(c: Claims) {
    && c.issuer == "sisterd"
    && ValidToken(c.subject, 1, 120) && ValidToken(c.audience, 3, 64)
    && ValidToken(c.purpose, 3, 120) && ValidToken(c.jti, 16, 120) && ValidToken(c.requestId, 16, 128)
    && 0 < |c.capabilities| <= 8
    && c.issuedAt >= 0 && c.expiresAt > c.issuedAt
    && forall i :: 0 <= i < |c.capabilities| ==> ValidCapability(c.capabilities[i])
  }

  function ClaimFields(c: Claims): seq<Field> {
    [Field("iss", Str(c.issuer)), Field("sub", Str(c.subject)), Field("aud", Str(c.audience)),
     Field("capabilities", List(c.capabilities)), Field("purpose", Str(c.purpose)),
     Field("iat", Int(c.issuedAt)), Field("exp", Int(c.expiresAt)),
     Field("jti", Str(c.jti)), Field("request_id", Str(c.requestId))]
  }

  const CLAIM_SCHEMA: Schema := [
    Entry("iss", StrKind), Entry("sub", StrKind), Entry("aud", StrKind), Entry("capabilities", ListKind),
    Entry("purpose", StrKind), Entry("iat", IntKind), Entry("exp", IntKind),
    Entry("jti", StrKind), Entry("request_id", StrKind)]

  /** serializeClaims: None where it throws. */
  function SerializeClaims(c: Claims): Option<string> {
    if ValidClaims(c) then Some(PrintObject(ClaimFields(c))) else None
  }

  /** The value read for the entry at `i` of the schema. */
  function At(schema: Schema, f: Fields, i: nat): (v: Value)
    requires i < |schema| && DistinctNames(schema) && WellTyped(schema, f) && Complete(schema, f)
    ensures KindOf(v) == schema[i].kind
  {
    LookupAt(schema, i);
    f[schema[i].name]
  }

  function FromFields(f: Fields): Claims
    requires WellTyped(CLAIM_SCHEMA, f) && Complete(CLAIM_SCHEMA, f)
  {
    ClaimNamesDistinct();
    var at := (i: nat) requires i < 9 => At(CLAIM_SCHEMA, f, i);
    Claims(at(0).text, at(1).text, at(2).text, at(3).items, at(4).text,
           at(5).number, at(6).number, at(7).text, at(8).text)
  }

  /** parseClaims: None where it throws. */
  function ParseClaims(text: string): (r: Option<Claims>)
    ensures r.Some? ==> ValidClaims(r.value)
  {
    var fields :- ReadObject(CLAIM_SCHEMA, text);
    var claims := FromFields(fields);
    if SerializeClaims(claims).Some? then Some(claims) else None
  }

  const HEADER_SCHEMA: Schema := [Entry("alg", StrKind), Entry("typ", StrKind), Entry("kid", StrKind)]

  function HeaderFields(kid: string): seq<Field> {
    [Field("alg", Str("EdDSA")), Field("typ", Str("sister-internal+jwt")), Field("kid", Str(kid))]
  }

  /** The header text sign() builds. */
  function HeaderText(kid: string): string { PrintObject(HeaderFields(kid)) }

  /** parseHeader, reduced to the key id it yields: None where it throws. */
  function ParseHeader(text: string): Option<string> {
    var f :- ReadObject(HEADER_SCHEMA, text);
    HeaderNamesDistinct();
    var alg, typ, kid := At(HEADER_SCHEMA, f, 0).text, At(HEADER_SCHEMA, f, 1).text, At(HEADER_SCHEMA, f, 2).text;
    if alg == "EdDSA" && typ == "sister-internal+jwt" && ValidKid(kid) then Some(kid) else None
  }

  lemma ClaimNamesDistinct()
    ensures DistinctNames(CLAIM_SCHEMA)
  {
    var s := CLAIM_SCHEMA;
    assert s[0].name[1] == 's' && s[5].name[1] == 'a';
    assert s[0].name[0] == 'i' && s[1].name[0] == 's' && s[2].name[0] == 'a' && s[3].name[0] == 'c'
        && s[4].name[0] == 'p' && s[5].name[0] == 'i' && s[6].name[0] == 'e' && s[7].name[0] == 'j'
        && s[8].name[0] == 'r';
  }

  lemma HeaderNamesDistinct()
    ensures DistinctNames(HEADER_SCHEMA)
  {
    var s := HEADER_SCHEMA;
    assert s[0].name[0] == 'a' && s[1].name[0] == 't' && s[2].name[0] == 'k';
  }

  // ---- Plain text needs no escapes ----

  predicate PlainChar(c: char) { ' ' <= c <= '~' && c != '"' && c != '\\' }

  predicate Plain(s: string) { forall i :: 0 <= i < |s| ==> PlainChar(s[i]) }

  lemma {:induction false} PlainEscape(s: string)
    requires Plain(s)
    ensures Escape(s) == s && Escapable(s)
  {
    if s != [] {
      PlainEscape(s[1..]);
      assert EscapeChar(s[0]) == [s[0]];
      assert s == [s[0]] + s[1..];
    }
  }

  lemma {:induction false} CapabilityIsPlain(s: string, dots: nat, segmentStart: bool)
    requires CapabilityFrom(s, dots, segmentStart)
    ensures Plain(s)
  {
    if s != [] {
      CapabilityIsPlain(s[1..], if s[0] == '.' then dots + 1 else dots, s[0] == '.');
      assert s == [s[0]] + s[1..];
    }
  }

  // ---- Printed claims and headers read back ----

  lemma TokenIsPlain(s: string, minimum: nat, maximum: nat)
    requires ValidToken(s, minimum, maximum)
    ensures Plain(s) && Escapable(s) && Escape(s) == s
  {
    PlainEscape(s);
  }

  lemma IssuerIsPlain()
    ensures Escapable("sisterd") && Escape("sisterd") == "sisterd"
  {
    PlainEscape("sisterd");
  }

  lemma CapabilitiesArePlain(caps: seq<string>)
    requires forall i :: 0 <= i < |caps| ==> ValidCapability(caps[i])
    ensures forall i :: 0 <= i < |caps| ==> Escapable(caps[i]) && Escape(caps[i]) == caps[i]
  {
    forall i | 0 <= i < |caps| ensures Escapable(caps[i]) && Escape(caps[i]) == caps[i] {
      CapabilityIsPlain(caps[i], 0, true);
      PlainEscape(caps[i]);
    }
  }

  /** Names of the schemas are lower-case letters and '_'. */
  lemma NamesAreEscapable()
    ensures forall i :: 0 <= i < |CLAIM_SCHEMA| ==> Escapable(CLAIM_SCHEMA[i].name)
    ensures forall i :: 0 <= i < |HEADER_SCHEMA| ==> Escapable(HEADER_SCHEMA[i].name)
  {
  }

  lemma ClaimsFollow(c: Claims)
    requires ValidClaims(c)
    ensures Follows(CLAIM_SCHEMA, ClaimFields(c))
  {
    NamesAreEscapable();
    ClaimValuesPrintable(c);
    hide ValidClaims, Escapable, Printable;
    var s, fs := CLAIM_SCHEMA, ClaimFields(c);
    forall i | 0 <= i < |fs| ensures EntryMatches(s[i], fs[i]) {
      assert Printable(fs[i].value);
      assert Escapable(s[i].name);
    }
  }

  lemma ClaimValuesPrintable(c: Claims)
    requires ValidClaims(c)
    ensures var fs := ClaimFields(c); forall i :: 0 <= i < |fs| ==> Printable(fs[i].value)
  {
    hide Escapable, Escape, Plain, ValidToken, ValidCapability;
    IssuerIsPlain();
    TokenIsPlain(c.subject, 1, 120);
    TokenIsPlain(c.audience, 3, 64);
    TokenIsPlain(c.purpose, 3, 120);
    TokenIsPlain(c.jti, 16, 120);
    TokenIsPlain(c.requestId, 16, 128);
    CapabilitiesArePlain(c.capabilities);
    assert Printable(List(c.capabilities));
  }

  /** Whatever the printer accepts the reader returns unchanged. */
  lemma ParseSerialize(c: Claims)
    requires ValidClaims(c)
    ensures ParseClaims(SerializeClaims(c).value) == Some(c)
  {
    ClaimsFollow(c);
    ClaimNamesDistinct();
    ReadPrintedObject(CLAIM_SCHEMA, ClaimFields(c));
    hide ReadObject, PrintObject, ValidClaims, Follows;
    var f := ReadObject(CLAIM_SCHEMA, PrintObject(ClaimFields(c))).value;
    assert FromFields(f) == c;
  }

  lemma ParseHeaderText(kid: string)
    requires ValidKid(kid)
    ensures ParseHeader(HeaderText(kid)) == Some(kid)
  {
    HeaderFollows(kid);
    HeaderNamesDistinct();
    ReadPrintedObject(HEADER_SCHEMA, HeaderFields(kid));
    hide ReadObject, PrintObject, Follows;
  }

  lemma HeaderFollows(kid: string)
    requires ValidKid(kid)
    ensures Follows(HEADER_SCHEMA, HeaderFields(kid))
  {
    hide ValidKid;
    hide Escapable, Plain, Escape;
    NamesAreEscapable();
    KidIsEscapable(kid);
    HeaderLiteralsEscapable();
  }

  lemma KidIsEscapable(kid: string)
    requires ValidKid(kid)
    ensures Escapable(kid)
  {
    PlainEscape(kid);
  }

  lemma HeaderLiteralsEscapable()
    ensures Escapable("EdDSA") && Escapable("sister-internal+jwt")
  {
  }

  // ---- What a capability is ----

  predicate SegmentChar(c: char) { IsLower(c) || IsDigit(c) || c == '_' }

  predicate SegmentChars(s: string) { forall i :: 0 <= i < |s| ==> SegmentChar(s[i]) }

  /** A small letter followed by small letters, digits and '_'. */
  predicate Segment(s: string) { s != "" && IsLower(s[0]) && SegmentChars(s) }

  predicate EndsSegment(rest: string) { rest == "" || rest[0] == '.' }

  lemma {:induction false} ScanPasses(s: string, rest: string, dots: nat)
    requires SegmentChars(s)
    ensures CapabilityFrom(s + rest, dots, false) == CapabilityFrom(rest, dots, false)
  {
    if s == "" {
      assert s + rest == rest;
    } else {
      assert (s + rest)[1..] == s[1..] + rest;
      assert SegmentChar(s[0]);
      ScanPasses(s[1..], rest, dots);
    }
  }

  lemma ScanSegment(s: string, rest: string, dots: nat)
    requires Segment(s)
    ensures CapabilityFrom(s + rest, dots, true) == CapabilityFrom(rest, dots, false)
  {
    assert (s + rest)[1..] == s[1..] + rest;
    ScanPasses(s[1..], rest, dots);
  }

  lemma {:induction false} CharsAtFront(s: string, dots: nat) returns (x: string, rest: string)
    requires CapabilityFrom(s, dots, false)
    ensures SegmentChars(x) && s == x + rest && EndsSegment(rest)
  {
    if EndsSegment(s) {
      x, rest := "", s;
    } else {
      var y;
      y, rest := CharsAtFront(s[1..], dots);
      x := [s[0]] + y;
    }
  }

  lemma SegmentAtFront(s: string, dots: nat) returns (x: string, rest: string)
    requires CapabilityFrom(s, dots, true)
    ensures Segment(x) && s == x + rest && EndsSegment(rest) && CapabilityFrom(rest, dots, false)
  {
    var y;
    y, rest := CharsAtFront(s[1..], dots);
    x := [s[0]] + y;
    ScanSegment(x, rest, dots);
  }

  lemma DotThen(rest: string, dots: nat)
    ensures CapabilityFrom(['.'] + rest, dots, false) == CapabilityFrom(rest, dots + 1, true)
  {
    assert (['.'] + rest)[1..] == rest;
  }

  predicate ThreeSegments(s: string, a: string, b: string, c: string) {
    Segment(a) && Segment(b) && Segment(c) && s == a + (['.'] + (b + (['.'] + c)))
  }

  /** The scan accepts exactly three segments with dots between them. */
  lemma CapabilityIff(s: string)
    ensures CapabilityFrom(s, 0, true) <==> exists a, b, c :: ThreeSegments(s, a, b, c)
  {
    hide Segment;
    if a, b, c :| ThreeSegments(s, a, b, c) {
      var tail := ['.'] + c;
      var middle := ['.'] + (b + tail);
      ScanSegment(a, middle, 0);
      DotThen(b + tail, 0);
      ScanSegment(b, tail, 1);
      DotThen(c, 1);
      assert c + "" == c;
      ScanSegment(c, "", 2);
    }
    if CapabilityFrom(s, 0, true) {
      var a, r := SegmentAtFront(s, 0);
      assert r == ['.'] + r[1..];
      DotThen(r[1..], 0);
      var b, q := SegmentAtFront(r[1..], 1);
      assert q == ['.'] + q[1..];
      DotThen(q[1..], 1);
      var c, e := SegmentAtFront(q[1..], 2);
      if e != "" {
        assert e == ['.'] + e[1..];
        DotThen(e[1..], 2);
        TooManyDots(e[1..], 3, true);
        assert false;
      }
      assert c + e == c;
      assert ThreeSegments(s, a, b, c);
    }
  }

  lemma {:induction false} TooManyDots(s: string, dots: nat, segmentStart: bool)
    requires dots > 2
    ensures !CapabilityFrom(s, dots, segmentStart)
  {
    if s != "" { TooManyDots(s[1..], if s[0] == '.' then dots + 1 else dots, s[0] == '.'); }
  }

  // ---- What is read, by name ----

  predicate Has(f: Fields, name: string, v: Value) { name in f && f[name] == v }

  /** Nine fields under their own names. */
  predicate HoldsClaims(f: Fields, c: Claims) {
    && Has(f, "iss", Str(c.issuer)) && Has(f, "sub", Str(c.subject)) && Has(f, "aud", Str(c.audience))
    && Has(f, "capabilities", List(c.capabilities)) && Has(f, "purpose", Str(c.purpose))
    && Has(f, "iat", Int(c.issuedAt)) && Has(f, "exp", Int(c.expiresAt))
    && Has(f, "jti", Str(c.jti)) && Has(f, "request_id", Str(c.requestId))
  }

  lemma FieldsAreClaims(f: Fields, c: Claims)
    requires WellTyped(CLAIM_SCHEMA, f) && Complete(CLAIM_SCHEMA, f)
    ensures FromFields(f) == c <==> HoldsClaims(f, c)
  {
    ClaimNamesDistinct();
    hide DistinctNames, WellTyped, Complete;
    var s := CLAIM_SCHEMA;
    forall i: nat | i < 9 ensures Has(f, s[i].name, At(s, f, i)) && KindOf(At(s, f, i)) == s[i].kind {
      AtIs(s, f, i);
    }
  }

  lemma AtIs(schema: Schema, f: Fields, i: nat)
    requires i < |schema| && DistinctNames(schema) && WellTyped(schema, f) && Complete(schema, f)
    ensures Has(f, schema[i].name, At(schema, f, i))
  {
  }

  /** The claims read from a text are the values under the nine names, whatever their order. */
  lemma ParseClaimsIff(text: string, c: Claims)
    ensures ParseClaims(text) == Some(c) <==>
            ValidClaims(c) && ReadObject(CLAIM_SCHEMA, text).Some? && HoldsClaims(ReadObject(CLAIM_SCHEMA, text).value, c)
  {
    hide ReadObject, ValidClaims, HoldsClaims, FromFields, PrintObject;
    if ReadObject(CLAIM_SCHEMA, text).Some? {
      var f := ReadObject(CLAIM_SCHEMA, text).value;
      FieldsAreClaims(f, c);
    }
  }

  /** A header is accepted for its algorithm, type and key id by name. */
  lemma ParseHeaderIff(text: string, kid: string)
    ensures ParseHeader(text) == Some(kid) <==>
            && ValidKid(kid) && ReadObject(HEADER_SCHEMA, text).Some?
            && var f := ReadObject(HEADER_SCHEMA, text).value;
               Has(f, "alg", Str("EdDSA")) && Has(f, "typ", Str("sister-internal+jwt")) && Has(f, "kid", Str(kid))
  {
    hide ReadObject, ValidKid;
    if ReadObject(HEADER_SCHEMA, text).Some? {
      var s, f := HEADER_SCHEMA, ReadObject(HEADER_SCHEMA, text).value;
      HeaderNamesDistinct();
      hide DistinctNames, WellTyped, Complete;
      forall i: nat | i < 3 ensures Has(f, s[i].name, At(s, f, i)) && At(s, f, i).Str? {
        AtIs(s, f, i);
      }
    }
  }

  // ---- Printed text is bytes, and short ----

  lemma {:induction false} EscapeIsBytes(s: string)
    requires Escapable(s)
    ensures IsBytes(Escape(s)) && |Escape(s)| <= 2 * |s|
  {
    if s != [] {
      EscapeIsBytes(s[1..]);
      assert s[0] as int < 256;
    }
  }

  lemma {:induction false} DecimalIsBytes(n: nat)
    ensures IsBytes(Decimal(n))
  {
    DecimalRoundTrip(n);
    var d := Decimal(n);
    forall i | 0 <= i < |d| ensures d[i] as int < 256 { assert IsDigit(d[i]); }
  }

  lemma {:induction false} ItemsAreBytes(items: seq<string>, first: bool)
    requires forall i :: 0 <= i < |items| ==> Escapable(items[i])
    ensures IsBytes(PrintItems(items, first))
  {
    if items != [] {
      ItemsAreBytes(items[1..], false);
      EscapeIsBytes(items[0]);
    }
  }

  lemma StringIsBytes(s: string)
    requires Escapable(s)
    ensures IsBytes(PrintString(s))
  {
    EscapeIsBytes(s);
    hide Escape;
  }

  lemma ValueIsBytes(v: Value)
    requires Printable(v)
    ensures IsBytes(PrintValue(v))
  {
    hide Escapable, PrintItems, PrintString, Decimal;
    match v
    case Str(s) => StringIsBytes(s);
    case Int(n) => DecimalIsBytes(if n < 0 then -(n as int) else n);
    case List(items) => ItemsAreBytes(items, true);
  }

  lemma FieldIsBytes(f: Field)
    requires Escapable(f.name) && Printable(f.value)
    ensures IsBytes(PrintField(f))
  {
    hide Escapable, PrintString, PrintValue;
    StringIsBytes(f.name);
    ValueIsBytes(f.value);
  }

  lemma {:induction false} FieldsAreBytes(fs: seq<Field>, first: bool)
    requires forall i :: 0 <= i < |fs| ==> Escapable(fs[i].name) && Printable(fs[i].value)
    ensures IsBytes(PrintFields(fs, first))
  {
    if fs != [] {
      FieldsAreBytes(fs[1..], false);
      FieldIsBytes(fs[0]);
    }
  }

  lemma ObjectIsBytes(schema: Schema, fs: seq<Field>)
    requires Follows(schema, fs)
    ensures IsBytes(PrintObject(fs))
  {
    hide Escapable, Printable, PrintFields;
    forall i | 0 <= i < |fs| ensures Escapable(fs[i].name) && Printable(fs[i].value) {
      assert EntryMatches(schema[i], fs[i]);
    }
    FieldsAreBytes(fs, true);
  }

  lemma {:induction false} FieldsLength(fs: seq<Field>, first: bool, m: nat)
    requires forall i :: 0 <= i < |fs| ==> |PrintField(fs[i])| <= m
    ensures |PrintFields(fs, first)| <= |fs| * (m + 1)
  {
    hide PrintField;
    if fs != [] {
      hide PrintFields;
      FieldsLength(fs[1..], false, m);
      FirstFieldLength(fs, first);
      MulStep(|fs|, m + 1);
    }
  }

  lemma FirstFieldLength(fs: seq<Field>, first: bool)
    requires fs != []
    ensures |PrintFields(fs, first)| <= |PrintField(fs[0])| + 1 + |PrintFields(fs[1..], false)|
  {
    hide PrintField;
  }

  lemma MulStep(n: nat, m: nat)
    requires n > 0
    ensures n * m == (n - 1) * m + m
  {
  }

  lemma {:induction false} ItemsLength(items: seq<string>, first: bool)
    requires forall i :: 0 <= i < |items| ==> |Escape(items[i])| <= 120
    ensures |PrintItems(items, first)| <= 123 * |items|
  {
    if items != [] { ItemsLength(items[1..], false); }
  }

  lemma IntLength(n: Int64)
    requires n >= 0
    ensures |PrintInt(n)| <= 19
  {
    assert Pow10(19) == 10_000_000_000_000_000_000 by {
      assert Pow10(5) == 100_000;
      assert Pow10(10) == 10_000_000_000;
      assert Pow10(15) == 1_000_000_000_000_000;
    }
    assert InInt64(n);
    DecimalLength(n, 19);
  }

  /** Valid claims print to fewer than 10000 bytes. */
  lemma PayloadLength(c: Claims)
    requires ValidClaims(c)
    ensures |PrintObject(ClaimFields(c))| < 10_000
  {
    hide Escapable, Escape, Plain, PrintItems, PrintInt, ValidCapability;
    var fs := ClaimFields(c);
    IssuerIsPlain();
    TokenIsPlain(c.subject, 1, 120);
    TokenIsPlain(c.audience, 3, 64);
    TokenIsPlain(c.purpose, 3, 120);
    TokenIsPlain(c.jti, 16, 120);
    TokenIsPlain(c.requestId, 16, 128);
    CapabilitiesArePlain(c.capabilities);
    CapabilityLengths(c.capabilities);
    ItemsLength(c.capabilities, true);
    IntLength(c.issuedAt);
    IntLength(c.expiresAt);
    NamesAreEscapable();
    forall i | 0 <= i < |fs| ensures |PrintField(fs[i])| <= 1050 {
      assert fs[i].name == CLAIM_SCHEMA[i].name && |fs[i].name| <= 12;
      EscapeIsBytes(fs[i].name);
      assert |PrintValue(fs[i].value)| <= 1000;
    }
    FieldsLength(fs, true, 1050);
  }

  lemma CapabilityLengths(caps: seq<string>)
    requires forall i :: 0 <= i < |caps| ==> ValidCapability(caps[i])
    ensures forall i :: 0 <= i < |caps| ==> |caps[i]| <= 120
  {
  }

  lemma HeaderLength(kid: string)
    requires ValidKid(kid)
    ensures |HeaderText(kid)| < 450
  {
    hide Escapable, Escape, Plain;
    var fs := HeaderFields(kid);
    HeaderFollows(kid);
    assert |"EdDSA"| == 5 && |"sister-internal+jwt"| == 19;
    forall i | 0 <= i < |fs| ensures |PrintField(fs[i])| <= 2 * 3 + 2 * 64 + 5 {
      assert EntryMatches(HEADER_SCHEMA[i], fs[i]);
      EscapeIsBytes(fs[i].name);
      EscapeIsBytes(fs[i].value.text);
    }
    FieldsLength(fs, true, 2 * 3 + 2 * 64 + 5);
  }
}
