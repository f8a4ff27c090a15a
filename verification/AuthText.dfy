/** Field normalisation and validation of the account store. */
module AuthText {

  predicate Blank(c: char) { c == ' ' || c == '\t' || c == '\n' || c == '\r' }

  predicate AllBlank(s: string) { forall i :: 0 <= i < |s| ==> Blank(s[i]) }

  predicate NoBlankEnds(s: string) { s != "" ==> !Blank(s[0]) && !Blank(s[|s| - 1]) }

  function TrimLeft(s: string): (r: string)
    ensures r != "" ==> !Blank(r[0])
    ensures |r| <= |s| && r == s[|s| - |r|..] && AllBlank(s[..|s| - |r|])
  {
    if s != "" && Blank(s[0]) then
      var r := TrimLeft(s[1..]);
      assert s[..|s| - |r|] == [s[0]] + s[1..][..|s| - 1 - |r|];
      r
    else
      assert s[|s| - |s|..] == s;
      s
  }

  function TrimRight(s: string): (r: string)
    ensures r != "" ==> !Blank(r[|r| - 1])
    ensures r <= s && AllBlank(s[|r|..])
  {
    if s != "" && Blank(s[|s| - 1]) then
      var r := TrimRight(s[..|s| - 1]);
      assert s[|r|..] == s[..|s| - 1][|r|..] + [s[|s| - 1]];
      r
    else
      s
  }

  function Trim(s: string): (r: string)
    ensures NoBlankEnds(r)
  {
    TrimRight(TrimLeft(s))
  }

  /** Trimming removes blanks from the ends and nothing else. */
  lemma TrimRemovesBlanks(s: string) returns (before: string, after: string)
    ensures s == before + Trim(s) + after
    ensures AllBlank(before) && AllBlank(after)
  {
    hide TrimLeft, TrimRight;
    var left := TrimLeft(s);
    before := s[..|s| - |left|];
    after := left[|Trim(s)|..];
    assert left == Trim(s) + after;
    assert s == before + left;
  }

  function Lower(c: char): char {
    if 'A' <= c <= 'Z' then (c as int + 32) as char else c
  }

  function LowerAll(s: string): (r: string)
    ensures |r| == |s| && forall i :: 0 <= i < |s| ==> r[i] == Lower(s[i])
  {
    seq(|s|, i requires 0 <= i < |s| => Lower(s[i]))
  }

  function NormalizeEmail(email: string): string { LowerAll(Trim(email)) }

  predicate NoUpper(s: string) { forall i :: 0 <= i < |s| ==> !('A' <= s[i] <= 'Z') }

  lemma TrimFixes(s: string)
    requires NoBlankEnds(s)
    ensures Trim(s) == s
  {
    assert TrimLeft(s) == s;
  }

  /** Every normalised address is a fixed point, and only addresses without capitals and
      without blank ends are. */
  lemma NormalizeFixedPoints(email: string)
    ensures NormalizeEmail(NormalizeEmail(email)) == NormalizeEmail(email)
    ensures NormalizeEmail(email) == email <==> NoUpper(email) && NoBlankEnds(email)
  {
    hide Trim;
    NormalizedShape(email);
    var once := NormalizeEmail(email);
    LowerFixes(once);
    TrimFixes(once);
    if NoUpper(email) && NoBlankEnds(email) {
      LowerFixes(email);
      TrimFixes(email);
    }
  }

  lemma NormalizedShape(email: string)
    ensures NoUpper(NormalizeEmail(email)) && NoBlankEnds(NormalizeEmail(email))
  {
    hide Trim;
    var trimmed := Trim(email);
    forall c: char ensures Blank(Lower(c)) == Blank(c) {}
  }

  lemma LowerFixes(s: string)
    requires NoUpper(s)
    ensures LowerAll(s) == s
  {
  }

  /** A capital and its small letter. */
  predicate CaseOf(upper: char, lower: char) { 'A' <= upper <= 'Z' && lower as int == upper as int + 32 }

  predicate SameButCase(a: string, b: string) {
    |a| == |b| && forall i :: 0 <= i < |a| ==> a[i] == b[i] || CaseOf(a[i], b[i]) || CaseOf(b[i], a[i])
  }

  lemma {:induction false} TrimLeftOf(blanks: string, core: string)
    requires AllBlank(blanks) && (core != "" ==> !Blank(core[0]))
    ensures TrimLeft(blanks + core) == core
  {
    if blanks == "" {
      assert blanks + core == core;
    } else {
      assert (blanks + core)[1..] == blanks[1..] + core;
      TrimLeftOf(blanks[1..], core);
    }
  }

  lemma {:induction false} TrimRightOf(core: string, blanks: string)
    requires AllBlank(blanks) && (core != "" ==> !Blank(core[|core| - 1]))
    ensures TrimRight(core + blanks) == core
  {
    if blanks == "" {
      assert core + blanks == core;
    } else {
      var n := |blanks| - 1;
      assert (core + blanks)[..|core| + n] == core + blanks[..n];
      TrimRightOf(core, blanks[..n]);
    }
  }

  lemma TrimOf(before: string, core: string, after: string)
    requires AllBlank(before) && AllBlank(after) && NoBlankEnds(core)
    ensures Trim(before + core + after) == core
  {
    hide TrimLeft, TrimRight;
    if core == "" {
      TrimLeftOf(before + after, "");
      assert before + core + after == (before + after) + "";
      TrimRightOf("", "");
    } else {
      TrimLeftOf(before, core + after);
      assert before + core + after == before + (core + after);
      TrimRightOf(core, after);
    }
  }

  /** The normalised address is the small-letter spelling of what stands between the blanks. */
  lemma NormalizeIs(before: string, core: string, after: string)
    requires AllBlank(before) && AllBlank(after) && NoBlankEnds(core)
    ensures var r := NormalizeEmail(before + core + after); SameButCase(core, r) && NoUpper(r)
  {
    hide Trim;
    TrimOf(before, core, after);
    NormalizedShape(before + core + after);
  }

  /** Two addresses are the same account's exactly when, blanks around them apart, they differ
      in the case of letters alone. */
  lemma SameAddressIff(a: string, b: string)
    ensures NormalizeEmail(a) == NormalizeEmail(b) <==> SameButCase(Trim(a), Trim(b))
  {
    hide Trim;
    LowerSameIff(Trim(a), Trim(b));
  }

  lemma LowerSameIff(a: string, b: string)
    ensures LowerAll(a) == LowerAll(b) <==> SameButCase(a, b)
  {
    forall c: char, d: char ensures Lower(c) == Lower(d) <==> c == d || CaseOf(c, d) || CaseOf(d, c) {
      LowerSame(c, d);
    }
    hide Lower, CaseOf;
    if LowerAll(a) == LowerAll(b) {
      forall i | 0 <= i < |a| ensures Lower(a[i]) == Lower(b[i]) { assert LowerAll(a)[i] == LowerAll(b)[i]; }
    }
  }

  lemma LowerSame(c: char, d: char)
    ensures Lower(c) == Lower(d) <==> c == d || CaseOf(c, d) || CaseOf(d, c)
  {
  }

  /** A field that survives a tab-separated line. */
  predicate ValidField(s: string) {
    s != "" && '\t' !in s && '\n' !in s && '\r' !in s
  }

  predicate LowerHex(c: char) { '0' <= c <= '9' || 'a' <= c <= 'f' }

  predicate HexText(s: string, n: nat) {
    |s| == n && forall i :: 0 <= i < n ==> LowerHex(s[i])
  }

  /** A SHA-256 or PBKDF2 output in hexadecimal. */
  predicate IsHash(s: string) { HexText(s, 64) }

  predicate ValidUuid(s: string) {
    && |s| == 36
    && s[8] == '-' && s[13] == '-' && s[18] == '-' && s[23] == '-'
    && '1' <= s[14] <= '5'
    && (s[19] == '8' || s[19] == '9' || s[19] == 'a' || s[19] == 'b')
    && forall i :: 0 <= i < 36 && i != 8 && i != 13 && i != 18 && i != 23 ==> LowerHex(s[i])
  }

  predicate ValidRole(role: string) {
    || role == "admin" || role == "user" || role == "registered_user"
    || role == "researcher" || role == "project_lead" || role == "guest"
  }

  lemma UuidIsField(s: string)
    requires ValidUuid(s)
    ensures ValidField(s)
  {
    forall c | c in s ensures LowerHex(c) || c == '-' {}
  }

  lemma RoleIsField(s: string)
    requires ValidRole(s)
    ensures ValidField(s)
  {
  }

  lemma HexIsField(s: string, n: nat)
    requires n > 0 && HexText(s, n)
    ensures ValidField(s)
  {
    forall c | c in s ensures LowerHex(c) {}
  }
}
