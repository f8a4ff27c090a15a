/** Participation proposals: duplicate capability identifiers found by sorting. */
module Participation {

  datatype Capability = Capability(
    id: string, purpose: string, inputSchema: string, outputSchema: string,
    preconditions: seq<string>, risks: seq<string>, responsibleRole: string, reflexivityProfile: string)

  datatype Contribution = Contribution(
    typeId: string, purpose: string, validityPolicy: string, uncertaintyPolicy: string, restrictions: seq<string>)

  datatype Authority = Authority(
    origin: string, production: string, custody: string, interpretation: string, decision: string, consumption: string)

  datatype Draft = Draft(
    id: string, participantSystemId: string, purpose: string, owner: string,
    entryConditions: string, suspensionConditions: string, exitConditions: string,
    capabilities: seq<Capability>, contributions: seq<Contribution>, authority: Authority)

  datatype Result = Contract(draft: Draft) | RequiredField | EmptyOffer | InvalidCapability | DuplicateCapability | IncompleteAuthority

  // ----- the order std::string compares by -----

  predicate Below(a: string, b: string) {
    a == "" || (b != "" && (a[0] < b[0] || (a[0] == b[0] && Below(a[1..], b[1..]))))
  }

  lemma {:induction false} BelowTotal(a: string, b: string)
    ensures Below(a, b) || Below(b, a)
    ensures Below(a, b) && Below(b, a) ==> a == b
  {
    if a != "" && b != "" && a[0] == b[0] {
      BelowTotal(a[1..], b[1..]);
      assert a == [a[0]] + a[1..] && b == [b[0]] + b[1..];
    }
  }

  lemma {:induction false} BelowTransitive(a: string, b: string, c: string)
    requires Below(a, b) && Below(b, c)
    ensures Below(a, c)
  {
    if a != "" && a[0] == b[0] && b[0] == c[0] {
      BelowTransitive(a[1..], b[1..], c[1..]);
    }
  }

  predicate Sorted(s: seq<string>) { forall i, j :: 0 <= i < j < |s| ==> Below(s[i], s[j]) }

  predicate Distinct(s: seq<string>) { forall i, j :: 0 <= i < j < |s| ==> s[i] != s[j] }

  // ----- sorting -----

  lemma BelowAll(x: string, s: seq<string>)
    requires Sorted(s) && s != [] && Below(x, s[0])
    ensures Sorted([x] + s)
  {
    forall i | 0 < i < |s| ensures Below(x, s[i]) { BelowTransitive(x, s[0], s[i]); }
  }

  lemma HeadStaysFirst(head: string, x: string, tail: seq<string>, rest: seq<string>)
    requires Sorted([head] + tail) && Sorted(rest) && multiset(rest) == multiset(tail) + multiset{x} && Below(head, x)
    ensures Sorted([head] + rest)
  {
    forall i | 0 <= i < |rest| ensures Below(head, rest[i]) {
      assert rest[i] in multiset(rest);
      if rest[i] != x {
        assert rest[i] in tail;
        var k :| 0 <= k < |tail| && tail[k] == rest[i];
        var all := [head] + tail;
        assert Below(all[0], all[k + 1]);
      }
    }
  }

  function Insert(x: string, s: seq<string>): (r: seq<string>)
    requires Sorted(s)
    ensures Sorted(r) && multiset(r) == multiset(s) + multiset{x}
  {
    if s == [] then [x]
    else if Below(x, s[0]) then
      BelowAll(x, s);
      [x] + s
    else
      var rest := Insert(x, s[1..]);
      assert s == [s[0]] + s[1..];
      BelowTotal(x, s[0]);
      HeadStaysFirst(s[0], x, s[1..], rest);
      [s[0]] + rest
  }

  /** The contract of std::ranges::sort. */
  function Sort(s: seq<string>): (r: seq<string>)
    ensures Sorted(r) && multiset(r) == multiset(s)
  {
    if s == [] then []
    else
      assert s == [s[0]] + s[1..];
      Insert(s[0], Sort(s[1..]))
  }

  // ----- duplicates -----

  predicate AdjacentEqual(s: seq<string>) { exists i :: 0 <= i < |s| - 1 && s[i] == s[i + 1] }

  /** On sorted text, equal neighbours are the only way to repeat. */
  lemma SortedRepeatsAdjacently(s: seq<string>)
    requires Sorted(s)
    ensures AdjacentEqual(s) <==> !Distinct(s)
  {
    if !Distinct(s) {
      var i, j :| 0 <= i < j < |s| && s[i] == s[j];
      if i + 1 < j {
        assert Below(s[i], s[i + 1]) && Below(s[i + 1], s[j]);
        BelowTotal(s[i], s[i + 1]);
      }
    }
  }

  lemma {:induction false} DistinctCounts(s: seq<string>)
    ensures Distinct(s) <==> forall x :: multiset(s)[x] <= 1
  {
    if s != [] {
      var rest := s[1..];
      assert s == [s[0]] + rest;
      DistinctCounts(rest);
      if s[0] in rest {
        var k :| 0 <= k < |rest| && rest[k] == s[0];
        assert s[k + 1] == s[0];
        assert multiset(s)[s[0]] >= 2;
      } else if Distinct(rest) {
        assert forall j :: 0 < j < |s| ==> s[j] == rest[j - 1];
      } else {
        var i, j :| 0 <= i < j < |rest| && rest[i] == rest[j];
        assert s[i + 1] == s[j + 1];
        var x :| multiset(rest)[x] > 1;
        assert multiset(s)[x] > 1;
      }
    }
  }

  /** Sorting and comparing neighbours finds a duplicate exactly when there is one. */
  lemma SortFindsDuplicates(s: seq<string>)
    ensures AdjacentEqual(Sort(s)) <==> !Distinct(s)
  {
    SortedRepeatsAdjacently(Sort(s));
    DistinctCounts(s);
    DistinctCounts(Sort(s));
  }

  // ----- proposals -----

  predicate Complete(c: Capability) {
    && c.id != "" && c.purpose != "" && c.inputSchema != "" && c.outputSchema != ""
    && c.responsibleRole != "" && c.reflexivityProfile == "D2/A1/shadow"
  }

  predicate CompleteAuthority(a: Authority) {
    a.origin != "" && a.production != "" && a.custody != "" && a.interpretation != "" && a.decision != "" && a.consumption != ""
  }

  predicate RequiredPresent(d: Draft) {
    && d.id != "" && d.participantSystemId != "" && d.purpose != "" && d.owner != ""
    && d.entryConditions != "" && d.suspensionConditions != "" && d.exitConditions != ""
  }

  predicate AllComplete(cs: seq<Capability>) { forall i :: 0 <= i < |cs| ==> Complete(cs[i]) }

  /** No two capabilities share an identifier. */
  predicate DistinctIds(cs: seq<Capability>) { forall i, j :: 0 <= i < j < |cs| ==> cs[i].id != cs[j].id }

  method AdjacentFind(s: seq<string>) returns (found: bool)
    ensures found == AdjacentEqual(s)
  {
    if s == [] {
      return false;
    }
    for i := 0 to |s| - 1
      invariant forall j :: 0 <= j < i ==> s[j] != s[j + 1]
    {
      if s[i] == s[i + 1] {
        return true;
      }
    }
    return false;
  }

  /** What a proposal is judged by, in the order the faults are reported. */
  function Judge(d: Draft): Result {
    if !RequiredPresent(d) then RequiredField
    else if d.capabilities == [] || d.contributions == [] then EmptyOffer
    else if !AllComplete(d.capabilities) then InvalidCapability
    else if !DistinctIds(d.capabilities) then DuplicateCapability
    else if !CompleteAuthority(d.authority) then IncompleteAuthority
    else Contract(d)
  }

  /** The identifiers in order, up to the first incomplete capability. */
  method CollectIds(cs: seq<Capability>) returns (complete: bool, ids: seq<string>)
    ensures complete == AllComplete(cs)
    ensures complete ==> (Distinct(ids) <==> DistinctIds(cs))
  {
    hide Complete;
    ids := [];
    for i := 0 to |cs|
      invariant |ids| == i
      invariant forall j :: 0 <= j < i ==> Complete(cs[j]) && ids[j] == cs[j].id
    {
      if !Complete(cs[i]) {
        return false, ids;
      }
      ids := ids + [cs[i].id];
    }
    return true, ids;
  }

  method ProposeParticipation(draft: Draft) returns (result: Result)
    ensures result == Judge(draft)
  {
    hide RequiredPresent, AllComplete, DistinctIds, CompleteAuthority, Distinct, AdjacentEqual, Sort;
    if !RequiredPresent(draft) {
      return RequiredField;
    }
    if draft.capabilities == [] || draft.contributions == [] {
      return EmptyOffer;
    }
    var complete, capabilityIds := CollectIds(draft.capabilities);
    if !complete {
      return InvalidCapability;
    }
    SortFindsDuplicates(capabilityIds);
    var duplicated := AdjacentFind(Sort(capabilityIds));
    if duplicated {
      return DuplicateCapability;
    }
    if !CompleteAuthority(draft.authority) {
      return IncompleteAuthority;
    }
    return Contract(draft);
  }
}
