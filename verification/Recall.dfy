/** The recall decision: a fail-closed search for a grant. */
module Recall {
  import opened JsText
  import opened Json
  import opened Consent

  datatype Counts = Counts(candidates: int, tombstones: int, sensitive: int)

  datatype Request = Request(appRef: Text, operation: Text, zone: Text, purposeRef: Text, policyRef: Text, now: Text,
    revokedRefs: seq<Text>, counts: Counts)

  /** What the normalisers let through. */
  predicate RequestOk(q: Request)
  {
    && IsPublicRef(q.appRef) && IsOperation(q.operation) && IsPublicRef(q.zone) && IsPublicRef(q.purposeRef)
    && IsPublicRef(q.policyRef) && q.counts.candidates >= 0 && q.counts.tombstones >= 0 && q.counts.sensitive >= 0
  }

  /** A request passes with four public references, a known operation and no negative count. */
  lemma RequestExactly(q: Request)
    ensures RequestOk(q) <==>
      && IsPublicRef(q.appRef) && IsPublicRef(q.purposeRef) && IsPublicRef(q.policyRef) && IsPublicRef(q.zone)
      && q.operation in { Lit("read_local"), Lit("write_local"), Lit("recall_context"), Lit("withhold_context"),
           Lit("share_context"), Lit("open_private_bubble"), Lit("close_private_bubble"), Lit("delete_local"),
           Lit("connector_access") }
      && !(q.counts.candidates < 0 || q.counts.tombstones < 0 || q.counts.sensitive < 0)
  {
    hide IsPublicRef, Lit;
  }

  function ScopeOf(q: Request): Scope
  {
    Scope(Some(q.appRef), Some(q.purposeRef), [q.operation], [q.zone], q.now, false, q.revokedRefs)
  }

  datatype Decision = Allow | Ask | Deny

  datatype Reason = TombstonePresent | SensitivityBlocked | CandidateLimitExceeded | PolicyDeniesRecall | GrantExpired
    | GrantMissing

  datatype Verdict = Verdict(decision: Decision, reasons: seq<Reason>, grantRefs: seq<Json>, safeToShare: bool)

  function Candidates(primary: Option<Grant>, grants: seq<Grant>): seq<Grant>
  {
    (if primary.Some? then [primary.value] else []) + grants
  }

  /** Whether a grant holds for a request. */
  predicate Grants(w: World, q: Request, g: Grant)
  {
    w.parse(q.now).Some? && GrantOk(w, g, ScopeOf(q), w.parse(q.now).value)
  }

  predicate IsFirstHeld(w: World, q: Request, candidates: seq<Grant>, i: int)
  {
    0 <= i < |candidates| && Grants(w, q, candidates[i]) && forall k :: 0 <= k < i ==> !Grants(w, q, candidates[k])
  }

  datatype Selected = Selected(grant: Grant, codes: seq<Code>)

  predicate Describes(w: World, q: Request, s: Selected)
  {
    && (s.codes == [] <==> Grants(w, q, s.grant))
    && (Revoked in s.codes <==> RevokedFor(q, s.grant)) && (Expired in s.codes <==> ExpiredFor(w, q, s.grant))
  }

  /** `selectGrant`: the first grant that holds, or else the first grant. */
  method SelectGrant(w: World, q: Request, candidates: seq<Grant>) returns (r: Result<Option<Selected>>)
    ensures r.Throws? <==> w.parse(q.now).None? && exists i :: 0 <= i < |candidates| && candidates[i].Record?
    ensures r.Ok? ==> (r.value.None? <==> |candidates| == 0)
    ensures r.Ok? && r.value.Some? ==>
      && Describes(w, q, r.value.value) && r.value.value.grant in candidates
      && (r.value.value.codes == [] <==> exists i :: 0 <= i < |candidates| && Grants(w, q, candidates[i]))
      && (r.value.value.codes != [] ==> r.value.value.grant == candidates[0])
      && (r.value.value.codes == [] ==>
           exists i :: IsFirstHeld(w, q, candidates, i) && candidates[i] == r.value.value.grant)
  {
    hide GrantOk, IsRevoked, IsExpired;
    var first: Option<Selected> := None;
    for i := 0 to |candidates|
      invariant first.None? <==> i == 0
      invariant first.Some? ==>
        Describes(w, q, first.value) && first.value.grant == candidates[0] && first.value.codes != []
      invariant forall k :: 0 <= k < i ==> !Grants(w, q, candidates[k])
      invariant forall k :: 0 <= k < i ==> w.parse(q.now).None? ==> !candidates[k].Record?
    {
      var grant := candidates[i];
      var verification := VerifyConsentGrant(w, grant, ScopeOf(q));
      if verification.Throws? { return Throws; }
      var here := Selected(grant, verification.value);
      if first.None? { first := Some(here); }
      assert verification.value == [] ==> IsFirstHeld(w, q, candidates, i);
      if verification.value == [] { return Ok(Some(here)); }
    }
    r := Ok(first);
  }

  function RefOf(g: Grant): seq<Json> { if FieldOf(g, GrantRef).Some? then [FieldOf(g, GrantRef).value] else [] }

  predicate CountsClear(c: Counts) { c.tombstones == 0 && c.sensitive == 0 }

  /** Some supplied grant holds, and no candidate is deleted or sensitive. */
  predicate Allowed(w: World, q: Request, candidates: seq<Grant>)
  {
    CountsClear(q.counts) && exists i :: 0 <= i < |candidates| && Grants(w, q, candidates[i])
  }

  predicate CountsBounded(c: Counts) { c.tombstones <= c.candidates && c.sensitive <= c.candidates }

  predicate RevokedFor(q: Request, g: Grant) { g.Record? && IsRevoked(g, ScopeOf(q)) }

  predicate ExpiredFor(w: World, q: Request, g: Grant)
  {
    g.Record? && w.parse(q.now).Some? && IsExpired(w, g, w.parse(q.now).value)
  }

  /** A record that is revoked or expired. */
  predicate Lapsed(w: World, q: Request, g: Grant) { RevokedFor(q, g) || ExpiredFor(w, q, g) }

  /** The reason of a refusal that the counts do not give: the first grant decides, and revocation comes before
      expiry. */
  function RefusalReason(w: World, q: Request, candidates: seq<Grant>): Reason
  {
    if |candidates| == 0 || !Lapsed(w, q, candidates[0]) then GrantMissing
    else if RevokedFor(q, candidates[0]) then PolicyDeniesRecall
    else GrantExpired
  }

  /** The reasons in the order of their names. */
  const SORTED_REASONS: seq<Reason> :=
    [CandidateLimitExceeded, GrantExpired, GrantMissing, PolicyDeniesRecall, SensitivityBlocked, TombstonePresent]

  function Pick(order: seq<Reason>, reasons: seq<Reason>): (r: seq<Reason>)
    ensures forall x :: x in r <==> x in order && x in reasons
  {
    if |order| == 0 then []
    else
      assert order == [order[0]] + order[1..];
      (if order[0] in reasons then [order[0]] else []) + Pick(order[1..], reasons)
  }

  /** `uniqueSorted`. */
  function UniqueSortedReasons(reasons: seq<Reason>): (r: seq<Reason>)
    ensures forall x :: x in r <==> x in reasons
  {
    assert forall x: Reason :: x in SORTED_REASONS by { AllReasons(); }
    Pick(SORTED_REASONS, reasons)
  }

  lemma AllReasons()
    ensures forall x: Reason :: x in SORTED_REASONS
  {
    forall x: Reason ensures x in SORTED_REASONS {
      match x
      case CandidateLimitExceeded => assert SORTED_REASONS[0] == x;
      case GrantExpired => assert SORTED_REASONS[1] == x;
      case GrantMissing => assert SORTED_REASONS[2] == x;
      case PolicyDeniesRecall => assert SORTED_REASONS[3] == x;
      case SensitivityBlocked => assert SORTED_REASONS[4] == x;
      case TombstonePresent => assert SORTED_REASONS[5] == x;
    }
  }

  /** What a verdict says about a request. */
  ghost predicate IsVerdict(w: World, q: Request, candidates: seq<Grant>, v: Verdict)
  {
    && (v.safeToShare <==> Allowed(w, q, candidates)) && (v.decision == Allow <==> v.safeToShare)
    && (v.decision == Allow <==> v.reasons == [])
    && (TombstonePresent in v.reasons <==> q.counts.tombstones > 0)
    && (SensitivityBlocked in v.reasons <==> q.counts.sensitive > 0)
    && (CandidateLimitExceeded in v.reasons <==>
         q.counts.tombstones > q.counts.candidates || q.counts.sensitive > q.counts.candidates)
    && (v.decision == Deny <==>
         !CountsClear(q.counts) || (!v.safeToShare && |candidates| > 0 && Lapsed(w, q, candidates[0])))
    && (CountsClear(q.counts) && !v.safeToShare ==> |v.reasons| == 1)
    && (PolicyDeniesRecall in v.reasons <==>
         CountsClear(q.counts) && !v.safeToShare && |candidates| > 0 && RevokedFor(q, candidates[0]))
    && (GrantExpired in v.reasons <==>
         CountsClear(q.counts) && !v.safeToShare && |candidates| > 0 && !RevokedFor(q, candidates[0])
         && ExpiredFor(w, q, candidates[0]))
    && (GrantMissing in v.reasons <==>
         CountsClear(q.counts) && !v.safeToShare
         && (|candidates| > 0 ==> !RevokedFor(q, candidates[0]) && !ExpiredFor(w, q, candidates[0])))
    && (v.safeToShare ==> exists i :: IsFirstHeld(w, q, candidates, i) && Names(candidates[i], v.grantRefs))
    && (!v.safeToShare && v.grantRefs != [] ==>
         v.decision == Deny && CountsClear(q.counts) && Names(candidates[0], v.grantRefs))
    && (v.decision == Deny && CountsClear(q.counts) && IsTextWith(FieldOf(candidates[0], GrantRef), IsPublicRef) ==>
         v.grantRefs != [])
  }

  /** The references of a verdict are that of one grant. */
  predicate Names(g: Grant, refs: seq<Json>) { |refs| == 1 && FieldOf(g, GrantRef) == Some(refs[0]) }

  /** The reference of a first grant that is revoked or expired, when it is a public reference. */
  function LapsedRefs(w: World, q: Request, candidates: seq<Grant>): seq<Json>
  {
    if |candidates| > 0 && Lapsed(w, q, candidates[0]) && IsTextWith(FieldOf(candidates[0], GrantRef), IsPublicRef)
    then [FieldOf(candidates[0], GrantRef).value] else []
  }

  /** The first grant that holds. */
  function Held(w: World, q: Request, candidates: seq<Grant>): Option<Grant>
  {
    if |candidates| == 0 then None
    else if Grants(w, q, candidates[0]) then Some(candidates[0])
    else Held(w, q, candidates[1..])
  }

  lemma {:induction false} HeldFirst(w: World, q: Request, candidates: seq<Grant>)
    ensures Held(w, q, candidates).None? <==> forall i :: 0 <= i < |candidates| ==> !Grants(w, q, candidates[i])
    ensures Held(w, q, candidates).Some? ==>
      exists i :: IsFirstHeld(w, q, candidates, i) && candidates[i] == Held(w, q, candidates).value
  {
    hide Grants;
    if |candidates| > 0 {
      if Grants(w, q, candidates[0]) {
        assert IsFirstHeld(w, q, candidates, 0);
      } else {
        var rest := candidates[1..];
        HeldFirst(w, q, rest);
        assert forall i :: 0 < i < |candidates| ==> candidates[i] == rest[i - 1];
        if Held(w, q, rest).Some? {
          var i :| IsFirstHeld(w, q, rest, i) && rest[i] == Held(w, q, rest).value;
          assert IsFirstHeld(w, q, candidates, i + 1);
        }
      }
    }
  }

  lemma FirstHeldUnique(w: World, q: Request, candidates: seq<Grant>, i: int)
    requires IsFirstHeld(w, q, candidates, i)
    ensures Held(w, q, candidates) == Some(candidates[i])
  {
    hide Grants, Held;
    HeldFirst(w, q, candidates);
    var j :| IsFirstHeld(w, q, candidates, j) && candidates[j] == Held(w, q, candidates).value;
  }

  function CountReasons(c: Counts): seq<Reason>
  {
    (if c.tombstones > 0 then [TombstonePresent] else []) + (if c.sensitive > 0 then [SensitivityBlocked] else [])
    + (if CountsBounded(c) then [] else [CandidateLimitExceeded])
  }

  /** The decision on a request that passed the normalisers. */
  function VerdictFor(w: World, q: Request, candidates: seq<Grant>): Verdict
  {
    if !CountsClear(q.counts) then Verdict(Deny, UniqueSortedReasons(CountReasons(q.counts)), [], false)
    else match Held(w, q, candidates)
      case Some(g) => Verdict(Allow, [], RefOf(g), true)
      case None =>
        var reason := RefusalReason(w, q, candidates);
        Verdict(if reason == GrantMissing then Ask else Deny, [reason], LapsedRefs(w, q, candidates), false)
  }

  /** Safe to share exactly when the counts are clear and some supplied grant holds; every refusal has its reasons. */
  lemma VerdictMeaning(w: World, q: Request, candidates: seq<Grant>)
    requires RequestOk(q)
    ensures IsVerdict(w, q, candidates, VerdictFor(w, q, candidates))
  {
    hide Grants, IsRevoked, IsExpired, IsPublicRef, IsOperation, Held, UniqueSortedReasons;
    HeldFirst(w, q, candidates);
    if Held(w, q, candidates).Some? { HeldGrantHasRef(w, q, Held(w, q, candidates).value); }
    if !CountsClear(q.counts) { NonEmptySorted(CountReasons(q.counts)); }
  }

  lemma NonEmptySorted(reasons: seq<Reason>)
    requires |reasons| > 0
    ensures UniqueSortedReasons(reasons) != []
  {
    assert reasons[0] in UniqueSortedReasons(reasons);
  }

  /** The calls that end in a thrown error before there is a decision. */
  predicate ThrowsEarly(w: World, q: Request, candidates: seq<Grant>)
  {
    !RequestOk(q) || (w.parse(q.now).None? && exists i :: 0 <= i < |candidates| && candidates[i].Record?)
  }

  /** `createRecallVetoDecision`; `publishable` is the public-safety scan of the finished decision. */
  method CreateRecallVetoDecision(w: World, q: Request, primary: Option<Grant>, grants: seq<Grant>,
      publishable: Verdict -> bool)
    returns (r: Result<Verdict>)
    ensures var candidates := Candidates(primary, grants);
      r.Throws? <==> ThrowsEarly(w, q, candidates) || !publishable(VerdictFor(w, q, candidates))
    ensures var candidates := Candidates(primary, grants);
      r.Ok? ==> r.value == VerdictFor(w, q, candidates) && IsVerdict(w, q, candidates, r.value)
  {
    hide IsPublicRef, IsOperation, IsVerdict, GrantOk, IsRevoked, IsExpired, Grants, Held, UniqueSortedReasons;
    if !RequestOk(q) { return Throws; }
    var candidates := Candidates(primary, grants);
    var grant := SelectGrant(w, q, candidates);
    if grant.Throws? { return Throws; }
    var reasons := BlockingReasons(q.counts);
    var decision, grantRefs := Ask, [];
    if |reasons| > 0 {
      decision := Deny;
    } else if grant.value.None? {
      reasons := [GrantMissing];
    } else {
      var selected := grant.value.value;
      var ref := FieldOf(selected.grant, GrantRef);
      var refs := if IsTextWith(ref, IsPublicRef) then [ref.value] else [];
      if selected.codes == [] {
        HeldGrantHasRef(w, q, selected.grant);
        decision, grantRefs := Allow, [ref.value];
      } else if Revoked in selected.codes {
        decision, grantRefs, reasons := Deny, refs, [PolicyDeniesRecall];
      } else if Expired in selected.codes {
        decision, grantRefs, reasons := Deny, refs, [GrantExpired];
      } else {
        reasons := [GrantMissing];
      }
    }
    var v := Verdict(decision, UniqueSortedReasons(reasons), grantRefs, decision == Allow);
    SelectedIsHeld(w, q, candidates, grant.value);
    OneReason();
    assert v == VerdictFor(w, q, candidates);
    VerdictMeaning(w, q, candidates);
    r := if publishable(v) then Ok(v) else Throws;
  }

  lemma OneReason()
    ensures UniqueSortedReasons([]) == [] && forall x: Reason :: UniqueSortedReasons([x]) == [x]
  {
    forall x: Reason ensures UniqueSortedReasons([x]) == [x] { PickOne(SORTED_REASONS, x); AllReasons(); }
    PickNone(SORTED_REASONS);
  }

  lemma {:induction false} PickNone(order: seq<Reason>)
    ensures Pick(order, []) == []
  {
    if |order| > 0 { PickNone(order[1..]); }
  }

  lemma {:induction false} PickOne(order: seq<Reason>, x: Reason)
    requires forall i, j :: 0 <= i < j < |order| ==> order[i] != order[j]
    ensures Pick(order, [x]) == if x in order then [x] else []
  {
    if |order| > 0 {
      PickOne(order[1..], x);
      assert order == [order[0]] + order[1..];
      if order[0] == x { assert x !in order[1..]; }
    }
  }

  /** What the selecting loop returns, in terms of the first grant that holds. */
  lemma SelectedIsHeld(w: World, q: Request, candidates: seq<Grant>, s: Option<Selected>)
    requires s.None? <==> |candidates| == 0
    requires s.Some? ==> (s.value.codes == [] <==> exists i :: 0 <= i < |candidates| && Grants(w, q, candidates[i]))
    requires s.Some? && s.value.codes == [] ==>
      exists i :: IsFirstHeld(w, q, candidates, i) && candidates[i] == s.value.grant
    ensures Held(w, q, candidates) == if s.Some? && s.value.codes == [] then Some(s.value.grant) else None
  {
    hide Grants, Held;
    HeldFirst(w, q, candidates);
    if s.Some? && s.value.codes == [] {
      var i :| IsFirstHeld(w, q, candidates, i) && candidates[i] == s.value.grant;
      FirstHeldUnique(w, q, candidates, i);
    }
  }

  method BlockingReasons(c: Counts) returns (reasons: seq<Reason>)
    requires c.candidates >= 0 && c.tombstones >= 0 && c.sensitive >= 0
    ensures reasons == [] <==> CountsClear(c)
    ensures TombstonePresent in reasons <==> c.tombstones > 0
    ensures SensitivityBlocked in reasons <==> c.sensitive > 0
    ensures CandidateLimitExceeded in reasons <==> !CountsBounded(c)
    ensures reasons == CountReasons(c)
  {
    reasons := PushUnless([], c.tombstones <= 0, TombstonePresent);
    reasons := PushUnless(reasons, c.sensitive <= 0, SensitivityBlocked);
    reasons := PushUnless(reasons, CountsBounded(c), CandidateLimitExceeded);
  }

  lemma HeldGrantHasRef(w: World, q: Request, g: Grant)
    ensures Grants(w, q, g) ==> IsTextWith(FieldOf(g, GrantRef), IsPublicRef)
  {
  }

  // ----- Laws of the decision -----

  /** The order of the grants, and which of them is the primary one, do not matter for sharing. */
  lemma OrderIndependent(w: World, q: Request, a: seq<Grant>, b: seq<Grant>)
    requires multiset(a) == multiset(b)
    ensures Allowed(w, q, a) <==> Allowed(w, q, b)
  {
    if Allowed(w, q, a) { HeldElsewhere(w, q, a, b); }
    if Allowed(w, q, b) { HeldElsewhere(w, q, b, a); }
  }

  lemma HeldElsewhere(w: World, q: Request, a: seq<Grant>, b: seq<Grant>)
    requires multiset(a) == multiset(b) && Allowed(w, q, a)
    ensures Allowed(w, q, b)
  {
    var i :| 0 <= i < |a| && Grants(w, q, a[i]);
    assert a[i] in multiset(b);
    var j :| 0 <= j < |b| && b[j] == a[i];
  }

  /** The same request later, with more grants revoked and more candidates deleted or sensitive. */
  ghost predicate Later(w: World, q: Request, later: Request)
  {
    && later == q.(now := later.now, revokedRefs := later.revokedRefs, counts := later.counts)
    && w.parse(q.now).Some? && w.parse(later.now).Some? && w.parse(q.now).value <= w.parse(later.now).value
    && (forall t :: t in q.revokedRefs ==> t in later.revokedRefs)
    && 0 <= q.counts.tombstones <= later.counts.tombstones && 0 <= q.counts.sensitive <= later.counts.sensitive
  }

  lemma GrantLapses(w: World, q: Request, later: Request, g: Grant)
    requires Later(w, q, later) && Grants(w, later, g)
    ensures Grants(w, q, g)
  {
    hide ShapeOk;
    assert ScopeOk(g, ScopeOf(q)) by { assert ScopeOk(g, ScopeOf(later)); }
  }

  /** Time, revocations and growing counts never turn a refusal into an allowance, and neither does taking grants
      away. */
  lemma RefusalStays(w: World, q: Request, later: Request, grants: seq<Grant>, fewer: seq<Grant>)
    requires Later(w, q, later) && forall i :: 0 <= i < |fewer| ==> fewer[i] in grants
    ensures !Allowed(w, q, grants) ==> !Allowed(w, later, fewer)
  {
    hide Grants;
    if Allowed(w, later, fewer) {
      var i :| 0 <= i < |fewer| && Grants(w, later, fewer[i]);
      GrantLapses(w, q, later, fewer[i]);
      var j :| 0 <= j < |grants| && grants[j] == fewer[i];
    }
  }

  /** A created grant alone lets a request through exactly when the request stays inside what it was made for. */
  lemma CreatedGrantAllows(w: World, h: RecordHash, o: GrantOptions, q: Request)
    requires TimeLaw(w) && CreateConsentGrant(w, h, o).Ok? && w.parse(q.now).Some?
    ensures var g := CreateConsentGrant(w, h, o).value;
      Allowed(w, q, [g]) <==>
        (CountsClear(q.counts) && q.appRef == o.appRef && q.purposeRef == o.purposeRef && q.operation in o.operations
         && q.zone in o.zones && InRange(w.parse(o.issuedAt).value) && InRange(ExpiryOf(w, o))
         && w.parse(q.now).value < ExpiryOf(w, o) && o.status == ACTIVE && !NamedIn(g, q.revokedRefs))
  {
    hide GrantOk, ExpiryOf, NamedIn, Allowed, Asks, CreateConsentGrant, InRange;
    CreatedGrantHolds(w, h, o, ScopeOf(q), w.parse(q.now).value);
    AllowedByOne(w, q, CreateConsentGrant(w, h, o).value);
    AsksRequest(o, q);
  }

  lemma AllowedByOne(w: World, q: Request, g: Grant)
    ensures Allowed(w, q, [g]) <==> CountsClear(q.counts) && Grants(w, q, g)
  {
    hide Grants;
    if Grants(w, q, g) { assert [g][0] == g; }
  }

  lemma AsksRequest(o: GrantOptions, q: Request)
    ensures Asks(o, ScopeOf(q)) <==>
      (o.appRef == q.appRef && o.purposeRef == q.purposeRef && q.operation in o.operations && q.zone in o.zones)
  {
    var s := ScopeOf(q);
    assert s.operations[0] == q.operation && s.zones[0] == q.zone;
  }
}
