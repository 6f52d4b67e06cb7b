/**
 * Cached objects and their evaluation at a point in time (crates/rv-storage/src/objcore.rs,
 * crates/rv-cache/src/lookup.rs). Times are real numbers and `now` is a parameter.
 */
module Objects {
  import opened Types
  import opened Vary

  datatype Flag = Withdrawn | Busy | Hfm | Hfp | Cancel | Private | Failed | Dying

  /** Everything but the flags is fixed before the object is shared. */
  class ObjCore {
    const digest: Digest
    const tOrigin: real
    const ttl: real
    const grace: real
    const keep: real
    const vary: Option<seq<byte>>
    var flags: set<Flag>

    constructor (digest: Digest, tOrigin: real, ttl: real, grace: real, keep: real, vary: Option<seq<byte>>)
      ensures this.digest == digest && this.tOrigin == tOrigin && this.ttl == ttl && this.grace == grace
      ensures this.keep == keep && this.vary == vary && flags == {}
    {
      this.digest := digest;
      this.tOrigin := tOrigin;
      this.ttl := ttl;
      this.grace := grace;
      this.keep := keep;
      this.vary := vary;
      flags := {};
    }

    method SetFlag(flag: Flag)
      modifies this`flags
      ensures flags == old(flags) + {flag}
    {
      flags := flags + {flag};
    }

    predicate IsExpired(now: real) {
      now > tOrigin + ttl
    }

    function RemainingGrace(now: real): real {
      if tOrigin + ttl + grace - now > 0.0 then tOrigin + ttl + grace - now else 0.0
    }

    /** When the expiry queue drops the object. */
    function Deadline(): real {
      tOrigin + ttl + grace + keep
    }
  }

  datatype LookupResult = Hit(oc: ObjCore) | Miss | Grace(oc: ObjCore) | HitForPass | IsBusy

  /** The source's `evaluate_object`. */
  function Evaluate(oc: ObjCore, now: real): (r: LookupResult)
    reads oc
  {
    if Busy in oc.flags then IsBusy
    else if Hfp in oc.flags then HitForPass
    else if Dying in oc.flags || Withdrawn in oc.flags then Miss
    else if !oc.IsExpired(now) then Hit(oc)
    else if oc.RemainingGrace(now) > 0.0 then Grace(oc)
    else Miss
  }

  /** None of the four flags that keep an object from being served. */
  ghost predicate Servable(oc: ObjCore)
    reads oc
  {
    Busy !in oc.flags && Hfp !in oc.flags && Dying !in oc.flags && Withdrawn !in oc.flags
  }

  ghost predicate Fresh(oc: ObjCore, now: real) {
    now <= oc.tOrigin + oc.ttl
  }

  ghost predicate InGrace(oc: ObjCore, now: real) {
    oc.tOrigin + oc.ttl < now < oc.tOrigin + oc.ttl + oc.grace
  }

  lemma EvaluateExactly(oc: ObjCore, now: real)
    ensures Evaluate(oc, now) == Hit(oc) <==> Servable(oc) && Fresh(oc, now)
    ensures Evaluate(oc, now) == Grace(oc) <==> Servable(oc) && InGrace(oc, now)
    ensures Evaluate(oc, now).Hit? ==> Evaluate(oc, now) == Hit(oc)
    ensures Evaluate(oc, now).Grace? ==> Evaluate(oc, now) == Grace(oc)
  {
  }

  // ---------------------------------------------------------------- choosing a variant

  /** Whether a variant may be considered: its Vary data matches, or there is nothing to compare. */
  predicate Considered(u: Utf8, oc: ObjCore, headers: Option<seq<Header>>) {
    headers.None? || oc.vary.None? || Matches(u, oc.vary.value, headers.value)
  }

  /** A considered variant that evaluates to a hit, or to a grace hit. */
  ghost predicate HitAt(u: Utf8, variants: seq<ObjCore>, headers: Option<seq<Header>>, now: real, i: nat)
    requires i < |variants|
    reads variants[i]
  {
    Considered(u, variants[i], headers) && Servable(variants[i]) && Fresh(variants[i], now)
  }

  ghost predicate GraceAt(u: Utf8, variants: seq<ObjCore>, headers: Option<seq<Header>>, now: real, i: nat)
    requires i < |variants|
    reads variants[i]
  {
    Considered(u, variants[i], headers) && Servable(variants[i]) && InGrace(variants[i], now)
  }

  /**
   * The answer for a list of variants: the first considered fresh one, else the first
   * considered one in grace, else a miss.
   */
  ghost predicate Answers(u: Utf8, variants: seq<ObjCore>, headers: Option<seq<Header>>, now: real, r: LookupResult)
    reads variants
  {
    match r
    case Hit(oc) =>
      exists i | 0 <= i < |variants| && variants[i] == oc ::
        HitAt(u, variants, headers, now, i) && forall j | 0 <= j < i :: !HitAt(u, variants, headers, now, j)
    case Grace(oc) =>
      && (forall j | 0 <= j < |variants| :: !HitAt(u, variants, headers, now, j))
      && exists i | 0 <= i < |variants| && variants[i] == oc ::
           GraceAt(u, variants, headers, now, i) && forall j | 0 <= j < i :: !GraceAt(u, variants, headers, now, j)
    case Miss =>
      forall j | 0 <= j < |variants| :: !HitAt(u, variants, headers, now, j) && !GraceAt(u, variants, headers, now, j)
    case _ => false
  }

  /** No considered and servable variant is fresh or in grace. */
  ghost predicate NothingToServe(u: Utf8, variants: seq<ObjCore>, headers: Option<seq<Header>>, now: real)
    reads variants
  {
    forall oc | oc in variants && Considered(u, oc, headers) && Servable(oc) :: !Fresh(oc, now) && !InGrace(oc, now)
  }

  lemma MissExactly(u: Utf8, variants: seq<ObjCore>, headers: Option<seq<Header>>, now: real, r: LookupResult)
    requires Answers(u, variants, headers, now, r)
    ensures r.Miss? <==> NothingToServe(u, variants, headers, now)
  {
    if r.Miss? {
      forall oc | oc in variants && Considered(u, oc, headers) && Servable(oc)
        ensures !Fresh(oc, now) && !InGrace(oc, now)
      {
        var j :| 0 <= j < |variants| && variants[j] == oc;
        assert !HitAt(u, variants, headers, now, j) && !GraceAt(u, variants, headers, now, j);
      }
    }
  }

  /** The scan of `lookup` over one digest's variants. */
  method ScanVariants(u: Utf8, variants: seq<ObjCore>, headers: Option<seq<Header>>,
                      now: real) returns (r: LookupResult)
    ensures Answers(u, variants, headers, now, r)
  {
    var graceCandidate: Option<ObjCore> := None;
    ghost var g := 0;
    for i := 0 to |variants|
      invariant forall j | 0 <= j < i :: !HitAt(u, variants, headers, now, j)
      invariant graceCandidate.None? ==> forall j | 0 <= j < i :: !GraceAt(u, variants, headers, now, j)
      invariant graceCandidate.Some? ==>
                  && 0 <= g < i && variants[g] == graceCandidate.value && GraceAt(u, variants, headers, now, g)
                  && forall j | 0 <= j < g :: !GraceAt(u, variants, headers, now, j)
    {
      var oc := variants[i];
      EvaluateExactly(oc, now);
      if headers.Some? && oc.vary.Some? {
        var matches := CheckMatch(u, oc.vary.value, headers.value);
        if !matches {
          continue;
        }
      }
      var result := Evaluate(oc, now);
      match result
      case Hit(_) => return result;
      case Grace(_) =>
        if graceCandidate.None? {
          graceCandidate := Some(oc);
          g := i;
        }
      case _ =>
    }
    if graceCandidate.Some? {
      return Grace(graceCandidate.value);
    }
    return Miss;
  }

  // ---------------------------------------------------------------- lookup with Vary

  /** The response that was stored: its Vary header, if any, and the request it answered. */
  datatype Origin = Origin(vary: Option<string>, headers: seq<Header>)

  /** `request` may be answered with a response stored for `o` (section 4.1 of RFC 7234, on the listed fields). */
  ghost predicate Selects(o: Origin, request: seq<Header>) {
    o.vary.None? || (Trim(o.vary.value) != "*" && Agree(Fields(o.vary.value), o.headers, request))
  }

  /** The stored data was built from `o`, all lengths fitting. */
  ghost predicate BuiltFrom(u: Utf8, data: Option<seq<byte>>, o: Origin) {
    && data == VaryData(u, o.vary, o.headers)
    && (o.vary.Some? ==> ShortNames(u, Fields(o.vary.value)) && ShortValues(u, Fields(o.vary.value), o.headers))
  }

  /** Each variant was stored with the data built from its origin. */
  ghost predicate StoredFrom(u: Utf8, variants: seq<ObjCore>, origins: seq<Origin>) {
    |variants| == |origins| && forall i | 0 <= i < |variants| :: BuiltFrom(u, variants[i].vary, origins[i])
  }

  lemma ConsideredIsSelected(u: Utf8, variants: seq<ObjCore>, origins: seq<Origin>, request: seq<Header>, i: nat)
    requires Inverse(u) && StoredFrom(u, variants, origins) && i < |variants|
    ensures Considered(u, variants[i], Some(request)) <==> Selects(origins[i], request)
  {
    assert BuiltFrom(u, variants[i].vary, origins[i]);
    if origins[i].vary.Some? {
      MatchesExactly(u, origins[i].vary.value, origins[i].headers, request);
    }
  }

  /** A servable variant that `request` selects is fresh, or in grace. */
  ghost predicate FreshSelected(variants: seq<ObjCore>, origins: seq<Origin>, request: seq<Header>, now: real)
    requires |variants| == |origins|
    reads variants
  {
    exists i | 0 <= i < |variants| :: Selects(origins[i], request) && Servable(variants[i]) && Fresh(variants[i], now)
  }

  ghost predicate GraceSelected(variants: seq<ObjCore>, origins: seq<Origin>, request: seq<Header>, now: real)
    requires |variants| == |origins|
    reads variants
  {
    exists i | 0 <= i < |variants| :: Selects(origins[i], request) && Servable(variants[i]) && InGrace(variants[i], now)
  }

  /** The answer that the stored responses and the request call for. */
  ghost predicate Correct(variants: seq<ObjCore>, origins: seq<Origin>, request: seq<Header>, now: real,
                          r: LookupResult)
    requires |variants| == |origins|
    reads variants
  {
    && (r.Hit? <==> FreshSelected(variants, origins, request, now))
    && (r.Grace? <==> !r.Hit? && GraceSelected(variants, origins, request, now))
    && (r.Miss? <==> !r.Hit? && !r.Grace?)
  }

  /**
   * Lookup with request headers hits exactly when some servable variant is fresh and its
   * original request agrees on every Vary field; it answers from grace exactly when there is
   * no such variant but an agreeing servable one is in grace; otherwise it misses.
   */
  lemma LookupExactly(u: Utf8, variants: seq<ObjCore>, origins: seq<Origin>, request: seq<Header>, now: real,
                      r: LookupResult)
    requires Inverse(u) && StoredFrom(u, variants, origins) && Answers(u, variants, Some(request), now, r)
    ensures Correct(variants, origins, request, now, r)
  {
    forall i | 0 <= i < |variants|
      ensures HitAt(u, variants, Some(request), now, i) <==>
                Selects(origins[i], request) && Servable(variants[i]) && Fresh(variants[i], now)
      ensures GraceAt(u, variants, Some(request), now, i) <==>
                Selects(origins[i], request) && Servable(variants[i]) && InGrace(variants[i], now)
    {
      ConsideredIsSelected(u, variants, origins, request, i);
    }
  }

  /** The data was built from some response and request. */
  ghost predicate HasOrigin(u: Utf8, data: Option<seq<byte>>) {
    exists o :: BuiltFrom(u, data, o)
  }

  /** Variants that each have an origin were all stored from a list of them. */
  lemma {:induction false} OriginsExist(u: Utf8, variants: seq<ObjCore>) returns (origins: seq<Origin>)
    requires forall i | 0 <= i < |variants| :: HasOrigin(u, variants[i].vary)
    ensures StoredFrom(u, variants, origins)
  {
    if variants == [] {
      origins := [];
    } else {
      var n := |variants| - 1;
      origins := OriginsExist(u, variants[..n]);
      assert HasOrigin(u, variants[n].vary);
      var o :| BuiltFrom(u, variants[n].vary, o);
      assert forall i | 0 <= i < n :: variants[i] == variants[..n][i];
      origins := origins + [o];
    }
  }

  const ONE: seq<Header> := [Header("a", "1")]
  const TWO: seq<Header> := [Header("a", "2")]

  /** A response with `Vary: a` stored for one of two requests matches that one and not the other. */
  lemma TwoRequests(u: Utf8, mine: seq<Header>, other: seq<Header>)
    requires Inverse(u) && ByteSized(u) && ((mine, other) == (ONE, TWO) || (mine, other) == (TWO, ONE))
    ensures var data := VaryData(u, Some("a"), mine);
            data.Some? && Matches(u, data.value, mine) && !Matches(u, data.value, other)
  {
    SingleField();
    assert EqIgnoreAsciiCase("a", "a");
    assert GetOrEmpty(ONE, "a") == "1" && GetOrEmpty(TWO, "a") == "2";
    assert Short(u, "a") && Short(u, "1") && Short(u, "2");
    assert !Agree(["a"], mine, other) by {
      assert GetOrEmpty(mine, ["a"][0]) != GetOrEmpty(other, ["a"][0]);
    }
    MatchesExactly(u, "a", mine, mine);
    MatchesExactly(u, "a", mine, other);
  }
}
