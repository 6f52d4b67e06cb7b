/**
 * What the request machine hears from the engine's lookup (`state_lookup` in
 * crates/rv-server/src/runtime.rs): objects marked as busy or as not to be cached are skipped
 * like expired ones, so two of the machine's five answers never come.
 */
module RequestLookups {
  import opened Types
  import opened Vary
  import opened Objects
  import opened Engine
  import opened ShardedLrus
  import R = RequestRuns

  function FoundFor(r: LookupResult): R.Found {
    match r
    case Hit(_) => R.FoundHit
    case Grace(_) => R.FoundGrace
    case HitForPass => R.FoundPass
    case IsBusy => R.FoundBusy
    case Miss => R.FoundNothing
  }

  /** The answers that a lookup gives. */
  predicate FromEngine(found: R.Found) {
    found == R.FoundHit || found == R.FoundGrace || found == R.FoundNothing
  }

  /** Whatever the variants and their flags, a lookup tells the machine of a hit, a grace hit or nothing. */
  lemma AnswersFromEngine(u: Utf8, variants: seq<ObjCore>, headers: Option<seq<Header>>, now: real, r: LookupResult)
    requires Answers(u, variants, headers, now, r)
    ensures FromEngine(FoundFor(r))
    ensures FoundFor(r) == R.FoundNothing <==> NothingToServe(u, variants, headers, now)
    ensures FoundFor(r) == R.FoundHit <==>
              exists oc | oc in variants :: Considered(u, oc, headers) && Servable(oc) && Fresh(oc, now)
  {
    MissExactly(u, variants, headers, now, r);
    if oc :| oc in variants && Considered(u, oc, headers) && Servable(oc) && Fresh(oc, now) {
      var i :| 0 <= i < |variants| && variants[i] == oc;
      assert HitAt(u, variants, headers, now, i);
    }
  }

  // ---------------------------------------------------------------- runs on the engine's answers

  ghost predicate EngineAnswers(f: nat -> R.Answer) {
    forall i: nat :: FromEngine(f(i).found)
  }

  /** VCL sends the request to Pass, from `vcl_recv`, `vcl_hit` or `vcl_miss`. */
  ghost predicate PassesAt(c: R.Config, run: nat -> R.Ctx, f: nat -> R.Answer, i: nat) {
    && c.vcl && f(i).exec == R.Returned(R.VPass)
    && (run(i).state == R.InRecv || (run(i).state == R.InLookup && f(i).found != R.FoundGrace))
  }

  lemma PassStep(c: R.Config, run: nat -> R.Ctx, f: nat -> R.Answer, i: nat)
    requires R.IsRun(c, run, f) && EngineAnswers(f)
    ensures run(i + 1).state == R.InPass <==> PassesAt(c, run, f, i)
  {
    assert R.StepAt(c, run, f, i);
    assert FromEngine(f(i).found);
  }

  /** Served by the engine, a request is in pass mode exactly when VCL sent it there: no cached mark ever does. */
  lemma {:induction false} PassOnlyByVcl(c: R.Config, run: nat -> R.Ctx, f: nat -> R.Answer, n: nat)
    requires R.IsRun(c, run, f) && EngineAnswers(f)
    ensures run(n).isPass || run(n).state == R.InPass <==> exists i | 0 <= i < n :: PassesAt(c, run, f, i)
  {
    if n > 0 {
      PassOnlyByVcl(c, run, f, n - 1);
      R.FlagsStep(c, run, f, n - 1);
      PassStep(c, run, f, n - 1);
    }
  }

  // ---------------------------------------------------------------- marked objects

  /** A lookup that finds no servable object misses, and drops them all with their marks. */
  method LookupMarked(u: Utf8, e: CacheEngine, d: Digest, headers: Option<seq<Header>>, now: real)
    returns (r: LookupResult)
    requires e.Valid() && e.lru.clock < U64_MAX
    requires forall oc | oc in Listed(e.objects, d) :: !Servable(oc)
    modifies e`objects, e.lru, e.lru.repr
    ensures FoundFor(r) == R.FoundNothing && e.Valid() && d !in e.objects
  {
    r := e.Lookup(u, d, headers, now);
  }

  /**
   * On a new engine: store an object for 100 seconds and mark it hit-for-pass. It evaluates to
   * hit-for-pass, but the lookup tells the machine of nothing and forgets the mark.
   */
  method HitForPassForgotten(u: Utf8, d: Digest, headers: Option<seq<Header>>)
    returns (alone: LookupResult, found: LookupResult, e: CacheEngine)
    ensures alone == HitForPass && FoundFor(found) == R.FoundNothing && e.Valid() && d !in e.objects
  {
    var oc;
    e, oc := StoreOne(10, d, 100.0, 0.0, 0.0, None, 0.0);
    oc.SetFlag(Hfp);
    alone := Evaluate(oc, 1.0);
    found := LookupMarked(u, e, d, headers, 1.0);
  }
}
