/**
 * Where each state of a request leads, in terms of what VCL returned and the backend answered
 * (`handle_request` and the state functions in crates/rv-server/src/runtime.rs, `RequestFsm` in
 * crates/rv-cache/src/request.rs).
 */
module RequestSteps {
  import opened Types
  import opened RequestRuns

  /** VCL is there and returned `v`. */
  predicate Returns(c: Config, e: Exec, v: Verdict) {
    c.vcl && e == Returned(v)
  }

  /** VCL is there and returned one of `vs`. */
  predicate ReturnsOneOf(c: Config, e: Exec, vs: set<Verdict>) {
    c.vcl && e.Returned? && e.verdict in vs
  }

  /** The lookup calls `vcl_hit` or `vcl_miss`. */
  predicate Consults(found: Found) {
    found == FoundHit || found == FoundNothing
  }

  // ---------------------------------------------------------------- the table of states

  /** From Recv: pass, pipe and synth are obeyed, a failed subroutine is synth, all else is looked up. */
  lemma FromRecv(c: Config, run: nat -> Ctx, f: nat -> Answer, i: nat)
    requires IsRun(c, run, f) && run(i).state == InRecv
    ensures var e, s := f(i).exec, run(i + 1).state;
            && (s == InPass <==> Returns(c, e, VPass)) && (s == InPipe <==> Returns(c, e, VPipe))
            && (s == InSynth <==> Returns(c, e, VSynth) || (c.vcl && e == Failed))
            && (s == InLookup <==> s != InPass && s != InPipe && s != InSynth)
  {
    assert StepAt(c, run, f, i);
  }

  /** From Lookup, on the verdict of `vcl_hit` or `vcl_miss` where one was returned. */
  lemma FromLookup(c: Config, run: nat -> Ctx, f: nat -> Answer, i: nat)
    requires IsRun(c, run, f) && run(i).state == InLookup
    ensures var a, s := f(i), run(i + 1).state;
            var silent := !(c.vcl && a.exec.Returned?);
            && (s == InDeliver <==> || a.found == FoundGrace || (a.found == FoundHit && silent)
                                    || (Consults(a.found) && ReturnsOneOf(c, a.exec, {VDeliver, VOk})))
            && (s == InPass <==> a.found == FoundPass || (Consults(a.found) && Returns(c, a.exec, VPass)))
            && (s == InSynth <==> Consults(a.found) && Returns(c, a.exec, VSynth))
            && (s == InRecv <==> Consults(a.found) && Returns(c, a.exec, VRestart))
            && (s == InMiss <==> || a.found == FoundBusy || (a.found == FoundNothing && silent)
                                 || (Consults(a.found) &&
                                     ReturnsOneOf(c, a.exec, {VPipe, VHash, VLookup, VFetch, VPurge, VRetry, VFail,
                                                              VAbandon, VError})))
  {
    assert StepAt(c, run, f, i);
    match f(i).exec
    case Returned(v) => match v { case VDeliver => case VOk => case _ => }
    case _ =>
  }

  lemma FromPassOrMiss(c: Config, run: nat -> Ctx, f: nat -> Answer, i: nat)
    requires IsRun(c, run, f) && (run(i).state == InPass || run(i).state == InMiss)
    ensures run(i + 1).state == InFetch
  {
    assert StepAt(c, run, f, i);
  }

  /** A delivery ends the request, unless VCL asks for a restart and one is left. */
  lemma FromDeliver(c: Config, run: nat -> Ctx, f: nat -> Answer, i: nat)
    requires IsRun(c, run, f) && run(i).state == InDeliver
    ensures run(i + 1).state ==
            if Returns(c, f(i).exec, VRestart) && run(i).restarts < c.maxRestarts then InRecv else Done
  {
    assert StepAt(c, run, f, i);
    NoResponseYet(c, run, f, i);
  }

  lemma FromSynthOrPipe(c: Config, run: nat -> Ctx, f: nat -> Answer, i: nat)
    requires IsRun(c, run, f) && (run(i).state == InSynth || run(i).state == InPipe)
    ensures run(i + 1).state == Done
  {
    assert StepAt(c, run, f, i);
  }

  // ---------------------------------------------------------------- the fetch

  /** The backend is there and `vcl_backend_fetch` does not abandon. */
  predicate Asked(c: Config, a: Answer) {
    c.backend && !Returns(c, a.backendFetch, VAbandon)
  }

  /** It was asked, it answered, and `vcl_backend_response` does not abandon. */
  predicate Arrived(c: Config, a: Answer) {
    Asked(c, a) && a.response.Some? && !Returns(c, a.backendResponse, VAbandon)
  }

  lemma ActionStep(c: Config, run: nat -> Ctx, f: nat -> Answer, i: nat)
    requires IsRun(c, run, f)
    ensures run(i + 1).state == InPass || run(i + 1).state == InMiss ==> run(i + 1).action != Some(Synth)
    ensures run(i + 1).state == InFetch ==> run(i).state == InPass || run(i).state == InMiss
    ensures run(i + 1).state == InFetch && run(i).action != Some(Synth) ==>
              (run(i + 1).action == Some(Synth) <==> Returns(c, f(i).exec, VSynth))
  {
    assert StepAt(c, run, f, i);
  }

  /** A fetch follows `vcl_pass` or `vcl_miss`; synth is asked for exactly when that returned it. */
  lemma BeforeFetching(c: Config, run: nat -> Ctx, f: nat -> Answer, i: nat)
    requires IsRun(c, run, f) && run(i).state == InFetch
    ensures i > 1 && (run(i - 1).state == InPass || run(i - 1).state == InMiss)
    ensures run(i).action == Some(Synth) <==> Returns(c, f(i - 1).exec, VSynth)
  {
    assert run(0) == START;
    ActionStep(c, run, f, i - 1);
    assert i > 1;
    ActionStep(c, run, f, i - 2);
  }

  /** From Fetch: delivered when the response arrived and `vcl_pass` or `vcl_miss` did not return synth. */
  lemma FromFetch(c: Config, run: nat -> Ctx, f: nat -> Answer, i: nat)
    requires IsRun(c, run, f) && run(i).state == InFetch
    ensures i > 1 && run(i + 1).state ==
                     if Arrived(c, f(i)) && !Returns(c, f(i - 1).exec, VSynth) then InDeliver else InSynth
    ensures Effects(c, run(i), f(i)).sent <==> Asked(c, f(i))
  {
    assert StepAt(c, run, f, i);
    BeforeFetching(c, run, f, i);
  }

  /** Only a fetch asks the backend. */
  lemma AskedOnlyInFetch(c: Config, run: nat -> Ctx, f: nat -> Answer, i: nat)
    ensures Effects(c, run(i), f(i)).sent <==> run(i).state == InFetch && Asked(c, f(i))
  {
  }

  /**
   * A lookup that finds nothing and to which VCL answers nothing or fetch is followed, two
   * iterations later, by a request to the backend, if there is one and it is not abandoned.
   */
  lemma MissAsksBackend(c: Config, run: nat -> Ctx, f: nat -> Answer, i: nat)
    requires IsRun(c, run, f) && run(i).state == InLookup && f(i).found == FoundNothing
    requires !(c.vcl && f(i).exec.Returned?) || f(i).exec.verdict == VFetch
    ensures run(i + 1).state == InMiss && run(i + 2).state == InFetch
    ensures Effects(c, run(i + 2), f(i + 2)).sent <==> Asked(c, f(i + 2))
  {
    FromLookup(c, run, f, i);
    FromPassOrMiss(c, run, f, i + 1);
    AskedOnlyInFetch(c, run, f, i + 2);
  }

  // ---------------------------------------------------------------- what is kept and counted

  /** A response with status 200 and a body, that neither `vcl_backend_response` nor its mark keeps out of the cache. */
  predicate MayStore(c: Config, a: Answer) {
    && Arrived(c, a) && a.response.value.ok && a.response.value.body
    && !Returns(c, a.backendResponse, VPass) && !(c.vcl && a.response.value.uncacheable)
  }

  /** An iteration inserts exactly when it fetches such a response after a lookup and the run has never been in Pass. */
  lemma InsertsExactly(c: Config, run: nat -> Ctx, f: nat -> Answer, n: nat)
    requires IsRun(c, run, f)
    ensures Effects(c, run(n), f(n)).stored <==>
              && run(n).state == InFetch && MayStore(c, f(n))
              && (exists i | 0 <= i < n :: run(i).state == InLookup)
              && (forall i | 0 <= i < n :: run(i).state != InPass)
  {
    StoredExactly(c, run, f, n);
  }

  /** A backend response is at hand exactly when one arrived, or a delivery under VCL has left an empty one. */
  lemma ResponseExactly(c: Config, run: nat -> Ctx, f: nat -> Answer, n: nat)
    requires IsRun(c, run, f)
    ensures run(n).beresp <==>
            exists i | 0 <= i < n ::
              (run(i).state == InFetch && Arrived(c, f(i))) || (run(i).state == InDeliver && c.vcl)
  {
    BerespIff(c, run, f, n);
    assert forall i: nat :: Fetched(c, f(i)) <==> Arrived(c, f(i));
    if run(n).beresp {
      var i :| 0 <= i < n && BringsResponse(c, run(i), f(i));
      assert (run(i).state == InFetch && Arrived(c, f(i))) || (run(i).state == InDeliver && c.vcl);
    }
    if i :| 0 <= i < n && ((run(i).state == InFetch && Arrived(c, f(i))) || (run(i).state == InDeliver && c.vcl)) {
      assert BringsResponse(c, run(i), f(i));
    }
  }

  /** Restarts are counted in Deliver and in Synth, where VCL asks for one that is left, and nowhere else. */
  lemma RestartsCounted(c: Config, run: nat -> Ctx, f: nat -> Answer, i: nat)
    requires IsRun(c, run, f)
    ensures run(i + 1).restarts == run(i).restarts +
            if && (run(i).state == InDeliver || run(i).state == InSynth)
               && Returns(c, f(i).exec, VRestart) && run(i).restarts < c.maxRestarts
            then 1 else 0
  {
    assert StepAt(c, run, f, i);
    NoResponseYet(c, run, f, i);
  }

  // ---------------------------------------------------------------- a run

  /** VCL returns nothing but fetch from `vcl_miss`, and nothing is cached. */
  const FETCHING: Answer :=
    Answer(Returned(VFetch), FoundNothing, Fallthrough, Fallthrough, Some(Response(true, true, false)))

  /** Such a request asks the backend once, inserts the response and delivers it. */
  lemma MissFetchDeliver(c: Config, run: nat -> Ctx, f: nat -> Answer)
    requires c.vcl && c.backend && IsRun(c, run, f) && forall i: nat :: f(i) == FETCHING
    ensures Effects(c, run(3), f(3)) == Effect(true, true)
    ensures run(5).state == Done && run(5).response == Some(Backend)
  {
    FetchingStates(c, run, f);
    assert Effects(c, run(3), f(3)) == Effect(true, true) by {
      InsertsExactly(c, run, f, 3);
    }
    DeliversBackend(c, run, f, 4);
  }

  lemma FetchingStates(c: Config, run: nat -> Ctx, f: nat -> Answer)
    requires c.vcl && c.backend && IsRun(c, run, f) && forall i: nat :: f(i) == FETCHING
    ensures run(0).state == InRecv && run(1).state == InLookup && run(2).state == InMiss
    ensures run(3).state == InFetch && run(4).state == InDeliver && run(5).state == Done
  {
    FromRecv(c, run, f, 0);
    MissAsksBackend(c, run, f, 1);
    FromFetch(c, run, f, 3);
    FromDeliver(c, run, f, 4);
  }

  lemma DeliversBackend(c: Config, run: nat -> Ctx, f: nat -> Answer, n: nat)
    requires c.vcl && c.backend && IsRun(c, run, f) && (forall i: nat :: f(i) == FETCHING) && n > 0
    requires run(n - 1).state == InFetch && run(n).state == InDeliver
    ensures run(n + 1).response == Some(Backend)
  {
    assert Arrived(c, f(n - 1));
    ResponseExactly(c, run, f, n);
    HitIff(c, run, f, n);
    assert StepAt(c, run, f, n);
  }
}
