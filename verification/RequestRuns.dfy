/**
 * The request state machine (`RequestFsm` in crates/rv-cache/src/request.rs, driven by
 * `handle_request` in crates/rv-server/src/runtime.rs). Every VCL subroutine, the cache lookup
 * and the backend are answered by the environment: a run is driven by an endless stream of
 * answers, one per iteration of the loop.
 */
module RequestRuns {
  import opened Types

  datatype State = InRecv | InLookup | InPass | InPipe | InMiss | InFetch | InDeliver | InSynth | Done

  /** The cache's view of what a subroutine returned (`VclAction`). */
  datatype Action = Lookup | Pass | Pipe | Hash | Purge | Synth | Restart | Deliver | Fetch | Retry | Fail

  /** What the interpreter can return. */
  datatype Verdict =
    | VDeliver | VPass | VPipe | VHash | VLookup | VFetch | VSynth | VPurge | VRestart | VRetry | VFail
    | VAbandon | VError | VOk

  datatype Exec = Returned(verdict: Verdict) | Fallthrough | Failed

  datatype Found = FoundHit | FoundGrace | FoundPass | FoundBusy | FoundNothing

  /** A backend response: is it a 200, has it a body, did VCL mark it uncacheable. */
  datatype Response = Response(ok: bool, body: bool, uncacheable: bool)

  /** The environment's answers for one iteration; each state uses the ones it asks for. */
  datatype Answer = Answer(
    exec: Exec, found: Found, backendFetch: Exec, backendResponse: Exec, response: Option<Response>)

  datatype Config = Config(vcl: bool, backend: bool, maxRestarts: nat)

  /** What the response is made from: the object found, the backend's response, nothing (a 500), or VCL. */
  datatype Source = Cached | Backend | Error500 | Synthetic

  /** The context fields that steer the machine; `hit`, `digest` and `beresp` say which options are filled. */
  datatype Ctx = Ctx(
    state: State, action: Option<Action>, restarts: nat, isPass: bool,
    digest: bool, hit: bool, beresp: bool, response: Option<Source>)

  /** What an iteration did outside the context: a backend request, a cache insertion. */
  datatype Effect = Effect(sent: bool, stored: bool)

  const START: Ctx := Ctx(InRecv, None, 0, false, false, false, false, None)

  function Convert(v: Verdict): Action {
    match v
    case VDeliver => Deliver
    case VPass => Pass
    case VPipe => Pipe
    case VHash => Hash
    case VLookup => Lookup
    case VFetch => Fetch
    case VSynth => Synth
    case VPurge => Purge
    case VRestart => Restart
    case VRetry => Retry
    case VFail => Fail
    case VAbandon => Fail
    case VError => Fail
    case VOk => Deliver
  }

  // ---------------------------------------------------------------- one iteration

  function AfterRecv(c: Config, x: Ctx, a: Answer): Ctx {
    var action :=
      if !c.vcl then None
      else match a.exec
        case Returned(v) => Some(Convert(v))
        case Fallthrough => None
        case Failed => Some(Synth);
    var next :=
      if action == Some(Pass) then InPass
      else if action == Some(Pipe) then InPipe
      else if action == Some(Synth) then InSynth
      else InLookup;
    x.(state := next, action := action)
  }

  function LookupAction(c: Config, a: Answer): Option<Action> {
    match a.found
    case FoundHit => if c.vcl && a.exec.Returned? then Some(Convert(a.exec.verdict)) else Some(Deliver)
    case FoundGrace => Some(Deliver)
    case FoundPass => Some(Pass)
    case FoundBusy => None
    case FoundNothing => if c.vcl && a.exec.Returned? then Some(Convert(a.exec.verdict)) else None
  }

  function AfterLookup(c: Config, x: Ctx, a: Answer): Ctx {
    var action := LookupAction(c, a);
    var next :=
      if action == Some(Deliver) then InDeliver
      else if action == Some(Pass) then InPass
      else if action == Some(Synth) then InSynth
      else if action == Some(Restart) then InRecv
      else InMiss;
    x.(state := next, action := action, digest := true, hit := x.hit || a.found.FoundHit? || a.found.FoundGrace?)
  }

  /** `vcl_pass` and the second `vcl_miss`: only a returned action replaces the one at hand. */
  function Overridden(c: Config, x: Ctx, a: Answer): Option<Action> {
    if c.vcl && a.exec.Returned? then Some(Convert(a.exec.verdict)) else x.action
  }

  /** The backend is asked, unless there is none or `vcl_backend_fetch` abandons. */
  predicate Sends(c: Config, a: Answer) {
    c.backend && !(c.vcl && a.backendFetch == Returned(VAbandon))
  }

  /** The response arrived and `vcl_backend_response` did not abandon it. */
  predicate Fetched(c: Config, a: Answer) {
    Sends(c, a) && a.response.Some? && !(c.vcl && a.backendResponse == Returned(VAbandon))
  }

  /** The caching guard. */
  predicate Stores(c: Config, x: Ctx, a: Answer) {
    && Fetched(c, a) && !x.isPass
    && !(c.vcl && (a.backendResponse == Returned(VPass) || a.response.value.uncacheable))
    && a.response.value.ok && a.response.value.body && x.digest
  }

  function AfterFetch(c: Config, x: Ctx, a: Answer): Ctx {
    var action := if Fetched(c, a) then x.action else Some(Synth);
    x.(state := if action == Some(Synth) then InSynth else InDeliver,
       action := action, beresp := x.beresp || Fetched(c, a))
  }

  /** The object goes before the backend's response. */
  function DeliveredFrom(x: Ctx): Source {
    if x.hit then Cached else if x.beresp then Backend else Error500
  }

  /** `vcl_deliver` or `vcl_synth` answers restart. */
  predicate AsksRestart(c: Config, a: Answer) {
    c.vcl && a.exec == Returned(VRestart)
  }

  /** No response is kept when `vcl_deliver` answers restart, whether or not there is one left. */
  function AfterDeliver(c: Config, x: Ctx, a: Answer): Ctx {
    var action :=
      if !c.vcl then x.action
      else if a.exec.Returned? then Some(Convert(a.exec.verdict))
      else Some(Deliver);
    var y := x.(action := action, beresp := x.beresp || c.vcl,
                response := if AsksRestart(c, a) then x.response else Some(DeliveredFrom(x)));
    if action == Some(Restart) && x.restarts < c.maxRestarts then
      y.(state := InRecv, action := None, restarts := x.restarts + 1)
    else y.(state := Done)
  }

  /** A restart from `vcl_synth` is counted and no response is kept, but the request ends all the same. */
  function AfterSynth(c: Config, x: Ctx, a: Answer): Ctx {
    if AsksRestart(c, a) && x.restarts < c.maxRestarts then
      x.(state := Done, action := None, restarts := x.restarts + 1)
    else x.(state := Done, response := Some(Synthetic))
  }

  function Next(c: Config, x: Ctx, a: Answer): Ctx {
    match x.state
    case InRecv => AfterRecv(c, x, a)
    case InLookup => AfterLookup(c, x, a)
    case InPass => x.(state := InFetch, action := Overridden(c, x, a), isPass := true)
    case InMiss => x.(state := InFetch, action := Overridden(c, x, a))
    case InPipe => x.(state := Done)
    case InFetch => AfterFetch(c, x, a)
    case InDeliver => AfterDeliver(c, x, a)
    case InSynth => AfterSynth(c, x, a)
    case Done => x
  }

  function Effects(c: Config, x: Ctx, a: Answer): Effect {
    if x.state == InFetch then Effect(Sends(c, a), Stores(c, x, a)) else Effect(false, false)
  }

  // ---------------------------------------------------------------- the loop

  class RequestContext {
    const config: Config
    var state: State
    var action: Option<Action>
    var restarts: nat
    var isPass: bool
    var digest: bool
    var hit: bool
    var beresp: bool
    var response: Option<Source>

    ghost function View(): Ctx
      reads this
    {
      Ctx(state, action, restarts, isPass, digest, hit, beresp, response)
    }

    constructor (config: Config)
      ensures View() == START && this.config == config
    {
      this.config := config;
      state := InRecv;
      action := None;
      restarts := 0;
      isPass := false;
      digest := false;
      hit := false;
      beresp := false;
      response := None;
    }

    /** `RequestFsm::step`. */
    method Step()
      modifies this`state
      ensures state == match old(state)
                       case InRecv =>
                         (match action
                          case Some(Pass) => InPass
                          case Some(Pipe) => InPipe
                          case Some(Synth) => InSynth
                          case _ => InLookup)
                       case InLookup =>
                         (match action
                          case Some(Deliver) => InDeliver
                          case Some(Pass) => InPass
                          case Some(Synth) => InSynth
                          case Some(Restart) => InRecv
                          case _ => InMiss)
                       case InPass => InFetch
                       case InMiss => InFetch
                       case InFetch => InDeliver
                       case InSynth => InDeliver
                       case _ => Done
    {
      state := match state
        case InRecv => HandleRecv()
        case InLookup => HandleLookup()
        case InPass => InFetch
        case InPipe => Done
        case InMiss => InFetch
        case InFetch => InDeliver
        case InDeliver => Done
        case InSynth => InDeliver
        case Done => Done;
    }

    function HandleRecv(): State
      reads this
    {
      match action
      case Some(Lookup) => InLookup
      case Some(Hash) => InLookup
      case Some(Pass) => InPass
      case Some(Pipe) => InPipe
      case Some(Synth) => InSynth
      case Some(Purge) => InLookup
      case _ => InLookup
    }

    function HandleLookup(): State
      reads this
    {
      match action
      case Some(Deliver) => InDeliver
      case Some(Pass) => InPass
      case Some(Fetch) => InMiss
      case Some(Synth) => InSynth
      case Some(Restart) => InRecv
      case _ => InMiss
    }

    method StateRecv(a: Answer)
      modifies this`action
      ensures View() == AfterRecv(config, old(View()), a).(state := state)
    {
      action := None;
      if config.vcl {
        match a.exec
        case Returned(v) => action := Some(Convert(v));
        case Fallthrough =>
        case Failed => action := Some(Synth);
      }
    }

    method StateLookup(a: Answer)
      modifies this`action, this`digest, this`hit
      ensures View() == AfterLookup(config, old(View()), a).(state := state)
    {
      digest := true;
      match a.found
      case FoundHit =>
        hit := true;
        action := Some(Deliver);
        if config.vcl && a.exec.Returned? {
          action := Some(Convert(a.exec.verdict));
        }
      case FoundGrace =>
        hit := true;
        action := Some(Deliver);
      case FoundPass => action := Some(Pass);
      case FoundBusy => action := None;
      case FoundNothing =>
        action := None;
        if config.vcl && a.exec.Returned? {
          action := Some(Convert(a.exec.verdict));
        }
    }

    method RunVclPassOrMiss(a: Answer)
      modifies this`action
      ensures action == Overridden(config, old(View()), a)
    {
      if config.vcl && a.exec.Returned? {
        action := Some(Convert(a.exec.verdict));
      }
    }

    method StateFetch(a: Answer) returns (e: Effect)
      requires state == InFetch
      modifies this`action, this`beresp
      ensures View() == AfterFetch(config, old(View()), a).(state := InFetch)
      ensures e == Effects(config, old(View()), a)
    {
      if !config.backend || (config.vcl && a.backendFetch == Returned(VAbandon)) {
        action := Some(Synth);
        return Effect(false, false);
      }
      if a.response.None? || (config.vcl && a.backendResponse == Returned(VAbandon)) {
        action := Some(Synth);
        return Effect(true, false);
      }
      var uncacheable := false;
      if config.vcl {
        uncacheable := a.backendResponse == Returned(VPass) || a.response.value.uncacheable;
      }
      var stored := false;
      if !isPass && !uncacheable && a.response.value.ok {
        if a.response.value.body && digest {
          stored := true;
        }
      }
      beresp := true;
      return Effect(true, stored);
    }

    method StateDeliver(a: Answer)
      modifies this`action, this`beresp, this`response
      ensures action == if !config.vcl then old(action)
                        else if a.exec.Returned? then Some(Convert(a.exec.verdict))
                        else Some(Deliver)
      ensures beresp == (old(beresp) || config.vcl)
      ensures response == if AsksRestart(config, a) then old(response) else Some(DeliveredFrom(old(View())))
    {
      var source;
      if hit {
        source := Cached;
      } else if beresp {
        source := Backend;
      } else {
        source := Error500;
      }
      if config.vcl {
        action := if a.exec.Returned? then Some(Convert(a.exec.verdict)) else Some(Deliver);
        beresp := true;
        if a.exec == Returned(VRestart) {
          return;
        }
      }
      response := Some(source);
    }

    method StateSynth(a: Answer)
      modifies this
      ensures var after := AfterSynth(config, old(View()), a); View() == after.(state := state)
    {
      if config.vcl && a.exec.Returned? {
        if a.exec.verdict == VRestart && restarts < config.maxRestarts {
          restarts := restarts + 1;
          state := InRecv;
          action := None;
          return;
        }
      }
      response := Some(Synthetic);
    }

    /** The Fetch arm of the loop. */
    method Fetching(a: Answer) returns (e: Effect)
      requires state == InFetch
      modifies this
      ensures View() == AfterFetch(config, old(View()), a) && e == Effects(config, old(View()), a)
    {
      e := StateFetch(a);
      if action == Some(Synth) {
        state := InSynth;
      } else {
        Step();
      }
    }

    /** The Deliver arm of the loop. */
    method Delivering(a: Answer)
      requires state == InDeliver
      modifies this
      ensures View() == AfterDeliver(config, old(View()), a)
    {
      StateDeliver(a);
      if action == Some(Restart) && restarts < config.maxRestarts {
        restarts := restarts + 1;
        state := InRecv;
        action := None;
      } else {
        Step();
      }
    }

    /** One iteration of the loop in `handle_request`. */
    method Iterate(a: Answer) returns (e: Effect)
      requires state != Done
      modifies this
      ensures View() == Next(config, old(View()), a) && e == Effects(config, old(View()), a)
    {
      e := Effect(false, false);
      match state
      case InRecv =>
        StateRecv(a);
        Step();
      case InLookup =>
        StateLookup(a);
        Step();
      case InPass =>
        isPass := true;
        RunVclPassOrMiss(a);
        Step();
      case InMiss =>
        RunVclPassOrMiss(a);
        Step();
      case InPipe =>
        Step();
      case InFetch =>
        e := Fetching(a);
      case InDeliver =>
        Delivering(a);
      case InSynth =>
        StateSynth(a);
        state := Done;
    }

    /** At most `n` iterations of the loop: it has ended exactly when it is Done by then. */
    method HandleRequest(f: nat -> Answer, ghost run: nat -> Ctx, n: nat) returns (effects: seq<Effect>)
      requires View() == START && IsRun(config, run, f)
      modifies this
      ensures View() == run(n)
      ensures |effects| <= n && forall i | 0 <= i < |effects| :: effects[i] == Effects(config, run(i), f(i))
      ensures state == Done || |effects| == n
    {
      effects := [];
      var i := 0;
      while i < n && state != Done
        invariant 0 <= i <= n && |effects| == i && View() == run(i)
        invariant forall j | 0 <= j < i :: effects[j] == Effects(config, run(j), f(j))
      {
        assert StepAt(config, run, f, i);
        var e := Iterate(f(i));
        effects := effects + [e];
        i := i + 1;
      }
      DoneStays(config, run, f, i, n);
    }
  }

  // ---------------------------------------------------------------- runs

  ghost predicate StepAt(c: Config, run: nat -> Ctx, f: nat -> Answer, i: nat) {
    run(i + 1) == Next(c, run(i), f(i))
  }

  /** `run` lists the contexts of a request before each iteration, answered by `f`. */
  ghost predicate IsRun(c: Config, run: nat -> Ctx, f: nat -> Answer) {
    run(0) == START && forall i: nat :: StepAt(c, run, f, i)
  }

  ghost function Contexts(c: Config, f: nat -> Answer, n: nat): Ctx {
    if n == 0 then START else Next(c, Contexts(c, f, n - 1), f(n - 1))
  }

  /** Every stream of answers drives a run. */
  lemma RunExists(c: Config, f: nat -> Answer)
    ensures exists run :: IsRun(c, run, f)
  {
    var run := (n: nat) => Contexts(c, f, n);
    assert IsRun(c, run, f);
  }

  // ---------------------------------------------------------------- what one iteration does to a run

  predicate BeforeFetch(s: State) {
    s == InRecv || s == InLookup || s == InPass || s == InMiss || s == InFetch
  }

  function RestartsLeft(c: Config, x: Ctx): nat {
    if x.restarts <= c.maxRestarts then c.maxRestarts - x.restarts else 0
  }

  /** Fetches still possible: one per restart left, and the current round's. */
  function FetchesLeft(c: Config, x: Ctx): nat {
    RestartsLeft(c, x) + if BeforeFetch(x.state) then 1 else 0
  }

  function Rank(s: State): nat {
    match s
    case InRecv => 5
    case InLookup => 4
    case InPass => 3
    case InMiss => 3
    case InFetch => 2
    case InDeliver => 1
    case InSynth => 1
    case InPipe => 1
    case Done => 0
  }

  function StepsLeft(c: Config, x: Ctx): nat {
    if x.state == Done then 0 else 5 * RestartsLeft(c, x) + Rank(x.state)
  }

  /** An iteration in which `vcl_hit` or `vcl_miss` restarts the request; nothing counts it. */
  predicate Uncounted(c: Config, x: Ctx, a: Answer) {
    && x.state == InLookup && c.vcl && (a.found == FoundHit || a.found == FoundNothing)
    && a.exec == Returned(VRestart)
  }

  predicate Sent(c: Config, x: Ctx, a: Answer) {
    Effects(c, x, a).sent
  }

  lemma FetchNext(c: Config, x: Ctx, a: Answer)
    ensures FetchesLeft(c, Next(c, x, a)) + (if Sent(c, x, a) then 1 else 0) <= FetchesLeft(c, x)
  {
    if x.state == InDeliver {
      assert RestartsLeft(c, AfterDeliver(c, x, a)) <= RestartsLeft(c, x);
    } else if x.state == InSynth {
      assert RestartsLeft(c, AfterSynth(c, x, a)) <= RestartsLeft(c, x);
    }
  }

  lemma FetchStep(c: Config, run: nat -> Ctx, f: nat -> Answer, i: nat)
    requires IsRun(c, run, f)
    ensures FetchesLeft(c, run(i + 1)) + (if Sent(c, run(i), f(i)) then 1 else 0) <= FetchesLeft(c, run(i))
  {
    assert StepAt(c, run, f, i);
    FetchNext(c, run(i), f(i));
  }

  /** Every iteration decreases (restarts left, rank of the state), unless it restarts a lookup. */
  lemma MeasureStep(c: Config, run: nat -> Ctx, f: nat -> Answer, i: nat)
    requires IsRun(c, run, f) && run(i).state != Done
    ensures (|| RestartsLeft(c, run(i + 1)) < RestartsLeft(c, run(i))
             || (RestartsLeft(c, run(i + 1)) == RestartsLeft(c, run(i)) && Rank(run(i + 1).state) < Rank(run(i).state)))
            <==> !Uncounted(c, run(i), f(i))
    ensures StepsLeft(c, run(i + 1)) + 1 <= StepsLeft(c, run(i)) + if Uncounted(c, run(i), f(i)) then 2 else 0
  {
    assert StepAt(c, run, f, i);
  }

  lemma DoneStep(c: Config, run: nat -> Ctx, f: nat -> Answer, i: nat)
    requires IsRun(c, run, f) && run(i).state == Done
    ensures run(i + 1) == run(i)
  {
    assert StepAt(c, run, f, i);
  }

  predicate FindsObject(x: Ctx, a: Answer) {
    x.state == InLookup && (a.found == FoundHit || a.found == FoundGrace)
  }

  /** A fetch that succeeds; or a delivery under VCL, which leaves an empty response where there was none. */
  predicate BringsResponse(c: Config, x: Ctx, a: Answer) {
    (x.state == InFetch && Fetched(c, a)) || (x.state == InDeliver && c.vcl)
  }

  lemma FlagsStep(c: Config, run: nat -> Ctx, f: nat -> Answer, i: nat)
    requires IsRun(c, run, f)
    ensures run(i + 1).isPass <==> run(i).isPass || run(i).state == InPass
    ensures run(i + 1).digest <==> run(i).digest || run(i).state == InLookup
  {
    assert StepAt(c, run, f, i);
  }

  lemma RestartsStep(c: Config, run: nat -> Ctx, f: nat -> Answer, i: nat)
    requires IsRun(c, run, f) && run(i).restarts <= c.maxRestarts
    ensures run(i + 1).restarts <= c.maxRestarts
  {
    assert StepAt(c, run, f, i);
  }

  lemma SourcesStep(c: Config, run: nat -> Ctx, f: nat -> Answer, i: nat)
    requires IsRun(c, run, f)
    ensures run(i + 1).hit <==> run(i).hit || FindsObject(run(i), f(i))
    ensures run(i + 1).beresp <==> run(i).beresp || BringsResponse(c, run(i), f(i))
  {
    assert StepAt(c, run, f, i);
  }

  lemma {:induction false} DoneStays(c: Config, run: nat -> Ctx, f: nat -> Answer, i: nat, n: nat)
    requires IsRun(c, run, f) && i <= n && (run(i).state == Done || i == n)
    ensures run(n) == run(i)
  {
    if i < n {
      DoneStays(c, run, f, i, n - 1);
      DoneStep(c, run, f, n - 1);
    }
  }

  // ---------------------------------------------------------------- backend fetches

  /** How many of the first `n` iterations asked the backend. */
  ghost function Requests(c: Config, run: nat -> Ctx, f: nat -> Answer, n: nat): nat {
    if n == 0 then 0 else Requests(c, run, f, n - 1) + if Sent(c, run(n - 1), f(n - 1)) then 1 else 0
  }

  lemma {:induction false} FetchBudget(c: Config, run: nat -> Ctx, f: nat -> Answer, n: nat)
    requires IsRun(c, run, f)
    ensures Requests(c, run, f, n) + FetchesLeft(c, run(n)) <= c.maxRestarts + 1
  {
    if n > 0 {
      FetchBudget(c, run, f, n - 1);
      FetchStep(c, run, f, n - 1);
    }
  }

  /** In every run, whatever the answers, at most `maxRestarts` + 1 backend fetches. */
  lemma FetchesBounded(c: Config, run: nat -> Ctx, f: nat -> Answer, n: nat)
    requires IsRun(c, run, f)
    ensures Requests(c, run, f, n) <= c.maxRestarts + 1
  {
    FetchBudget(c, run, f, n);
  }

  /** Nothing is cached, and VCL says nothing. */
  const QUIET: Answer := Answer(Fallthrough, FoundNothing, Fallthrough, Fallthrough, Some(Response(true, true, false)))

  /** Nothing is cached, and every fifth iteration, which delivers, is answered with a restart. */
  function Restarting(i: nat): Answer {
    if i % 5 == 4 then QUIET.(exec := Returned(VRestart)) else QUIET
  }

  lemma RoundAnswers(k: nat)
    ensures Restarting(5 * k) == Restarting(5 * k + 1) == Restarting(5 * k + 2) == Restarting(5 * k + 3) == QUIET
    ensures Restarting(5 * k + 4) == QUIET.(exec := Returned(VRestart))
  {
  }

  ghost predicate AtState(x: Ctx, s: State, k: nat) {
    x.state == s && x.restarts == k && x.action == None
  }

  /** Where a request goes on from when VCL says nothing and nothing is cached. */
  function Onward(s: State): State {
    match s
    case InRecv => InLookup
    case InLookup => InMiss
    case _ => InFetch
  }

  lemma QuietStep(c: Config, run: nat -> Ctx, f: nat -> Answer, n: nat, s: State, k: nat)
    requires IsRun(c, run, f) && f(n) == QUIET && AtState(run(n), s, k)
    requires s == InRecv || s == InLookup || s == InMiss
    ensures AtState(run(n + 1), Onward(s), k) && Requests(c, run, f, n + 1) == Requests(c, run, f, n)
  {
    assert StepAt(c, run, f, n);
  }

  lemma QuietFetch(c: Config, run: nat -> Ctx, f: nat -> Answer, n: nat, k: nat)
    requires c.backend && IsRun(c, run, f) && f(n) == QUIET && AtState(run(n), InFetch, k)
    ensures AtState(run(n + 1), InDeliver, k) && Requests(c, run, f, n + 1) == Requests(c, run, f, n) + 1
  {
    assert StepAt(c, run, f, n);
  }

  lemma RestartedDelivery(c: Config, run: nat -> Ctx, f: nat -> Answer, n: nat, k: nat)
    requires c.vcl && IsRun(c, run, f) && f(n) == QUIET.(exec := Returned(VRestart)) && AtState(run(n), InDeliver, k)
    ensures k < c.maxRestarts ==> AtState(run(n + 1), InRecv, k + 1)
    ensures Requests(c, run, f, n + 1) == Requests(c, run, f, n)
  {
    assert StepAt(c, run, f, n);
  }

  lemma QuietRound(c: Config, run: nat -> Ctx, f: nat -> Answer, n: nat, k: nat)
    requires IsRun(c, run, f) && f(n) == f(n + 1) == f(n + 2) == QUIET && AtState(run(n), InRecv, k)
    ensures AtState(run(n + 3), InFetch, k) && Requests(c, run, f, n + 3) == Requests(c, run, f, n)
  {
    QuietStep(c, run, f, n, InRecv, k);
    QuietStep(c, run, f, n + 1, InLookup, k);
    QuietStep(c, run, f, n + 2, InMiss, k);
  }

  lemma FetchAndRestart(c: Config, run: nat -> Ctx, f: nat -> Answer, n: nat, k: nat)
    requires c.vcl && c.backend && IsRun(c, run, f) && AtState(run(n), InFetch, k)
    requires f(n) == QUIET && f(n + 1) == QUIET.(exec := Returned(VRestart))
    ensures Requests(c, run, f, n + 2) == Requests(c, run, f, n) + 1
    ensures k < c.maxRestarts ==> AtState(run(n + 2), InRecv, k + 1)
  {
    QuietFetch(c, run, f, n, k);
    RestartedDelivery(c, run, f, n + 1, k);
  }

  lemma RestartRound(c: Config, run: nat -> Ctx, f: nat -> Answer, k: nat)
    requires c.vcl && c.backend && IsRun(c, run, f) && forall i: nat :: f(i) == Restarting(i)
    requires AtState(run(5 * k), InRecv, k)
    ensures Requests(c, run, f, 5 * k + 5) == Requests(c, run, f, 5 * k) + 1
    ensures k < c.maxRestarts ==> AtState(run(5 * k + 5), InRecv, k + 1)
  {
    RoundAnswers(k);
    QuietRound(c, run, f, 5 * k, k);
    FetchAndRestart(c, run, f, 5 * k + 3, k);
  }

  lemma {:induction false} RestartRounds(c: Config, run: nat -> Ctx, f: nat -> Answer, k: nat)
    requires c.vcl && c.backend && k <= c.maxRestarts && IsRun(c, run, f)
    requires forall i: nat :: f(i) == Restarting(i)
    ensures AtState(run(5 * k), InRecv, k) && Requests(c, run, f, 5 * k) == k
  {
    if k > 0 {
      RestartRounds(c, run, f, k - 1);
      RestartRound(c, run, f, k - 1);
    }
  }

  /** The bound is reached by a VCL that restarts every delivery. */
  lemma FetchesReached(c: Config, run: nat -> Ctx, f: nat -> Answer)
    requires c.vcl && c.backend && IsRun(c, run, f) && forall i: nat :: f(i) == Restarting(i)
    ensures Requests(c, run, f, 5 * c.maxRestarts + 5) == c.maxRestarts + 1
  {
    RestartRounds(c, run, f, c.maxRestarts);
    RestartRound(c, run, f, c.maxRestarts);
  }

  // ---------------------------------------------------------------- termination

  ghost predicate UncountedAt(c: Config, run: nat -> Ctx, f: nat -> Answer, i: nat) {
    Uncounted(c, run(i), f(i))
  }

  ghost function UncountedIn(c: Config, run: nat -> Ctx, f: nat -> Answer, n: nat): nat {
    if n == 0 then 0 else UncountedIn(c, run, f, n - 1) + if UncountedAt(c, run, f, n - 1) then 1 else 0
  }

  lemma {:induction false} StepsUsed(c: Config, run: nat -> Ctx, f: nat -> Answer, n: nat)
    requires IsRun(c, run, f)
    ensures run(n).state == Done || n + StepsLeft(c, run(n)) <= 5 * (c.maxRestarts + 1) + 2 * UncountedIn(c, run, f, n)
  {
    if n > 0 {
      StepsUsed(c, run, f, n - 1);
      if run(n - 1).state == Done {
        DoneStep(c, run, f, n - 1);
      } else {
        MeasureStep(c, run, f, n - 1);
      }
    }
  }

  /** A run is over after five iterations per round and two per uncounted restart. */
  lemma DoneWithin(c: Config, run: nat -> Ctx, f: nat -> Answer, n: nat)
    requires IsRun(c, run, f) && n >= 5 * (c.maxRestarts + 1) + 2 * UncountedIn(c, run, f, n)
    ensures run(n).state == Done
  {
    StepsUsed(c, run, f, n);
  }

  /** Without an uncounted restart after the first `k` iterations, their number stays the same. */
  lemma {:induction false} UncountedStops(c: Config, run: nat -> Ctx, f: nat -> Answer, k: nat, n: nat)
    requires k <= n && forall i: nat | k <= i < n :: !UncountedAt(c, run, f, i)
    ensures UncountedIn(c, run, f, n) == UncountedIn(c, run, f, k)
  {
    if k < n {
      UncountedStops(c, run, f, k, n - 1);
    }
  }

  predicate RestartsLookup(a: Answer) {
    (a.found == FoundHit || a.found == FoundNothing) && a.exec == Returned(VRestart)
  }

  /** When `vcl_hit` and `vcl_miss` never restart, every run is Done within 5 * (maxRestarts + 1) iterations. */
  lemma AlwaysDone(c: Config, run: nat -> Ctx, f: nat -> Answer)
    requires IsRun(c, run, f) && forall i: nat :: !RestartsLookup(f(i))
    ensures run(5 * (c.maxRestarts + 1)).state == Done
  {
    UncountedStops(c, run, f, 0, 5 * (c.maxRestarts + 1));
    DoneWithin(c, run, f, 5 * (c.maxRestarts + 1));
  }

  /** From iteration `k` on, no lookup is restarted. */
  ghost predicate NoneFrom(c: Config, run: nat -> Ctx, f: nat -> Answer, k: nat) {
    forall n: nat | n >= k :: !UncountedAt(c, run, f, n)
  }

  /** A run ends exactly when only finitely many of its lookups are restarted. */
  lemma TerminatesIff(c: Config, run: nat -> Ctx, f: nat -> Answer)
    requires IsRun(c, run, f)
    ensures (exists n: nat :: run(n).state == Done) <==> (exists k: nat :: NoneFrom(c, run, f, k))
  {
    if k: nat :| NoneFrom(c, run, f, k) {
      var n := k + 5 * (c.maxRestarts + 1) + 2 * UncountedIn(c, run, f, k);
      UncountedStops(c, run, f, k, n);
      DoneWithin(c, run, f, n);
    }
    if k: nat :| run(k).state == Done {
      forall n: nat | n >= k
        ensures !UncountedAt(c, run, f, n)
      {
        DoneStays(c, run, f, k, n);
      }
      assert NoneFrom(c, run, f, k);
    }
  }

  /** A VCL that restarts every miss never finishes, and no restart is ever counted. */
  lemma {:induction false} NeverDone(c: Config, run: nat -> Ctx, f: nat -> Answer, n: nat)
    requires c.vcl && IsRun(c, run, f)
    requires forall i: nat :: f(i).exec == Returned(VRestart) && f(i).found == FoundNothing
    ensures run(n).state == (if n % 2 == 0 then InRecv else InLookup) && run(n).restarts == 0
  {
    if n > 0 {
      NeverDone(c, run, f, n - 1);
      assert StepAt(c, run, f, n - 1);
    }
  }

  // ---------------------------------------------------------------- pass and insertion

  /** A run is in pass mode exactly when it has been in Pass. */
  lemma {:induction false} PassModeIff(c: Config, run: nat -> Ctx, f: nat -> Answer, n: nat)
    requires IsRun(c, run, f)
    ensures run(n).isPass <==> exists i | 0 <= i < n :: run(i).state == InPass
  {
    if n > 0 {
      PassModeIff(c, run, f, n - 1);
      FlagsStep(c, run, f, n - 1);
    }
  }

  lemma {:induction false} DigestIff(c: Config, run: nat -> Ctx, f: nat -> Answer, n: nat)
    requires IsRun(c, run, f)
    ensures run(n).digest <==> exists i | 0 <= i < n :: run(i).state == InLookup
  {
    if n > 0 {
      DigestIff(c, run, f, n - 1);
      FlagsStep(c, run, f, n - 1);
    }
  }

  /** Cacheable by the backend's answer and VCL's. */
  predicate Cacheable(c: Config, a: Answer) {
    && Fetched(c, a) && a.response.value.ok && a.response.value.body
    && !(c.vcl && (a.backendResponse == Returned(VPass) || a.response.value.uncacheable))
  }

  /**
   * An iteration inserts exactly when it fetches a cacheable response after a lookup and the
   * run has never been in Pass.
   */
  lemma StoredExactly(c: Config, run: nat -> Ctx, f: nat -> Answer, n: nat)
    requires IsRun(c, run, f)
    ensures Effects(c, run(n), f(n)).stored <==>
              && run(n).state == InFetch && Cacheable(c, f(n))
              && (exists i | 0 <= i < n :: run(i).state == InLookup)
              && (forall i | 0 <= i < n :: run(i).state != InPass)
  {
    PassModeIff(c, run, f, n);
    DigestIff(c, run, f, n);
  }

  /** Once a run has been in Pass it never inserts again, restarts included. */
  lemma PassNeverStores(c: Config, run: nat -> Ctx, f: nat -> Answer, i: nat, j: nat)
    requires IsRun(c, run, f) && i < j && run(i).state == InPass
    ensures !Effects(c, run(j), f(j)).stored
  {
    StoredExactly(c, run, f, j);
  }

  // ---------------------------------------------------------------- what is delivered

  /** An object found by any lookup of the run stays with the request, across restarts. */
  lemma {:induction false} HitIff(c: Config, run: nat -> Ctx, f: nat -> Answer, n: nat)
    requires IsRun(c, run, f)
    ensures run(n).hit <==> exists i | 0 <= i < n :: FindsObject(run(i), f(i))
  {
    if n > 0 {
      HitIff(c, run, f, n - 1);
      SourcesStep(c, run, f, n - 1);
    }
  }

  lemma {:induction false} BerespIff(c: Config, run: nat -> Ctx, f: nat -> Answer, n: nat)
    requires IsRun(c, run, f)
    ensures run(n).beresp <==> exists i | 0 <= i < n :: BringsResponse(c, run(i), f(i))
  {
    if n > 0 {
      BerespIff(c, run, f, n - 1);
      SourcesStep(c, run, f, n - 1);
    }
  }

  lemma ResponseStep(c: Config, run: nat -> Ctx, f: nat -> Answer, i: nat)
    requires IsRun(c, run, f) && (run(i).state != Done ==> run(i).response.None?) &&
            (!c.vcl ==> run(i).action != Some(Restart))
    ensures run(i + 1).state != Done ==> run(i + 1).response.None?
    ensures !c.vcl ==> run(i + 1).action != Some(Restart)
  {
    assert StepAt(c, run, f, i);
  }

  /** No response is kept before the run ends. */
  lemma {:induction false} NoResponseYet(c: Config, run: nat -> Ctx, f: nat -> Answer, n: nat)
    requires IsRun(c, run, f)
    ensures run(n).state != Done ==> run(n).response.None?
    ensures !c.vcl ==> run(n).action != Some(Restart)
  {
    if n > 0 {
      NoResponseYet(c, run, f, n - 1);
      ResponseStep(c, run, f, n - 1);
    }
  }

  /** The last iteration of a run. */
  ghost predicate EndsAt(run: nat -> Ctx, n: nat) {
    run(n).state != Done && run(n + 1).state == Done
  }

  /** Some earlier iteration found an object, or brought a backend response. */
  ghost predicate HasObject(run: nat -> Ctx, f: nat -> Answer, n: nat) {
    exists i | 0 <= i < n :: FindsObject(run(i), f(i))
  }

  ghost predicate HasResponse(c: Config, run: nat -> Ctx, f: nat -> Answer, n: nat) {
    exists i | 0 <= i < n :: BringsResponse(c, run(i), f(i))
  }

  /**
   * Which response a run ends with. A delivery is made from the object some lookup of the run
   * found, however long ago; else from a backend response; else it is a 500. There is no
   * response at all, and the caller answers 500, after a pipe, when `vcl_deliver` asks for a
   * restart and none is left, and when `vcl_synth` asks for one and some are left.
   */
  lemma RespondsExactly(c: Config, run: nat -> Ctx, f: nat -> Answer, n: nat)
    requires IsRun(c, run, f) && EndsAt(run, n)
    ensures var delivers := run(n).state == InDeliver && !AsksRestart(c, f(n));
            var lost := AsksRestart(c, f(n)) && run(n).restarts < c.maxRestarts;
            && (run(n + 1).response == Some(Cached) <==> delivers && HasObject(run, f, n))
            && (run(n + 1).response == Some(Backend) <==>
                  delivers && !HasObject(run, f, n) && HasResponse(c, run, f, n))
            && (run(n + 1).response == Some(Error500) <==>
                  delivers && !HasObject(run, f, n) && !HasResponse(c, run, f, n))
            && (run(n + 1).response == Some(Synthetic) <==> run(n).state == InSynth && !lost)
            && (run(n + 1).response == None <==>
                  || run(n).state == InPipe || (run(n).state == InDeliver && AsksRestart(c, f(n)))
                  || (run(n).state == InSynth && lost))
  {
    HitIff(c, run, f, n);
    BerespIff(c, run, f, n);
    NoResponseYet(c, run, f, n);
    assert StepAt(c, run, f, n);
  }

  /** `vcl_miss` answering deliver on the first lookup: there is nothing to deliver, and the response is a 500. */
  lemma NothingToDeliver(c: Config, run: nat -> Ctx, f: nat -> Answer)
    requires c.vcl && IsRun(c, run, f)
    requires f(0).exec == Fallthrough && f(1).found == FoundNothing && f(1).exec == Returned(VDeliver) &&
            f(2).exec == Fallthrough
    ensures run(3).state == Done && run(3).response == Some(Error500)
  {
    assert StepAt(c, run, f, 0);
    assert StepAt(c, run, f, 1);
    assert StepAt(c, run, f, 2);
  }

  /** Answers to a hit that is restarted from `vcl_deliver`, then misses and fetches. */
  ghost predicate HitThenMiss(f: nat -> Answer) {
    && (forall i: nat | i != 2 :: f(i).exec == Fallthrough) && f(2).exec == Returned(VRestart)
    && f(1).found == FoundHit && f(4).found == FoundNothing
    && f(6).backendFetch == f(6).backendResponse == Fallthrough && f(6).response == Some(Response(true, true, false))
  }

  /** The restarted request misses, fetches and stores a new response, and delivers the old object. */
  lemma OldObjectDelivered(c: Config, run: nat -> Ctx, f: nat -> Answer)
    requires c.vcl && c.backend && c.maxRestarts > 0 && IsRun(c, run, f) && HitThenMiss(f)
    ensures run(4).state == InLookup && run(5).state == InMiss && Effects(c, run(6), f(6)) == Effect(true, true)
    ensures run(8).state == Done && run(8).response == Some(Cached)
  {
    HitRestarted(c, run, f);
    assert StepAt(c, run, f, 4);
    assert StepAt(c, run, f, 5);
    assert StepAt(c, run, f, 6);
    assert StepAt(c, run, f, 7);
  }

  lemma HitRestarted(c: Config, run: nat -> Ctx, f: nat -> Answer)
    requires c.vcl && c.maxRestarts > 0 && IsRun(c, run, f) && HitThenMiss(f)
    ensures run(4) == Ctx(InLookup, None, 1, false, true, true, true, None)
  {
    assert StepAt(c, run, f, 0);
    assert StepAt(c, run, f, 1);
    assert StepAt(c, run, f, 2);
    assert StepAt(c, run, f, 3);
  }

  lemma {:induction false} RestartsCapped(c: Config, run: nat -> Ctx, f: nat -> Answer, n: nat)
    requires IsRun(c, run, f)
    ensures run(n).restarts <= c.maxRestarts
  {
    if n > 0 {
      RestartsCapped(c, run, f, n - 1);
      RestartsStep(c, run, f, n - 1);
    }
  }

  /** A restart answered by `vcl_synth` uses up a restart and still ends the run. */
  lemma SynthRestartLost(c: Config, run: nat -> Ctx, f: nat -> Answer, n: nat)
    requires IsRun(c, run, f) && run(n).state == InSynth
    requires c.vcl && f(n).exec == Returned(VRestart) && run(n).restarts < c.maxRestarts
    ensures run(n + 1).restarts == run(n).restarts + 1 && forall m: nat | m > n ::
            run(m) == run(n + 1) && run(m).state == Done
  {
    assert StepAt(c, run, f, n);
    forall m: nat | m > n
      ensures run(m) == run(n + 1)
    {
      DoneStays(c, run, f, n + 1, m);
    }
  }

  /** `vcl_recv` answers synth and `vcl_synth` answers restart: the run is over with no response. */
  lemma SynthRestartRun(c: Config, run: nat -> Ctx, f: nat -> Answer)
    requires c.vcl && c.maxRestarts > 0 && IsRun(c, run, f)
    requires f(0).exec == Returned(VSynth) && f(1).exec == Returned(VRestart)
    ensures run(2).state == Done && run(2).restarts == 1 && run(2).response == None
  {
    assert StepAt(c, run, f, 0);
    assert StepAt(c, run, f, 1);
  }
}
