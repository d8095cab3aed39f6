/**
 * The top-level component: which maxim is selected, the content shown for it,
 * whether a fetch is in flight, the last error and the retry counter, and the
 * protocol that lets only the most recently started fetch write to them.
 *
 * React runs the effect keyed on `[selectedMaxim, nonce]` after every render
 * in which either changed. Each run cancels the previous one by setting that
 * run's closure-captured `isStale` flag. Here the flag is a generation number:
 * every effect run bumps `generation`, a fetch remembers the generation that
 * started it, and its completion is applied only while that is still the
 * current generation. `pending` holds the generations whose fetch has not yet
 * settled (a promise settles once).
 */
module AppComponent {
  import opened Wrappers
  import opened Json
  import GeminiService

  const UnknownErrorMessage := "An unknown error occurred."

  /** What a successful fetch hands back: the validated object, unchanged. */
  type Content = JsonObject

  /** The five state cells of the component plus the effect bookkeeping. */
  datatype AppState = AppState(
    selectedMaxim: Option<string>,
    maximContent: Option<Content>,
    isLoading: bool,
    error: Option<string>,
    nonce: nat,
    generation: nat,
    pending: set<nat>)

  /** The five state cells the user sees, without the effect bookkeeping. */
  datatype Screen = Screen(
    selectedMaxim: Option<string>,
    maximContent: Option<Content>,
    isLoading: bool,
    error: Option<string>,
    nonce: nat)

  /** What can happen to the component: a click, or the settling of the fetch started in generation `token`. */
  datatype Event =
    | Click(maxim: string)
    | Resolve(token: nat, content: Content)
    | Reject(token: nat, thrown: GeminiService.Thrown)

  function ScreenOf(s: AppState): Screen
  {
    Screen(s.selectedMaxim, s.maximContent, s.isLoading, s.error, s.nonce)
  }

  /** The state after the first render: nothing selected, nothing loaded, and the mount-time effect fetched nothing. */
  const Initial := AppState(None, None, false, None, 0, 0, {})

  /**
   * What the protocol maintains: every unsettled fetch was started in the
   * current generation or an earlier one, and while the current generation's
   * fetch is unsettled the component shows it as loading with no error.
   */
  predicate Valid(s: AppState)
  {
    && (forall g :: g in s.pending ==> g <= s.generation)
    && (s.generation in s.pending ==> s.isLoading && s.error.None?)
  }

  /** `if (!selectedMaxim)`: a selection starts a fetch only when it is a non-empty string. */
  predicate IsTruthySelection(selected: Option<string>)
    ensures IsTruthySelection(selected) <==> selected.Some? && Truthy(Some(JString(selected.value)))
  {
    selected.Some? && selected.value != ""
  }

  // ---------------------------------------------------------------------------
  // Transitions
  // ---------------------------------------------------------------------------

  /** `handleSelectMaxim`: the state right after the click handler's setters, before effects run. */
  function HandleSelectMaxim(s: AppState, m: string): (r: AppState)
    ensures r.selectedMaxim == Some(m)
    ensures r == s.(selectedMaxim := r.selectedMaxim, nonce := r.nonce)
    ensures r == s <==> s.selectedMaxim == Some(m) && (s.isLoading || s.maximContent.Some?)
    ensures r.nonce != s.nonce ==>
      r.nonce == s.nonce + 1 && s.selectedMaxim == Some(m) && !s.isLoading && s.maximContent.None?
  {
    if s.isLoading && s.selectedMaxim == Some(m) then s
    else if !s.isLoading && s.selectedMaxim == Some(m) && s.maximContent.Some? then s
    else if s.selectedMaxim == Some(m) then s.(nonce := s.nonce + 1)
    else s.(selectedMaxim := Some(m))
  }

  /**
   * The effect keyed on `[selectedMaxim, nonce]`, run when a render changed
   * either: the previous run's fetch becomes stale (a new generation), and a
   * truthy selection starts one fetch that shows loading and clears the error.
   */
  function RunEffect(before: AppState, after: AppState): (r: AppState)
    ensures before.selectedMaxim == after.selectedMaxim && before.nonce == after.nonce ==> r == after
    ensures r.selectedMaxim == after.selectedMaxim && r.maximContent == after.maximContent && r.nonce == after.nonce
    ensures r != after ==>
      && r.generation == after.generation + 1
      && r.pending == after.pending + (if IsTruthySelection(after.selectedMaxim) then {r.generation} else {})
      && (IsTruthySelection(after.selectedMaxim) ==> r.isLoading && r.error.None?)
    ensures Valid(after) ==> Valid(r)
    ensures Valid(after) && r != after ==> forall g :: g in after.pending ==> g != r.generation
  {
    if before.selectedMaxim == after.selectedMaxim && before.nonce == after.nonce then after
    else
      var g := after.generation + 1;
      if IsTruthySelection(after.selectedMaxim) then
        after.(generation := g, isLoading := true, error := None, pending := after.pending + {g})
      else
        after.(generation := g)
  }

  /** A click: the handler, then the effect if the handler changed its keys. */
  function ClickStep(s: AppState, m: string): AppState
  {
    RunEffect(s, HandleSelectMaxim(s, m))
  }

  /** The message shown for a thrown value: an `Error`'s message, or the fixed fallback. */
  function ErrorMessage(t: GeminiService.Thrown): (msg: string)
    ensures t.JsError? ==> msg == t.message
    ensures t.NonErrorValue? ==> msg == UnknownErrorMessage
  {
    match t
    case JsError(_, message) => message
    case NonErrorValue => UnknownErrorMessage
  }

  /** The fetch of generation `g` resolved: if it is not stale, show the content and stop loading. */
  function ResolveStep(s: AppState, g: nat, content: Content): (r: AppState)
    ensures r == s.(pending := r.pending, maximContent := r.maximContent, isLoading := r.isLoading)
    ensures r.pending == s.pending - {g}
    ensures Valid(s) ==> Valid(r)
  {
    var settled := s.(pending := s.pending - {g});
    if g == s.generation then settled.(maximContent := Some(content), isLoading := false)
    else settled
  }

  /** The fetch of generation `g` rejected: if it is not stale, show the error, drop the content, stop loading. */
  function RejectStep(s: AppState, g: nat, t: GeminiService.Thrown): (r: AppState)
    ensures r == s.(pending := r.pending, error := r.error, maximContent := r.maximContent, isLoading := r.isLoading)
    ensures r.pending == s.pending - {g}
    ensures Valid(s) ==> Valid(r)
  {
    var settled := s.(pending := s.pending - {g});
    if g == s.generation then
      settled.(error := Some(ErrorMessage(t)), maximContent := None, isLoading := false)
    else settled
  }

  function Step(s: AppState, e: Event): AppState
  {
    match e
    case Click(m) => ClickStep(s, m)
    case Resolve(g, c) => ResolveStep(s, g, c)
    case Reject(g, t) => RejectStep(s, g, t)
  }

  /** The environment can deliver `e` now: clicks always, a completion only for a fetch that is still unsettled. */
  predicate CanHappen(s: AppState, e: Event)
  {
    e.Click? || e.token in s.pending
  }

  /** Every event of `es` can happen when it comes. */
  predicate Feasible(s: AppState, es: seq<Event>)
    decreases |es|
  {
    es == [] || (CanHappen(s, es[0]) && Feasible(Step(s, es[0]), es[1..]))
  }

  function Run(s: AppState, es: seq<Event>): AppState
    decreases |es|
  {
    if es == [] then s else Run(Step(s, es[0]), es[1..])
  }

  // ---------------------------------------------------------------------------
  // Properties of one step
  // ---------------------------------------------------------------------------

  /** The click handler's four cases, with the effect's consequences. */
  lemma ClickCases(s: AppState, m: string)
    ensures s.isLoading && s.selectedMaxim == Some(m) ==> ClickStep(s, m) == s
    ensures !s.isLoading && s.selectedMaxim == Some(m) && s.maximContent.Some? ==> ClickStep(s, m) == s
    ensures !s.isLoading && s.selectedMaxim == Some(m) && s.maximContent.None? ==>
      var r := ClickStep(s, m);
      && r.nonce == s.nonce + 1 && r.selectedMaxim == s.selectedMaxim
      && r.generation == s.generation + 1
    ensures s.selectedMaxim != Some(m) ==>
      var r := ClickStep(s, m);
      && r.selectedMaxim == Some(m) && r.nonce == s.nonce
      && r.generation == s.generation + 1
  {
  }

  /**
   * A click that changes the effect's keys starts exactly one fetch when the
   * new selection is truthy (none otherwise), shows loading, clears the error
   * and keeps the old content on screen; every fetch started before it is now
   * stale.
   */
  lemma ClickStartsOneFetch(s: AppState, m: string)
    requires Valid(s)
    requires ClickStep(s, m) != s
    ensures var r := ClickStep(s, m);
      && r.generation == s.generation + 1
      && r.maximContent == s.maximContent
      && (IsTruthySelection(r.selectedMaxim) ==>
            r.pending == s.pending + {r.generation} && r.isLoading && r.error.None?)
      && (!IsTruthySelection(r.selectedMaxim) ==>
            r.pending == s.pending && r.isLoading == s.isLoading && r.error == s.error)
      && (forall g :: g in s.pending ==> g < r.generation)
  {
  }

  /** A stale completion, success or failure, changes nothing but the set of unsettled fetches. */
  lemma StaleCompletionIgnored(s: AppState, e: Event)
    requires !e.Click? && e.token != s.generation
    ensures Step(s, e) == s.(pending := s.pending - {e.token})
  {
  }

  /** A current success shows its content and stops loading; the error stays cleared. */
  lemma FreshResolveShowsContent(s: AppState, c: Content)
    requires Valid(s) && s.generation in s.pending
    ensures var r := Step(s, Resolve(s.generation, c));
      && r.maximContent == Some(c) && !r.isLoading && r.error.None?
      && r.selectedMaxim == s.selectedMaxim && r.nonce == s.nonce
  {
  }

  /** A current failure shows the error's message, drops the content and stops loading. */
  lemma FreshRejectShowsError(s: AppState, t: GeminiService.Thrown)
    requires Valid(s) && s.generation in s.pending
    ensures var r := Step(s, Reject(s.generation, t));
      && r.error == Some(if t.JsError? then t.message else UnknownErrorMessage)
      && r.maximContent.None? && !r.isLoading
      && r.selectedMaxim == s.selectedMaxim && r.nonce == s.nonce
  {
  }

  /** Every step the environment can take keeps the protocol's invariant. */
  lemma StepKeepsValid(s: AppState, e: Event)
    requires Valid(s) && CanHappen(s, e)
    ensures Valid(Step(s, e))
  {
  }

  // ---------------------------------------------------------------------------
  // Properties of runs
  // ---------------------------------------------------------------------------

  /** Runs compose: running `a` then `b` is running `a + b`. */
  lemma {:induction false} RunAppend(s: AppState, a: seq<Event>, b: seq<Event>)
    ensures Run(s, a + b) == Run(Run(s, a), b)
    ensures Feasible(s, a + b) <==> Feasible(s, a) && Feasible(Run(s, a), b)
    decreases |a|
  {
    if a == [] {
      assert a + b == b;
    } else {
      assert (a + b)[1..] == a[1..] + b;
      RunAppend(Step(s, a[0]), a[1..], b);
    }
  }

  /** The invariant holds throughout every run the environment can produce. */
  lemma {:induction false} RunKeepsValid(s: AppState, es: seq<Event>)
    requires Valid(s) && Feasible(s, es)
    ensures Valid(Run(s, es))
    decreases |es|
  {
    if es != [] {
      StepKeepsValid(s, es[0]);
      RunKeepsValid(Step(s, es[0]), es[1..]);
    }
  }

  /** Generations only grow, so a fetch that has become stale stays stale. */
  lemma {:induction false} GenerationNeverDecreases(s: AppState, es: seq<Event>)
    ensures Run(s, es).generation >= s.generation
    decreases |es|
  {
    if es != [] {
      GenerationNeverDecreases(Step(s, es[0]), es[1..]);
    }
  }

  /**
   * Last writer by issue order: a completion of a fetch started before the
   * current generation leaves the screen exactly as it was, wherever in any
   * later sequence of clicks and completions it arrives.
   */
  lemma SupersededFetchNeverWrites(s: AppState, es: seq<Event>, i: nat)
    requires i < |es| && !es[i].Click? && es[i].token < s.generation
    ensures ScreenOf(Run(s, es[..i + 1])) == ScreenOf(Run(s, es[..i]))
  {
    assert es[..i + 1] == es[..i] + [es[i]];
    RunAppend(s, es[..i], [es[i]]);
    GenerationNeverDecreases(s, es[..i]);
    StaleCompletionIgnored(Run(s, es[..i]), es[i]);
  }

  /** `es` holds completions only. */
  predicate NoClicks(es: seq<Event>)
  {
    forall k :: 0 <= k < |es| ==> !es[k].Click?
  }

  /** Without clicks, every completion that can happen is of a fetch already unsettled at the start. */
  lemma {:induction false} CompletionsWerePending(s: AppState, es: seq<Event>)
    requires Feasible(s, es) && NoClicks(es)
    ensures forall k :: 0 <= k < |es| ==> es[k].token in s.pending
    ensures Run(s, es).generation == s.generation
    decreases |es|
  {
    if es != [] {
      assert NoClicks(es[1..]) by {
        forall k | 0 <= k < |es[1..]| ensures !es[1..][k].Click? {
          assert es[1..][k] == es[k + 1];
        }
      }
      CompletionsWerePending(Step(s, es[0]), es[1..]);
      forall k | 0 <= k < |es| ensures es[k].token in s.pending {
        if k > 0 {
          assert es[k] == es[1..][k - 1];
        }
      }
    }
  }

  /**
   * Only the most recently started fetch decides what is shown, in whatever
   * order the outstanding fetches settle: after any sequence of completions,
   * the screen is what the current generation's completion alone would have
   * made of it, or unchanged when that fetch has not settled.
   */
  lemma {:induction false} OnlyLatestFetchDecides(s: AppState, es: seq<Event>)
    requires Feasible(s, es) && NoClicks(es)
    ensures (forall k :: 0 <= k < |es| ==> es[k].token != s.generation) ==>
      ScreenOf(Run(s, es)) == ScreenOf(s)
    ensures forall k :: 0 <= k < |es| && es[k].token == s.generation ==>
      ScreenOf(Run(s, es)) == ScreenOf(Step(s, es[k]))
    decreases |es|
  {
    if es != [] {
      var e, rest := es[0], es[1..];
      var s1 := Step(s, e);
      assert NoClicks(rest) by {
        forall k | 0 <= k < |rest| ensures !rest[k].Click? {
          assert rest[k] == es[k + 1];
        }
      }
      assert s1.generation == s.generation;
      OnlyLatestFetchDecides(s1, rest);
      if e.token == s.generation {
        // The current fetch settles first; it is no longer pending, so nothing after it is current.
        CompletionsWerePending(s1, rest);
        forall k | 0 <= k < |rest| ensures rest[k].token != s1.generation {
        }
        forall k | 0 <= k < |es| && es[k].token == s.generation
          ensures ScreenOf(Run(s, es)) == ScreenOf(Step(s, es[k]))
        {
        }
      } else {
        assert ScreenOf(s1) == ScreenOf(s);
        forall k | 0 <= k < |es| && es[k].token == s.generation
          ensures ScreenOf(Run(s, es)) == ScreenOf(Step(s, es[k]))
        {
          assert k > 0;
          assert rest[k - 1] == es[k];
          assert ScreenOf(Step(s1, es[k])) == ScreenOf(Step(s, es[k]));
        }
        if forall k :: 0 <= k < |es| ==> es[k].token != s.generation {
          forall k | 0 <= k < |rest| ensures rest[k].token != s1.generation {
            assert rest[k] == es[k + 1];
          }
        }
      }
    }
  }

  /**
   * The order in which outstanding fetches settle does not matter: two
   * orderings of the same completions leave the same screen.
   */
  lemma CompletionOrderIrrelevant(s: AppState, es1: seq<Event>, es2: seq<Event>)
    requires Feasible(s, es1) && NoClicks(es1)
    requires Feasible(s, es2) && NoClicks(es2)
    requires multiset(es1) == multiset(es2)
    ensures ScreenOf(Run(s, es1)) == ScreenOf(Run(s, es2))
  {
    OnlyLatestFetchDecides(s, es1);
    OnlyLatestFetchDecides(s, es2);
    if k1 :| 0 <= k1 < |es1| && es1[k1].token == s.generation {
      assert es1[k1] in multiset(es2);
      var k2 :| 0 <= k2 < |es2| && es2[k2] == es1[k1];
    } else {
      forall k | 0 <= k < |es2| ensures es2[k].token != s.generation {
        assert es2[k] in multiset(es1);
      }
    }
  }

  /** The fetcher only ever throws `Error`s, so the fallback message never shows for its failures. */
  lemma FetcherErrorsKeepTheirMessage(
    s: AppState, service: Result<string, GeminiService.Thrown>, parse: string -> GeminiService.ParseOutcome)
    requires Valid(s) && s.generation in s.pending
    requires GeminiService.FetchMaximExplanation(service, parse).Failure?
    ensures var t := GeminiService.FetchMaximExplanation(service, parse).error;
      Step(s, Reject(s.generation, t)).error == Some(t.message)
  {
  }

  // ---------------------------------------------------------------------------
  // The component as an object with state cells
  // ---------------------------------------------------------------------------

  class App {
    var selectedMaxim: Option<string>
    var maximContent: Option<Content>
    var isLoading: bool
    var error: Option<string>
    var nonce: nat
    /** How many times the effect has run since mount; the token of the fetch it started last. */
    var generation: nat
    /** The generations whose fetch has not settled yet. */
    var pending: set<nat>

    function State(): AppState
      reads this
    {
      AppState(selectedMaxim, maximContent, isLoading, error, nonce, generation, pending)
    }

    /** Mount: all cells at their initial values; the mount-time effect sees no selection and fetches nothing. */
    constructor ()
      ensures State() == Initial && Valid(State())
    {
      selectedMaxim := None;
      maximContent := None;
      isLoading := false;
      error := None;
      nonce := 0;
      generation := 0;
      pending := {};
    }

    /** The user clicks maxim `m`: `handleSelectMaxim`, then the effect if its keys changed. */
    method Click(m: string)
      requires Valid(State())
      modifies this
      ensures State() == ClickStep(old(State()), m) && Valid(State())
      ensures old(isLoading) && old(selectedMaxim) == Some(m) ==> State() == old(State())
      ensures !old(isLoading) && old(selectedMaxim) == Some(m) && old(maximContent).Some? ==>
        State() == old(State())
      ensures !old(isLoading) && old(selectedMaxim) == Some(m) && old(maximContent).None? ==>
        nonce == old(nonce) + 1 && selectedMaxim == old(selectedMaxim)
      ensures old(selectedMaxim) != Some(m) ==> selectedMaxim == Some(m) && nonce == old(nonce)
      ensures State() != old(State()) ==>
        && generation == old(generation) + 1
        && maximContent == old(maximContent)
        && (IsTruthySelection(selectedMaxim) ==>
              pending == old(pending) + {generation} && isLoading && error.None?)
        && (!IsTruthySelection(selectedMaxim) ==>
              pending == old(pending) && isLoading == old(isLoading) && error == old(error))
    {
      var previousSelection, previousNonce := selectedMaxim, nonce;
      // handleSelectMaxim
      if isLoading && selectedMaxim == Some(m) {
        return;
      }
      if !isLoading && selectedMaxim == Some(m) && maximContent.Some? {
        return;
      }
      if selectedMaxim == Some(m) {
        nonce := nonce + 1;
      } else {
        selectedMaxim := Some(m);
      }
      // The effect on [selectedMaxim, nonce]: the previous run's fetch turns stale.
      if selectedMaxim != previousSelection || nonce != previousNonce {
        generation := generation + 1;
        if IsTruthySelection(selectedMaxim) {
          isLoading := true;
          error := None;
          pending := pending + {generation};
        }
      }
    }

    /** The fetch started in generation `g` resolves with `content`. */
    method Resolve(g: nat, content: Content)
      requires Valid(State()) && g in pending
      modifies this
      ensures State() == ResolveStep(old(State()), g, content) && Valid(State())
      ensures pending == old(pending) - {g}
      ensures g != old(generation) ==> ScreenOf(State()) == ScreenOf(old(State()))
      ensures g == old(generation) ==>
        && maximContent == Some(content) && !isLoading && error.None?
        && selectedMaxim == old(selectedMaxim) && nonce == old(nonce)
    {
      pending := pending - {g};
      var isStale := g != generation;
      if !isStale {
        maximContent := Some(content);
      }
      if !isStale {
        isLoading := false;
      }
    }

    /** The fetch started in generation `g` rejects with `thrown`. */
    method Reject(g: nat, thrown: GeminiService.Thrown)
      requires Valid(State()) && g in pending
      modifies this
      ensures State() == RejectStep(old(State()), g, thrown) && Valid(State())
      ensures pending == old(pending) - {g}
      ensures g != old(generation) ==> ScreenOf(State()) == ScreenOf(old(State()))
      ensures g == old(generation) ==>
        && error == Some(if thrown.JsError? then thrown.message else UnknownErrorMessage)
        && maximContent.None? && !isLoading
        && selectedMaxim == old(selectedMaxim) && nonce == old(nonce)
    {
      pending := pending - {g};
      var isStale := g != generation;
      if !isStale {
        error := Some(ErrorMessage(thrown));
        maximContent := None;
      }
      if !isStale {
        isLoading := false;
      }
    }
  }

  /** Clicking A, a successful load, then clicking A again: the content stays and no fetch starts. */
  method LoadThenReclick(c: Content)
  {
    var app := new App();
    app.Click("A");
    assert app.isLoading && app.generation == 1 && app.pending == {1};
    app.Resolve(1, c);
    assert app.maximContent == Some(c) && !app.isLoading && app.error.None?;
    app.Click("A");
    assert app.pending == {} && app.generation == 1 && app.maximContent == Some(c);
  }

  /** Clicking A, a failed load, then clicking A again: a retry starts a new fetch and clears the error. */
  method FailThenRetry(message: string)
  {
    var app := new App();
    app.Click("A");
    app.Reject(1, GeminiService.JsError(GeminiService.PlainError, message));
    assert app.error == Some(message) && app.maximContent.None? && !app.isLoading;
    app.Click("A");
    assert app.nonce == 1 && app.generation == 2 && app.pending == {2};
    assert app.isLoading && app.error.None?;
  }

  /** Clicking A, then B while A loads: A's late answer does not touch what is shown for B. */
  method SwitchWhileLoading(a: Content, b: Content)
  {
    var app := new App();
    app.Click("A");
    app.Click("B");
    assert app.selectedMaxim == Some("B") && app.isLoading && app.pending == {1, 2};
    app.Resolve(1, a);
    assert app.selectedMaxim == Some("B") && app.isLoading && app.maximContent.None?;
    app.Resolve(2, b);
    assert app.maximContent == Some(b) && !app.isLoading;
  }
}
