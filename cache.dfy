/**
 * The cache discipline of `loadTranslation`, as functions: one call (`Load`) and a
 * whole sequence of calls made on one manager (`Replay`).
 */
module Cache {
  import opened Json

  /**
   * What the network answers when asked for a language's resource: `fetch` rejects,
   * or a response arrives with a status and a body that `response.json()` parses
   * (`Some`) or rejects (`None`).
   */
  datatype FetchResult = NetworkError | Response(status: int, body: Option<Json>)

  /** `response.ok`. */
  predicate IsOk(status: int)
  {
    200 <= status <= 299
  }

  /** The bundle a fetch delivers when none of the failure modes occurs. */
  function Fetched(response: FetchResult): Option<Json>
  {
    match response
    case NetworkError => None
    case Response(status, body) => if IsOk(status) then body else None
  }

  /** The outcome of one call: its result, the cache afterwards, and whether the network was asked. */
  datatype LoadStep = LoadStep(result: Json, cache: map<string, Json>, fetched: bool)

  /** One call of `loadTranslation(lang)` against `cache`; a failure yields `null`. */
  function Load(cache: map<string, Json>, lang: string, response: FetchResult): LoadStep
  {
    if lang in cache then LoadStep(cache[lang], cache, false)
    else
      match Fetched(response)
      case Some(bundle) => LoadStep(bundle, cache[lang := bundle], true)
      case None => LoadStep(Null, cache, true)
  }

  /**
   * Whatever a call leaves in the cache for `lang` is what it returned, and every
   * later call for `lang` is a hit: it returns that entry, asks nothing of the
   * network and changes nothing, whatever the network would answer.
   */
  lemma LoadStaysCached(cache: map<string, Json>, lang: string, first: FetchResult, later: FetchResult)
    requires lang in Load(cache, lang, first).cache
    ensures var st := Load(cache, lang, first);
            && st.cache[lang] == st.result
            && Load(st.cache, lang, later) == LoadStep(st.result, st.cache, false)
  {
  }

  /** A successful fetch stores exactly `lang -> bundle` and returns that bundle. */
  lemma LoadSuccess(cache: map<string, Json>, lang: string, status: int, bundle: Json)
    requires lang !in cache && IsOk(status)
    ensures var st := Load(cache, lang, Response(status, Some(bundle)));
            && st.fetched && st.result == bundle
            && st.cache.Keys == cache.Keys + {lang} && st.cache[lang] == bundle
            && forall l :: l in cache ==> st.cache[l] == cache[l]
  {
  }

  /** A network error, a non-ok status or an unparsable body all yield `null` and leave the cache alone. */
  lemma LoadFailure(cache: map<string, Json>, lang: string, response: FetchResult)
    requires lang !in cache
    requires response.NetworkError? || !IsOk(response.status) || response.body.None?
    ensures Load(cache, lang, response) == LoadStep(Null, cache, true)
  {
  }

  /** No call ever drops or overwrites an entry, and only `lang` can be added. */
  lemma LoadNeverEvicts(cache: map<string, Json>, lang: string, response: FetchResult)
    ensures var st := Load(cache, lang, response);
            && cache.Keys <= st.cache.Keys <= cache.Keys + {lang}
            && forall l :: l in cache ==> st.cache[l] == cache[l]
  {
  }

  /** Loading the same language twice in a row, the first time successfully, fetches once. */
  lemma LoadTwice(cache: map<string, Json>, lang: string, first: FetchResult, second: FetchResult)
    requires lang !in cache && Fetched(first).Some?
    ensures var st1 := Load(cache, lang, first);
            var st2 := Load(st1.cache, lang, second);
            && st1.fetched && !st2.fetched
            && st2.result == st1.result && st2.cache == st1.cache
  {
  }

  /** A failure is not cached: the next call for the same language asks the network again. */
  lemma RetryAfterFailure(cache: map<string, Json>, lang: string, first: FetchResult, second: FetchResult)
    requires lang !in cache && Fetched(first).None?
    ensures var st1 := Load(cache, lang, first);
            && st1.result == Null && st1.cache == cache
            && Load(st1.cache, lang, second).fetched
            && Load(st1.cache, lang, second) == Load(cache, lang, second)
  {
  }

  /** One call made on a manager, with what the network would have answered. */
  datatype Call = Call(lang: string, response: FetchResult)

  /** The observable state of a manager: its cache and the languages it asked the network for, in order. */
  datatype Session = Session(cache: map<string, Json>, fetched: seq<string>)

  /** The state of a fresh manager after the given calls, in order. */
  function Replay(calls: seq<Call>): Session
    decreases |calls|
  {
    if calls == [] then Session(map[], [])
    else
      var prev := Replay(calls[..|calls| - 1]);
      var call := calls[|calls| - 1];
      var st := Load(prev.cache, call.lang, call.response);
      Session(st.cache, prev.fetched + if st.fetched then [call.lang] else [])
  }

  /** The bundle of the earliest call for `lang` whose fetch succeeded. */
  function FirstSuccess(calls: seq<Call>, lang: string): Option<Json>
    decreases |calls|
  {
    if calls == [] then None
    else if calls[0].lang == lang && Fetched(calls[0].response).Some? then Fetched(calls[0].response)
    else FirstSuccess(calls[1..], lang)
  }

  /** How many calls for `lang` ask the network: all of them up to and including the first success. */
  function Attempts(calls: seq<Call>, lang: string): nat
    decreases |calls|
  {
    if calls == [] then 0
    else if calls[0].lang == lang then
      1 + if Fetched(calls[0].response).Some? then 0 else Attempts(calls[1..], lang)
    else Attempts(calls[1..], lang)
  }

  lemma {:induction false} FirstSuccessSnoc(calls: seq<Call>, call: Call, lang: string)
    ensures FirstSuccess(calls + [call], lang)
            == if FirstSuccess(calls, lang).Some? then FirstSuccess(calls, lang)
               else if call.lang == lang then Fetched(call.response)
               else None
    decreases |calls|
  {
    if calls == [] {
      assert [] + [call] == [call];
      assert [call][1..] == [];
    } else {
      assert (calls + [call])[0] == calls[0];
      assert (calls + [call])[1..] == calls[1..] + [call];
      FirstSuccessSnoc(calls[1..], call, lang);
    }
  }

  lemma {:induction false} AttemptsSnoc(calls: seq<Call>, call: Call, lang: string)
    ensures Attempts(calls + [call], lang)
            == Attempts(calls, lang) + if call.lang == lang && FirstSuccess(calls, lang).None? then 1 else 0
    decreases |calls|
  {
    if calls == [] {
      assert [] + [call] == [call];
      assert [call][1..] == [];
    } else {
      assert (calls + [call])[0] == calls[0];
      assert (calls + [call])[1..] == calls[1..] + [call];
      AttemptsSnoc(calls[1..], call, lang);
    }
  }

  /**
   * The cache holds an entry for a language exactly when some call for it
   * succeeded, and that entry is the bundle of the first success: failures are
   * never cached and entries are never replaced.
   */
  lemma {:induction false} ReplayCacheIsFirstSuccess(calls: seq<Call>, lang: string)
    ensures var cache := Replay(calls).cache;
            (if lang in cache then Some(cache[lang]) else None) == FirstSuccess(calls, lang)
    decreases |calls|
  {
    if calls != [] {
      var init := calls[..|calls| - 1];
      var call := calls[|calls| - 1];
      assert calls == init + [call];
      ReplayCacheIsFirstSuccess(init, lang);
      FirstSuccessSnoc(init, call, lang);
    }
  }

  /** The network is asked for a language once per call until the first success, and never after it. */
  lemma {:induction false} ReplayFetchCount(calls: seq<Call>, lang: string)
    ensures multiset(Replay(calls).fetched)[lang] == Attempts(calls, lang)
    decreases |calls|
  {
    if calls != [] {
      var init := calls[..|calls| - 1];
      var call := calls[|calls| - 1];
      assert calls == init + [call];
      ReplayFetchCount(init, lang);
      ReplayCacheIsFirstSuccess(init, lang);
      AttemptsSnoc(init, call, lang);
    }
  }

  /** An entry present after some prefix of the calls is still present, unchanged, after all of them. */
  lemma {:induction false} ReplayKeepsEntries(calls: seq<Call>, k: nat, lang: string)
    requires k <= |calls| && lang in Replay(calls[..k]).cache
    ensures lang in Replay(calls).cache && Replay(calls).cache[lang] == Replay(calls[..k]).cache[lang]
    decreases |calls| - k
  {
    if k < |calls| {
      var prev := Replay(calls[..k]);
      var call := calls[k];
      assert calls[..k + 1][..k] == calls[..k];
      LoadNeverEvicts(prev.cache, call.lang, call.response);
      ReplayKeepsEntries(calls, k + 1, lang);
    } else {
      assert calls[..k] == calls;
    }
  }

  /**
   * Once a language is cached after some prefix of the calls, every later call
   * for it is a hit that returns the entry cached then and fetches nothing.
   */
  lemma ReplayLaterCallsHit(calls: seq<Call>, k: nat, j: nat)
    requires k <= j < |calls| && calls[j].lang in Replay(calls[..k]).cache
    ensures var lang, before := calls[j].lang, Replay(calls[..j]).cache;
            Load(before, lang, calls[j].response)
            == LoadStep(Replay(calls[..k]).cache[lang], before, false)
  {
    assert calls[..j][..k] == calls[..k];
    ReplayKeepsEntries(calls[..j], k, calls[j].lang);
  }
}
