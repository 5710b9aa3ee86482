/** `TranslationManager`: a per-language cache of translation bundles. */
module App {
  import opened Json
  import opened Cache

  class TranslationManager {
    const basePath: string
    /** `this.cache`: language code to loaded bundle. */
    var cache: map<string, Json>
    /** Every `loadTranslation` call made so far, with what the network would have answered. */
    ghost var calls: seq<Call>
    /** The resources requested from the network, in order. */
    ghost var fetched: seq<string>

    /** The cache and the request log are what the calls so far produce. */
    ghost predicate Valid()
      reads this
    {
      var session := Replay(calls);
      cache == session.cache && fetched == ResourcePaths(session.fetched)
    }

    /** `new TranslationManager(basePath = "/translations")`: an empty cache. */
    constructor (basePath: string := "/translations")
      ensures Valid()
      ensures this.basePath == basePath && cache == map[] && calls == [] && fetched == []
    {
      this.basePath := basePath;
      cache := map[];
      calls := [];
      fetched := [];
    }

    /** The resource requested for a language: `${basePath}/${lang}.json`, the code used verbatim. */
    function ResourcePath(lang: string): string
    {
      basePath + "/" + lang + ".json"
    }

    /** The resources requested for the given languages, in order. */
    function ResourcePaths(langs: seq<string>): seq<string>
      decreases |langs|
    {
      if langs == [] then []
      else ResourcePaths(langs[..|langs| - 1]) + [ResourcePath(langs[|langs| - 1])]
    }

    /**
     * `loadTranslation(lang)`. The network is a parameter: `response` is what it
     * would answer for `ResourcePath(lang)`, and is consulted only on a cache miss.
     */
    method LoadTranslation(lang: string, response: FetchResult) returns (translations: Json)
      requires Valid()
      modifies this
      ensures Valid()
      ensures calls == old(calls) + [Call(lang, response)]
      ensures lang in old(cache) ==>
                translations == old(cache)[lang] && cache == old(cache) && fetched == old(fetched)
      ensures lang !in old(cache) ==> fetched == old(fetched) + [ResourcePath(lang)]
      ensures lang !in old(cache) && Fetched(response).Some? ==>
                translations == Fetched(response).value && cache == old(cache)[lang := translations]
      ensures lang !in old(cache) && Fetched(response).None? ==>
                translations == Null && cache == old(cache)
    {
      calls := calls + [Call(lang, response)];
      assert calls[..|calls| - 1] == old(calls);
      if lang in cache {
        ghost var prev := Replay(old(calls));
        assert prev.fetched + [] == prev.fetched;
        assert Replay(calls).fetched == prev.fetched;
        return cache[lang];
      }
      fetched := fetched + [ResourcePath(lang)];
      assert Replay(calls).fetched == Replay(old(calls)).fetched + [lang];
      assert Replay(calls).fetched[..|Replay(calls).fetched| - 1] == Replay(old(calls)).fetched;
      match response {
        case NetworkError =>
          translations := Null;
        case Response(status, body) =>
          if !IsOk(status) {
            translations := Null;
          } else if body.None? {
            translations := Null;
          } else {
            translations := body.value;
            cache := cache[lang := translations];
          }
      }
    }
  }

  /** Distinct language codes name distinct resources, so one request serves one cache entry. */
  lemma ResourcePathInjective(m: TranslationManager, lang1: string, lang2: string)
    requires m.ResourcePath(lang1) == m.ResourcePath(lang2)
    ensures lang1 == lang2
  {
    var p1, p2 := m.ResourcePath(lang1), m.ResourcePath(lang2);
    var n := |m.basePath| + 1;
    assert p1[n..|p1| - 5] == lang1;
    assert p2[n..|p2| - 5] == lang2;
  }

  /** Each request in the log names the language it was made for and no other. */
  lemma {:induction false} RequestCount(m: TranslationManager, langs: seq<string>, lang: string)
    ensures multiset(m.ResourcePaths(langs))[m.ResourcePath(lang)] == multiset(langs)[lang]
    decreases |langs|
  {
    if langs != [] {
      var init, last := langs[..|langs| - 1], langs[|langs| - 1];
      assert langs == init + [last];
      RequestCount(m, init, lang);
      if last != lang {
        if m.ResourcePath(last) == m.ResourcePath(lang) {
          ResourcePathInjective(m, last, lang);
        }
      }
    }
  }

  /**
   * On any manager, `${basePath}/${lang}.json` was requested once per call for
   * `lang` up to and including the first successful load, and never after it.
   */
  lemma FetchCount(m: TranslationManager, lang: string)
    requires m.Valid()
    ensures multiset(m.fetched)[m.ResourcePath(lang)] == Attempts(m.calls, lang)
  {
    ReplayFetchCount(m.calls, lang);
    RequestCount(m, Replay(m.calls).fetched, lang);
  }
}
