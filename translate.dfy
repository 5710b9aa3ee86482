/** `TranslationManager.translate`: resolve a dotted key and interpolate its placeholders. */
module Translation {
  import opened Json
  import opened KeyPath
  import opened Placeholders

  /**
   * What a call of `translate` does: return a string, or throw the `TypeError`
   * of `value.replace` when the key names a truthy value that is not a string.
   */
  datatype Outcome = Returned(text: string) | TypeError(value: Json)

  /**
   * `translate(translations, key, params = {})`. It reads no state of the manager,
   * so it cannot change the cache.
   */
  function Translate(translations: Json, key: string, params: map<string, string> := map[]): Outcome
  {
    var value := Resolve(translations, key);
    if !Truthy(value) then Returned(key)
    else if value.value.Str? then Returned(Interpolate(value.value.s, params))
    else TypeError(value.value)
  }

  /** With a `null` bundle (a failed load) every key is shown as itself. */
  lemma TranslateNullBundle(key: string, params: map<string, string>)
    ensures Translate(Null, key, params) == Returned(key)
  {
    var segs := Split(key);
    WalkUndefined(segs[1..]);
  }

  /** A missing or non-object step anywhere along the key gives the key back, whatever `params` is. */
  lemma TranslateMissingSegment(translations: Json, key: string, params: map<string, string>, i: nat)
    requires i < |Split(key)|
    requires !HasKey(Walk(Some(translations), Split(key)[..i]), Split(key)[i])
    ensures Translate(translations, key, params) == Returned(key)
  {
    ResolveMissingSegment(translations, key, i);
  }

  /**
   * Present-but-falsy values are not told apart from missing ones: they too give
   * the key back.
   */
  lemma TranslateFalsyValue(translations: Json, key: string, params: map<string, string>)
    requires Resolve(translations, key) in {Some(Null), Some(Bool(false)), Some(Num(0.0)), Some(Str(""))}
    ensures Translate(translations, key, params) == Returned(key)
  {
  }

  /** A key that resolves to a truthy non-string makes `value.replace` throw. */
  lemma TranslateNonString(translations: Json, key: string, params: map<string, string>)
    requires Resolve(translations, key).Some?
    requires var v := Resolve(translations, key).value;
             v == Bool(true) || (v.Num? && v.n != 0.0) || v.Arr? || v.Obj?
    ensures Translate(translations, key, params) == TypeError(Resolve(translations, key).value)
  {
  }

  /** A stored string without placeholders is returned exactly as stored. */
  lemma TranslatePlainString(translations: Json, key: string, params: map<string, string>)
    requires Resolve(translations, key).Some? && Resolve(translations, key).value.Str?
    requires var s := Resolve(translations, key).value.s;
             s != "" && forall i, j :: 0 <= i < j <= |s| ==> !IsPlaceholder(s[i..j])
    ensures Translate(translations, key, params) == Returned(Resolve(translations, key).value.s)
  {
    InterpolateNoPlaceholder(Resolve(translations, key).value.s, params);
  }

  /** Placeholders whose names are not in `params` survive translation verbatim. */
  lemma TranslateKeepsUnknown(translations: Json, key: string, params: map<string, string>)
    requires Resolve(translations, key).Some? && Resolve(translations, key).value.Str?
    requires var s := Resolve(translations, key).value.s;
             s != "" && NoKnownPlaceholder(s, params)
    ensures Translate(translations, key, params) == Returned(Resolve(translations, key).value.s)
  {
    InterpolateKeepsUnknown(Resolve(translations, key).value.s, params);
  }

  /** Assumed contents of `en.json` for the usage example, which fetches it and shows two keys. */
  function ExampleBundle(): Json
  {
    Obj(map["welcome" := Str("Hello!"), "greeting" := Str("Hi, {name}!")])
  }

  /** Character facts about the example's keys and texts, kept apart from the larger proofs. */
  lemma ExampleText()
    ensures '.' !in "welcome" && '.' !in "greeting"
    ensures '{' !in "Hello!" && '{' !in "Hi, " && '{' !in "!"
    ensures IsName("name") && "Hi, {name}!" == "Hi, " + Braced("name") + "!"
    ensures "Hi, " + "John" + "!" == "Hi, John!"
    ensures '.' !in "missing" && '.' !in "key" && Join(["missing", "key"]) == "missing.key"
  {
  }

  /** Usage example: a stored string without placeholders is shown as it is. */
  lemma ExampleWelcome()
    ensures Translate(ExampleBundle(), "welcome") == Returned("Hello!")
  {
    assert Resolve(ExampleBundle(), "welcome") == Some(Str("Hello!")) by {
      ExampleText();
      ResolveSingleSegment(ExampleBundle(), "welcome");
    }
    assert Interpolate("Hello!", map[]) == "Hello!" by {
      ExampleText();
      InterpolateWithoutBraces("Hello!", map[]);
    }
  }

  /** Usage example: `{name}` is replaced by the supplied value and the rest is copied. */
  lemma ExampleGreeting()
    ensures Translate(ExampleBundle(), "greeting", map["name" := "John"]) == Returned("Hi, John!")
  {
    var p := map["name" := "John"];
    assert Resolve(ExampleBundle(), "greeting") == Some(Str("Hi, {name}!")) by {
      ExampleText();
      ResolveSingleSegment(ExampleBundle(), "greeting");
    }
    assert Interpolate("Hi, {name}!", p) == "Hi, John!" by {
      ExampleText();
      InterpolateAnywhere("Hi, ", "name", "!", p);
      InterpolateWithoutBraces("Hi, ", p);
      InterpolateWithoutBraces("!", p);
    }
  }

  /** Usage example: a key that is not in the bundle is shown as itself. */
  lemma ExampleMissingKey()
    ensures Translate(ExampleBundle(), "missing.key") == Returned("missing.key")
  {
    ExampleText();
    SplitJoin(["missing", "key"]);
    assert Split("missing.key")[..0] == [];
    TranslateMissingSegment(ExampleBundle(), "missing.key", map[], 0);
  }
}
