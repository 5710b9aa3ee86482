/**
 * Dotted key paths: `key.split(".")` and the walk
 * `reduce((obj, k) => obj?.[k], translations)` over a bundle.
 */
module KeyPath {
  import opened Json

  /** `s.split(".")`: the maximal dot-free pieces of `s`, always at least one. */
  function Split(s: string): (segs: seq<string>)
    ensures |segs| >= 1
    ensures forall i :: 0 <= i < |segs| ==> '.' !in segs[i]
    decreases |s|
  {
    if s == [] then [""]
    else
      var rest := Split(s[1..]);
      if s[0] == '.' then [""] + rest
      else [[s[0]] + rest[0]] + rest[1..]
  }

  /** `segs.join(".")`, the inverse of `Split`. */
  function Join(segs: seq<string>): string
    decreases |segs|
  {
    if segs == [] then ""
    else if |segs| == 1 then segs[0]
    else segs[0] + "." + Join(segs[1..])
  }

  /** Splitting loses nothing: joining the segments back gives the key. */
  lemma {:induction false} JoinSplit(s: string)
    ensures Join(Split(s)) == s
    decreases |s|
  {
    if s != [] {
      var rest := Split(s[1..]);
      JoinSplit(s[1..]);
      if s[0] == '.' {
        assert Split(s) == [""] + rest;
        assert ([""] + rest)[1..] == rest;
      } else if |rest| == 1 {
        assert Split(s) == [[s[0]] + rest[0]];
      } else {
        assert Split(s) == [[s[0]] + rest[0]] + rest[1..];
        assert ([[s[0]] + rest[0]] + rest[1..])[1..] == rest[1..];
        assert Join(rest) == rest[0] + "." + Join(rest[1..]);
      }
    }
  }

  /** A dot-free prefix glues onto the first segment of what follows it. */
  lemma {:induction false} SplitDotFreePrefix(a: string, t: string)
    requires '.' !in a
    ensures Split(a + t) == [a + Split(t)[0]] + Split(t)[1..]
    decreases |a|
  {
    if a != [] {
      assert (a + t)[0] == a[0] && (a + t)[1..] == a[1..] + t;
      SplitDotFreePrefix(a[1..], t);
      assert [a[0]] + (a[1..] + Split(t)[0]) == a + Split(t)[0];
    } else {
      assert a + t == t;
      assert a + Split(t)[0] == Split(t)[0];
      assert Split(t) == [Split(t)[0]] + Split(t)[1..];
    }
  }

  /** Splitting the join of dot-free segments gives them back. */
  lemma {:induction false} SplitJoin(segs: seq<string>)
    requires |segs| >= 1
    requires forall i :: 0 <= i < |segs| ==> '.' !in segs[i]
    ensures Split(Join(segs)) == segs
    decreases |segs|
  {
    if |segs| == 1 {
      SplitDotFreePrefix(segs[0], "");
      assert segs[0] + "" == segs[0];
    } else {
      var tail := Join(segs[1..]);
      SplitJoin(segs[1..]);
      assert Join(segs) == segs[0] + ("." + tail);
      SplitDotFreePrefix(segs[0], "." + tail);
      assert ("." + tail)[1..] == tail;
      assert Split("." + tail) == [""] + segs[1..];
      assert segs[0] + "" == segs[0];
    }
  }

  /** True when `node` is an object that owns the property `k`. */
  predicate HasKey(node: Option<Json>, k: string)
  {
    node.Some? && node.value.Obj? && k in node.value.fields
  }

  /** `obj?.[k]` restricted to own properties of objects; anything else is `undefined`. */
  function Lookup(node: Option<Json>, k: string): Option<Json>
  {
    if HasKey(node, k) then Some(node.value.fields[k]) else None
  }

  /** The `reduce` over the segments: a left fold of `Lookup`. */
  function Walk(node: Option<Json>, segs: seq<string>): Option<Json>
    decreases |segs|
  {
    if segs == [] then node else Walk(Lookup(node, segs[0]), segs[1..])
  }

  /** What a dotted key names in a bundle. */
  function Resolve(translations: Json, key: string): Option<Json>
  {
    Walk(Some(translations), Split(key))
  }

  /** Once the walk reaches `undefined` it stays there. */
  lemma {:induction false} WalkUndefined(segs: seq<string>)
    ensures Walk(None, segs) == None
    decreases |segs|
  {
    if segs != [] {
      WalkUndefined(segs[1..]);
    }
  }

  /** The fold is compositional: walking `a + b` is walking `a`, then `b`. */
  lemma {:induction false} WalkAppend(node: Option<Json>, a: seq<string>, b: seq<string>)
    ensures Walk(node, a + b) == Walk(Walk(node, a), b)
    decreases |a|
  {
    if a == [] {
      assert a + b == b;
    } else {
      assert (a + b)[0] == a[0] && (a + b)[1..] == a[1..] + b;
      WalkAppend(Lookup(node, a[0]), a[1..], b);
    }
  }

  /**
   * The walk yields a value exactly when it starts at a value and every step
   * stands on an object owning the next segment.
   */
  lemma {:induction false} WalkDefinedIff(node: Option<Json>, segs: seq<string>)
    ensures Walk(node, segs).Some? <==>
              node.Some? && forall i :: 0 <= i < |segs| ==> HasKey(Walk(node, segs[..i]), segs[i])
    decreases |segs|
  {
    if segs != [] {
      var next := Lookup(node, segs[0]);
      WalkDefinedIff(next, segs[1..]);
      WalkUndefined(segs[1..]);
      forall i | 0 <= i < |segs| - 1
        ensures Walk(node, segs[..i + 1]) == Walk(next, segs[1..][..i])
      {
        assert segs[..i + 1][0] == segs[0];
        assert segs[..i + 1][1..] == segs[1..][..i];
      }
      assert segs[..0] == [];
      if Walk(node, segs).Some? {
        assert HasKey(node, segs[0]);
        forall i | 0 <= i < |segs|
          ensures HasKey(Walk(node, segs[..i]), segs[i])
        {
          if i > 0 {
            assert segs[1..][i - 1] == segs[i];
          }
        }
      } else if node.Some? && HasKey(node, segs[0]) {
        var i :| 0 <= i < |segs| - 1 && !HasKey(Walk(next, segs[1..][..i]), segs[1..][i]);
        assert !HasKey(Walk(node, segs[..i + 1]), segs[i + 1]);
      }
    }
  }

  /** A missing or non-object step anywhere along the key leaves the result `undefined`. */
  lemma ResolveMissingSegment(translations: Json, key: string, i: nat)
    requires i < |Split(key)|
    requires !HasKey(Walk(Some(translations), Split(key)[..i]), Split(key)[i])
    ensures Resolve(translations, key) == None
  {
    WalkDefinedIff(Some(translations), Split(key));
  }

  /** A key without dots is a single property access on the bundle. */
  lemma ResolveSingleSegment(translations: Json, key: string)
    requires '.' !in key
    ensures Resolve(translations, key) == Lookup(Some(translations), key)
  {
    SplitJoin([key]);
    assert Split(key) == [key];
    assert [key][1..] == [];
    assert Walk(Some(translations), [key]) == Walk(Lookup(Some(translations), key), []);
  }
}
