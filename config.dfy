/*
 * The configuration record of src/config.rs and the prefix filter of its
 * `from_iter`: pairs whose key starts with the prefix are kept with the
 * prefix cut off, every other pair is dropped, and order is kept.
 */
module EnvConfig {
  import Wrappers
  import opened Errors
  import opened Values
  import opened Lib

  /** `str::starts_with`: an exact, character-by-character match. */
  predicate HasPrefix(key: string, p: string) {
    |p| <= |key| && key[..|p|] == p
  }

  /**
   * The pairs `from_iter` passes on: with no prefix every pair as a fresh key;
   * with prefix `p` the pairs whose key starts with `p`, `p` cut off (the `?`
   * inside `flat_map` drops the others).
   */
  function StripPrefixes(prefix: Wrappers.Option<string>, pairs: seq<(string, string)>): (r: seq<(Key, string)>)
    ensures |r| <= |pairs|
    ensures prefix.None? ==> r == Keyed(pairs)
    ensures prefix.Some? ==> (|r| == |pairs| <==> forall i :: 0 <= i < |pairs| ==> HasPrefix(pairs[i].0, prefix.value))
    ensures forall i :: 0 <= i < |r| ==> r[i].0.original == AsRef(r[i].0)
    decreases |pairs|
  {
    if pairs == [] then []
    else
      var rest := StripPrefixes(prefix, pairs[1..]);
      match prefix
      case None => [(NewKey(pairs[0].0), pairs[0].1)] + rest
      case Some(p) =>
        if HasPrefix(pairs[0].0, p) then [(NewKey(pairs[0].0[|p|..]), pairs[0].1)] + rest
        else rest
  }

  /** Filtering a concatenation filters each part: the relative order of the pairs is kept. */
  lemma {:induction false} StripConcat(prefix: Wrappers.Option<string>, xs: seq<(string, string)>, ys: seq<(string, string)>)
    ensures StripPrefixes(prefix, xs + ys) == StripPrefixes(prefix, xs) + StripPrefixes(prefix, ys)
    decreases |xs|
  {
    if xs == [] {
      assert xs + ys == ys;
    } else {
      assert (xs + ys)[0] == xs[0];
      assert (xs + ys)[1..] == xs[1..] + ys;
      StripConcat(prefix, xs[1..], ys);
    }
  }

  /** What one pair becomes: itself on a fresh key when it carries the prefix, cut, or nothing. */
  lemma StripOne(p: string, key: string, value: string)
    ensures StripPrefixes(Wrappers.Some(p), [(key, value)])
            == if HasPrefix(key, p) then [(NewKey(key[|p|..]), value)] else []
  {
    assert [(key, value)][1..] == [];
  }

  /**
   * Soundness and completeness: every pair passed on comes from an input pair
   * carrying the prefix, with the prefix cut off and the same value; and every
   * input pair carrying the prefix is passed on so.
   */
  lemma {:induction false} StripExactly(p: string, pairs: seq<(string, string)>)
    ensures forall x :: x in StripPrefixes(Wrappers.Some(p), pairs) ==>
              exists y :: y in pairs && HasPrefix(y.0, p) && x == (NewKey(y.0[|p|..]), y.1)
    ensures forall y :: y in pairs && HasPrefix(y.0, p) ==> (NewKey(y.0[|p|..]), y.1) in StripPrefixes(Wrappers.Some(p), pairs)
    decreases |pairs|
  {
    if pairs != [] {
      StripExactly(p, pairs[1..]);
      var rest := StripPrefixes(Wrappers.Some(p), pairs[1..]);
      forall x | x in StripPrefixes(Wrappers.Some(p), pairs)
        ensures exists y :: y in pairs && HasPrefix(y.0, p) && x == (NewKey(y.0[|p|..]), y.1)
      {
        if x !in rest {
          assert pairs[0] in pairs;
        } else {
          var y :| y in pairs[1..] && HasPrefix(y.0, p) && x == (NewKey(y.0[|p|..]), y.1);
          assert y in pairs;
        }
      }
      forall y | y in pairs && HasPrefix(y.0, p)
        ensures (NewKey(y.0[|p|..]), y.1) in StripPrefixes(Wrappers.Some(p), pairs)
      {
        if y != pairs[0] {
          assert y in pairs[1..];
        }
      }
    }
  }

  /** No pair carries the prefix: nothing is passed on. */
  lemma {:induction false} StripDropsAll(p: string, pairs: seq<(string, string)>)
    requires forall i :: 0 <= i < |pairs| ==> !HasPrefix(pairs[i].0, p)
    ensures StripPrefixes(Wrappers.Some(p), pairs) == []
    decreases |pairs|
  {
    if pairs != [] {
      StripDropsAll(p, pairs[1..]);
    }
  }

  /** The empty prefix is carried by every key and cuts nothing: it is the same as no prefix. */
  lemma {:induction false} EmptyPrefixIsNone(pairs: seq<(string, string)>)
    ensures StripPrefixes(Wrappers.Some(""), pairs) == StripPrefixes(Wrappers.None, pairs)
    decreases |pairs|
  {
    if pairs != [] {
      assert HasPrefix(pairs[0].0, "");
      assert pairs[0].0[|""|..] == pairs[0].0;
      EmptyPrefixIsNone(pairs[1..]);
    }
  }

  /**
   * The configuration record: an optional prefix and a case flag, both
   * changed in place by the setters.
   */
  class Config {
    var prefix: Wrappers.Option<string>
    var caseSensitive: bool

    /** The derived `Default`: no prefix, case-insensitive. */
    constructor Default()
      ensures prefix == Wrappers.None && !caseSensitive
    {
      prefix := Wrappers.None;
      caseSensitive := false;
    }

    /** `with_prefix`: sets the prefix, the case flag is untouched. */
    method WithPrefix(p: string)
      modifies this
      ensures prefix == Wrappers.Some(p)
      ensures caseSensitive == old(caseSensitive)
    {
      prefix := Wrappers.Some(p);
    }

    /** `case_sensitivity`: sets the case flag, the prefix is untouched. */
    method CaseSensitivity(b: bool)
      modifies this
      ensures caseSensitive == b
      ensures prefix == old(prefix)
    {
      caseSensitive := b;
    }

    /**
     * `from_iter` up to the tree handed to the decoder: the pairs that pass
     * the prefix filter, built into a tree. With no prefix, all pairs are built.
     */
    function FromIter(pairs: seq<(string, string)>): (r: Result<Value>)
      reads this
      ensures prefix.None? ==> r == FromPrimitive(Keyed(pairs))
      ensures r.Ok? ==> r.value.Map?
      ensures r.Err? ==> r.error.InvalidEnvNesting?
    {
      FromPrimitive(StripPrefixes(prefix, pairs))
    }
  }

  /**
   * Prefix matching never reads the case flag: two configurations with the
   * same prefix hand the same tree on, whatever their flags.
   */
  lemma FromIterIgnoresCase(c1: Config, c2: Config, pairs: seq<(string, string)>)
    requires c1.prefix == c2.prefix
    ensures c1.FromIter(pairs) == c2.FromIter(pairs)
  {
  }

  /** A key made of the prefix and a rest carries the prefix, and cutting it gives the rest. */
  lemma CutPrefix(p: string, rest: string)
    ensures HasPrefix(p + rest, p) && (p + rest)[|p|..] == rest
  {
    assert (p + rest)[..|p|] == p;
  }

  /** Two keys carrying the prefix and one that does not: the first two are kept, cut, in order. */
  lemma KeepTwoDropOne(p: string, r0: string, r1: string, q: string, v0: string, v1: string, v2: string)
    requires !HasPrefix(q, p)
    ensures StripPrefixes(Wrappers.Some(p), [(p + r0, v0), (p + r1, v1), (q, v2)])
            == [(NewKey(r0), v0), (NewKey(r1), v1)]
  {
    CutPrefix(p, r0);
    CutPrefix(p, r1);
    StripOne(p, p + r0, v0);
    StripOne(p, p + r1, v1);
    StripOne(p, q, v2);
    StripConcat(Wrappers.Some(p), [(p + r0, v0)], [(p + r1, v1), (q, v2)]);
    StripConcat(Wrappers.Some(p), [(p + r1, v1)], [(q, v2)]);
    assert [(p + r0, v0)] + [(p + r1, v1), (q, v2)] == [(p + r0, v0), (p + r1, v1), (q, v2)];
    assert [(p + r1, v1)] + [(q, v2)] == [(p + r1, v1), (q, v2)];
  }

  /**
   * The variables of tests/prefix_env.rs: an upper-case prefix keeps the two
   * matching pairs, cut, and drops the third.
   */
  lemma UpperCasePrefixExample()
    ensures StripPrefixes(Wrappers.Some("ENVIOUS_"),
                          [("ENVIOUS_upstairs__doors__0__material", "Wood"),
                           ("ENVIOUS_upstairs__doors__1__material", "Plastic"),
                           ("ENORMUS_upstairs__doors__2__material", "Plastic")])
            == [(NewKey("upstairs__doors__0__material"), "Wood"),
                (NewKey("upstairs__doors__1__material"), "Plastic")]
  {
    var p, q := "ENVIOUS_", "ENORMUS_upstairs__doors__2__material";
    assert "ENVIOUS_upstairs__doors__0__material" == p + "upstairs__doors__0__material";
    assert "ENVIOUS_upstairs__doors__1__material" == p + "upstairs__doors__1__material";
    assert !HasPrefix(q, p) by { assert q[2] != p[2]; }
    KeepTwoDropOne(p, "upstairs__doors__0__material", "upstairs__doors__1__material", q, "Wood", "Plastic", "Plastic");
  }

  /**
   * The same variables with a lower-case prefix: matching is exact, so every
   * pair is dropped; the case flag plays no part in it.
   */
  lemma LowerCasePrefixExample()
    ensures StripPrefixes(Wrappers.Some("envious_"),
                          [("ENVIOUS_upstairs__doors__0__material", "Wood"),
                           ("ENVIOUS_upstairs__doors__1__material", "Plastic"),
                           ("ENORMUS_upstairs__doors__2__material", "Plastic")])
            == []
  {
    var pairs := [("ENVIOUS_upstairs__doors__0__material", "Wood"),
                  ("ENVIOUS_upstairs__doors__1__material", "Plastic"),
                  ("ENORMUS_upstairs__doors__2__material", "Plastic")];
    forall i | 0 <= i < |pairs|
      ensures !HasPrefix(pairs[i].0, "envious_")
    {
      assert pairs[i].0[0] == 'E';
    }
    StripDropsAll("envious_", pairs);
  }
}
