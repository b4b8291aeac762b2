/**
 * Keys, prefixes and the construction of the tree from the flat pairs
 * (src/lib.rs:14-34, 94-114, 214-219).
 *
 * `Value::from_list`, which src/lib.rs:217 calls, is not part of this model;
 * FromList below is a reconstruction of it: each key is split on "__"; a key
 * of one segment is pushed onto the root, a longer one is inserted with
 * `Value::insert_at`; the first error ends the construction.
 */
module Lib {
  import Wrappers
  import opened Errors
  import opened Values

  /** A key as read, and its current form: what comparisons and decoding see. */
  datatype Key = Key(original: string, current: string)

  /** `Key::new`. */
  function NewKey(original: string): (k: Key)
    ensures k.original == original
    ensures AsRef(k) == original
  {
    Key(original, original)
  }

  /** `AsRef<str>` and `into_deserializer`: a key presents its current form. */
  function AsRef(k: Key): (s: string)
    ensures s == k.current
  {
    k.current
  }

  /** Whether to strip a prefix, and which one. */
  datatype Prefix = None | Some(text: string)

  /** `Prefix::from(Option<&str>)`. */
  function PrefixFrom(o: Wrappers.Option<string>): (p: Prefix)
    ensures p.Some? <==> o.Some?
    ensures p.Some? ==> p.text == o.value
  {
    match o
    case Some(v) => Some(v)
    case None => None
  }

  // ---------------------------------------------------------------------------
  // Splitting keys into paths
  // ---------------------------------------------------------------------------

  /** The separator between the segments of a key. */
  const Separator: string := "__"

  predicate OccursAt(s: string, sep: string, j: int) {
    0 <= j && j + |sep| <= |s| && s[j..j + |sep|] == sep
  }

  /** The first position at or after `from` where `sep` occurs in `s`, or |s|. */
  function FindFrom(s: string, sep: string, from: nat): (i: nat)
    requires |sep| > 0 && from <= |s|
    ensures from <= i <= |s|
    ensures i < |s| ==> OccursAt(s, sep, i)
    ensures forall j :: from <= j < i ==> !OccursAt(s, sep, j)
    ensures i == |s| ==> forall j :: from <= j ==> !OccursAt(s, sep, j)
    decreases |s| - from
  {
    if from + |sep| > |s| then |s|
    else if s[from..from + |sep|] == sep then from
    else FindFrom(s, sep, from + 1)
  }

  /** A prefix of `s` before its first occurrence of `sep` contains no occurrence. */
  lemma NoOccurrenceInPrefix(s: string, sep: string, i: nat)
    requires |sep| > 0 && i <= |s|
    requires forall j :: 0 <= j < i ==> !OccursAt(s, sep, j)
    ensures forall j :: !OccursAt(s[..i], sep, j)
  {
    forall j ensures !OccursAt(s[..i], sep, j) {
      if 0 <= j && j + |sep| <= i {
        assert s[..i][j..j + |sep|] == s[j..j + |sep|];
        assert !OccursAt(s, sep, j);
      }
    }
  }

  function Join(segments: seq<string>, sep: string): string
    requires |segments| >= 1
  {
    if |segments| == 1 then segments[0] else segments[0] + sep + Join(segments[1..], sep)
  }

  /**
   * Segments that `Split` gives back from their join: none contains `sep`, and
   * no occurrence of `sep` starts inside a segment followed by the separator
   * (for `"__"`: no segment but the last ends in `'_'`). Snake_case segments
   * such as `more_values` qualify.
   */
  ghost predicate Separable(segments: seq<string>, sep: string) {
    && (forall k, j :: 0 <= k < |segments| ==> !OccursAt(segments[k], sep, j))
    && (forall k, j :: 0 <= k < |segments| - 1 && 0 <= j < |segments[k]| ==> !OccursAt(segments[k] + sep, sep, j))
  }

  /**
   * `str::split`: the pieces between the occurrences of `sep`, leftmost
   * first; joining them with `sep` gives the key back, and none contains `sep`.
   * Every cut is at the leftmost remaining occurrence: no occurrence of `sep`
   * starts inside a segment followed by the separator.
   */
  function Split(s: string, sep: string): (segments: seq<string>)
    requires |sep| > 0
    ensures |segments| >= 1
    ensures Join(segments, sep) == s
    ensures forall k, j :: 0 <= k < |segments| ==> !OccursAt(segments[k], sep, j)
    ensures forall k, j :: 0 <= k < |segments| - 1 && 0 <= j < |segments[k]| ==> !OccursAt(segments[k] + sep, sep, j)
    decreases |s|
  {
    var i := FindFrom(s, sep, 0);
    if i == |s| then [s]
    else
      var head, tail := s[..i], s[i + |sep|..];
      NoOccurrenceInPrefix(s, sep, i);
      assert s == head + sep + tail by {
        assert s[i..i + |sep|] == sep;
      }
      assert forall j :: 0 <= j < |head| ==> !OccursAt(head + sep, sep, j) by {
        forall j | 0 <= j < |head|
          ensures !OccursAt(head + sep, sep, j)
        {
          if j + |sep| <= |head + sep| {
            assert (head + sep)[j..j + |sep|] == s[j..j + |sep|];
            assert !OccursAt(s, sep, j);
          }
        }
      }
      [head] + Split(tail, sep)
  }

  /** An occurrence in `head + sep + tail` before `|head|` lies within `head + sep`. */
  lemma OccurrenceInFront(head: string, sep: string, tail: string, j: nat)
    requires |sep| > 0 && j < |head|
    requires OccursAt(head + sep + tail, sep, j)
    ensures OccursAt(head + sep, sep, j)
  {
    assert (head + sep + tail)[j..j + |sep|] == (head + sep)[j..j + |sep|];
  }

  /**
   * Splitting undoes joining for separable segments: the path read back from
   * a key is the path it was made of.
   */
  lemma {:induction false} SplitJoin(segments: seq<string>, sep: string)
    requires |sep| > 0 && |segments| >= 1
    requires Separable(segments, sep)
    ensures Split(Join(segments, sep), sep) == segments
    decreases |segments|
  {
    var s := Join(segments, sep);
    var head := segments[0];
    var i := FindFrom(s, sep, 0);
    if |segments| > 1 {
      var tail := Join(segments[1..], sep);
      assert s == head + sep + tail;
      assert OccursAt(s, sep, |head|) by {
        assert s[|head|..|head| + |sep|] == sep;
      }
      assert i == |head| by {
        if i < |head| {
          OccurrenceInFront(head, sep, tail, i);
          assert false;
        }
      }
      assert s[..i] == head;
      assert s[i + |sep|..] == tail;
      assert Separable(segments[1..], sep) by {
        forall k, j | 0 <= k < |segments[1..]|
          ensures !OccursAt(segments[1..][k], sep, j)
        {
          assert segments[1..][k] == segments[k + 1];
        }
        forall k, j | 0 <= k < |segments[1..]| - 1 && 0 <= j < |segments[1..][k]|
          ensures !OccursAt(segments[1..][k] + sep, sep, j)
        {
          assert segments[1..][k] == segments[k + 1];
        }
      }
      SplitJoin(segments[1..], sep);
    } else {
      assert i == |s| by {
        assert !OccursAt(segments[0], sep, i);
      }
    }
  }

  // ---------------------------------------------------------------------------
  // Building the tree (reconstruction of Value::from_list) and from_primitive
  // ---------------------------------------------------------------------------

  /** The path a key is inserted at. */
  function PathOf(k: Key): (path: seq<string>)
    ensures |path| >= 1
    ensures Join(path, Separator) == AsRef(k)
  {
    Split(AsRef(k), Separator)
  }

  /** Adds the pairs, in order, to a root map holding `root`; stops at the first error. */
  function BuildInto(root: seq<(string, Value)>, pairs: seq<(Key, Value)>): (r: Result<Value>)
    ensures r.Ok? ==> r.value.Map?
    ensures r.Err? ==> r.error.InvalidEnvNesting?
    decreases |pairs|
  {
    if pairs == [] then Ok(Map(root))
    else
      var path := PathOf(pairs[0].0);
      if |path| == 1 then
        BuildInto(root + [(AsRef(pairs[0].0), pairs[0].1)], pairs[1..])
      else
        var step := InsertAt(Map(root), path, pairs[0].1);
        if step.outcome.Err? then Err(step.outcome.error)
        else BuildInto(step.tree.children, pairs[1..])
  }

  /** Reconstruction of `Value::from_list`: the tree of all pairs, from an empty root map. */
  function FromList(pairs: seq<(Key, Value)>): (r: Result<Value>)
    ensures r.Ok? ==> r.value.Map?
    ensures r.Err? ==> r.error.InvalidEnvNesting?
  {
    BuildInto([], pairs)
  }

  /** Every raw value becomes a leaf, pair order kept (src/lib.rs:217). */
  function WrapSimple(pairs: seq<(Key, string)>): (r: seq<(Key, Value)>)
    ensures |r| == |pairs|
    ensures forall i :: 0 <= i < |pairs| ==> r[i] == (pairs[i].0, Simple(pairs[i].1))
  {
    if pairs == [] then [] else [(pairs[0].0, Simple(pairs[0].1))] + WrapSimple(pairs[1..])
  }

  /**
   * `from_primitive` up to the tree handed to the decoder: the tree of the
   * pairs with every value a leaf. Building can only fail on nesting.
   */
  function FromPrimitive(pairs: seq<(Key, string)>): (r: Result<Value>)
    ensures r.Ok? ==> r.value.Map?
    ensures r.Err? ==> r.error.InvalidEnvNesting?
  {
    FromList(WrapSimple(pairs))
  }

  function Keyed(pairs: seq<(string, string)>): (r: seq<(Key, string)>)
    ensures |r| == |pairs|
    ensures forall i :: 0 <= i < |pairs| ==> r[i] == (NewKey(pairs[i].0), pairs[i].1)
  {
    if pairs == [] then [] else [(NewKey(pairs[0].0), pairs[0].1)] + Keyed(pairs[1..])
  }

  /** Building from a concatenation is building the first part, then the second from its tree. */
  lemma {:induction false} BuildConcat(root: seq<(string, Value)>, ps: seq<(Key, Value)>, qs: seq<(Key, Value)>)
    ensures BuildInto(root, ps + qs)
            == match BuildInto(root, ps)
               case Err(e) => Err(e)
               case Ok(t) => BuildInto(t.children, qs)
    decreases |ps|
  {
    if ps == [] {
      assert ps + qs == qs;
    } else {
      assert (ps + qs)[0] == ps[0];
      assert (ps + qs)[1..] == ps[1..] + qs;
      var path := PathOf(ps[0].0);
      if |path| == 1 {
        BuildConcat(root + [(AsRef(ps[0].0), ps[0].1)], ps[1..], qs);
      } else {
        var step := InsertAt(Map(root), path, ps[0].1);
        if step.outcome.Ok? {
          BuildConcat(step.tree.children, ps[1..], qs);
        }
      }
    }
  }

  /** Building never removes, reorders or rewrites the entries it started from. */
  lemma {:induction false} BuildExtends(root: seq<(string, Value)>, pairs: seq<(Key, Value)>)
    requires BuildInto(root, pairs).Ok?
    ensures Extends(Map(root), BuildInto(root, pairs).value)
    decreases |pairs|
  {
    var r := BuildInto(root, pairs).value;
    if pairs == [] {
      ExtendsReflexive(Map(root));
    } else {
      var path := PathOf(pairs[0].0);
      if |path| == 1 {
        var root' := root + [(AsRef(pairs[0].0), pairs[0].1)];
        BuildExtends(root', pairs[1..]);
        ExtendsPush(root, (AsRef(pairs[0].0), pairs[0].1));
        ExtendsTransitive(Map(root), Map(root'), r);
      } else {
        var step := InsertAt(Map(root), path, pairs[0].1);
        InsertAtExtends(Map(root), path, pairs[0].1);
        BuildExtends(step.tree.children, pairs[1..]);
        ExtendsTransitive(Map(root), step.tree, r);
      }
    }
  }

  /**
   * The first conflict in key order is the one reported, whatever follows;
   * and pairs added later only extend the tree of the earlier ones.
   */
  lemma LaterPairsOnlyExtend(ps: seq<(Key, Value)>, qs: seq<(Key, Value)>)
    ensures FromList(ps).Err? ==> FromList(ps + qs) == FromList(ps)
    ensures FromList(ps + qs).Ok? ==>
              FromList(ps).Ok? && Extends(FromList(ps).value, FromList(ps + qs).value)
  {
    BuildConcat([], ps, qs);
    if FromList(ps + qs).Ok? {
      var t := FromList(ps).value;
      BuildExtends(t.children, qs);
    }
  }

  // ---------------------------------------------------------------------------
  // The trees the source's tests rely on
  // ---------------------------------------------------------------------------

  /** One pair whose key has a single segment: it is pushed onto the root. */
  lemma BuildLeaf(root: seq<(string, Value)>, k: Key, v: Value, rest: seq<(Key, Value)>)
    requires |PathOf(k)| == 1
    ensures BuildInto(root, [(k, v)] + rest) == BuildInto(root + [(AsRef(k), v)], rest)
  {
    assert ([(k, v)] + rest)[1..] == rest;
  }

  /** One pair whose key nests: it is inserted at its path, and the rest go into the new tree. */
  lemma BuildNested(root: seq<(string, Value)>, k: Key, v: Value, rest: seq<(Key, Value)>, t: seq<(string, Value)>)
    requires |PathOf(k)| >= 2
    requires InsertAt(Map(root), PathOf(k), v) == Inserted(Map(t), Ok(()))
    ensures BuildInto(root, [(k, v)] + rest) == BuildInto(t, rest)
  {
    assert ([(k, v)] + rest)[1..] == rest;
  }

  /** One pair whose insertion fails: that error is the result. */
  lemma BuildBlocked(root: seq<(string, Value)>, k: Key, v: Value, rest: seq<(Key, Value)>, e: EnvError)
    requires |PathOf(k)| >= 2
    requires InsertAt(Map(root), PathOf(k), v).outcome == Err(e)
    ensures BuildInto(root, [(k, v)] + rest) == Err(e)
  {
  }

  /** The path of a key made by joining separable segments is those segments. */
  lemma PathOfJoined(segments: seq<string>)
    requires |segments| >= 1
    requires Separable(segments, Separator)
    ensures PathOf(NewKey(Join(segments, Separator))) == segments
  {
    SplitJoin(segments, Separator);
  }

  /** An occurrence of `"__"` is two `'_'` in a row. */
  lemma SeparatorChars(x: string, j: int)
    requires OccursAt(x, Separator, j)
    ensures x[j] == '_' && x[j + 1] == '_'
  {
    assert x[j] == x[j..j + 2][0] && x[j + 1] == x[j..j + 2][1];
  }

  /**
   * Segments are separable for `"__"` when none holds two `'_'` in a row and
   * none but the last ends in `'_'`.
   */
  lemma SeparableBySnakeCase(segments: seq<string>)
    requires forall k, i :: 0 <= k < |segments| && 0 <= i < |segments[k]| - 1 ==> !(segments[k][i] == '_' && segments[k][i + 1] == '_')
    requires forall k :: 0 <= k < |segments| - 1 && |segments[k]| > 0 ==> segments[k][|segments[k]| - 1] != '_'
    ensures Separable(segments, Separator)
  {
    forall k, j | 0 <= k < |segments|
      ensures !OccursAt(segments[k], Separator, j)
    {
      if OccursAt(segments[k], Separator, j) {
        SeparatorChars(segments[k], j);
        assert false;
      }
    }
    forall k, j | 0 <= k < |segments| - 1 && 0 <= j < |segments[k]|
      ensures !OccursAt(segments[k] + Separator, Separator, j)
    {
      var x := segments[k];
      if OccursAt(x + Separator, Separator, j) {
        SeparatorChars(x + Separator, j);
        assert false;
      }
    }
  }

  /** Segments without any `'_'` are separable for `"__"`. */
  lemma SeparableWithoutUnderscore(segments: seq<string>)
    requires forall k :: 0 <= k < |segments| ==> '_' !in segments[k]
    ensures Separable(segments, Separator)
  {
    forall k, i | 0 <= k < |segments| && 0 <= i < |segments[k]|
      ensures segments[k][i] != '_'
    {
      assert segments[k][i] in segments[k];
    }
    SeparableBySnakeCase(segments);
  }

  /**
   * A snake_case field keeps its underscores: `inner__more_values__0key`, a
   * key of tests/hashmap.rs:24, reads back as three segments.
   */
  lemma SnakeCasePath()
    ensures PathOf(NewKey("inner__more_values__0key")) == ["inner", "more_values", "0key"]
  {
    var segments := ["inner", "more_values", "0key"];
    assert Join(segments, Separator) == "inner__more_values__0key" by {
      assert segments[1..] == ["more_values", "0key"] && segments[1..][1..] == ["0key"];
    }
    SeparableBySnakeCase(segments);
    PathOfJoined(segments);
  }

  lemma PathOfOne(a: string)
    requires '_' !in a
    ensures PathOf(NewKey(a)) == [a]
  {
    SeparableWithoutUnderscore([a]);
    PathOfJoined([a]);
  }

  lemma PathOfTwo(a: string, b: string)
    requires '_' !in a && '_' !in b
    ensures PathOf(NewKey(a + Separator + b)) == [a, b]
  {
    assert [a, b][1..] == [b];
    SeparableWithoutUnderscore([a, b]);
    PathOfJoined([a, b]);
  }

  lemma PathOfThree(a: string, b: string, c: string)
    requires '_' !in a && '_' !in b && '_' !in c
    ensures PathOf(NewKey(a + Separator + b + Separator + c)) == [a, b, c]
  {
    assert [a, b, c][1..] == [b, c] && [b, c][1..] == [c];
    assert Join([c], Separator) == c;
    assert Join([b, c], Separator) == b + Separator + c;
    assert Join([a, b, c], Separator) == a + Separator + (b + Separator + c);
    assert a + Separator + (b + Separator + c) == a + Separator + b + Separator + c;
    SeparableWithoutUnderscore([a, b, c]);
    PathOfJoined([a, b, c]);
  }

  /**
   * A leaf, a map opened by a two-segment key and extended by a three-segment
   * key under it: the shape of the nested structure in src/lib.rs:272-281.
   */
  lemma NestedShape(a: string, b: string, c: string, d: string, e: string, va: string, vb: string, vc: string)
    requires '_' !in a && '_' !in b && '_' !in c && '_' !in d && '_' !in e
    requires a != b && c != d
    ensures FromPrimitive(Keyed([(a, va), (b + Separator + c, vb), (b + Separator + d + Separator + e, vc)]))
            == Ok(Map([(a, Simple(va)), (b, Map([(c, Simple(vb)), (d, Map([(e, Simple(vc))]))]))]))
  {
    var k1, k2, k3 := NewKey(a), NewKey(b + Separator + c), NewKey(b + Separator + d + Separator + e);
    assert WrapSimple(Keyed([(a, va), (b + Separator + c, vb), (b + Separator + d + Separator + e, vc)]))
        == [(k1, Simple(va))] + ([(k2, Simple(vb))] + ([(k3, Simple(vc))] + []));
    PathOfOne(a);
    PathOfTwo(b, c);
    PathOfThree(b, d, e);
    NestedBuild(k1, k2, k3, a, b, c, d, e, Simple(va), Simple(vb), Simple(vc));
  }

  lemma NestedBuild(k1: Key, k2: Key, k3: Key, a: string, b: string, c: string, d: string, e: string,
                    v1: Value, v2: Value, v3: Value)
    requires PathOf(k1) == [a] && AsRef(k1) == a && PathOf(k2) == [b, c] && PathOf(k3) == [b, d, e]
    requires a != b && c != d
    ensures BuildInto([], [(k1, v1)] + ([(k2, v2)] + ([(k3, v3)] + [])))
            == Ok(Map([(a, v1), (b, Map([(c, v2), (d, Map([(e, v3)]))]))]))
  {
    var r1 := [(a, v1)];
    assert [] + r1 == r1;
    BuildLeaf([], k1, v1, [(k2, v2)] + ([(k3, v3)] + []));
    assert FindKey(r1, b) == 1 by { assert FindKey(r1[1..], b) == 0; }
    InsertAtNewPair(r1, b, c, v2);
    var inner2 := [(c, v2)];
    var r2 := r1 + [(b, Map(inner2))];
    BuildNested(r1, k2, v2, [(k3, v3)] + [], r2);
    NestedThirdStep(a, b, c, d, e, v1, v2, v3);
    var r3 := [(a, v1), (b, Map([(c, v2), (d, Map([(e, v3)]))]))];
    BuildNested(r2, k3, v3, [], r3);
  }

  lemma NestedThirdStep(a: string, b: string, c: string, d: string, e: string, v1: Value, v2: Value, v3: Value)
    requires a != b && c != d
    ensures InsertAt(Map([(a, v1), (b, Map([(c, v2)]))]), [b, d, e], v3)
            == Inserted(Map([(a, v1), (b, Map([(c, v2), (d, Map([(e, v3)]))]))]), Ok(()))
  {
    var r2 := [(a, v1), (b, Map([(c, v2)]))];
    var inner2 := [(c, v2)];
    assert FindKey(r2, b) == 1 by { assert FindKey(r2[1..], b) == 0; }
    assert FindKey(inner2, d) == 1 by { assert FindKey(inner2[1..], d) == 0; }
    InsertAtNewPair(inner2, d, e, v3);
    InsertAtDescends(r2, b, [d, e], v3);
    assert [b] + [d, e] == [b, d, e];
    assert inner2 + [(d, Map([(e, v3)]))] == [(c, v2), (d, Map([(e, v3)]))];
  }

  lemma NestedStructExample()
    ensures FromPrimitive(Keyed([("temp", "15"), ("inner__smoothness", "32.0"), ("inner__extra__allowed", "false")]))
            == Ok(Map([("temp", Simple("15")),
                       ("inner", Map([("smoothness", Simple("32.0")),
                                      ("extra", Map([("allowed", Simple("false"))]))]))]))
  {
    assert "inner__smoothness" == "inner" + Separator + "smoothness";
    assert "inner__extra__allowed" == "inner" + Separator + "extra" + Separator + "allowed";
    assert "temp" != "inner" by { assert "temp"[0] != "inner"[0]; }
    assert "smoothness" != "extra" by { assert "smoothness"[0] != "extra"[0]; }
    NestedShape("temp", "inner", "smoothness", "extra", "allowed", "15", "32.0", "false");
  }

  /**
   * A leaf and then a key nested under it: the insertion fails on the whole
   * path of the second key (tests/failure.rs:12).
   */
  lemma LeafThenNestedFails(a: string, b: string, va: string, vb: string)
    requires '_' !in a && '_' !in b
    ensures FromPrimitive(Keyed([(a, va), (a + Separator + b, vb)])) == Err(InvalidEnvNesting([a, b]))
  {
    var k1, k2 := NewKey(a), NewKey(a + Separator + b);
    assert WrapSimple(Keyed([(a, va), (a + Separator + b, vb)])) == [(k1, Simple(va))] + ([(k2, Simple(vb))] + []);
    PathOfOne(a);
    PathOfTwo(a, b);
    var r1 := [(a, Simple(va))];
    assert [] + r1 == r1;
    BuildLeaf([], k1, Simple(va), [(k2, Simple(vb))] + []);
    assert FindKey(r1, a) == 0;
    InsertAtBlockedHere(r1, [a, b], Simple(vb));
    BuildBlocked(r1, k2, Simple(vb), [], InvalidEnvNesting([a, b]));
  }

  lemma WronglyNestedExample()
    ensures FromPrimitive(Keyed([("test", "true"), ("test__bar", "true")])) == Err(InvalidEnvNesting(["test", "bar"]))
  {
    assert "test__bar" == "test" + Separator + "bar";
    LeafThenNestedFails("test", "bar", "true", "true");
  }

  /**
   * The same two keys the other way round: no error, and the root holds a
   * map and a leaf under the same name. Whether the pairs conflict depends
   * on their order.
   */
  lemma NestedThenLeafSucceeds(a: string, b: string, va: string, vb: string)
    requires '_' !in a && '_' !in b
    ensures FromPrimitive(Keyed([(a + Separator + b, vb), (a, va)]))
            == Ok(Map([(a, Map([(b, Simple(vb))])), (a, Simple(va))]))
  {
    var k1, k2 := NewKey(a + Separator + b), NewKey(a);
    assert WrapSimple(Keyed([(a + Separator + b, vb), (a, va)])) == [(k1, Simple(vb))] + ([(k2, Simple(va))] + []);
    PathOfTwo(a, b);
    PathOfOne(a);
    var r1 := [(a, Map([(b, Simple(vb))]))];
    InsertAtNewPair([], a, b, Simple(vb));
    assert [] + [(a, Map([(b, Simple(vb))]))] == r1;
    BuildNested([], k1, Simple(vb), [(k2, Simple(va))] + [], r1);
    BuildLeaf(r1, k2, Simple(va), []);
    assert r1 + [(AsRef(k2), Simple(va))] == [(a, Map([(b, Simple(vb))])), (a, Simple(va))];
  }

  /**
   * Two keys sharing their first two segments end up in one map, in key
   * order: the shape of the enum test in src/lib.rs:347-355.
   */
  lemma SharedPrefixShape(a: string, b: string, c: string, d: string, vc: string, vd: string)
    requires '_' !in a && '_' !in b && '_' !in c && '_' !in d
    ensures FromPrimitive(Keyed([(a + Separator + b + Separator + c, vc), (a + Separator + b + Separator + d, vd)]))
            == Ok(Map([(a, Map([(b, Map([(c, Simple(vc)), (d, Simple(vd))]))]))]))
  {
    var k1, k2 := NewKey(a + Separator + b + Separator + c), NewKey(a + Separator + b + Separator + d);
    assert WrapSimple(Keyed([(a + Separator + b + Separator + c, vc), (a + Separator + b + Separator + d, vd)]))
        == [(k1, Simple(vc))] + ([(k2, Simple(vd))] + []);
    PathOfThree(a, b, c);
    PathOfThree(a, b, d);
    var r1 := [(a, Map([(b, Map([(c, Simple(vc))]))]))];
    SharedPrefixFirst(a, b, c, Simple(vc));
    BuildNested([], k1, Simple(vc), [(k2, Simple(vd))] + [], r1);
    SharedPrefixSecond(a, b, c, d, Simple(vc), Simple(vd));
    BuildNested(r1, k2, Simple(vd), [], [(a, Map([(b, Map([(c, Simple(vc)), (d, Simple(vd))]))]))]);
  }

  lemma SharedPrefixFirst(a: string, b: string, c: string, v: Value)
    ensures InsertAt(Map([]), [a, b, c], v) == Inserted(Map([(a, Map([(b, Map([(c, v)]))]))]), Ok(()))
  {
    InsertAtNewPair([], b, c, v);
    assert [] + [(b, Map([(c, v)]))] == [(b, Map([(c, v)]))];
    var path := [a, b, c];
    assert path[0] == a && path[1..] == [b, c];
    assert [] + [(a, Map([]))] == [(a, Map([]))];
    assert [(a, Map([]))][0 := (a, Map([(b, Map([(c, v)]))]))] == [(a, Map([(b, Map([(c, v)]))]))];
  }

  lemma SharedPrefixSecond(a: string, b: string, c: string, d: string, vc: Value, vd: Value)
    ensures InsertAt(Map([(a, Map([(b, Map([(c, vc)]))]))]), [a, b, d], vd)
            == Inserted(Map([(a, Map([(b, Map([(c, vc), (d, vd)]))]))]), Ok(()))
  {
    var r1 := [(a, Map([(b, Map([(c, vc)]))]))];
    assert FindKey(r1, a) == 0;
    assert FindKey([(b, Map([(c, vc)]))], b) == 0;
    InsertAtIntoChild([(b, Map([(c, vc)]))], b, d, vd);
    InsertAtDescends(r1, a, [b, d], vd);
    assert [a] + [b, d] == [a, b, d];
    assert [(c, vc)] + [(d, vd)] == [(c, vc), (d, vd)];
    assert [(b, Map([(c, vc)]))][0 := (b, Map([(c, vc), (d, vd)]))] == [(b, Map([(c, vc), (d, vd)]))];
    assert r1[0 := (a, Map([(b, Map([(c, vc), (d, vd)]))]))] == [(a, Map([(b, Map([(c, vc), (d, vd)]))]))];
  }

  lemma ComplexEnumExample()
    ensures FromPrimitive(Keyed([("complex__Access__password", "hunter2"), ("complex__Access__foo", "42.0")]))
            == Ok(Map([("complex", Map([("Access", Map([("password", Simple("hunter2")), ("foo", Simple("42.0"))]))]))]))
  {
    assert "complex__Access__password" == "complex" + Separator + "Access" + Separator + "password";
    assert "complex__Access__foo" == "complex" + Separator + "Access" + Separator + "foo";
    SharedPrefixShape("complex", "Access", "password", "foo", "hunter2", "42.0");
  }

  /**
   * A three-segment key and then its two-segment prefix: the leaf push checks
   * nothing, so both succeed and the middle map holds a map and a leaf under
   * the same name.
   */
  lemma DeeperThenShorterSucceeds(a: string, b: string, c: string, vc: string, vb: string)
    requires '_' !in a && '_' !in b && '_' !in c
    ensures FromPrimitive(Keyed([(a + Separator + b + Separator + c, vc), (a + Separator + b, vb)]))
            == Ok(Map([(a, Map([(b, Map([(c, Simple(vc))])), (b, Simple(vb))]))]))
  {
    var k1, k2 := NewKey(a + Separator + b + Separator + c), NewKey(a + Separator + b);
    assert WrapSimple(Keyed([(a + Separator + b + Separator + c, vc), (a + Separator + b, vb)]))
        == [(k1, Simple(vc))] + ([(k2, Simple(vb))] + []);
    PathOfThree(a, b, c);
    PathOfTwo(a, b);
    var r1 := [(a, Map([(b, Map([(c, Simple(vc))]))]))];
    SharedPrefixFirst(a, b, c, Simple(vc));
    BuildNested([], k1, Simple(vc), [(k2, Simple(vb))] + [], r1);
    assert FindKey(r1, a) == 0;
    InsertAtIntoChild(r1, a, b, Simple(vb));
    var r2 := [(a, Map([(b, Map([(c, Simple(vc))])), (b, Simple(vb))]))];
    assert [(b, Map([(c, Simple(vc))]))] + [(b, Simple(vb))] == [(b, Map([(c, Simple(vc))])), (b, Simple(vb))];
    assert r1[0 := (a, Map([(b, Map([(c, Simple(vc))])), (b, Simple(vb))]))] == r2;
    BuildNested(r1, k2, Simple(vb), [], r2);
  }

  /** Two pairs with the same one-segment key: both are kept, in order, nothing is merged. */
  lemma DuplicateLeavesCoexist(a: string, x: string, y: string)
    requires '_' !in a
    ensures FromPrimitive(Keyed([(a, x), (a, y)])) == Ok(Map([(a, Simple(x)), (a, Simple(y))]))
  {
    var k := NewKey(a);
    assert WrapSimple(Keyed([(a, x), (a, y)])) == [(k, Simple(x))] + ([(k, Simple(y))] + []);
    PathOfOne(a);
    BuildLeaf([], k, Simple(x), [(k, Simple(y))] + []);
    BuildLeaf([] + [(a, Simple(x))], k, Simple(y), []);
    assert [] + [(a, Simple(x))] + [(a, Simple(y))] == [(a, Simple(x)), (a, Simple(y))];
  }
}
