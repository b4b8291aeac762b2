/**
 * The tree of values built from the flat key/value pairs, and its in-place
 * insertion `Value::insert_at` (src/value.rs:8-66).
 *
 * The source mutates an owned `Value` through `&mut self`; here the
 * insertion is a function from the tree before to the tree after, returned
 * together with the outcome, so that what an error leaves behind can be
 * stated and proved.
 */
module Values {
  import opened Errors

  /** A leaf holding a raw string, or an ordered list of keyed children (insertion order). */
  datatype Value = Simple(text: string) | Map(children: seq<(string, Value)>)

  /** The tree after an insertion, together with the outcome the source returns. */
  datatype Inserted = Inserted(tree: Value, outcome: Result<()>)

  /** The segments that must be walked through before the leaf is placed. */
  function Intermediate(path: seq<string>): seq<string>
    requires |path| >= 1
  {
    path[..|path| - 1]
  }

  /** The key under which the leaf is placed. */
  function Last(path: seq<string>): string
    requires |path| >= 1
  {
    path[|path| - 1]
  }

  /**
   * `values.iter_mut().find(|(k, _)| k == key)`: the index of the FIRST child
   * whose key equals `key`, or `|cs|` when there is none.
   */
  function FindKey(cs: seq<(string, Value)>, key: string): (i: nat)
    ensures i <= |cs|
    ensures i < |cs| ==> cs[i].0 == key
    ensures forall j :: 0 <= j < i ==> cs[j].0 != key
  {
    if cs == [] then 0
    else if cs[0].0 == key then 0
    else 1 + FindKey(cs[1..], key)
  }

  /**
   * `Value::insert_at(&mut self, path, value)`. The source indexes `path[0]`
   * and, after dropping it, `path[0]` again, so it needs two segments at least.
   * The returned tree is the state of `self` after the call, error or not.
   */
  function InsertAt(self: Value, path: seq<string>, value: Value): (r: Inserted)
    requires |path| >= 2
    ensures r.outcome.Err? ==> r.tree == self
    ensures r.outcome.Err? ==> r.outcome.error.InvalidEnvNesting?
    ensures self == Map([]) ==> r.outcome.Ok?
    ensures r.tree.Map? <==> self.Map?
    decreases |path|
  {
    match self
    case Simple(_) => Inserted(self, Err(InvalidEnvNesting(path)))
    case Map(values) =>
      var i := FindKey(values, path[0]);
      if i < |values| && values[i].1.Simple? then
        Inserted(self, Err(InvalidEnvNesting(path)))
      else
        // descend into the first matching child, or into a new empty map pushed at the end
        var values' := if i < |values| then values else values + [(path[0], Map([]))];
        var val := values'[i].1;
        var rest := path[1..];
        if |rest| > 1 then
          var sub := InsertAt(val, rest, value);
          assert sub.outcome.Err? ==> i < |values| && values'[i := (values'[i].0, sub.tree)] == values;
          Inserted(Map(values'[i := (values'[i].0, sub.tree)]), sub.outcome)
        else
          match val
          case Simple(_) =>
            // src/value.rs:52-56 cannot be reached: `val` is a map here
            assert false; Inserted(self, Err(InvalidEnvNesting(rest)))
          case Map(inner) =>
            Inserted(Map(values'[i := (values'[i].0, Map(inner + [(rest[0], value)]))]), Ok(()))
  }

  // ---------------------------------------------------------------------------
  // A read-only walk along a path: the reference against which InsertAt is proved
  // ---------------------------------------------------------------------------

  /**
   * What a walk along `keys` finds, following the first child with a matching
   * key at each level: a leaf after `depth` segments, no child for segment
   * `depth`, or a map at the end, given by its children.
   */
  datatype Probe = Blocked(depth: nat) | Missing(depth: nat) | Reached(children: seq<(string, Value)>)

  function ProbePath(v: Value, keys: seq<string>): (p: Probe)
    ensures p.Blocked? ==> p.depth <= |keys|
    ensures p.Missing? ==> p.depth < |keys|
    ensures p.Blocked? && p.depth == 0 <==> v.Simple?
    decreases |keys|
  {
    match v
    case Simple(_) => Blocked(0)
    case Map(cs) =>
      if keys == [] then Reached(cs)
      else
        var i := FindKey(cs, keys[0]);
        if i == |cs| then Missing(0)
        else
          match ProbePath(cs[i].1, keys[1..])
          case Blocked(d) => Blocked(d + 1)
          case Missing(d) => Missing(d + 1)
          case Reached(ds) => Reached(ds)
  }

  /** The children the leaf is appended after: those of the map reached, or none for a new map. */
  function Before(p: Probe): seq<(string, Value)> {
    if p.Reached? then p.children else []
  }

  /** How many new maps an insertion along `n` intermediate segments has to create. */
  function Created(p: Probe, n: nat): nat {
    if p.Missing? && p.depth <= n then n - p.depth else 0
  }

  // ---------------------------------------------------------------------------
  // Size and the prefix order on trees
  // ---------------------------------------------------------------------------

  function Sum(s: seq<nat>): nat {
    if s == [] then 0 else s[0] + Sum(s[1..])
  }

  /** Number of nodes of a tree. */
  function Size(v: Value): (n: nat)
    ensures n >= 1
  {
    match v
    case Simple(_) => 1
    case Map(cs) => 1 + Sum(seq(|cs|, i requires 0 <= i < |cs| => Size(cs[i].1)))
  }

  function Sizes(cs: seq<(string, Value)>): (s: seq<nat>)
    ensures |s| == |cs|
    ensures forall i :: 0 <= i < |cs| ==> s[i] == Size(cs[i].1)
  {
    seq(|cs|, i requires 0 <= i < |cs| => Size(cs[i].1))
  }

  /**
   * `b` is `a` with entries possibly appended to its maps and their
   * descendants: every key, leaf and position of `a` is kept in `b`.
   */
  predicate Extends(a: Value, b: Value) {
    match a
    case Simple(s) => b == Simple(s)
    case Map(cs) =>
      && b.Map?
      && |cs| <= |b.children|
      && forall i :: 0 <= i < |cs| ==> cs[i].0 == b.children[i].0 && Extends(cs[i].1, b.children[i].1)
  }

  // ---------------------------------------------------------------------------
  // Facts about Size, Extends and FindKey
  // ---------------------------------------------------------------------------

  lemma {:induction false} SumAppend(s: seq<nat>, x: nat)
    ensures Sum(s + [x]) == Sum(s) + x
  {
    if s != [] {
      assert (s + [x])[1..] == s[1..] + [x];
      SumAppend(s[1..], x);
    }
  }

  lemma {:induction false} SumUpdate(s: seq<nat>, i: nat, x: nat)
    requires i < |s|
    ensures Sum(s[i := x]) + s[i] == Sum(s) + x
  {
    if i > 0 {
      assert s[i := x][1..] == s[1..][i - 1 := x];
      SumUpdate(s[1..], i - 1, x);
    }
  }

  lemma {:induction false} SumAtLeast(s: seq<nat>, i: nat)
    requires i < |s|
    ensures s[i] <= Sum(s)
  {
    if i > 0 {
      SumAtLeast(s[1..], i - 1);
    }
  }

  lemma SizeOfMap(cs: seq<(string, Value)>)
    ensures Size(Map(cs)) == 1 + Sum(Sizes(cs))
  {
    assert Sizes(cs) == seq(|cs|, i requires 0 <= i < |cs| => Size(cs[i].1));
  }

  /** A child is strictly smaller than the map holding it. */
  lemma ChildSmaller(cs: seq<(string, Value)>, i: nat)
    requires i < |cs|
    ensures Size(cs[i].1) < Size(Map(cs))
  {
    SizeOfMap(cs);
    SumAtLeast(Sizes(cs), i);
  }

  lemma SizeAppend(cs: seq<(string, Value)>, c: (string, Value))
    ensures Size(Map(cs + [c])) == Size(Map(cs)) + Size(c.1)
  {
    SizeOfMap(cs);
    SizeOfMap(cs + [c]);
    assert Sizes(cs + [c]) == Sizes(cs) + [Size(c.1)];
    SumAppend(Sizes(cs), Size(c.1));
  }

  lemma SizeReplace(cs: seq<(string, Value)>, i: nat, c: (string, Value))
    requires i < |cs|
    ensures Size(Map(cs[i := c])) + Size(cs[i].1) == Size(Map(cs)) + Size(c.1)
  {
    SizeOfMap(cs);
    SizeOfMap(cs[i := c]);
    assert Sizes(cs[i := c]) == Sizes(cs)[i := Size(c.1)];
    SumUpdate(Sizes(cs), i, Size(c.1));
  }

  lemma {:induction false} ExtendsReflexive(a: Value)
    ensures Extends(a, a)
  {
    match a
    case Simple(_) =>
    case Map(cs) =>
      forall i | 0 <= i < |cs| ensures Extends(cs[i].1, cs[i].1) {
        ExtendsReflexive(cs[i].1);
      }
  }

  lemma {:induction false} ExtendsTransitive(a: Value, b: Value, c: Value)
    requires Extends(a, b) && Extends(b, c)
    ensures Extends(a, c)
  {
    match a
    case Simple(_) =>
    case Map(cs) =>
      forall i | 0 <= i < |cs| ensures Extends(cs[i].1, c.children[i].1) {
        ExtendsTransitive(cs[i].1, b.children[i].1, c.children[i].1);
      }
  }

  /** Pushing an entry onto a map extends it. */
  lemma ExtendsPush(cs: seq<(string, Value)>, c: (string, Value))
    ensures Extends(Map(cs), Map(cs + [c]))
  {
    forall i | 0 <= i < |cs| ensures Extends(cs[i].1, (cs + [c])[i].1) {
      ExtendsReflexive(cs[i].1);
    }
  }

  /** Replacing the value of a child, keeping its key, does not move the first match. */
  lemma {:induction false} FindKeyReplace(cs: seq<(string, Value)>, key: string, i: nat, x: Value)
    requires i < |cs|
    ensures FindKey(cs[i := (cs[i].0, x)], key) == FindKey(cs, key)
  {
    var cs' := cs[i := (cs[i].0, x)];
    if i == 0 {
      assert cs'[1..] == cs[1..];
    } else {
      assert cs'[1..] == cs[1..][i - 1 := (cs[i].0, x)];
      FindKeyReplace(cs[1..], key, i - 1, x);
    }
  }

  /** A child pushed under a key that no child has is the first match for it. */
  lemma {:induction false} FindKeyPushed(cs: seq<(string, Value)>, key: string, x: Value)
    requires FindKey(cs, key) == |cs|
    ensures FindKey(cs + [(key, x)], key) == |cs|
  {
    if cs != [] {
      assert (cs + [(key, x)])[1..] == cs[1..] + [(key, x)];
      FindKeyPushed(cs[1..], key, x);
    }
  }

  // ---------------------------------------------------------------------------
  // Value::insert_at against the walk
  // ---------------------------------------------------------------------------

  /**
   * insert_at fails exactly when the walk through the intermediate segments
   * meets a leaf; the error carries the whole path when the receiver itself
   * is a leaf, and otherwise the path from the segment whose child is the leaf.
   */
  lemma {:induction false} InsertAtFails(v: Value, path: seq<string>, value: Value)
    requires |path| >= 2
    ensures InsertAt(v, path, value).outcome.Err? <==> ProbePath(v, Intermediate(path)).Blocked?
    ensures var p := ProbePath(v, Intermediate(path));
            p.Blocked? ==>
              InsertAt(v, path, value).outcome
                == Err(InvalidEnvNesting(if p.depth == 0 then path else path[p.depth - 1..]))
    decreases |path|
  {
    var keys := Intermediate(path);
    match v
    case Simple(_) =>
    case Map(cs) =>
      var i := FindKey(cs, path[0]);
      var rest := path[1..];
      assert keys[0] == path[0];
      if i < |cs| && cs[i].1.Simple? {
        assert ProbePath(v, keys) == Blocked(1);
        assert path[0..] == path;
      } else if i == |cs| {
        assert ProbePath(v, keys) == Missing(0);
      } else if |rest| > 1 {
        assert Intermediate(rest) == keys[1..];
        InsertAtFails(cs[i].1, rest, value);
        var p := ProbePath(cs[i].1, keys[1..]);
        var sub := InsertAt(cs[i].1, rest, value);
        assert InsertAt(v, path, value).outcome == sub.outcome;
        if p.Blocked? {
          assert ProbePath(v, keys) == Blocked(p.depth + 1);
          assert rest[p.depth - 1..] == path[p.depth..];
        }
      } else {
        assert keys[1..] == [];
        assert ProbePath(v, keys) == Reached(cs[i].1.children);
      }
  }

  /**
   * When the walk meets no leaf, insert_at succeeds, and walking the
   * intermediate segments of the new tree reaches a map whose children are
   * the ones reached before (none, when maps had to be created) followed by
   * exactly one new entry: the last segment with the value.
   */
  lemma {:induction false} InsertAtAppends(v: Value, path: seq<string>, value: Value)
    requires |path| >= 2
    requires !ProbePath(v, Intermediate(path)).Blocked?
    ensures InsertAt(v, path, value).outcome.Ok?
    ensures ProbePath(InsertAt(v, path, value).tree, Intermediate(path))
            == Reached(Before(ProbePath(v, Intermediate(path))) + [(Last(path), value)])
    decreases |path|
  {
    var keys := Intermediate(path);
    var cs := v.children;
    var i := FindKey(cs, path[0]);
    var rest := path[1..];
    var t := InsertAt(v, path, value).tree;
    assert keys[0] == path[0];
    assert Intermediate(rest) == keys[1..];
    if i == |cs| {
      if |rest| > 1 {
        var created := InsertAt(Map([]), rest, value).tree;
        InsertAtAppends(Map([]), rest, value);
        assert t.children == cs + [(path[0], created)];
      } else {
        assert [] + [(rest[0], value)] == [(rest[0], value)];
        assert t.children == cs + [(path[0], Map([(rest[0], value)]))];
      }
      FindKeyPushed(cs, path[0], t.children[i].1);
    } else {
      if |rest| > 1 {
        InsertAtAppends(cs[i].1, rest, value);
      }
      FindKeyReplace(cs, path[0], i, t.children[i].1);
    }
  }

  /**
   * A successful insert_at adds exactly the nodes of the value and one new map
   * per missing intermediate segment: existing nodes are reused, not copied.
   */
  lemma {:induction false} InsertAtSize(v: Value, path: seq<string>, value: Value)
    requires |path| >= 2
    requires InsertAt(v, path, value).outcome.Ok?
    ensures Size(InsertAt(v, path, value).tree)
            == Size(v) + Size(value) + Created(ProbePath(v, Intermediate(path)), |path| - 1)
    decreases |path|
  {
    var keys := Intermediate(path);
    var cs := v.children;
    var i := FindKey(cs, path[0]);
    var rest := path[1..];
    var t := InsertAt(v, path, value).tree;
    assert keys[0] == path[0];
    assert Intermediate(rest) == keys[1..];
    if i == |cs| {
      if |rest| > 1 {
        var created := InsertAt(Map([]), rest, value).tree;
        InsertAtSize(Map([]), rest, value);
        assert t.children == cs + [(path[0], created)];
        SizeAppend(cs, (path[0], created));
      } else {
        assert [] + [(rest[0], value)] == [(rest[0], value)];
        assert t.children == cs + [(path[0], Map([(rest[0], value)]))];
        SizeAppend(cs, (path[0], Map([(rest[0], value)])));
        SizeAppend([], (rest[0], value));
      }
    } else {
      var inner := cs[i].1;
      if |rest| > 1 {
        InsertAtSize(inner, rest, value);
        SizeReplace(cs, i, (cs[i].0, InsertAt(inner, rest, value).tree));
      } else {
        assert keys == [path[0]];
        assert ProbePath(v, keys).Reached?;
        assert t.children == cs[i := (cs[i].0, Map(inner.children + [(rest[0], value)]))];
        SizeReplace(cs, i, (cs[i].0, Map(inner.children + [(rest[0], value)])));
        SizeAppend(inner.children, (rest[0], value));
      }
    }
  }

  /** insert_at never removes, reorders or rewrites what the tree already holds. */
  lemma {:induction false} InsertAtExtends(v: Value, path: seq<string>, value: Value)
    requires |path| >= 2
    ensures Extends(v, InsertAt(v, path, value).tree)
    decreases |path|
  {
    var r := InsertAt(v, path, value);
    ExtendsReflexive(v);
    if r.outcome.Ok? {
      var cs := v.children;
      var i := FindKey(cs, path[0]);
      var rest := path[1..];
      var t := r.tree;
      forall j | 0 <= j < |cs| && j != i ensures Extends(cs[j].1, t.children[j].1) {
        ExtendsReflexive(cs[j].1);
      }
      if i < |cs| {
        var inner := cs[i].1;
        if |rest| > 1 {
          InsertAtExtends(inner, rest, value);
        } else {
          forall j | 0 <= j < |inner.children| ensures Extends(inner.children[j].1, t.children[i].1.children[j].1) {
            ExtendsReflexive(inner.children[j].1);
          }
        }
      }
    }
  }

  /**
   * The leaf push checks nothing: inserting the same path twice keeps both
   * values, as two sibling entries with the same key, in insertion order.
   */
  lemma InsertTwiceKeepsBoth(v: Value, path: seq<string>, first: Value, second: Value)
    requires |path| >= 2
    requires InsertAt(v, path, first).outcome.Ok?
    ensures var once := InsertAt(v, path, first).tree;
            var twice := InsertAt(once, path, second);
            && twice.outcome.Ok?
            && ProbePath(twice.tree, Intermediate(path))
               == Reached(Before(ProbePath(v, Intermediate(path))) + [(Last(path), first), (Last(path), second)])
  {
    InsertAtFails(v, path, first);
    InsertAtAppends(v, path, first);
    var once := InsertAt(v, path, first).tree;
    InsertAtAppends(once, path, second);
  }

  // ---------------------------------------------------------------------------
  // One level of InsertAt, case by case: used to evaluate concrete insertions
  // ---------------------------------------------------------------------------

  /** A last-but-one segment no child has: a new map holding the one pair is pushed. */
  lemma InsertAtNewPair(cs: seq<(string, Value)>, k: string, l: string, value: Value)
    requires FindKey(cs, k) == |cs|
    ensures InsertAt(Map(cs), [k, l], value) == Inserted(Map(cs + [(k, Map([(l, value)]))]), Ok(()))
  {
    var values' := cs + [(k, Map([]))];
    assert InsertAt(Map(cs), [k, l], value)
        == Inserted(Map(values'[|cs| := (k, Map([] + [(l, value)]))]), Ok(())) by {
      var path := [k, l];
      assert path[0] == k && path[1..] == [l];
      assert values'[|cs|] == (k, Map([]));
    }
    assert values'[|cs| := (k, Map([] + [(l, value)]))] == cs + [(k, Map([(l, value)]))] by {
      assert [] + [(l, value)] == [(l, value)];
    }
  }

  /** A last-but-one segment naming a child map: the pair is pushed onto it. */
  lemma InsertAtIntoChild(cs: seq<(string, Value)>, k: string, l: string, value: Value)
    requires FindKey(cs, k) < |cs| && cs[FindKey(cs, k)].1.Map?
    ensures var i := FindKey(cs, k);
            InsertAt(Map(cs), [k, l], value)
            == Inserted(Map(cs[i := (k, Map(cs[i].1.children + [(l, value)]))]), Ok(()))
  {
    var path := [k, l];
    assert path[0] == k && path[1..] == [l];
  }

  /** A longer path through a child map: the insertion continues inside it. */
  lemma InsertAtDescends(cs: seq<(string, Value)>, k: string, rest: seq<string>, value: Value)
    requires |rest| >= 2
    requires FindKey(cs, k) < |cs| && cs[FindKey(cs, k)].1.Map?
    ensures var i := FindKey(cs, k);
            var sub := InsertAt(cs[i].1, rest, value);
            InsertAt(Map(cs), [k] + rest, value) == Inserted(Map(cs[i := (k, sub.tree)]), sub.outcome)
  {
    var path := [k] + rest;
    assert path[0] == k && path[1..] == rest;
  }

  /** A segment naming a leaf: the insertion fails with the whole path. */
  lemma InsertAtBlockedHere(cs: seq<(string, Value)>, path: seq<string>, value: Value)
    requires |path| >= 2
    requires FindKey(cs, path[0]) < |cs| && cs[FindKey(cs, path[0])].1.Simple?
    ensures InsertAt(Map(cs), path, value) == Inserted(Map(cs), Err(InvalidEnvNesting(path)))
  {
  }
}
