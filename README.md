# envious, modelled in Dafny

envious decodes typed configuration from environment variables. A flat list
of `(key, value)` string pairs becomes a tree: keys are split on `__`, each
segment is one level of nesting. A serde `Deserializer` then walks that tree
on behalf of the decoded type. This project models the core of that pipeline
and proves what it does:

- `Value::insert_at`, which adds one value to the tree at a path
  (`value.dfy`, module `Values`). It works by in-place mutation through
  `&mut self`. Here it is a function that returns the tree after the call,
  even on error, together with the outcome. It is proved against a read-only
  walk along the path (`ProbePath`), a size measure and a prefix order on
  trees (`Extends`).
- The `Deserializer` implementation of `Parser` (`deserializer.dfy`, module
  `Deserializer`), as a routing table. For each node kind and each decoding
  request it gives the error returned, or what is handed to the visitor:
  - a parsed primitive;
  - the raw string;
  - a sequence of nodes;
  - a list of entries;
  - the node itself.
  `str::parse` and the configuration's case coercion are function parameters.
- Keys, `Prefix`, `from_primitive`, and a reconstruction of `Value::from_list`
  (`lib.dfy`, module `Lib`).
- The configuration record with its setters, and the prefix filter of its
  `from_iter` (`config.dfy`, module `EnvConfig`). The record is a class whose
  fields the setter methods change.
- The crate-level `from_iter` (`envious.dfy`, module `Envious`). It builds a
  default configuration and sets the prefix only when one is given.
- The error enum (`errors.dfy`, module `Errors`).

Every decode in the model stops at the tree or visit handed to serde. What the
derived `Deserialize` implementations then do with it is outside the model.

`Value::from_list`, called at src/lib.rs:217, is not modelled from code of
its own. `Lib.BuildInto`/`Lib.FromList` reconstruct it, and only they do:

- each key is split on `"__"`;
- a one-segment key is pushed onto the root map as `(key, Simple(value))`;
- a longer key goes to `insert_at`;
- the first error ends the build.

This is the behaviour the tests at src/lib.rs:246-284 and tests/failure.rs:12
rely on.

Behaviour of the modelled code worth knowing:

- **Conflicts depend on insertion order.** Whether `test` and `test__bar`
  conflict depends on their order. `test` then `test__bar` fails
  (`Lib.LeafThenNestedFails`). The other order succeeds, and leaves a map and
  a leaf under the same key (`Lib.NestedThenLeafSucceeds`). This rests on the
  reconstruction of `from_list`.
- **Stored order for sequences.** `deserialize_seq` (src/value.rs:117-123)
  emits a map's children in stored order, keys dropped, with no sorting by
  numeric key (`Deserializer.DeserializeSeq`).
- **Exact prefix matching.** The `from_iter` at src/config.rs:32-48 never
  reads the case flag and strips the prefix with an exact `strip_prefix`
  (`EnvConfig.FromIterIgnoresCase`, `EnvConfig.LowerCasePrefixExample`).
  tests/prefix_env.rs:42-49 expects a lower-case prefix to match when
  case-insensitive; those tests call `Config::new`, `case_sensitive` and
  `build_from_env`, which the `Config` of src/config.rs does not define.
- **Fixed separator.** `Config` (src/config.rs:6-10) has no separator field,
  so the model uses the constant `Lib.Separator`, `"__"`.

## Model

| member | source | states |
|---|---|---|
| Errors.Custom | src/error.rs:13-19 | `custom(msg)` is `GenericDeserialization` carrying the message |
| Values.FindKey | src/value.rs:31 | the index of the first child with the key, or the length when there is none: no earlier child has the key |
| Values.InsertAt | src/value.rs:20-65 | on error the tree is exactly as before and the error is `InvalidEnvNesting`; inserting into an empty map never fails; a map stays a map and a leaf a leaf |
| Values.ProbePath | src/value.rs:29-44 | reference walk used to specify insert_at. It follows the first child with each key. It stops at a leaf (depth 0 exactly when the receiver is a leaf) or where no child has the key, or reaches a map |
| Values.InsertAtFails | src/value.rs:25-37 | insert_at fails if and only if the walk meets a leaf. The error carries the whole path when the receiver is a leaf. Otherwise it carries the path from the segment whose child is the leaf |
| Values.InsertAtAppends | src/value.rs:40-59 | when no leaf is in the way, insert_at succeeds. The map reached along the intermediate segments then holds what it held before (nothing, if maps had to be created), followed by exactly one new `(last segment, value)` entry |
| Values.InsertAtSize | src/value.rs:40-59 | a successful insertion adds exactly the value's nodes, plus one new map per missing intermediate segment. Existing nodes are reused |
| Values.InsertAtExtends | src/value.rs:40-59 | insert_at never removes, reorders or rewrites existing entries: the old tree is a prefix-embedding of the new one |
| Values.InsertTwiceKeepsBoth | src/value.rs:57-59 | the leaf push checks nothing. Inserting at the same path twice succeeds and leaves two sibling entries with the same key, in order |
| Values.InsertAtNewPair | src/value.rs:40-44 | a two-segment path whose first segment no child has pushes a new map holding the one entry |
| Values.InsertAtIntoChild | src/value.rs:31-38 | a two-segment path whose first segment names a child map pushes the entry onto that child; nothing else changes |
| Values.InsertAtDescends | src/value.rs:46-49 | a longer path through a child map continues inside that child; the outcome is the inner call's |
| Values.InsertAtBlockedHere | src/value.rs:33-36 | a first segment naming a leaf fails with the whole path, tree unchanged |
| Deserializer.ChildValues | src/value.rs:118-121 | the children's nodes, keys dropped, in stored order |
| Deserializer.DeserializePrimitive | src/value.rs:74-82 | a map gives `InvalidNestedValues`. A leaf that parses visits the parsed value. A leaf that does not parse gives `GenericDeserialization` with the quoted raw text and the parse error |
| Deserializer.DeserializeMap | src/value.rs:176-194 | fails with `UnsupportedValue` exactly on a leaf; on a map, visits its `(key, child)` entries in stored order |
| Deserializer.DeserializeAny | src/value.rs:99-107 | never fails: a leaf goes to the string deserializer, a map is decoded as a map |
| Deserializer.DeserializeSeq | src/value.rs:109-126 | always a sequence: a leaf is a one-element sequence of itself, a map gives its children's nodes in stored order, keys dropped |
| Deserializer.DeserializeEnum | src/value.rs:146-174 | a leaf names the variant by its raw string; a map's entries, after case coercion against the variant names, select the variant |
| Deserializer.DeserializeStruct | src/value.rs:196-218 | a leaf fails like a map request (`UnsupportedValue`); a map's entries are case-coerced against the field names, then visited as a map |
| Deserializer.Deserialize | src/value.rs:96-238 | the whole table fails exactly in the three mismatches: a primitive of a map or of an unparsable leaf, and a map or struct of a leaf |
| Deserializer.DecodingDescends | src/value.rs:113-124 | except for option, newtype, enum, struct and a sequence of a leaf, every node handed down is strictly smaller than the node decoded |
| Deserializer.OptionAlwaysPresent | src/value.rs:128-144 | an option request always reports a present value over the same node; a newtype passes the node through |
| Deserializer.ForwardedIsAny | src/value.rs:234-237 | every forwarded request behaves as `deserialize_any`, which on a map is `deserialize_map` |
| Deserializer.StructIsCoercedMap | src/value.rs:205-217 | when the coercion leaves the entries alone, a struct request is a map request |
| Deserializer.SequenceAndMapExamples | src/value.rs:286-328 | the unit tests' nodes: a leaf as a one-element sequence, a map of three leaves as a sequence of three, a nested map visited as is, an option over a leaf |
| Lib.NewKey | src/lib.rs:26-34 | `Key::new` keeps the text as both the original and the current form |
| Lib.AsRef | src/lib.rs:20-24 | a key presents its current form |
| Lib.PrefixFrom | src/lib.rs:108-113 | `Some(v)` becomes `Prefix::Some(v)` and `None` becomes `Prefix::None`, in both directions |
| Lib.Split | src/lib.rs:217 | reconstruction: splitting on the separator gives at least one segment; the segments joined back give the key; no segment contains the separator; every cut is at the leftmost remaining occurrence, as `str::split` cuts (no occurrence starts inside a segment followed by the separator) |
| Lib.SplitJoin | src/lib.rs:217 | reconstruction: splitting undoes joining for every list of segments that splitting could have produced (`Separable`: no segment contains the separator, and no occurrence starts inside a segment followed by the separator) |
| Lib.PathOf | src/lib.rs:217 | reconstruction: a key's path has at least one segment and joins back to the key |
| Lib.BuildInto | src/lib.rs:217 | reconstruction of from_list: a successful build is a map; the only error is `InvalidEnvNesting` |
| Lib.FromList | src/lib.rs:217 | reconstruction of from_list from an empty root: a map on success, `InvalidEnvNesting` on error |
| Lib.WrapSimple | src/lib.rs:217 | every value becomes a leaf, key and pair order kept |
| Lib.FromPrimitive | src/lib.rs:214-219 | the tree handed to the decoder is a map; building can only fail on nesting |
| Lib.Keyed | src/config.rs:44-46 | each raw key becomes a fresh `Key`, order and values kept |
| Lib.BuildConcat | src/lib.rs:217 | building a concatenation builds the first part, then the second from its tree; an error in the first part is final |
| Lib.BuildExtends | src/lib.rs:217 | building never removes, reorders or rewrites the root entries it started from |
| Lib.LaterPairsOnlyExtend | src/lib.rs:217 | the first conflict in key order is the one reported, whatever follows; later pairs only extend the tree of earlier ones |
| Lib.BuildLeaf | src/lib.rs:217 | a one-segment key is pushed onto the root, as it reads |
| Lib.BuildNested | src/lib.rs:217 | a nested key goes to insert_at, and the rest build on its result |
| Lib.BuildBlocked | src/lib.rs:217 | a failed insert_at is the result of the whole build |
| Lib.PathOfJoined | src/lib.rs:217 | a key joined from separable segments, snake_case ones included, splits back into those segments |
| Lib.SeparableBySnakeCase | src/lib.rs:217 | segments with no `__` inside and no trailing `_` (except on the last) are separable for `"__"` |
| Lib.SeparableWithoutUnderscore | src/lib.rs:217 | segments without any `_` are separable for `"__"` |
| Lib.SnakeCasePath | tests/hashmap.rs:24 | the key `inner__more_values__0key` reads back as `inner`, `more_values`, `0key`: a snake_case field keeps its underscore |
| Lib.NestedShape | src/lib.rs:246-284 | a leaf, then a two-segment key, then a three-segment key sharing its first segment build the nested tree the test expects |
| Lib.NestedStructExample | src/lib.rs:272-281 | `temp`, `inner__smoothness`, `inner__extra__allowed` give a root with `temp` and `inner`, `inner` holding `smoothness` and `extra`, `extra` holding `allowed` |
| Lib.LeafThenNestedFails | tests/failure.rs:10-16 | a leaf key then a key nested under it fails with `InvalidEnvNesting` of the second key's whole path |
| Lib.WronglyNestedExample | tests/failure.rs:12 | `test` then `test__bar` fails with `InvalidEnvNesting(["test", "bar"])` |
| Lib.NestedThenLeafSucceeds | src/lib.rs:217 | the same keys the other way round succeed: the root holds a map and a leaf under the same name |
| Lib.SharedPrefixShape | src/value.rs:31 | two keys sharing their first two segments reuse the same nodes; their leaves end up in one map, in key order |
| Lib.ComplexEnumExample | src/lib.rs:347-355 | `complex__Access__password` and `complex__Access__foo` share the `complex` and `Access` nodes |
| Lib.DeeperThenShorterSucceeds | src/value.rs:57-59 | `a__b__c` then `a__b` succeeds, leaving a map and a leaf both named `b` |
| Lib.DuplicateLeavesCoexist | src/lib.rs:217 | two pairs with the same one-segment key are both kept, in order |
| EnvConfig.StripPrefixes | src/config.rs:39-47 | never more pairs than given. With no prefix, every pair is kept as a fresh key, in order. With a prefix, all pairs are kept exactly when every key starts with it. Every key is fresh |
| EnvConfig.StripConcat | src/config.rs:39-47 | filtering a concatenation filters each part: relative order is kept |
| EnvConfig.StripOne | src/config.rs:41-42 | one pair is kept with the prefix cut off when its key starts with the prefix, and dropped otherwise |
| EnvConfig.StripExactly | src/config.rs:39-47 | every pair passed on comes from an input pair carrying the prefix, with the prefix cut off and the same value; every such input pair is passed on |
| EnvConfig.StripDropsAll | src/config.rs:41-42 | when no key carries the prefix, nothing is passed on |
| EnvConfig.EmptyPrefixIsNone | src/config.rs:39-47 | the empty prefix is the same as no prefix |
| EnvConfig.Config.Default | src/config.rs:6-10 | the derived default has no prefix and is case-insensitive |
| EnvConfig.Config.WithPrefix | src/config.rs:13-17 | sets the prefix and leaves the case flag as it was |
| EnvConfig.Config.CaseSensitivity | src/config.rs:19-23 | sets the case flag and leaves the prefix as it was |
| EnvConfig.Config.FromIter | src/config.rs:32-48 | the tree is a map and the only error is nesting; with no prefix every pair goes in |
| EnvConfig.FromIterIgnoresCase | src/config.rs:32-48 | two configurations with the same prefix give the same result, whatever their case flags |
| EnvConfig.UpperCasePrefixExample | tests/prefix_env.rs:27-38 | `ENVIOUS_` keeps the two matching variables, prefix cut, and drops `ENORMUS_...` |
| EnvConfig.LowerCasePrefixExample | tests/prefix_env.rs:42-49 | `envious_` matches none of those variables |
| Envious.PrefixOption | src/lib.rs:207-209 | a `Prefix` stands for the configuration prefix it carries, and `Prefix::from` gives it back |
| Envious.SetUp | src/lib.rs:205-209 | a fresh default configuration, with the prefix set only for `Prefix::Some`; the case flag keeps its default |
| Envious.FromIter | src/lib.rs:201-212 | the result is the tree of the pairs that pass the given prefix; with no prefix, of all pairs; the only error is nesting |

## Left out

- Reading the process environment (`Config::from_env`, `lib::from_env`, src/config.rs:26-29, src/lib.rs:155-165): this is I/O. `from_iter` takes the pairs as a parameter instead.
- The serde machinery (`SeqDeserializer`, `MapDeserializer`, `MapAccessDeserializer`, the `visit_*` calls, derived `Deserialize` impls): a foreign library. Only what the adapter hands to the visitor is modelled. `T::deserialize` at src/lib.rs:218 is therefore not modelled either.
- `str::parse` for integers, booleans and floats (src/value.rs:76): library parsing and floating point. It is the parameter `parse`, which may fail with a reason.
- Deserializer.DeserializeEnum: `maybe_coerce_case` (called at src/value.rs:159, 209) is not modelled. It is the parameter `coerce` and has no body, so the entries after coercion are not described.
- Deserializer.DecodingDescends: says nothing about enum and struct requests, because what they hand down comes from the unmodelled coercion.
- Lib.BuildInto: `Value::from_list` (called at src/lib.rs:217) is not modelled from its own code. The build is a reconstruction, consistent with the tests at src/lib.rs:246-284 and tests/failure.rs:12.
- The error `Display` strings (src/error.rs:3-10): formatting only.
- The i128/u128 and other serde defaults not listed in `forward_to_deserializer!`, and the `Parser`'s `config` reference. Each handed-down node stands for a fresh `Parser` with the same configuration.
- Values.InsertAt: paths of fewer than two segments are excluded by its precondition; `from_list` as reconstructed never passes one. On such paths the source does not always panic. A `Simple` receiver returns `InvalidEnvNesting(path)` without indexing the path (src/value.rs:26-28). A map receiver with a one-segment path whose first child with that key is a leaf returns `InvalidEnvNesting(path)` (src/value.rs:33-36). A map receiver panics otherwise: on an empty path at `path[0]`, at src/value.rs:31 when the map has children and at src/value.rs:42 (before the push) when it has none; and on a one-segment path whose first match is a map or missing at `path[0]` of the empty rest (src/value.rs:58), in the missing case after the push at src/value.rs:42.
- Values.InsertAt: the in-place update of the tree through `&mut self`, `iter_mut().find` and `last_mut` is modelled as a function returning the tree after the call. The Rust value is owned and not aliased, so nothing else can observe the update.
- Any sorting of sequence children by numeric key: `deserialize_seq` (src/value.rs:117-123) does none.
- The API the tests in tests/*.rs call (`Config::new`, `build_from_iter`, `case_sensitive`) and the lower-case prefix matching they expect: the `Config` of src/config.rs has neither.
- The `Prefix` doc-comment examples (src/lib.rs:44-92): documentation.
