/*
 * The crate's entry point `from_iter` (src/lib.rs:200-212), up to the tree
 * handed to the decoder: a default configuration, the prefix set only when
 * one is given, then the configuration's own `from_iter`.
 */
module Envious {
  import Wrappers
  import opened Errors
  import opened Values
  import opened Lib
  import opened EnvConfig

  /** The configuration prefix a `Prefix` stands for. */
  function PrefixOption(prefix: Prefix): (o: Wrappers.Option<string>)
    ensures o.None? <==> prefix.None?
    ensures prefix.Some? ==> o == Wrappers.Some(prefix.text)
    ensures PrefixFrom(o) == prefix
  {
    match prefix
    case None => Wrappers.None
    case Some(p) => Wrappers.Some(p)
  }

  /**
   * The configuration `from_iter` builds: the default one, with the prefix
   * set only for `Prefix::Some`; the case flag keeps its default.
   */
  method SetUp(prefix: Prefix) returns (config: Config)
    ensures fresh(config)
    ensures config.prefix == PrefixOption(prefix)
    ensures !config.caseSensitive
  {
    config := new Config.Default();
    if prefix.Some? {
      config.WithPrefix(prefix.text);
    }
  }

  /** `from_iter`: the pairs that pass the prefix filter, built into a tree. */
  method FromIter(pairs: seq<(string, string)>, prefix: Prefix) returns (r: Result<Value>)
    ensures r == FromPrimitive(StripPrefixes(PrefixOption(prefix), pairs))
    ensures prefix.None? ==> r == FromPrimitive(Keyed(pairs))
    ensures r.Err? ==> r.error.InvalidEnvNesting?
  {
    var config := SetUp(prefix);
    r := config.FromIter(pairs);
  }
}
