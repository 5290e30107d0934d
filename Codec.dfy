/**
 * The pluggable fragment codec: `split` turns a value into its ordered
 * fragments, `join` turns the fragments back into a value. The constructor
 * fills in the defaults, one fragment holding the whole value.
 */
module Codec {
  import opened Wrappers
  import opened Values

  datatype Codec<!T> = Codec(split: Js<T> -> seq<Js<T>>, join: seq<Js<T>> -> Js<T>)

  /** The constructor's configuration; an absent name and an empty one are both falsy. */
  datatype Config<!T> = Config(
    name: Option<string>,
    split: Option<Js<T> -> seq<Js<T>>>,
    join: Option<seq<Js<T>> -> Js<T>>)

  predicate NameMissing(name: Option<string>) {
    name.None? || name.value == ""
  }

  /** Default split: the whole value as the only fragment. */
  function DefaultSplit<T>(v: Js<T>): (frags: seq<Js<T>>)
    ensures |frags| == 1 && frags[0] == v
  {
    [v]
  }

  /** Default join: the first fragment, or `undefined` when there is none (`i[0]` of an empty array). */
  function DefaultJoin<T>(frags: seq<Js<T>>): (v: Js<T>)
    ensures |frags| > 0 ==> v == frags[0]
    ensures |frags| == 0 ==> v == Undefined
  {
    if |frags| > 0 then frags[0] else Undefined
  }

  function DefaultCodec<T>(): Codec<T> {
    Codec(DefaultSplit, DefaultJoin)
  }

  /** The name check and default filling of the DMap constructor. */
  function Configure<T>(config: Config<T>): (r: Result<Codec<T>, Error>)
    ensures r.Failure? <==> NameMissing(config.name)
    ensures r.Failure? ==> r.error == ConfigError
    ensures r.Success? && config.split.Some? ==> r.value.split == config.split.value
    ensures r.Success? && config.join.Some? ==> r.value.join == config.join.value
    ensures r.Success? && config.split.None? ==> r.value.split == DefaultCodec<T>().split
    ensures r.Success? && config.join.None? ==> r.value.join == DefaultCodec<T>().join
  {
    if NameMissing(config.name) then Failure(ConfigError)
    else
      var split := if config.split.Some? then config.split.value else DefaultSplit;
      var join := if config.join.Some? then config.join.value else DefaultJoin;
      Success(Codec(split, join))
  }

  /** The default codec reconstructs every value: join(split(v)) == v. */
  lemma DefaultRoundTrip<T>(v: Js<T>)
    ensures DefaultCodec<T>().join(DefaultCodec<T>().split(v)) == v
  {
  }

  /** A configuration that names a database and supplies no codec gets one that round-trips. */
  lemma ConfiguredDefaultsRoundTrip<T>(config: Config<T>, v: Js<T>)
    requires !NameMissing(config.name) && config.split.None? && config.join.None?
    ensures Configure(config).Success?
    ensures Configure(config).value.join(Configure(config).value.split(v)) == v
  {
  }
}
