/**
 * The id tag carried in an entity's custom name: registration writes
 * `<id>:<old name>`, and every lookup reads the id back with `split(":")`.
 */
module NameCodec {
  import opened Wrappers
  import opened JavaInt
  import opened JavaSplit

  const DELIMITER: char := ':'

  /** The two reasons the lookup throws PersistentEntityMetadataException. */
  datatype DecodeError =
    | NoCustomName   // the name is null or empty
    | NotTagged      // split(":") gives no parts or an empty first part

  /** How Java string concatenation renders a possibly-null string. */
  function ConcatText(name: Option<string>): string
  {
    match name
    case None => "null"
    case Some(s) => s
  }

  /** The name registration gives an entity: `lastId + ":" + getCustomName()`. */
  function TaggedName(id: int32, name: Option<string>): string
  {
    IntToDecimal(id as int) + [DELIMITER] + ConcatText(name)
  }

  /** The id part of a custom name, exactly as the lookup computes it. */
  function DecodeId(name: Option<string>): Result<string, DecodeError>
  {
    if name.None? || name.value == "" then Failure(NoCustomName)
    else
      var parts := Split(name.value, DELIMITER);
      if |parts| == 0 || parts[0] == "" then Failure(NotTagged)
      else Success(parts[0])
  }

  /**
   * Decoding, characterised without `split`: it fails on null or empty names
   * and on names that start with ':'; otherwise the id is the text before the
   * first ':', or the whole name when there is none.
   */
  lemma DecodeIdSpec(name: Option<string>)
    ensures name.None? || name.value == [] <==> DecodeId(name) == Failure(NoCustomName)
    ensures DecodeId(name) == Failure(NotTagged) <==> name.Some? && |name.value| > 0 && name.value[0] == DELIMITER
    ensures DecodeId(name).Success? ==>
              DecodeId(name).value == name.value[..IndexOf(name.value, DELIMITER)]
              && DecodeId(name).value != []
              && DELIMITER !in DecodeId(name).value
  {
    if name.Some? && name.value != [] {
      var s := name.value;
      SplitHead(s, DELIMITER);
      if s[0] != DELIMITER {
        assert s[..IndexOf(s, DELIMITER)][0] == s[0];
      }
    }
  }

  /** A name without ':' is its own id: an untagged "Zombie" decodes to "Zombie". */
  lemma PlainNameIsId(s: string)
    requires s != [] && DELIMITER !in s
    ensures DecodeId(Some(s)) == Success(s)
  {
  }

  /**
   * Round trip: the name registration writes decodes to the decimal form of
   * the allocated id, whatever the old name was (null, empty, or itself
   * containing ':').
   */
  lemma NameRoundTrip(id: int32, name: Option<string>)
    ensures DecodeId(Some(TaggedName(id, name))) == Success(IntToDecimal(id as int))
  {
    var digits := IntToDecimal(id as int);
    var s := TaggedName(id, name);
    IntToDecimalShape(id as int);
    IndexOfAfterPrefix(digits, ConcatText(name));
    DecodeIdSpec(Some(s));
    assert s[..|digits|] == digits;
  }

  lemma {:induction false} IndexOfAfterPrefix(p: string, rest: string)
    requires DELIMITER !in p
    ensures IndexOf(p + [DELIMITER] + rest, DELIMITER) == |p|
  {
    if p != [] {
      IndexOfAfterPrefix(p[1..], rest);
      assert (p + [DELIMITER] + rest)[1..] == p[1..] + [DELIMITER] + rest;
    }
  }

  /** Entities registered with different ids decode to different ids. */
  lemma DistinctIdsDecodeApart(a: int32, b: int32, na: Option<string>, nb: Option<string>)
    requires a != b
    ensures DecodeId(Some(TaggedName(a, na))) != DecodeId(Some(TaggedName(b, nb)))
  {
    NameRoundTrip(a, na);
    NameRoundTrip(b, nb);
    IntToDecimalInjective(a as int, b as int);
  }
}
