/**
 * The persisted `data.yml` as a value: a top-level map in which the counter
 * `id` and one section per entity id share a single namespace, with the
 * `ConfigurationSection` get/set behaviour the plugin relies on.
 */
module DataDocument {
  import opened JavaInt

  /** A stored value; `Null` is Java's null, which a section never holds. */
  datatype Value = Null | Int(n: int) | Text(s: string) | Bool(b: bool)

  /** A top-level entry: a scalar (the counter) or a flat key/value section. */
  datatype Entry = Scalar(value: Value) | Section(attrs: map<string, Value>)

  type Attrs = map<string, Value>
  type Document = map<string, Entry>

  /** The top-level key that holds the id counter. */
  const COUNTER_KEY: string := "id"

  ghost predicate NoNulls(attrs: Attrs)
  {
    forall k :: k in attrs ==> attrs[k] != Null
  }

  /** What a loaded YAML document looks like: setting a key to null removes it. */
  ghost predicate WellFormed(doc: Document)
  {
    forall k :: k in doc ==> doc[k] != Scalar(Null) && (doc[k].Section? ==> NoNulls(doc[k].attrs))
  }

  /** `section.get(key)`: the stored value, or null. */
  function Get(attrs: Attrs, key: string): (v: Value)
    ensures NoNulls(attrs) ==> (v != Null <==> key in attrs)
    ensures key in attrs ==> v == attrs[key]
  {
    if key in attrs then attrs[key] else Null
  }

  /** `section.set(key, value)`: null removes the key, anything else replaces it. */
  function Put(attrs: Attrs, key: string, v: Value): (r: Attrs)
    ensures NoNulls(attrs) ==> NoNulls(r)
    ensures Get(r, key) == v
    ensures forall k :: k != key ==> Get(r, k) == Get(attrs, k)
  {
    if v == Null then attrs - {key} else attrs[key := v]
  }

  /**
   * The section the id lookup yields: the stored section under `id` when
   * there is one, otherwise a fresh empty one (`createSection`, never saved).
   */
  function SectionAt(doc: Document, id: string): Attrs
  {
    if id in doc && doc[id].Section? then doc[id].attrs else map[]
  }

  /** `getInt("id", default)`: the stored counter truncated to an int, or `default` if it is not a number. */
  function StoredLastId(doc: Document, default: int32): (r: int32)
    ensures (COUNTER_KEY in doc && doc[COUNTER_KEY].Scalar? && doc[COUNTER_KEY].value.Int?) ==>
              (r as int - doc[COUNTER_KEY].value.n) % TWO_32 == 0
    ensures COUNTER_KEY !in doc || !doc[COUNTER_KEY].Scalar? || !doc[COUNTER_KEY].value.Int? ==> r == default
  {
    if COUNTER_KEY in doc && doc[COUNTER_KEY].Scalar? && doc[COUNTER_KEY].value.Int?
    then ToInt32(doc[COUNTER_KEY].value.n)
    else default
  }

  /** Writing the counter and reading it back (as a restart does) gives the same int. */
  lemma CounterReadBack(doc: Document, n: int32, default: int32)
    ensures StoredLastId(doc[COUNTER_KEY := Scalar(Int(n as int))], default) == n
  {
  }

  /**
   * A section stored under the name "id" hides the counter: a restart then
   * falls back to the default and hands out ids again from there.
   */
  lemma CounterShadowedBySection(doc: Document, attrs: Attrs, default: int32)
    ensures StoredLastId(doc[COUNTER_KEY := Section(attrs)], default) == default
  {
  }

  /**
   * The key-by-key copy in `saveSection`: a fresh section filled with
   * `set(key, section.get(key))` for every key of the section.
   */
  method CopySection(section: Attrs) returns (copy: Attrs)
    requires NoNulls(section)
    ensures copy == section
  {
    copy := map[];
    var keys := section.Keys;
    while keys != {}
      invariant keys <= section.Keys
      invariant copy.Keys == section.Keys - keys
      invariant forall k :: k in copy ==> copy[k] == section[k]
      decreases keys
    {
      var k :| k in keys;
      copy := Put(copy, k, Get(section, k));
      keys := keys - {k};
    }
  }
}
