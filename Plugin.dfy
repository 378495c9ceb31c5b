/**
 * The plugin's state machine: a store holding the static counter `lastId`
 * and the persisted document, acting on entities whose custom name carries
 * the id and whose transient metadata the host forgets between chunk loads.
 */
module Plugin {
  import opened Wrappers
  import opened JavaInt
  import opened NameCodec
  import opened DataDocument

  /** A host entity: its custom name (null when absent) and its non-persistent metadata. */
  class Entity {
    var customName: Option<string>
    var metadata: map<string, Value>

    constructor (name: Option<string>)
      ensures customName == name && metadata == map[]
    {
      customName := name;
      metadata := map[];
    }

    /** `entity.setMetadata(key, new FixedMetadataValue(plugin, value))`. */
    method SetTransient(key: string, value: Value)
      modifies this`metadata
      ensures metadata == old(metadata)[key := value]
    {
      metadata := metadata[key := value];
    }

    /** The rehydration loop: every key of `section` set as transient metadata. */
    method LoadSection(section: Attrs)
      modifies this`metadata
      ensures metadata == old(metadata) + section
    {
      var keys := section.Keys;
      while keys != {}
        invariant keys <= section.Keys
        invariant metadata.Keys == old(metadata).Keys + (section.Keys - keys)
        invariant forall k :: k in metadata ==>
                    metadata[k] == if k in section && k !in keys then section[k] else old(metadata)[k]
        decreases keys
      {
        var k :| k in keys;
        SetTransient(k, section[k]);
        keys := keys - {k};
      }
    }
  }

  /**
   * What the plugin's statics hold: `lastId`, and the document on disk. Every
   * access reloads the document from disk, so the disk is the whole of the
   * document state between two operations.
   */
  class MetadataStore {
    var lastId: int32
    var disk: Document

    ghost predicate Valid()
      reads this
    {
      WellFormed(disk)
    }

    /** `onEnable`: load the document and read the counter, defaulting to the initial 0. */
    constructor (stored: Document)
      requires WellFormed(stored)
      ensures Valid() && disk == stored && lastId == StoredLastId(stored, 0)
    {
      disk := stored;
      lastId := StoredLastId(stored, 0);
    }

    /** `getLastId`: the counter stored on disk, or the in-memory one if there is none. */
    function GetLastId(): int32
      reads this
    {
      StoredLastId(disk, lastId)
    }

    /**
     * `registerPersistentMetadata`: tag the entity with the pre-increment id,
     * bump the counter (wrapping as a Java int does), persist it under "id".
     */
    method RegisterPersistentMetadata(e: Entity) returns (ok: bool)
      requires Valid()
      modifies this, e`customName
      ensures Valid() && ok
      ensures e.customName == Some(TaggedName(old(lastId), old(e.customName)))
      ensures DecodeId(e.customName) == Success(IntToDecimal(old(lastId) as int))
      ensures lastId == Increment(old(lastId))
      ensures old(lastId) as int < MAX_INT ==> lastId as int == old(lastId) as int + 1
      ensures disk == old(disk)[COUNTER_KEY := Scalar(Int(lastId as int))]
      ensures GetLastId() == lastId && StoredLastId(disk, 0) == lastId
    {
      var id := lastId;
      lastId := Increment(lastId);
      e.customName := Some(TaggedName(id, e.customName));
      var config := disk;
      config := config[COUNTER_KEY := Scalar(Int(lastId as int))];
      disk := config;
      NameRoundTrip(id, old(e.customName));
      CounterReadBack(old(disk), lastId, 0);
      CounterReadBack(old(disk), lastId, lastId);
      ok := true;
    }

    /**
     * `getEntityIdSection`: decode the id, then the stored section or an
     * empty one. Nothing is saved, so it reads the store and changes nothing.
     */
    function EntityIdSection(e: Entity): (r: Result<Attrs, DecodeError>)
      reads this, e
      ensures r.Failure? <==> DecodeId(e.customName).Failure?
      ensures r.Failure? ==> r.error == DecodeId(e.customName).error
      ensures r.Success? ==>
                var id := DecodeId(e.customName).value;
                (id in disk && disk[id].Section? ==> r.value == disk[id].attrs)
                && (id !in disk || !disk[id].Section? ==> r.value == map[])
    {
      match DecodeId(e.customName)
      case Failure(err) => Failure(err)
      case Success(id) => Success(SectionAt(disk, id))
    }

    /** `deleteSection`: remove the top-level key and save. */
    method DeleteSection(name: string)
      requires Valid()
      modifies this`disk
      ensures Valid() && disk == old(disk) - {name}
    {
      var config := disk;
      config := config - {name};
      disk := config;
    }

    /** `saveSection`: replace the stored section by a key-by-key copy and save. */
    method SaveSection(name: string, section: Attrs)
      requires Valid() && NoNulls(section)
      modifies this`disk
      ensures Valid() && disk == old(disk)[name := Section(section)]
    {
      var config := disk;
      var copy := CopySection(section);
      config := config[name := Section(copy)];
      disk := config;
    }

    /**
     * `unregisterPersistentMetadata`: false exactly when the name does not
     * decode; otherwise the id's top-level entry is gone and nothing else changed.
     */
    method UnregisterPersistentMetadata(e: Entity) returns (ok: bool)
      requires Valid()
      modifies this`disk
      ensures Valid()
      ensures ok <==> DecodeId(e.customName).Success?
      ensures ok ==> disk == old(disk) - {DecodeId(e.customName).value}
      ensures ok ==> DecodeId(e.customName).value !in disk
      ensures !ok ==> disk == old(disk)
    {
      var r := EntityIdSection(e);
      if r.Failure? {
        return false;
      }
      DeleteSection(DecodeId(e.customName).value);
      ok := true;
    }

    /**
     * `setMetadata`: the key is set on the entity in any case; when the name
     * decodes, the stored section for the id becomes the previous one with
     * only `key` set (null removes it), and no other top-level key changes.
     */
    method SetMetadata(e: Entity, key: string, value: Value)
      requires Valid()
      modifies this`disk, e`metadata
      ensures Valid()
      ensures e.metadata == old(e.metadata)[key := value]
      ensures DecodeId(e.customName).Failure? ==> disk == old(disk)
      ensures DecodeId(e.customName).Success? ==>
                var id := DecodeId(e.customName).value;
                disk == old(disk)[id := Section(Put(SectionAt(old(disk), id), key, value))]
      ensures DecodeId(e.customName).Success? ==> GetMetadata(e, key) == value
      ensures forall k :: k != key ==> GetMetadata(e, k) == old(GetMetadata(e, k))
    {
      e.SetTransient(key, value);
      var r := EntityIdSection(e);
      if r.Failure? {
        return;
      }
      var id := DecodeId(e.customName).value;
      var idSection := Put(r.value, key, value);
      SaveSection(id, idSection);
    }

    /**
     * `getMetadata`: the value stored under `key` in the decoded id's
     * section, null when the name does not decode or the key is absent.
     */
    function GetMetadata(e: Entity, key: string): (r: Value)
      requires Valid()
      reads this, e
      ensures DecodeId(e.customName).Failure? ==> r == Null
      ensures DecodeId(e.customName).Success? ==>
                var id := DecodeId(e.customName).value;
                (r != Null <==> id in disk && disk[id].Section? && key in disk[id].attrs)
                && (r != Null ==> r == disk[id].attrs[key])
    {
      match EntityIdSection(e)
      case Failure(_) => Null
      case Success(section) => Get(section, key)
    }

    /** What a chunk load adds to an entity's transient metadata. */
    function Rehydrated(name: Option<string>): Attrs
      reads this
    {
      match DecodeId(name)
      case Failure(_) => map[]
      case Success(id) => SectionAt(disk, id)
    }

    /**
     * `onChunkLoad`: each entity whose name decodes gets every entry of its
     * stored section as transient metadata; the others are skipped, and the
     * document is not touched.
     */
    method OnChunkLoad(entities: seq<Entity>)
      requires Valid()
      modifies entities
      ensures forall e :: e in entities ==> e.customName == old(e.customName)
      ensures forall e :: e in entities ==> e.metadata == old(e.metadata) + Rehydrated(e.customName)
      ensures forall e :: e in entities && DecodeId(e.customName).Failure? ==> e.metadata == old(e.metadata)
    {
      var i := 0;
      while i < |entities|
        invariant 0 <= i <= |entities|
        invariant forall e :: e in entities ==> e.customName == old(e.customName)
        invariant forall e :: e in entities[..i] ==> e.metadata == old(e.metadata) + Rehydrated(e.customName)
        invariant forall e :: e in entities && e !in entities[..i] ==> e.metadata == old(e.metadata)
      {
        var e := entities[i];
        var r := EntityIdSection(e);
        if r.Success? {
          ghost var before := e.metadata;
          e.LoadSection(r.value);
          if e in entities[..i] {
            assert before + r.value + r.value == before + r.value;
          }
        }
        assert entities[..i + 1] == entities[..i] + [e];
        i := i + 1;
      }
    }
  }
}
