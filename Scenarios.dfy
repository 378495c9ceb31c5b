/**
 * Clients of the store: the documented usage scenarios, proved from the
 * contracts of the store's operations alone.
 */
module Scenarios {
  import opened Wrappers
  import opened JavaInt
  import opened NameCodec
  import opened DataDocument
  import opened Plugin

  /** Unregistering twice: the second call reports the same and changes nothing more. */
  method UnregisterTwice(store: MetadataStore, e: Entity) returns (first: bool, second: bool)
    requires store.Valid()
    modifies store`disk
    ensures first == second
    ensures first <==> DecodeId(e.customName).Success?
    ensures first ==> store.disk == old(store.disk) - {DecodeId(e.customName).value}
    ensures !first ==> store.disk == old(store.disk)
  {
    first := store.UnregisterPersistentMetadata(e);
    ghost var between := store.disk;
    second := store.UnregisterPersistentMetadata(e);
    assert store.disk == between;
  }

  /** The name and id the first registration gives a nameless entity. */
  lemma FirstName()
    ensures TaggedName(0, None) == "0:null" && DecodeId(Some("0:null")) == Success("0")
  {
    assert IntToDecimal(0) == "0" by {
      assert DigitChar(0) == '0';
    }
    assert TaggedName(0, None) == "0" + ":" + "null";
    NameRoundTrip(0, None);
  }

  /** The name and id the second registration gives an entity called "Zombie". */
  lemma SecondName()
    ensures TaggedName(1, Some("Zombie")) == "1:Zombie" && DecodeId(Some("1:Zombie")) == Success("1")
  {
    assert IntToDecimal(1) == "1" by {
      assert DigitChar(1) == '1';
    }
    assert TaggedName(1, Some("Zombie")) == "1" + ":" + "Zombie";
    NameRoundTrip(1, Some("Zombie"));
  }

  /** Two registrations on an empty document hand out 0 and 1 and leave 2 on disk. */
  method TwoRegistrations()
  {
    var store := new MetadataStore(map[]);
    var a := new Entity(None);
    var b := new Entity(Some("Zombie"));
    var okA := store.RegisterPersistentMetadata(a);
    var okB := store.RegisterPersistentMetadata(b);
    assert store.disk == map[COUNTER_KEY := Scalar(Int(2))];
    assert a.customName == Some(TaggedName(0, None)) && b.customName == Some(TaggedName(1, Some("Zombie")));
    FirstName();
    SecondName();
    assert DecodeId(a.customName) == Success("0") && DecodeId(b.customName) == Success("1");
  }

  /** A value set before the host forgets the entity's memory comes back on the next chunk load. */
  method RehydrateAfterReload()
  {
    var store := new MetadataStore(map[]);
    var a := new Entity(None);
    var ok := store.RegisterPersistentMetadata(a);
    store.SetMetadata(a, "level", Int(5));
    assert store.GetMetadata(a, "level") == Int(5);
    a.metadata := map[];
    store.OnChunkLoad([a]);
    assert a.metadata == map["level" := Int(5)];
  }

  /** An untagged name is not an error: "Zombie" is read as the id "Zombie", which has no section. */
  method UntaggedEntity()
  {
    var store := new MetadataStore(map[COUNTER_KEY := Scalar(Int(7))]);
    var z := new Entity(Some("Zombie"));
    PlainNameIsId("Zombie");
    assert store.GetMetadata(z, "level") == Null;
    var nameless := new Entity(None);
    assert store.GetMetadata(nameless, "level") == Null;
    var ok := store.UnregisterPersistentMetadata(nameless);
    assert !ok;
  }

  /**
   * An entity named "id" decodes to the counter's own key: setting metadata
   * on it replaces the counter with a section, and a restart then starts
   * counting again from 0, handing out ids already in use.
   */
  method CounterKeyCollision()
  {
    var store := new MetadataStore(map[COUNTER_KEY := Scalar(Int(7))]);
    assert store.lastId == 7;
    var e := new Entity(Some("id"));
    PlainNameIsId("id");
    store.SetMetadata(e, "level", Int(5));
    assert store.disk[COUNTER_KEY].Section?;
    var restarted := new MetadataStore(store.disk);
    assert restarted.lastId == 0;
  }
}
