# Simple Metadata Persistence, modelled in Dafny

A model of the Bukkit plugin `SimpleMetadataPersistence`. The plugin tags each
entity with an integer id written into its custom name as `<id>:<old name>`.
It keeps each entity's key/value metadata in `data.yml`, in a section named by
the id, and copies the section back onto the entity's transient (non-persistent)
metadata whenever the entity's chunk loads.

The model has three pieces of state:

- the static counter `lastId`, a Java `int`;
- the persisted document, one top-level map in which the scalar `"id"` and the
  id-named sections share a single namespace;
- each entity's custom name (possibly null) and its transient metadata map.

Every access in the plugin reloads `data.yml` and every mutation saves it. The
document state between two operations is therefore exactly what is on disk, and
that is the document the model keeps.

Modules:

- `Wrappers`: `Option` (Java null) and `Result` (the caught `PersistentEntityMetadataException`).
- `JavaInt`: the `int32` range, the wrapping `lastId++`, `Number.intValue()` truncation and `Integer.toString`.
  It also has a decimal parser as the reference inverse of `Integer.toString`.
- `JavaSplit`: `String.split(":")`, including the removal of trailing empty strings and the
  "no match gives the whole string" case, against a first-index reference definition.
- `NameCodec`: the tagged name written at registration and the id decoding of the lookup.
- `DataDocument`: values, sections and the document, with `ConfigurationSection` get/set semantics
  (setting null removes a key) and the key-by-key copy loop of `saveSection`.
- `Plugin`: the classes `Entity` and `MetadataStore` (the plugin's statics) with the plugin's operations.
- `Scenarios`: client code proved from those contracts alone. It covers repeated unregistering,
  two registrations from an empty file, rehydration after a set, untagged entities,
  and the counter-key collision described below.

Consequences of the code that the model proves:

- A name with no `:` is not an error. `"Zombie"` decodes to the id `"Zombie"`.
  Only null or empty names, and names that start with `:`, fail to decode.
- The counter and the sections share one namespace. An entity named `"id"` (or `"id:..."`)
  decodes to the counter's own key. `setMetadata` on it replaces the counter with a section,
  and `unregisterPersistentMetadata` on it deletes the counter. After a restart, `getLastId`
  then falls back to 0 and ids already handed out are handed out again
  (`Scenarios.CounterKeyCollision`, `DataDocument.CounterShadowedBySection`).
- Looking up a section creates an empty one in the in-memory configuration but never saves it.
  The lookup is therefore a function of the store and cannot change the document.

## Model

| member | source | states |
|---|---|---|
| `JavaInt.ToInt32` | src/main/java/logan/smp/SimpleMetadataPersistence.java:66 | `getInt` on a stored integer gives a Java int congruent to it modulo 2^32, and the integer itself when it is in range |
| `JavaInt.Increment` | src/main/java/logan/smp/SimpleMetadataPersistence.java:79 | the value `lastId++` leaves behind; specified by `JavaInt.IncrementIsModular` as addition of one modulo 2^32 |
| `JavaInt.IncrementIsModular` | src/main/java/logan/smp/SimpleMetadataPersistence.java:79 | `lastId++` is addition of one modulo 2^32 (wrapping from Integer.MAX_VALUE to Integer.MIN_VALUE) |
| `JavaInt.IdAfterIsModular` | src/main/java/logan/smp/SimpleMetadataPersistence.java:79 | after n registrations the counter is the start plus n, modulo 2^32 |
| `JavaInt.IdAfterNoWrap` | src/main/java/logan/smp/SimpleMetadataPersistence.java:79 | without overflow, n registrations from `start` leave the counter at exactly `start + n` |
| `JavaInt.IdsDistinct` | src/main/java/logan/smp/SimpleMetadataPersistence.java:79 | any 2^32 consecutive registrations hand out pairwise distinct ids, so no id repeats |
| `JavaInt.NatToDecimalDigits` | src/main/java/logan/smp/SimpleMetadataPersistence.java:79 | the decimal text of a number is non-empty, all digits, and reads back as the number |
| `JavaInt.IntToDecimal` | src/main/java/logan/smp/SimpleMetadataPersistence.java:79 | the text of `lastId` in `lastId + ":"`; specified by `JavaInt.IntToDecimalRoundTrip` (parses back) and `JavaInt.IntToDecimalShape` (non-empty, no `:`) |
| `JavaInt.IntToDecimalRoundTrip` | src/main/java/logan/smp/SimpleMetadataPersistence.java:79 | parsing the text `lastId + ""` gives `lastId` back, negative values included |
| `JavaInt.IntToDecimalInjective` | src/main/java/logan/smp/SimpleMetadataPersistence.java:79 | distinct ids have distinct decimal texts, so they name distinct sections |
| `JavaInt.IntToDecimalShape` | src/main/java/logan/smp/SimpleMetadataPersistence.java:79 | an id's text is non-empty and holds no `:` (only digits and a leading minus) |
| `JavaSplit.Fields` | src/main/java/logan/smp/SimpleMetadataPersistence.java:114 | splitting always yields at least one field, and no field contains the delimiter |
| `JavaSplit.FieldsJoin` | src/main/java/logan/smp/SimpleMetadataPersistence.java:114 | joining the fields with `:` gives the name back, so the fields are exactly the pieces between delimiters |
| `JavaSplit.Split` | src/main/java/logan/smp/SimpleMetadataPersistence.java:114 | `getCustomName().split(":")`; specified by `JavaSplit.SplitHead` (when it is empty, and what its first part is) |
| `JavaSplit.StripTrailingEmpty` | src/main/java/logan/smp/SimpleMetadataPersistence.java:114 | the result of split is a prefix of the fields that does not end in an empty string, and only empty strings were removed |
| `JavaSplit.IndexOf` | src/main/java/logan/smp/SimpleMetadataPersistence.java:120 | the first position of the delimiter, or the length when there is none, with no delimiter before it |
| `JavaSplit.FirstField` | src/main/java/logan/smp/SimpleMetadataPersistence.java:120 | the first field is exactly the text before the first delimiter |
| `JavaSplit.SplitHead` | src/main/java/logan/smp/SimpleMetadataPersistence.java:114-120 | split has no parts exactly when the name is a non-empty run of `:`; otherwise the first part is the text before the first `:` |
| `NameCodec.DecodeId` | src/main/java/logan/smp/SimpleMetadataPersistence.java:110-120 | the id the lookup extracts from a custom name, or the reason it throws; specified by `NameCodec.DecodeIdSpec` |
| `NameCodec.ConcatText` | src/main/java/logan/smp/SimpleMetadataPersistence.java:79 | a possibly-null custom name as string concatenation renders it (null as `"null"`); used by `NameCodec.NameRoundTrip` |
| `NameCodec.TaggedName` | src/main/java/logan/smp/SimpleMetadataPersistence.java:79 | the name registration sets, `lastId + ":" + getCustomName()`; specified by `NameCodec.NameRoundTrip` |
| `NameCodec.DecodeIdSpec` | src/main/java/logan/smp/SimpleMetadataPersistence.java:110-120 | decoding fails with "no custom name" exactly on null or empty names and with "not tagged" exactly on names starting with `:`; otherwise the id is the non-empty, colon-free text before the first `:`, or the whole name |
| `NameCodec.PlainNameIsId` | src/main/java/logan/smp/SimpleMetadataPersistence.java:114-120 | a non-empty name without `:` decodes to itself rather than failing |
| `NameCodec.NameRoundTrip` | src/main/java/logan/smp/SimpleMetadataPersistence.java:114-120 | the name written at registration decodes to the decimal text of the allocated id, whatever the old name was (null rendered `"null"`, empty, or containing `:`) |
| `NameCodec.DistinctIdsDecodeApart` | src/main/java/logan/smp/SimpleMetadataPersistence.java:79-120 | entities registered with different ids decode to different ids |
| `DataDocument.Get` | src/main/java/logan/smp/SimpleMetadataPersistence.java:174 | `section.get(key)` is the stored value when the key is present and null exactly when it is absent |
| `DataDocument.Put` | src/main/java/logan/smp/SimpleMetadataPersistence.java:158 | `section.set(key, value)` makes `key` read back as `value` (null meaning removed), leaves every other key as it was, and never stores null |
| `DataDocument.SectionAt` | src/main/java/logan/smp/SimpleMetadataPersistence.java:125 | the stored section for the id, or a fresh empty one; specified by `Plugin.MetadataStore.EntityIdSection` |
| `DataDocument.StoredLastId` | src/main/java/logan/smp/SimpleMetadataPersistence.java:65-67 | `getInt("id", default)` is the stored counter truncated to an int, or the default when `"id"` does not hold a number |
| `DataDocument.CounterReadBack` | src/main/java/logan/smp/SimpleMetadataPersistence.java:83 | the counter written under `"id"` reads back unchanged after a reload |
| `DataDocument.CounterShadowedBySection` | src/main/java/logan/smp/SimpleMetadataPersistence.java:136 | a section written under the name `"id"` hides the counter, and a reload falls back to the default |
| `DataDocument.CopySection` | src/main/java/logan/smp/SimpleMetadataPersistence.java:136-140 | the key-by-key copy loop produces a section equal to the one copied |
| `Plugin.Entity.SetTransient` | src/main/java/logan/smp/SimpleMetadataPersistence.java:147 | setting transient metadata changes exactly that key of the entity |
| `Plugin.Entity.LoadSection` | src/main/java/logan/smp/SimpleMetadataPersistence.java:196-199 | the rehydration loop leaves the entity's metadata as the old metadata overridden by every entry of the section |
| `Plugin.MetadataStore.constructor` | src/main/java/logan/smp/SimpleMetadataPersistence.java:29-35 | enabling the plugin loads the document and sets `lastId` to the stored counter, or to 0 when there is none |
| `Plugin.MetadataStore.RegisterPersistentMetadata` | src/main/java/logan/smp/SimpleMetadataPersistence.java:77-87 | the name becomes `<pre-increment id>:<old name>` and decodes to that id; `lastId` grows by exactly one (wrapping at the int limit); only `"id"` changes on disk, holding the new `lastId`, which a reload reads back; the result is always true |
| `Plugin.MetadataStore.EntityIdSection` | src/main/java/logan/smp/SimpleMetadataPersistence.java:107-126 | the lookup fails exactly when decoding fails, with the same reason; otherwise it yields the stored section for the id, or an empty one when none is stored |
| `Plugin.MetadataStore.DeleteSection` | src/main/java/logan/smp/SimpleMetadataPersistence.java:128-132 | the named top-level key is removed and everything else is kept |
| `Plugin.MetadataStore.SaveSection` | src/main/java/logan/smp/SimpleMetadataPersistence.java:134-143 | the stored entry under the name becomes a copy of the section and everything else is kept |
| `Plugin.MetadataStore.UnregisterPersistentMetadata` | src/main/java/logan/smp/SimpleMetadataPersistence.java:95-105 | returns false exactly when decoding fails, leaving the document untouched; otherwise the id's entry is absent and every other top-level key is unchanged |
| `Plugin.MetadataStore.SetMetadata` | src/main/java/logan/smp/SimpleMetadataPersistence.java:145-161 | the key is set on the entity in every case; on a decodable entity the id's stored section becomes the previous one with only `key` set, after which `getMetadata` returns `value` and every other key reads as before; on failure the document is untouched |
| `Plugin.MetadataStore.GetMetadata` | src/main/java/logan/smp/SimpleMetadataPersistence.java:163-175 | the result is null when decoding fails or the key is not stored, and otherwise the value stored under `key` in the id's section |
| `Plugin.MetadataStore.OnChunkLoad` | src/main/java/logan/smp/SimpleMetadataPersistence.java:178-201 | every entity whose name decodes gets its stored section's entries added to its transient metadata; the others are left as they were, whatever else the batch holds; names and the document are unchanged |
| `Scenarios.UnregisterTwice` | src/main/java/logan/smp/SimpleMetadataPersistence.java:95-105 | unregistering a second time reports the same result and changes nothing more |
| `Scenarios.FirstName` | src/main/java/logan/smp/SimpleMetadataPersistence.java:79 | a nameless entity registered first is named `"0:null"` and decodes to id `"0"` |
| `Scenarios.SecondName` | src/main/java/logan/smp/SimpleMetadataPersistence.java:79 | an entity called `"Zombie"` registered second is named `"1:Zombie"` and decodes to id `"1"` |

## Left out

- Plugin lifecycle and event plumbing are not modelled. This covers `onDisable`, `registerEvents`, the logger, the `getInstance` singleton and reading entities out of a `ChunkLoadEvent`. A chunk load is a sequence of entities.
- YAML parsing and file I/O are not modelled: the document is an in-memory map, and saving makes it the persisted state.
- A failed save (the `IOException` swallowed in `saveConfiguration`) is not modelled. Every save succeeds.
- The path semantics of YAML keys are not modelled. A key or id containing `.` would address nested paths, and the empty path is rejected by `set` and `createSection` and names the section itself in `get`. Keys are flat strings here, the empty key included, and a section's name is its id.
- Values are integers, strings and booleans only. Nested sections, lists and other Java objects are not modelled.
- `Plugin.MetadataStore.constructor`: numbers that are not integers, such as a stored double, are read by `getInt` as a truncated int in the source but as "not a number" here.
- Console printing (`System.out.println`, `printStackTrace`) is not modelled: it has no effect on state.
- Transient metadata is keyed by key only. The owning plugin of a `FixedMetadataValue` is not modelled.
- `Plugin.MetadataStore.GetLastId` is modelled but has no contract of its own. Its behaviour is stated by `DataDocument.StoredLastId` and by the postcondition of `RegisterPersistentMetadata`.
- Writes to `data.yml` by other processes between a reload and a save are not modelled.
