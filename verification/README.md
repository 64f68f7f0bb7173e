# RegistryEntry, modelled in Dafny

A model of Registrate's `RegistryEntry<R, S>`: a null-safe handle around a
NeoForge `DeferredHolder` (the registry slot for one id), created by an
`AbstractRegistrate` (its owner). The handle resolves to the registered object
once the registry has produced one (`get`, `getUnchecked`), tests it
(`filter`, `is`), looks up the entry with the same path in another registry
(`getSibling`), narrows a generically typed entry to a specialised entry class
(`cast`), and is equal to another entry exactly when their delegates are
equal.

Files and modules:

- `java_base.dfy`, `JavaBase`: nullable references (`Option`) and Java `int`
  wrap-around (`Wrap32`).
- `java_classes.dfy`, `JavaClasses`: runtime classes as superclass chains,
  the subclass relation and `Class.isInstance`, with
  `Object` as the root of every chain, transitivity and antisymmetry.
- `resources.dfy`, `Resources`: `ResourceLocation` (namespace, path),
  registry keys, registries, registered objects (compared by address, as Java's
  `==` does), and the deferred holder (registry key, id, optional value).
- `exceptions.dfy`, `Exceptions`: the thrown exceptions
  (`NullPointerException` with its cause, `IllegalArgumentException` naming
  the expected and found classes) and `Result`, a return value or a thrown
  exception.
- `registry_entry.dfy`, `RegistryEntries`: the entry and its operations, and
  the lemmas relating them.
- `entry_equality.dfy`, `EntryEquality`: `equals` and `hashCode` as generated
  for equality over the `delegate` field alone.

The owner's `get(path, registryType)` is registration bookkeeping and is not
part of this model: it is a parameter, `Lookup`, that returns an entry or
throws. The delegate's `hashCode` is likewise a parameter of `HashCode`.

Two behaviours of the code are less forgiving than "null-safe" suggests; the
model keeps them as written:

- `is(x)` calls `get()`, so on an entry whose holder has no value it throws
  `NullPointerException` instead of answering false (`IsThrowsWhenUnresolved`).
- `is(x)` is the only `is` an entry has. The holder's `is` overloads (by id,
  key, key predicate or tag), together with `tags`, `unwrap`, `unwrapKey` and
  `canSerializeIn`, are excluded from forwarding, so they are not methods of
  the entry at all. A call such as `entry.is(id)` therefore compares the id
  by reference with the registered object: false on a resolved entry
  (`IsIdentity`), an exception on an unresolved one.
- Id and key queries forwarded to a null delegate dereference null (a plain
  `NullPointerException`), not a not-present error. The constructor refuses a
  null delegate, so for constructed entries this never happens
  (`ConstructedEntryNeverEmpty`).

## Model

| member | source | states |
|---|---|---|
| RegistryEntries.Construct | src/main/java/com/tterrag/registrate/util/entry/RegistryEntry.java:49-56 | A null owner fails with "Owner must not be null" whatever the delegate; otherwise a null delegate fails with "Delegate must not be null"; otherwise construction succeeds and stores owner, delegate and runtime class unchanged, giving a valid entry |
| RegistryEntries.GetUnchecked | src/main/java/com/tterrag/registrate/util/entry/RegistryEntry.java:74-77 | Null exactly when there is no delegate or the holder has no value; otherwise exactly the holder's value; never throws |
| RegistryEntries.Get | src/main/java/com/tterrag/registrate/util/entry/RegistryEntry.java:63-67 | Returns a value exactly when `getUnchecked` is non-null, and then that value; otherwise throws "Registry entry is empty" without a delegate, or "not present" carrying the delegate's id |
| RegistryEntries.GetId | src/main/java/com/tterrag/registrate/util/entry/RegistryEntry.java:45-46 | The forwarded `getId()` returns the holder's id exactly when there is a delegate and dereferences null otherwise |
| RegistryEntries.GetSibling | src/main/java/com/tterrag/registrate/util/entry/RegistryEntry.java:79-81 | Without a delegate, dereferences null; otherwise is the owner's lookup of the path of this entry's id in the requested registry |
| RegistryEntries.GetSiblingOf | src/main/java/com/tterrag/registrate/util/entry/RegistryEntry.java:83-85 | A null registry is dereferenced; otherwise the result is the key form called with the registry's key |
| RegistryEntries.Filter | src/main/java/com/tterrag/registrate/util/entry/RegistryEntry.java:96-102 | A null predicate fails first; an unresolved entry throws what `get` throws; otherwise the result is this same entry when the predicate holds of the resolved object and empty when it does not |
| RegistryEntries.Is | src/main/java/com/tterrag/registrate/util/entry/RegistryEntry.java:104-106 | Throws exactly when the entry does not resolve, with `get`'s exception; otherwise true exactly when the candidate reference (which may be an id, key, tag or predicate, since the holder's `is` overloads are excluded) is the resolved object itself |
| RegistryEntries.Cast | src/main/java/com/tterrag/registrate/util/entry/RegistryEntry.java:109-114 | Returns the entry itself exactly when it is an instance of the class; a wrong class throws IllegalArgument naming the expected and found classes; a null class or null entry is dereferenced |
| RegistryEntries.GetAgreesWithGetUnchecked | src/main/java/com/tterrag/registrate/util/entry/RegistryEntry.java:63-77 | For every value, `get` returns it exactly when `getUnchecked` does |
| RegistryEntries.ResolutionFollowsHolder | src/main/java/com/tterrag/registrate/util/entry/RegistryEntry.java:63-77 | An entry bound to a holder resolves to the holder's value, or fails naming the holder's id when it has none |
| RegistryEntries.ConstructedEntryNeverEmpty | src/main/java/com/tterrag/registrate/util/entry/RegistryEntry.java:49-81 | A constructed entry never reports "empty": `get` can fail only as not present, and `getSibling` always reaches the owner's lookup |
| RegistryEntries.SiblingDependsOnPathOnly | src/main/java/com/tterrag/registrate/util/entry/RegistryEntry.java:79-81 | Two entries of one owner whose ids share a path have the same sibling, whatever the namespaces, holder registries and values |
| RegistryEntries.SiblingOfRegistryIsSiblingOfKey | src/main/java/com/tterrag/registrate/util/entry/RegistryEntry.java:83-85 | The sibling in a registry is the sibling under that registry's key |
| RegistryEntries.FilterKeepsSameEntry | src/main/java/com/tterrag/registrate/util/entry/RegistryEntry.java:96-102 | On a resolved entry, filter returns the same entry when the predicate holds and empty when it does not |
| RegistryEntries.FilterChecksPredicateFirst | src/main/java/com/tterrag/registrate/util/entry/RegistryEntry.java:96-97 | A null predicate is rejected whatever the state of the entry |
| RegistryEntries.FilterUnresolvedThrows | src/main/java/com/tterrag/registrate/util/entry/RegistryEntry.java:96-98 | On an unresolved entry, filter throws `get`'s exception instead of returning empty |
| RegistryEntries.IsIdentity | src/main/java/com/tterrag/registrate/util/entry/RegistryEntry.java:104-106 | On a resolved entry, `is` holds of the resolved object, of no other object, and not of null |
| RegistryEntries.IsThrowsWhenUnresolved | src/main/java/com/tterrag/registrate/util/entry/RegistryEntry.java:104-106 | On an entry whose holder has no value, `is` throws "not present" with the holder's id for every candidate |
| RegistryEntries.CastWidens | src/main/java/com/tterrag/registrate/util/entry/RegistryEntry.java:109-114 | An entry that casts to a class casts, to the same entry, to every superclass of it |
| RegistryEntries.CastToRegistryEntry | src/main/java/com/tterrag/registrate/util/entry/RegistryEntry.java:109-114 | Every valid entry casts to `RegistryEntry` and to `Object` unchanged |
| RegistryEntries.CastBothWaysSameClass | src/main/java/com/tterrag/registrate/util/entry/RegistryEntry.java:109-114 | If each of two entries casts to the other's runtime class, the classes are the same |
| JavaClasses.ObjectIsRoot | src/main/java/com/tterrag/registrate/util/entry/RegistryEntry.java:110 | Every runtime class passes the instance test for `Object` |
| JavaClasses.SubclassTransitive | src/main/java/com/tterrag/registrate/util/entry/RegistryEntry.java:110 | The subclass relation behind the instance test is transitive |
| JavaClasses.SubclassDepth | src/main/java/com/tterrag/registrate/util/entry/RegistryEntry.java:110 | A subclass lies at least as far from `Object` as its superclass, strictly further unless they are the same class |
| JavaClasses.SubclassAntisymmetric | src/main/java/com/tterrag/registrate/util/entry/RegistryEntry.java:110 | Two classes that are subclasses of each other are the same class |
| EntryEquality.Equals | src/main/java/com/tterrag/registrate/util/entry/RegistryEntry.java:30 | An entry equals an object exactly when that object is an entry with an equal delegate |
| EntryEquality.HashCode | src/main/java/com/tterrag/registrate/util/entry/RegistryEntry.java:30 | The hash is 102 for a null delegate and otherwise 59 plus the delegate's hash, modulo 2^32 |
| EntryEquality.EqualsIgnoresOwnerAndClass | src/main/java/com/tterrag/registrate/util/entry/RegistryEntry.java:30 | Two entries are equal exactly when their delegates are, whatever their owners and runtime classes |
| EntryEquality.EqualsRejectsNonEntries | src/main/java/com/tterrag/registrate/util/entry/RegistryEntry.java:30 | No entry equals null or a non-entry object |
| EntryEquality.EqualsIsEquivalence | src/main/java/com/tterrag/registrate/util/entry/RegistryEntry.java:30 | Entry equality is reflexive, symmetric and transitive |
| EntryEquality.EqualEntriesHashEqually | src/main/java/com/tterrag/registrate/util/entry/RegistryEntry.java:30 | Equal entries have equal hash codes, for any hashing of the holders |
| JavaBase.Wrap32 | src/main/java/com/tterrag/registrate/util/entry/RegistryEntry.java:30 | Java `int` arithmetic in the generated hash: congruent to the exact value modulo 2^32, and equal to it when it fits |

## Left out

- The holder methods other than `getId` that are still forwarded to the
  deferred holder (`getKey` and the rest outside the excluded list): the
  holder is part of NeoForge and not of this model; only `getId` is
  modelled, as a field read.
- Subclass overrides: entries of a subclass are modelled with the behaviour
  declared in `RegistryEntry` itself. Subclasses are taken not to override
  `get`, `getUnchecked`, `getSibling` or the forwarded `getId` (through which
  `filter`, `is` and the registry form of `getSibling` dispatch), and not to
  redeclare `canEqual`; their own code is not part of this model.
- `AbstractRegistrate.get`, the owner's lookup: registration bookkeeping, not
  part of this model; `getSibling` takes it as a parameter.
- The deferred holder's own `equals` and `hashCode`: not part of this model;
  holders are compared as values and hashed by a parameter.
- Interfaces in `cast`: runtime classes are superclass chains only, so a
  cast to an interface type is not represented.
- Exception message text beyond which exception is thrown and why (the
  missing id is carried; the class names in the cast message are the two
  classes).
- Generics and variance: one type of registered object, `Obj`.
- The predicate passed to `filter` is a total function: a predicate that
  itself throws is not represented.
- Concurrency and the registry filling up over time: an entry is observed at
  one moment, with its holder's value at that moment.
