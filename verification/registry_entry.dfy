/** A registry entry: a null-safe handle around a deferred holder, created by
    a registrate (its owner), that resolves to the registered object once the
    registry has produced one, and can look up its siblings, the entries with
    the same path in other registries. */
module RegistryEntries {
  import opened JavaBase
  import opened JavaClasses
  import opened Resources
  import opened Exceptions

  /** The registrate that created an entry, identified by reference. */
  datatype Owner = Owner(address: nat)

  /** The runtime class `RegistryEntry`; specialised entries extend it. */
  const RegistryEntryClass: JClass :=
    Class("com.tterrag.registrate.util.entry.RegistryEntry", Object)

  /** An entry object. `delegate` is declared nullable; `runtimeClass` is the
      class the object was instantiated as, which `cast` inspects. */
  datatype Entry = Entry(owner: Owner, delegate: Option<Holder>, runtimeClass: JClass)

  /** The owner's sibling lookup, `owner.get(path, registryType)`: the entry
      for `path` in the given registry. It belongs to registration
      bookkeeping and may itself throw, so it is a parameter. */
  type Lookup = (Owner, string, Option<RegistryKey>) -> Result<Entry>

  /** What every entry the constructor produced satisfies. */
  predicate Valid(e: Entry)
  {
    e.delegate.Some? && SubclassOf(e.runtimeClass, RegistryEntryClass)
  }

  /** The constructor. The null checks run owner first, then delegate. */
  function Construct(owner: Option<Owner>, delegate: Option<Holder>, runtimeClass: JClass): (r: Result<Entry>)
    requires SubclassOf(runtimeClass, RegistryEntryClass)
    ensures owner.None? ==> r == Failure(NullPointer(OwnerMustNotBeNull))
    ensures owner.Some? && delegate.None? ==> r == Failure(NullPointer(DelegateMustNotBeNull))
    ensures r.Success? <==> owner.Some? && delegate.Some?
    ensures r.Success? ==>
              && r.value.owner == owner.value
              && r.value.delegate == delegate
              && r.value.runtimeClass == runtimeClass
              && Valid(r.value)
  {
    if owner.None? then
      Failure(NullPointer(OwnerMustNotBeNull))
    else if delegate.None? then
      Failure(NullPointer(DelegateMustNotBeNull))
    else
      Success(Entry(owner.value, delegate, runtimeClass))
  }

  /** `getUnchecked()`: the registered object, or null; never throws. */
  function GetUnchecked(e: Entry): (r: Option<Obj>)
    ensures r.None? <==> e.delegate.None? || e.delegate.value.value.None?
    ensures r.Some? ==> e.delegate.Some? && r == e.delegate.value.value
  {
    match e.delegate
    case None => None
    case Some(holder) => holder.value
  }

  /** `get()`: the registered object; a null from `getUnchecked` becomes a
      `NullPointerException` that tells an empty entry from a missing value. */
  function Get(e: Entry): (r: Result<Obj>)
    ensures r.Success? <==> GetUnchecked(e).Some?
    ensures r.Success? ==> GetUnchecked(e) == Some(r.value)
    ensures e.delegate.None? ==> r == Failure(NullPointer(EntryIsEmpty))
    ensures e.delegate.Some? && r.Failure? ==> r.error == NullPointer(EntryNotPresent(e.delegate.value.id))
  {
    var unchecked := GetUnchecked(e);
    if unchecked.Some? then
      Success(unchecked.value)
    else if e.delegate.None? then
      Failure(NullPointer(EntryIsEmpty))
    else
      Failure(NullPointer(EntryNotPresent(e.delegate.value.id)))
  }

  /** `getId()`, forwarded to the delegate; a null delegate is dereferenced. */
  function GetId(e: Entry): (r: Result<ResourceLocation>)
    ensures r.Success? <==> e.delegate.Some?
    ensures r.Success? ==> r.value == e.delegate.value.id
    ensures r.Failure? ==> r.error == NullPointer(NullDereference)
  {
    match e.delegate
    case None => Failure(NullPointer(NullDereference))
    case Some(holder) => Success(holder.id)
  }

  /** `getSibling(registryType)`: ask the owner for the entry with this
      entry's path in another registry. */
  function GetSibling(e: Entry, registryType: Option<RegistryKey>, lookup: Lookup): (r: Result<Entry>)
    ensures e.delegate.None? ==> r == Failure(NullPointer(NullDereference))
    ensures e.delegate.Some? ==> r == lookup(e.owner, e.delegate.value.id.path, registryType)
  {
    var id :- GetId(e);
    lookup(e.owner, id.path, registryType)
  }

  /** `getSibling(registry)`: the key form, with the registry's own key. */
  function GetSiblingOf(e: Entry, registry: Option<Registry>, lookup: Lookup): (r: Result<Entry>)
    ensures registry.None? ==> r == Failure(NullPointer(NullDereference))
    ensures registry.Some? ==> r == GetSibling(e, Some(registry.value.key), lookup)
  {
    match registry
    case None => Failure(NullPointer(NullDereference))
    case Some(reg) => GetSibling(e, Some(reg.key), lookup)
  }

  /** `filter(predicate)`: this very entry if its object satisfies the
      predicate, nothing if it does not. A null predicate is rejected before
      the entry is resolved; an unresolved entry throws as `get()` does. */
  function Filter(e: Entry, test: Option<Obj -> bool>): (r: Result<Option<Entry>>)
    ensures test.None? ==> r == Failure(NullPointer(NullArgument))
    ensures test.Some? && Get(e).Failure? ==> r == Failure(Get(e).error)
    ensures test.Some? && Get(e).Success? ==>
              r == Success(if test.value(Get(e).value) then Some(e) else None)
    ensures r.Success? ==>
              && test.Some?
              && Get(e).Success?
              && (r.value.Some? <==> test.value(Get(e).value))
              && (r.value.Some? ==> r.value.value == e)
  {
    if test.None? then
      Failure(NullPointer(NullArgument))
    else
      var v :- Get(e);
      if test.value(v) then Success(Some(e)) else Success(None)
  }

  /** `is(entry)`: whether `get()` returns the very object `candidate` refers
      to. It goes through `get()`, so an unresolved entry throws. It is the
      only `is` an entry has: the holder's `is` overloads taking an id, a key,
      a key predicate or a tag are excluded from forwarding, so such a call
      lands here with that id, key, predicate or tag as `candidate` and
      compares it by reference with the registered object. */
  function Is(e: Entry, candidate: Option<Obj>): (r: Result<bool>)
    ensures r.Failure? <==> GetUnchecked(e).None?
    ensures r.Failure? ==> r.error == Get(e).error
    ensures r.Success? ==> (r.value <==> candidate == GetUnchecked(e))
  {
    var v :- Get(e);
    Success(Some(v) == candidate)
  }

  /** `cast(clazz, entry)`: the entry itself when it is an instance of
      `clazz`. Otherwise an `IllegalArgumentException` naming both classes;
      a null `clazz`, or a null entry (whose class the message asks for),
      is dereferenced. */
  function Cast(clazz: Option<JClass>, entry: Option<Entry>): (r: Result<Entry>)
    ensures r.Success? <==> clazz.Some? && entry.Some? && SubclassOf(entry.value.runtimeClass, clazz.value)
    ensures r.Success? ==> r.value == entry.value
    ensures clazz.Some? && entry.Some? && r.Failure? ==>
              r.error == IllegalArgument(clazz.value, entry.value.runtimeClass)
    ensures clazz.None? || entry.None? ==> r == Failure(NullPointer(NullDereference))
  {
    if clazz.None? then
      Failure(NullPointer(NullDereference))
    else
      var runtimeClass := if entry.Some? then Some(entry.value.runtimeClass) else None;
      if IsInstance(clazz.value, runtimeClass) then
        Success(entry.value)
      else if entry.None? then
        Failure(NullPointer(NullDereference))
      else
        Failure(IllegalArgument(clazz.value, entry.value.runtimeClass))
  }

  // ---------------------------------------------------------------------
  // Resolution

  /** `get` and `getUnchecked` agree: `get` returns a value exactly when
      `getUnchecked` is non-null, and then the same one. This repeats the
      first two clauses of `Get`'s contract as one statement for readers. */
  lemma GetAgreesWithGetUnchecked(e: Entry, v: Obj)
    ensures Get(e) == Success(v) <==> GetUnchecked(e) == Some(v)
  {
  }

  /** An entry bound to a holder with a value resolves to exactly that value;
      one whose holder has none fails naming the holder's id. */
  lemma ResolutionFollowsHolder(e: Entry, h: Holder)
    requires e.delegate == Some(h)
    ensures h.value.Some? ==> Get(e) == Success(h.value.value)
    ensures h.value.None? ==> Get(e) == Failure(NullPointer(EntryNotPresent(h.id)))
  {
  }

  /** An entry made by the constructor is never empty: `get` can fail only
      because the holder has no value yet, and `getSibling` always reaches
      the owner. */
  lemma ConstructedEntryNeverEmpty(owner: Owner, h: Holder, runtimeClass: JClass,
                                   registryType: Option<RegistryKey>, lookup: Lookup)
    requires SubclassOf(runtimeClass, RegistryEntryClass)
    ensures Construct(Some(owner), Some(h), runtimeClass).Success?
    ensures var e := Construct(Some(owner), Some(h), runtimeClass).value;
            && (Get(e).Failure? ==> Get(e).error == NullPointer(EntryNotPresent(h.id)))
            && GetSibling(e, registryType, lookup) == lookup(owner, h.id.path, registryType)
  {
  }

  // ---------------------------------------------------------------------
  // Sibling lookup

  /** The sibling depends on the owner and the path of the id only: neither
      the namespace of the id, nor the registry the holder is in, nor whether
      it has a value, nor the entry's runtime class matters. */
  lemma SiblingDependsOnPathOnly(e1: Entry, e2: Entry, registryType: Option<RegistryKey>, lookup: Lookup)
    requires e1.owner == e2.owner
    requires e1.delegate.Some? && e2.delegate.Some?
    requires e1.delegate.value.id.path == e2.delegate.value.id.path
    ensures GetSibling(e1, registryType, lookup) == GetSibling(e2, registryType, lookup)
  {
  }

  /** Asking with a registry is asking with its key. This repeats
      `GetSiblingOf`'s contract for a non-null registry, for readers. */
  lemma SiblingOfRegistryIsSiblingOfKey(e: Entry, registry: Registry, lookup: Lookup)
    ensures GetSiblingOf(e, Some(registry), lookup) == GetSibling(e, Some(registry.key), lookup)
  {
  }

  // ---------------------------------------------------------------------
  // Filter and identity

  /** Filtering with a predicate keeps the entry exactly when its object
      satisfies it; filtering never produces a different entry. */
  lemma FilterKeepsSameEntry(e: Entry, p: Obj -> bool, v: Obj)
    requires GetUnchecked(e) == Some(v)
    ensures p(v) ==> Filter(e, Some(p)) == Success(Some(e))
    ensures !p(v) ==> Filter(e, Some(p)) == Success(None)
  {
  }

  /** A null predicate is rejected whatever state the entry is in, even when
      resolving it would have failed. This repeats the first clause of
      `Filter`'s contract, for readers. */
  lemma FilterChecksPredicateFirst(e: Entry)
    ensures Filter(e, None) == Failure(NullPointer(NullArgument))
  {
  }

  /** `filter` does not treat an unresolved entry as a rejected one. */
  lemma FilterUnresolvedThrows(e: Entry, p: Obj -> bool)
    requires GetUnchecked(e).None?
    ensures Filter(e, Some(p)).Failure?
    ensures Filter(e, Some(p)) == Failure(Get(e).error)
  {
  }

  /** `is` holds of the resolved object alone, and never of null. */
  lemma IsIdentity(e: Entry, v: Obj, other: Obj)
    requires GetUnchecked(e) == Some(v)
    ensures Is(e, Some(v)) == Success(true)
    ensures other != v ==> Is(e, Some(other)) == Success(false)
    ensures Is(e, None) == Success(false)
  {
  }

  /** On an entry whose holder has no value, `is` throws rather than
      answering false. */
  lemma IsThrowsWhenUnresolved(e: Entry, h: Holder, candidate: Option<Obj>)
    requires e.delegate == Some(h) && h.value.None?
    ensures Is(e, candidate) == Failure(NullPointer(EntryNotPresent(h.id)))
  {
  }

  // ---------------------------------------------------------------------
  // Cast

  /** An entry that casts to a class also casts to every superclass of it,
      and to the same entry. */
  lemma CastWidens(sub: JClass, sup: JClass, e: Entry)
    requires Cast(Some(sub), Some(e)).Success?
    requires SubclassOf(sub, sup)
    ensures Cast(Some(sup), Some(e)) == Cast(Some(sub), Some(e))
  {
    SubclassTransitive(e.runtimeClass, sub, sup);
  }

  /** Every valid entry casts to `RegistryEntry` and to `Object`. */
  lemma CastToRegistryEntry(e: Entry)
    requires Valid(e)
    ensures Cast(Some(RegistryEntryClass), Some(e)) == Success(e)
    ensures Cast(Some(Object), Some(e)) == Success(e)
  {
    ObjectIsRoot(e.runtimeClass);
  }

  /** Two distinct classes never both accept an entry in both directions of
      a cast round: if each casts to the other's class, they are one class. */
  lemma CastBothWaysSameClass(a: Entry, b: Entry)
    requires Cast(Some(b.runtimeClass), Some(a)).Success?
    requires Cast(Some(a.runtimeClass), Some(b)).Success?
    ensures a.runtimeClass == b.runtimeClass
  {
    SubclassAntisymmetric(a.runtimeClass, b.runtimeClass);
  }
}
