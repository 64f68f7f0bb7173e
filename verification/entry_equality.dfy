/** Equality and hashing of registry entries, as generated for a class whose
    equality is declared over its `delegate` field alone: the owner and the
    runtime subclass take no part. */
module EntryEquality {
  import opened JavaBase
  import opened Resources
  import opened RegistryEntries

  /** The argument of `equals(Object)`: null, another entry, or any other object. */
  datatype Ref = Null | EntryRef(entry: Entry) | OtherRef(obj: Obj)

  const HashPrime: int := 59
  const NullFieldHash: int := 43

  /** `instanceof RegistryEntry`; also the generated `canEqual(other)`,
      taken as not redeclared by subclasses, so every entry class accepts
      every other. */
  predicate IsEntry(other: Ref)
  {
    other.EntryRef?
  }

  /** Equality of the (nullable) delegate fields, null-safe. */
  predicate SameDelegate(a: Option<Holder>, b: Option<Holder>)
  {
    if a.None? then b.None? else b.Some? && a.value == b.value
  }

  /** `e.equals(o)`: the identity shortcut, the instance test, then the
      delegate field. The `canEqual` test in the other direction always
      passes, since `e` is itself a `RegistryEntry`. */
  function Equals(e: Entry, o: Ref): (r: bool)
    ensures r <==> o.EntryRef? && o.entry.delegate == e.delegate
  {
    if o == EntryRef(e) then true
    else if !IsEntry(o) then false
    else SameDelegate(e.delegate, o.entry.delegate)
  }

  /** `e.hashCode()`: `1 * 59 + h` in Java `int` arithmetic, where `h` is the
      delegate's hash, or 43 for a null delegate. */
  function HashCode(e: Entry, holderHash: Holder -> int32): (r: int32)
    ensures e.delegate.None? ==> r == 102
    ensures e.delegate.Some? ==> (r - holderHash(e.delegate.value) - HashPrime) % TwoTo32 == 0
  {
    var fieldHash := if e.delegate.None? then NullFieldHash else holderHash(e.delegate.value) as int;
    Wrap32(1 * HashPrime + fieldHash)
  }

  /** Entries with equal delegates are equal, whatever their owners and
      runtime classes; entries with different delegates are not. */
  lemma EqualsIgnoresOwnerAndClass(a: Entry, b: Entry)
    ensures Equals(a, EntryRef(b)) <==> a.delegate == b.delegate
  {
  }

  /** An entry never equals null or an object that is not an entry. */
  lemma EqualsRejectsNonEntries(e: Entry, obj: Obj)
    ensures !Equals(e, Null) && !Equals(e, OtherRef(obj))
  {
  }

  /** `equals` is an equivalence on entries. */
  lemma EqualsIsEquivalence(a: Entry, b: Entry, c: Entry)
    ensures Equals(a, EntryRef(a))
    ensures Equals(a, EntryRef(b)) ==> Equals(b, EntryRef(a))
    ensures Equals(a, EntryRef(b)) && Equals(b, EntryRef(c)) ==> Equals(a, EntryRef(c))
  {
  }

  /** Equal entries have equal hash codes, for any hash of the holders. */
  lemma EqualEntriesHashEqually(a: Entry, b: Entry, holderHash: Holder -> int32)
    requires Equals(a, EntryRef(b))
    ensures HashCode(a, holderHash) == HashCode(b, holderHash)
  {
  }
}
