/** The registry-side values a registry entry observes. They are supplied by
    the game and its mod loader; only the parts the entry reads are kept. */
module Resources {
  import opened JavaBase

  /** A `namespace:path` identifier, e.g. `minecraft:stone`. */
  datatype ResourceLocation = ResourceLocation(namespace: string, path: string)

  /** The key that names a registry (`ResourceKey<? extends Registry<X>>`). */
  datatype RegistryKey = RegistryKey(location: ResourceLocation)

  /** A registry instance; the entry only ever asks it for its key. */
  datatype Registry = Registry(key: RegistryKey)

  /** A Java object reference: a registered object, or any other object a
      caller hands over (an id, a key, a tag, a predicate, ...). Java compares
      references with `==`, so a reference is represented by its address. */
  datatype Obj = Obj(address: nat)

  /** A deferred holder: the slot for `id` in `registry`, carrying the
      registered object once the registry has produced one. */
  datatype Holder = Holder(registry: RegistryKey, id: ResourceLocation, value: Option<Obj>)
}
