/** Serializer lookup through four memoizing caches: non-null and nullable
    caches keyed by class, and non-null and nullable caches keyed by a class
    and its ordered type arguments. Reflection is a value passed in. */
module SerializersCache {
  import opened Caching

  datatype Option<T> = None | Some(value: T)

  /** A `KClass`, identified by an opaque number. */
  datatype KClass = KClass(id: nat)

  /** A `KClassifier`: a class, or a type parameter named in a declaration. */
  datatype KClassifier =
    | ClassClassifier(clazz: KClass)
    | KTypeParameter(name: string)

  /** A `KType`: its classifier (absent for a type that cannot be denoted,
      such as an intersection type), its type arguments and whether it is
      marked nullable. */
  datatype KType = KType(classifier: Option<KClassifier>, arguments: seq<KType>, isMarkedNullable: bool)

  /** A serializer, as far as this layer can tell serializers apart: one
      produced by reflection, or a `PolymorphicSerializer` for a base class. */
  datatype KSerializer =
    | Reflected(id: nat)
    | PolymorphicSerializer(baseClass: KClass)

  /** A `SerializersModule`; only its duplicate-keys flag is read here. */
  datatype SerializersModule = SerializersModule(id: nat, allowDuplicateKeys: bool)

  /** The exception a parametrized resolution fails with: the `!!` on the
      argument serializers of the listed type arguments. */
  datatype Throwable = NullPointerException(types: seq<KType>)

  /** Kotlin's `Result`. */
  datatype KResult<T> = Success(value: T) | Failure(exception: Throwable)

  /** The reflection this layer calls into and does not define. */
  datatype Reflection = Reflection(
    /** `KClass.serializerOrNull()` */
    serializerOrNull: KClass -> Option<KSerializer>,
    /** `KClass.isInterface()` */
    isInterface: KClass -> bool,
    /** `KSerializer.nullable` */
    nullable: KSerializer -> KSerializer,
    /** `EmptySerializersModule()` */
    emptySerializersModule: SerializersModule,
    /** `SerializersModule.serializersForParameters(types, failOnMissingTypeArgSerializer)`;
        `None` when some argument has no serializer. */
    serializersForParameters: (SerializersModule, seq<KType>, bool) -> Option<seq<KSerializer>>,
    /** `KClass.parametrizedSerializerOrNull(serializers, allowDuplicateKeys, elementClassifierIfArray)` */
    parametrizedSerializerOrNull: (KClass, seq<KSerializer>, bool, Option<KClassifier>) -> Option<KSerializer>)

  /** `polymorphicIfInterface`: a polymorphic serializer for an interface,
      nothing for any other class. */
  function PolymorphicIfInterface(refl: Reflection, clazz: KClass): (r: Option<KSerializer>)
    ensures r.Some? <==> refl.isInterface(clazz)
    ensures r.Some? ==> r.value.PolymorphicSerializer? && r.value.baseClass == clazz
  {
    if refl.isInterface(clazz) then Some(PolymorphicSerializer(clazz)) else None
  }

  /** `.nullable` applied through a `?.` chain: absent stays absent. */
  function NullableOrNull(refl: Reflection, s: Option<KSerializer>): (r: Option<KSerializer>)
    ensures r.Some? <==> s.Some?
    ensures s.Some? ==> r.value == refl.nullable(s.value)
  {
    match s
    case None => None
    case Some(ser) => Some(refl.nullable(ser))
  }

  /** What `SERIALIZERS_CACHE` computes on a miss: the class's own serializer
      if reflection finds one, else a polymorphic serializer for an
      interface, else nothing. */
  function SerializerForClass(refl: Reflection, clazz: KClass): (r: Option<KSerializer>)
    ensures refl.serializerOrNull(clazz).Some? ==> r == refl.serializerOrNull(clazz)
    ensures refl.serializerOrNull(clazz).None? && refl.isInterface(clazz) ==> r == Some(PolymorphicSerializer(clazz))
    ensures r.None? <==> refl.serializerOrNull(clazz).None? && !refl.isInterface(clazz)
  {
    match refl.serializerOrNull(clazz)
    case Some(s) => Some(s)
    case None => PolymorphicIfInterface(refl, clazz)
  }

  /** What `SERIALIZERS_CACHE_NULLABLE` computes on a miss: the same
      resolution, run again, wrapped by `.nullable`. */
  function NullableSerializerForClass(refl: Reflection, clazz: KClass): (r: Option<KSerializer>)
    ensures r.None? <==> refl.serializerOrNull(clazz).None? && !refl.isInterface(clazz)
    ensures refl.serializerOrNull(clazz).Some? ==> r == Some(refl.nullable(refl.serializerOrNull(clazz).value))
    ensures refl.serializerOrNull(clazz).None? && refl.isInterface(clazz) ==> r == Some(refl.nullable(PolymorphicSerializer(clazz)))
  {
    var s := match refl.serializerOrNull(clazz)
      case Some(s) => Some(s)
      case None => PolymorphicIfInterface(refl, clazz);
    NullableOrNull(refl, s)
  }

  /** The hint `{ types[0].classifier }`: the classifier of the first type
      argument. */
  function FirstClassifier(types: seq<KType>): Option<KClassifier> {
    if types == [] then None else types[0].classifier
  }

  /** The serializers of the type arguments, resolved from a fresh empty
      module in strict mode, or the `!!` failure. */
  function ArgumentSerializers(refl: Reflection, types: seq<KType>): (r: KResult<seq<KSerializer>>)
    ensures r.Failure? <==> refl.serializersForParameters(refl.emptySerializersModule, types, true).None?
    ensures r.Success? ==> r.value == refl.serializersForParameters(refl.emptySerializersModule, types, true).value
    ensures r.Failure? ==> r.exception == NullPointerException(types)
  {
    match refl.serializersForParameters(refl.emptySerializersModule, types, true)
    case None => Failure(NullPointerException(types))
    case Some(serializers) => Success(serializers)
  }

  /** What `PARAMETRIZED_SERIALIZERS_CACHE` computes on a miss. */
  function ParametrizedSerializerFor(refl: Reflection, clazz: KClass, types: seq<KType>): (r: KResult<Option<KSerializer>>)
    ensures r.Failure? <==> refl.serializersForParameters(refl.emptySerializersModule, types, true).None?
    ensures r.Success? ==> r.value == refl.parametrizedSerializerOrNull(
      clazz,
      refl.serializersForParameters(refl.emptySerializersModule, types, true).value,
      refl.emptySerializersModule.allowDuplicateKeys,
      FirstClassifier(types))
  {
    var empty := refl.emptySerializersModule;
    match ArgumentSerializers(refl, types)
    case Failure(e) => Failure(e)
    case Success(serializers) =>
      Success(refl.parametrizedSerializerOrNull(clazz, serializers, empty.allowDuplicateKeys, FirstClassifier(types)))
  }

  /** What `PARAMETRIZED_SERIALIZERS_CACHE_NULLABLE` computes on a miss: the
      same resolution, run again, wrapped by `.nullable`. */
  function NullableParametrizedSerializerFor(refl: Reflection, clazz: KClass, types: seq<KType>): (r: KResult<Option<KSerializer>>)
    ensures r.Failure? <==> refl.serializersForParameters(refl.emptySerializersModule, types, true).None?
    ensures r.Success? ==> r.value == NullableOrNull(refl, refl.parametrizedSerializerOrNull(
      clazz,
      refl.serializersForParameters(refl.emptySerializersModule, types, true).value,
      refl.emptySerializersModule.allowDuplicateKeys,
      FirstClassifier(types)))
  {
    var empty := refl.emptySerializersModule;
    match ArgumentSerializers(refl, types)
    case Failure(e) => Failure(e)
    case Success(serializers) =>
      Success(NullableOrNull(refl, refl.parametrizedSerializerOrNull(clazz, serializers, empty.allowDuplicateKeys, FirstClassifier(types))))
  }

  /** A nullable class entry is the non-null entry wrapped by `.nullable`,
      although the two are computed and stored separately. */
  lemma NullableWrapsClassEntry(refl: Reflection, clazz: KClass)
    ensures NullableSerializerForClass(refl, clazz) == NullableOrNull(refl, SerializerForClass(refl, clazz))
  {
  }

  /** A nullable parametrized entry fails exactly when the non-null one does,
      and otherwise is the non-null entry wrapped by `.nullable`. */
  lemma NullableWrapsParametrizedEntry(refl: Reflection, clazz: KClass, types: seq<KType>)
    ensures NullableParametrizedSerializerFor(refl, clazz, types).Failure? <==> ParametrizedSerializerFor(refl, clazz, types).Failure?
    ensures ParametrizedSerializerFor(refl, clazz, types).Success? ==>
      NullableParametrizedSerializerFor(refl, clazz, types).value == NullableOrNull(refl, ParametrizedSerializerFor(refl, clazz, types).value)
  {
  }

  /** The four caches, each a memoizing store over its own computation. */
  class SerializerCaches {
    const refl: Reflection
    /** `SERIALIZERS_CACHE` */
    const serializersCache: MemoCache<KClass, Option<KSerializer>>
    /** `SERIALIZERS_CACHE_NULLABLE` */
    const serializersCacheNullable: MemoCache<KClass, Option<KSerializer>>
    /** `PARAMETRIZED_SERIALIZERS_CACHE` */
    const parametrizedSerializersCache: MemoCache<(KClass, seq<KType>), KResult<Option<KSerializer>>>
    /** `PARAMETRIZED_SERIALIZERS_CACHE_NULLABLE` */
    const parametrizedSerializersCacheNullable: MemoCache<(KClass, seq<KType>), KResult<Option<KSerializer>>>

    /** Four distinct stores, each consistent and each computing what its
        lambda computes; no entry is shared between two of them. */
    ghost predicate Valid()
      reads this, serializersCache, serializersCacheNullable,
        parametrizedSerializersCache, parametrizedSerializersCacheNullable
    {
      && serializersCache != serializersCacheNullable
      && parametrizedSerializersCache != parametrizedSerializersCacheNullable
      && serializersCache.Valid()
      && serializersCacheNullable.Valid()
      && parametrizedSerializersCache.Valid()
      && parametrizedSerializersCacheNullable.Valid()
      && (forall c :: serializersCache.compute(c) == SerializerForClass(refl, c))
      && (forall c :: serializersCacheNullable.compute(c) == NullableSerializerForClass(refl, c))
      && (forall key: (KClass, seq<KType>) ::
            parametrizedSerializersCache.compute(key) == ParametrizedSerializerFor(refl, key.0, key.1))
      && (forall key: (KClass, seq<KType>) ::
            parametrizedSerializersCacheNullable.compute(key) == NullableParametrizedSerializerFor(refl, key.0, key.1))
    }

    /** The four caches, created empty. */
    constructor (refl: Reflection)
      ensures Valid()
      ensures fresh(serializersCache) && fresh(serializersCacheNullable)
      ensures fresh(parametrizedSerializersCache) && fresh(parametrizedSerializersCacheNullable)
      ensures this.refl == refl
      ensures serializersCache.entries == map[] && serializersCacheNullable.entries == map[]
      ensures parametrizedSerializersCache.entries == map[] && parametrizedSerializersCacheNullable.entries == map[]
    {
      this.refl := refl;
      serializersCache := new MemoCache(c => SerializerForClass(refl, c));
      serializersCacheNullable := new MemoCache(c => NullableSerializerForClass(refl, c));
      parametrizedSerializersCache := new MemoCache(
        (key: (KClass, seq<KType>)) => ParametrizedSerializerFor(refl, key.0, key.1));
      parametrizedSerializersCacheNullable := new MemoCache(
        (key: (KClass, seq<KType>)) => NullableParametrizedSerializerFor(refl, key.0, key.1));
    }

    /** `findCachedSerializer`: the resolution for `clazz`, through the
        nullable cache when `isNullable` and the non-null cache otherwise; the
        chosen cache now holds the result under `clazz` and the other cache is
        untouched. */
    method FindCachedSerializer(clazz: KClass, isNullable: bool) returns (r: Option<KSerializer>)
      requires Valid()
      modifies if isNullable then serializersCacheNullable else serializersCache
      ensures Valid()
      ensures r == if isNullable then NullableSerializerForClass(refl, clazz) else SerializerForClass(refl, clazz)
      ensures !isNullable ==> serializersCache.entries == old(serializersCache.entries)[clazz := r]
      ensures isNullable ==> serializersCacheNullable.entries == old(serializersCacheNullable.entries)[clazz := r]
      ensures !isNullable ==> unchanged(serializersCacheNullable)
      ensures isNullable ==> unchanged(serializersCache)
      ensures !isNullable ==> (serializersCache.computations ==
        old(serializersCache.computations) + (if clazz in old(serializersCache.entries) then 0 else 1))
      ensures isNullable ==> (serializersCacheNullable.computations ==
        old(serializersCacheNullable.computations) + (if clazz in old(serializersCacheNullable.entries) then 0 else 1))
    {
      if !isNullable {
        r := serializersCache.Get(clazz);
      } else {
        r := serializersCacheNullable.Get(clazz);
      }
    }

    /** `findParametrizedCachedSerializer`: the parametrized resolution for
        `clazz` and `types`, through the nullable parametrized cache when
        `isNullable` and the non-null one otherwise. */
    method FindParametrizedCachedSerializer(clazz: KClass, types: seq<KType>, isNullable: bool)
      returns (r: KResult<Option<KSerializer>>)
      requires Valid()
      modifies if isNullable then parametrizedSerializersCacheNullable else parametrizedSerializersCache
      ensures Valid()
      ensures r == if isNullable then NullableParametrizedSerializerFor(refl, clazz, types)
                   else ParametrizedSerializerFor(refl, clazz, types)
      ensures !isNullable ==>
        parametrizedSerializersCache.entries == old(parametrizedSerializersCache.entries)[(clazz, types) := r]
      ensures isNullable ==>
        parametrizedSerializersCacheNullable.entries == old(parametrizedSerializersCacheNullable.entries)[(clazz, types) := r]
      ensures !isNullable ==> unchanged(parametrizedSerializersCacheNullable)
      ensures isNullable ==> unchanged(parametrizedSerializersCache)
      ensures !isNullable ==> (parametrizedSerializersCache.computations ==
        old(parametrizedSerializersCache.computations) +
        (if (clazz, types) in old(parametrizedSerializersCache.entries) then 0 else 1))
      ensures isNullable ==> (parametrizedSerializersCacheNullable.computations ==
        old(parametrizedSerializersCacheNullable.computations) +
        (if (clazz, types) in old(parametrizedSerializersCacheNullable.entries) then 0 else 1))
    {
      if !isNullable {
        r := parametrizedSerializersCache.Get((clazz, types));
      } else {
        r := parametrizedSerializersCacheNullable.Get((clazz, types));
      }
    }

    /** Although the nullable cache never reads the non-null one, a class
        stored in both has a nullable entry that is its non-null entry wrapped
        by `.nullable`. */
    lemma ClassEntriesAgree(clazz: KClass)
      requires Valid()
      requires clazz in serializersCache.entries && clazz in serializersCacheNullable.entries
      ensures serializersCacheNullable.entries[clazz] == NullableOrNull(refl, serializersCache.entries[clazz])
    {
      NullableWrapsClassEntry(refl, clazz);
    }

    /** The same agreement for the parametrized caches: both entries fail
        together, and otherwise the nullable one wraps the non-null one. */
    lemma ParametrizedEntriesAgree(clazz: KClass, types: seq<KType>)
      requires Valid()
      requires (clazz, types) in parametrizedSerializersCache.entries
      requires (clazz, types) in parametrizedSerializersCacheNullable.entries
      ensures parametrizedSerializersCacheNullable.entries[(clazz, types)].Failure? <==>
              parametrizedSerializersCache.entries[(clazz, types)].Failure?
      ensures parametrizedSerializersCache.entries[(clazz, types)].Success? ==>
              parametrizedSerializersCacheNullable.entries[(clazz, types)].value ==
              NullableOrNull(refl, parametrizedSerializersCache.entries[(clazz, types)].value)
    {
      NullableWrapsParametrizedEntry(refl, clazz, types);
    }
  }
}
