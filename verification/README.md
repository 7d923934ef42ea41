# kotlinx.serialization: hex codec and serializer caches

This project models two parts of kotlinx.serialization in Dafny.

- **The runtime's hex codec, `InternalHexConverter`.**
  - `parseHexBinary` turns an even-length string of hex digits into signed bytes.
  - `printHexBinary` writes each byte as two hex digits, in upper case or folded to lower case.
  - `toHexString` writes a 32-bit `Int` as trimmed lower-case hex.
  - The deprecated `HexConverter` object forwards to these.
- **The serializer-lookup layer.**
  - It has four memoizing caches: non-null and nullable caches keyed by class, and non-null and nullable caches keyed by a class and its ordered type arguments.
  - Each cache has a lambda that resolves a missing entry.
  - `findCachedSerializer` and `findParametrizedCachedSerializer` choose a cache by `isNullable`.
  - `polymorphicIfInterface` is the fallback for interfaces.

Files and modules:

- `internal_hex_converter.dfy`, module `InternalHexConverter`.
  - Kotlin's `Byte` and `Int` are the newtypes `Byte` (-128..127) and `Int32`.
  - `toByte()` keeps the value modulo 256 as a signed byte.
  - `b.toInt() shr 4 and 0xF` is floor division by 16 followed by a remainder of 16.
  - The `IllegalArgumentException`s that `require` throws are the `Err` cases of a `Result`: `OddLength` and `InvalidHexChars(c0, c1)`.
  - Each of the three operations is a method that keeps the source's loop and its local byte array or string builder. Its `ensures` ties the result to a specification function: `DecodeHex`, `EncodeHex` or `HexString`. Lemmas state what those functions promise.
- `hex_converter.dfy`, module `HexConverter`: the three forwarding members, each restating the internal contract.
- `caching.dfy`, module `Caching`: the memoizing store behind `createCache` and `createParametrizedCache`.
  - `MemoCache` is a class with a map field. Its `Get` stores the computed value on a miss.
  - The ghost field `computations` counts how often the computation ran.
  - `Lookup` and `LookupAll` are the same store transitions written over plain values. Lemmas about them show two things. A run of lookups returns the computed value for every key. Each run also stores exactly one new entry per miss. `MemoCache.Valid` keeps the number of computations equal to the number of stored entries, so no key is computed twice.
- `serializers_cache.dfy`, module `SerializersCache`.
  - Reflection is a `Reflection` value passed in. Its members are `serializerOrNull`, `isInterface`, `.nullable`, `EmptySerializersModule()`, `serializersForParameters` and `parametrizedSerializerOrNull`.
  - The four lambdas are the functions `SerializerForClass`, `NullableSerializerForClass`, `ParametrizedSerializerFor` and `NullableParametrizedSerializerFor`.
  - `SerializerCaches` holds the four stores. Its `Valid` ties each store to its lambda.
  - The two find methods dispatch on `isNullable`.

Three facts about the code shape the model:

- `toHexString` prints through `printHexBinary(arr, true)` (Util.kt:64), so 255 renders as `"ff"`.
- The nullable caches do not read the non-null caches. Their lambdas run the whole resolution again and then apply `.nullable` (SerializersCache.kt:28, :44-48). The model keeps the four stores separate. `SerializerCaches.ClassEntriesAgree` and `SerializerCaches.ParametrizedEntriesAgree` prove that the entries still agree.
- A parametrized lambda that fails on `!!` (SerializersCache.kt:36, :46) yields a `Failure` of the `Result` that `findParametrizedCachedSerializer` returns (SerializersCache.kt:70). The doc comment says a created value is placed in the cache (SerializersCache.kt:63-64), so the store keeps the `Failure` like any other value.

## Model

| member | source | states |
|---|---|---|
| InternalHexConverter.HexToInt | runtime/commonMain/src/kotlinx/serialization/internal/Util.kt:43-48 | the digit's value lies in -1..15, and it is -1 exactly for a character outside `0-9`, `A-F`, `a-f` |
| InternalHexConverter.HexToIntCaseInsensitive | runtime/commonMain/src/kotlinx/serialization/internal/Util.kt:43-48 | upper- and lower-case forms of a character have the same digit value |
| InternalHexConverter.ToByte | runtime/commonMain/src/kotlinx/serialization/internal/Util.kt:36 | `toByte()` gives the signed byte congruent to its argument modulo 256 |
| InternalHexConverter.ParseHexBinary | runtime/commonMain/src/kotlinx/serialization/internal/Util.kt:25-41 | the while loop that fills the byte array two characters at a time returns exactly `DecodeHex(s)`, including the first failing `require` |
| InternalHexConverter.DecodeHexOddLength | runtime/commonMain/src/kotlinx/serialization/internal/Util.kt:26-27 | parsing fails with the odd-length error exactly when the length is odd |
| InternalHexConverter.DecodeHexSucceeds | runtime/commonMain/src/kotlinx/serialization/internal/Util.kt:27-34 | parsing succeeds exactly when the length is even and every character is a hex digit, upper or lower case |
| InternalHexConverter.DecodeHexReportsFirstBadPair | runtime/commonMain/src/kotlinx/serialization/internal/Util.kt:31-34 | an invalid-chars error names the first aligned pair that holds a non-hex character; every earlier pair is valid |
| InternalHexConverter.DecodeHexBytes | runtime/commonMain/src/kotlinx/serialization/internal/Util.kt:28-38 | on success there are `len/2` bytes, and byte `k` is `16*hexToInt(s[2k]) + hexToInt(s[2k+1])` truncated to a signed byte |
| InternalHexConverter.NibblesOfByte | runtime/commonMain/src/kotlinx/serialization/internal/Util.kt:53-54 | the two masked nibbles of a byte recombine to its unsigned value and convert back to the same byte |
| InternalHexConverter.DigitValue | runtime/commonMain/src/kotlinx/serialization/internal/Util.kt:53-56 | the digit printed for a nibble, in either case, is a hex digit that `hexToInt` reads back as that nibble |
| InternalHexConverter.ToLowerCase | runtime/commonMain/src/kotlinx/serialization/internal/Util.kt:56 | lower-casing keeps the length and maps every character through ASCII lower-casing |
| InternalHexConverter.PrintHexBinary | runtime/commonMain/src/kotlinx/serialization/internal/Util.kt:50-57 | the for loop that appends two digits per byte, and the optional lower-casing, give exactly `EncodeHex(data, lowerCase)`; `lowerCase` defaults to `false`, that is, upper case |
| InternalHexConverter.EncodeHexAt | runtime/commonMain/src/kotlinx/serialization/internal/Util.kt:50-56 | the output has length `2*|data|`; character `2k` is the high nibble of byte `k` and `2k+1` the low nibble, upper case unless `lowerCase` |
| InternalHexConverter.RoundTrip | runtime/commonMain/src/kotlinx/serialization/internal/Util.kt:25-57 | parsing what `printHexBinary` printed, in either case, gives back the same bytes |
| InternalHexConverter.TrimStart | runtime/commonMain/src/kotlinx/serialization/internal/Util.kt:64 | `trimStart(c)` returns a suffix that does not start with `c`, and everything it dropped is `c` |
| InternalHexConverter.ToHexString | runtime/commonMain/src/kotlinx/serialization/internal/Util.kt:59-65 | filling the four-byte array with `n shr (24 - 8i)`, printing it in lower case, trimming zeros and falling back to `"0"` gives exactly `HexString(n)` |
| InternalHexConverter.WordBytesValue | runtime/commonMain/src/kotlinx/serialization/internal/Util.kt:60-63 | the four bytes, read big-endian as unsigned, denote `n` modulo 2^32 |
| InternalHexConverter.HexValueOfEncoding | runtime/commonMain/src/kotlinx/serialization/internal/Util.kt:50-56 | the printed digits, read as a hex number, denote the bytes read big-endian as unsigned |
| InternalHexConverter.HexValueTrimStart | runtime/commonMain/src/kotlinx/serialization/internal/Util.kt:64 | trimming leading zeros does not change the number a hex string denotes |
| InternalHexConverter.HexStringSpec | runtime/commonMain/src/kotlinx/serialization/internal/Util.kt:59-65 | the result is `"0"` exactly for zero; otherwise it has 1..8 lower-case hex digits, no leading zero, and reads as `n` modulo 2^32 |
| InternalHexConverter.HexString255 | runtime/commonMain/src/kotlinx/serialization/internal/Util.kt:59-65 | 255 renders as `"ff"` |
| InternalHexConverter.ParseCborDuplicateKeysVector | formats/cbor/commonTest/src/kotlinx/serialization/cbor/CborStrictModeTest.kt:15 | `"A2617805617806"` parses to the seven bytes A2 61 78 05 61 78 06, with A2 as the signed byte -94 |
| HexConverter.ParseHexBinary | runtime/commonMain/src/kotlinx/serialization/internal/Util.kt:76 | returns what `InternalHexConverter.parseHexBinary` returns: success exactly for an even-length all-hex input, with `len/2` bytes |
| HexConverter.PrintHexBinary | runtime/commonMain/src/kotlinx/serialization/internal/Util.kt:77 | with the same default `lowerCase = false`, returns what `InternalHexConverter.printHexBinary` returns, with twice as many characters as bytes, which parse back to the same bytes |
| HexConverter.ToHexString | runtime/commonMain/src/kotlinx/serialization/internal/Util.kt:78 | returns what `InternalHexConverter.toHexString` returns: `"0"` exactly for zero, 1..8 digits, denoting `n` modulo 2^32 |
| Caching.Lookup | core/commonMain/src/kotlinx/serialization/SerializersCache.kt:51-52 | a lookup stores its key and keeps every existing entry; a hit leaves the store unchanged; on a consistent store it returns the computed value and leaves the store consistent |
| Caching.MemoCache.Get | core/commonMain/src/kotlinx/serialization/SerializersCache.kt:51-52 | returns the computed value for the key; a miss computes once and stores the value; a hit leaves the store and the count of computations unchanged; the count of computations stays equal to the number of stored entries |
| Caching.MemoCache.constructor | core/commonMain/src/kotlinx/serialization/SerializersCache.kt:22-48 | a cache starts empty, consistent, over the given computation |
| Caching.LookupAllTransparent | core/commonMain/src/kotlinx/serialization/SerializersCache.kt:51-52 | any run of lookups returns the computed value for every key, keeps old entries and ends holding exactly the old keys plus the keys asked for |
| Caching.MissesCountNewKeys | core/commonMain/src/kotlinx/serialization/SerializersCache.kt:63-64 | the number of misses in a run of lookups is the number of its distinct keys that were not yet stored |
| Caching.LookupAllMisses | core/commonMain/src/kotlinx/serialization/SerializersCache.kt:51-52 | a run of lookups grows the store by exactly its number of misses, which is one entry per distinct key not yet stored |
| Caching.LookupAllSnoc | core/commonMain/src/kotlinx/serialization/SerializersCache.kt:51-52 | one more lookup after a run leaves the state of the run extended by that key, and adds one miss exactly when the key was not yet stored; this is the step `MemoCache.Get` takes, so successive `Get` calls follow `LookupAll` and compute `Misses` times |
| Caching.SecondLookupHits | core/commonMain/src/kotlinx/serialization/SerializersCache.kt:51-52 | looking up a key a second time returns the first value and changes nothing |
| SerializersCache.PolymorphicIfInterface | core/commonMain/src/kotlinx/serialization/SerializersCache.kt:79-80 | a serializer is returned exactly for an interface, and it is the polymorphic serializer of that class |
| SerializersCache.SerializerForClass | core/commonMain/src/kotlinx/serialization/SerializersCache.kt:22 | the class's own serializer if reflection finds one, else the polymorphic serializer for an interface; absent exactly when neither applies |
| SerializersCache.NullableSerializerForClass | core/commonMain/src/kotlinx/serialization/SerializersCache.kt:28 | absent exactly when the non-null resolution is absent; otherwise `.nullable` of the direct or polymorphic serializer |
| SerializersCache.NullableOrNull | core/commonMain/src/kotlinx/serialization/SerializersCache.kt:28 | `?.nullable` keeps absent as absent and wraps a present serializer |
| SerializersCache.ArgumentSerializers | core/commonMain/src/kotlinx/serialization/SerializersCache.kt:35-36 | the argument serializers come from the empty module in strict mode; the `!!` fails exactly when they cannot be resolved |
| SerializersCache.ParametrizedSerializerFor | core/commonMain/src/kotlinx/serialization/SerializersCache.kt:34-38 | fails exactly when an argument cannot be resolved; otherwise builds from the argument serializers, the empty module's `allowDuplicateKeys` and the first argument's classifier |
| SerializersCache.NullableParametrizedSerializerFor | core/commonMain/src/kotlinx/serialization/SerializersCache.kt:44-48 | fails exactly when an argument cannot be resolved; otherwise the same construction wrapped by `?.nullable` |
| SerializersCache.NullableWrapsClassEntry | core/commonMain/src/kotlinx/serialization/SerializersCache.kt:22-28 | the nullable class resolution is the non-null one wrapped by `?.nullable` |
| SerializersCache.NullableWrapsParametrizedEntry | core/commonMain/src/kotlinx/serialization/SerializersCache.kt:34-48 | the nullable parametrized resolution fails together with the non-null one and otherwise wraps it |
| SerializersCache.SerializerCaches.constructor | core/commonMain/src/kotlinx/serialization/SerializersCache.kt:22-48 | the four caches are new objects and start empty, each over its own lambda |
| SerializersCache.SerializerCaches.FindCachedSerializer | core/commonMain/src/kotlinx/serialization/SerializersCache.kt:54-60 | returns the nullable resolution through the nullable cache when `isNullable`, and the non-null resolution through the non-null cache otherwise; only the chosen cache changes, it now holds the result, and it computes only on a miss |
| SerializersCache.SerializerCaches.FindParametrizedCachedSerializer | core/commonMain/src/kotlinx/serialization/SerializersCache.kt:66-77 | the same dispatch over the two parametrized caches, keyed by class and ordered type arguments, returning the `Result` |
| SerializersCache.SerializerCaches.ClassEntriesAgree | core/commonMain/src/kotlinx/serialization/SerializersCache.kt:22-28 | a class stored in both class caches has a nullable entry equal to its non-null entry wrapped by `?.nullable` |
| SerializersCache.SerializerCaches.ParametrizedEntriesAgree | core/commonMain/src/kotlinx/serialization/SerializersCache.kt:34-48 | a key stored in both parametrized caches has entries that fail together and otherwise agree up to `?.nullable` |

## Left out

- `InputStream.readExactNBytes` (Util.kt:11-20) is left out: it is stream I/O over a `kotlinx.io` API that is not part of this model.
- `SerialDescriptor.cachedSerialNames` (Util.kt:81-88) is left out: it depends on descriptor types that are not part of this model.
- The CBOR decoder and its rejection of duplicate map keys are not part of this model. Only the hex input of its test is modelled, by `InternalHexConverter.ParseCborDuplicateKeysVector`.
- Reflection is a parameter, not a definition. The `Reflection` value supplies `serializerOrNull`, `isInterface`, `.nullable`, `EmptySerializersModule()`, `serializersForParameters` and `parametrizedSerializerOrNull`. Serializers are told apart only by these functions' results.
- `EmptySerializersModule()` is called on every parametrized miss. The model treats it as one fixed module value, because the call takes no arguments.
- Exceptions thrown inside reflection are left out. `serializersForParameters` signals an unresolved argument with `None`, which the `!!` turns into the model's only `Failure`.
- `KType` is the model's own datatype. Its `classifier` is an `Option<KClassifier>`: a class, a type parameter, or `None` for a type that cannot be denoted. `FirstClassifier` reads it. Other members of `KType` are not modelled.
- SerializersCache.FirstClassifier: the hint `{ types[0].classifier }` is a lazy thunk in the source. The model passes its value, with no classifier when `types` is empty. So the `IndexOutOfBoundsException` that evaluating the thunk on empty `types` would throw is not modelled.
- `@ThreadLocal` confinement and any concurrency are left out. The model is a single execution context whose caches are passed around explicitly as a `SerializerCaches` object.
- The internals of `createCache` and `createParametrizedCache` are not part of this model, including any eviction. `MemoCache` keeps every entry.
- The unchecked `cast()` calls are identity functions in the model, because it has no generic serializer types.
- InternalHexConverter.ParseHexBinary: a Dafny `string` is a sequence of Unicode scalar values, while Kotlin's `s.length` and `s[i]` (Util.kt:26, :32-34) count UTF-16 code units. On input outside the Basic Multilingual Plane the error kind can therefore differ. The source reports `"😀"` as invalid hex chars and `"😀0"` as odd length; the model does the reverse. Lone surrogates cannot be written as model input at all. Hex digits are ASCII, so success and the bytes produced are unaffected.
- InternalHexConverter.DecodeHexOddLength: "odd length" counts Unicode scalar values, not UTF-16 code units, for the reason given for `ParseHexBinary`.
- Object identity (`===`) of serializers is not modelled. In the source, a hit returns the same instance that the miss created, for example the same `PolymorphicSerializer(clazz)`. The model compares serializers by value, and the ghost counter `MemoCache.computations` stands in for "created only once".
- `ByteArray` parameters and results are `seq<Byte>` at the method boundary. Inside, `ParseHexBinary` and `ToHexString` fill an array, as the source does.
- `toLowerCase` is locale-dependent in the source. Only `0-9` and `A-F` reach it, so the model maps ASCII `A-Z` to `a-z`.
- The unused private `hexCode` constant of `HexConverter` (Util.kt:75) is left out.
