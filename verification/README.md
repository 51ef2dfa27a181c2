# Handlebars.Net path segments and reflective member access, in Dafny

This project models two pieces of the value-access layer of Handlebars.Net:

- **`ChainSegment`** is one dot-separated component of a template path such as `user.address.city` or `@index`. Its private constructor normalises the raw text:
  - every leading `@` is removed;
  - one outer `[`…`]` pair is stripped;
  - the result is lower-cased;
  - `IsThis`, `IsVariable` and `IsValue` are classified;
  - the well-known-variable kind is resolved.

  Segments compare equal, and hash, by `(IsThis, LowerInvariant)` alone. They are interned in a registry keyed by the exact raw text. `Index`, `First`, `Last`, `Value`, `Key`, `Root` and `Parent` are pre-registered under their bare and `@` keys, and `This` under its bare key only.
- **`ReflectionMemberAccessor`** resolves a segment against a host type:
  - a global table maps each type to a per-type table;
  - the per-type table maps each segment to a getter, or to a cached "not found";
  - a getter is selected from the type's public instance members;
  - a property delegate, once made, is shared through a global cache keyed by member identity;
  - on a direct miss, alias providers are tried in order;
  - two disposers clear the caches.

Modules:

| file | module | models |
|---|---|---|
| `options.dfy` | `Options` | `Option`, standing for a nullable reference |
| `text.dfy` | `Text` | `ToLowerInvariant`, `OrdinalIgnoreCase` comparison, `TrimStart` with a one-character trim set |
| `segments.dfy` | `Segments` | `ChainSegment`: the constructor, equality and hash, the interning registry, the well-known variables |
| `member_accessors.dfy` | `MemberAccessors` | `ReflectionMemberAccessor`, `MemberAccessor`, `RawObjectTypeDescriptor` |

The lock-free tables (`LookupSlim`, `DeferredValue`, `GcDeferredValue`) become plain maps. Every operation takes the current map and returns the new one.

Reflection is a parameter `reflect: TypeId -> TypeMembers`. It gives the public instance properties, with their index-parameter counts, and the public instance fields, in enumeration order. Reading a member of an instance is a parameter `read: (MemberId, Obj) -> Obj`. An alias provider is a function returning `Option<Obj>`.

The caches carry a counter `selections`, the number of times `GetValueGetter` has run. It stands in for an instrumented reflection facility, so "runs at most once per pair" can be stated.

Three behaviours of the code are easy to misread. The model follows the code in each:
- `TrimStart(new[] {'@'})` removes every leading `@`, not only the first: `@@foo` displays as `foo`.
- The registry is keyed by the exact (ordinal) raw text, not by segment equality. `Foo`, `[Foo]` and `@Foo` are three registry entries, though they compare equal. Likewise `@index` is not a pre-registered key, so it is interned with no well-known kind, although it compares equal to the registered `@Index` (`Segments.LowercaseIndexHasNoKind`).
- The documentation comment on `IsThis` (ChainSegment.cs line 112) says a segment is `this` or `.`. The constructor (line 88) sets `IsThis` only for null, empty or `this` text, so `.` is an ordinary segment (`Segments.DotIsNotThis`).

Two further consequences follow from the code:
- Converting a segment to its text and back gives an equal segment, except for a variable whose text is empty or `this` (`Segments.DisplayRoundTrip`). `@` comes back as `this`, and `@this` comes back as `IsThis`.
- `Create(object)` with a null argument throws, because it calls `value.ToString()`. The model returns `None` for that case.

## Model

| member | source | states |
|---|---|---|
| `Text.TrimStart` | source/Handlebars/Compiler/Structure/Path/ChainSegment.cs:84 | The result is a suffix of the input. Every removed character is `@`, and the result does not start with `@`: the whole leading run is removed. |
| `Text.EqualsIgnoreCaseIffLowerEqual` | source/Handlebars/Compiler/Structure/Path/ChainSegment.cs:88 | Ordinal case-insensitive comparison holds iff the lower-cased forms are equal. |
| `Segments.TrimSquareBrackets` | source/Handlebars/Compiler/Structure/Path/ChainSegment.cs:179-188 | When the key starts with `[` and ends with `]`, the key is `[` + result + `]`. Otherwise the key is returned unchanged. |
| `Segments.SingleBracketLayer` | source/Handlebars/Compiler/Structure/Path/ChainSegment.cs:181-185 | Exactly one layer is removed: `[x]` gives `x`, and `[[x]]` gives `[x]`, not `x`. |
| `Segments.BracketEdgeCases` | source/Handlebars/Compiler/Structure/Path/ChainSegment.cs:182-187 | `[]` gives the empty text. A `[` with no closing `]` is left as it is. |
| `Segments.Normalize` | source/Handlebars/Compiler/Structure/Path/ChainSegment.cs:79-99 | Null or empty text displays as `this` and is `IsThis`, not `IsVariable`. Otherwise it displays as the text with its leading `@` run removed. `IsThis` holds iff the original text is empty or equals `this` ignoring case. `IsVariable` holds iff the original text starts with `@`. The kind is `Value` if `IsValue`, else `This` if `IsThis`, else the supplied kind. |
| `Segments.NormalizeFields` | source/Handlebars/Compiler/Structure/Path/ChainSegment.cs:85-93 | One bracket layer is trimmed from the displayed text. The lower-case form is the lower-cased trimmed text. `IsValue` holds iff the lower-case form is `value`. `IsThis` forces the lower-case form `this`, so `IsThis` and `IsValue` never both hold. |
| `Segments.NullIsEmpty` | source/Handlebars/Compiler/Structure/Path/ChainSegment.cs:83-84 | Null and empty text build the same segment, whose kind is `This`. |
| `Segments.KindFixpoint` | source/Handlebars/Compiler/Structure/Path/ChainSegment.cs:81-98 | Rebuilding a segment with its own resolved kind gives the same segment: the overrides are idempotent. |
| `Segments.VariablePrefix` | source/Handlebars/Compiler/Structure/Path/ChainSegment.cs:84-89 | Text starting with `@` is a variable and is never `this`. It displays as the rest of the text with its leading `@` run removed. |
| `Segments.AtThisIsNotThis` | source/Handlebars/Compiler/Structure/Path/ChainSegment.cs:84-98 | `@this`, in any case, is a variable with lower-case form `this`. It is not `IsThis` and keeps the supplied kind, because `IsThis` looks at the original text. |
| `Segments.ThisEquivalence` | source/Handlebars/Compiler/Structure/Path/ChainSegment.cs:83-97 | Empty text and `this` in any case are `IsThis`, have kind `This`, and equal the segment built from null. |
| `Segments.EqualsImpl` | source/Handlebars/Compiler/Structure/Path/ChainSegment.cs:143-149 | The hash comparison never decides the outcome: the result is true iff `IsThis` and `LowerInvariant` agree. |
| `Segments.SegmentEquals` | source/Handlebars/Compiler/Structure/Path/ChainSegment.cs:127-131 | A null argument is never equal. Otherwise, including the identity shortcut, the result is true iff `IsThis` and `LowerInvariant` agree. |
| `Segments.HashOfCases` | source/Handlebars/Compiler/Structure/Path/ChainSegment.cs:152-162 | `IsThis` hashes to 1 or 0, so after the `* 397` step the string hash is kept when `IsThis` is false and xor-ed with 397 when it is true. The two cases never collide. |
| `Segments.EqualityContract` | source/Handlebars/Compiler/Structure/Path/ChainSegment.cs:127-162 | Equality holds iff `(IsThis, LowerInvariant)` agree, and never with null. It is reflexive, symmetric and transitive, and equal segments have equal hash codes. |
| `Segments.SigilAndBracketsAreTransparent` | source/Handlebars/Compiler/Structure/Path/ChainSegment.cs:84-91 | For plain text `x` that is not `this`, the texts `@x` and `[x]` have the same equality key and hash code as `x`. `@x` is a variable where `x` is not, and `[x]` displays differently from `x`. |
| `Segments.FooExample` | source/Handlebars/Compiler/Structure/Path/ChainSegment.cs:144-149 | `Foo` equals `[Foo]` and equals `@Foo`, and its lower-case form is `foo`. |
| `Segments.CaseVariantsAreEqual` | source/Handlebars/Compiler/Structure/Path/ChainSegment.cs:84-91 | Texts that are equal ignoring case build equal segments, whatever kinds were supplied. |
| `Segments.GetOrAdd` | source/Handlebars/Compiler/Structure/Path/ChainSegment.cs:31-36 | The key is present afterwards and maps to the returned segment. Existing entries are unchanged and only the key is added. A fresh key gets the constructor's segment for the supplied kind. |
| `Segments.GetOrAddConsistent` | source/Handlebars/Compiler/Structure/Path/ChainSegment.cs:33-36 | Interning keeps every registry entry equal to the constructor's segment for its own key. |
| `Segments.Create` | source/Handlebars/Compiler/Structure/Path/ChainSegment.cs:40-41 | `Create` returns the instance registered under the exact text, or else the constructor's segment with no supplied kind. Afterwards the text maps to the result, only that key is added, and no existing entry changes. A consistent registry stays consistent. |
| `Segments.CreateInterns` | source/Handlebars/Compiler/Structure/Path/ChainSegment.cs:40-41 | A second `Create` with the same text returns the identical segment and leaves the registry unchanged. |
| `Segments.CreateFromObject` | source/Handlebars/Compiler/Structure/Path/ChainSegment.cs:43-48 | A null argument fails. An existing segment is returned unchanged, with the registry untouched. A string, or another object's `ToString()` text, is interned: afterwards it maps to the result, only that key is added, and every existing entry keeps its value. A registered text returns its entry with the registry unchanged, and a fresh one gets the constructor's segment with no supplied kind. |
| `Segments.CreateFromObjectIdempotent` | source/Handlebars/Compiler/Structure/Path/ChainSegment.cs:43-48 | Handing an interned segment back to `Create(object)` returns it with the registry unchanged. Passing the same string or object again does the same. |
| `Segments.CreatedEqualsIffSameKey` | source/Handlebars/Compiler/Structure/Path/ChainSegment.cs:41 | Two interned segments are equal iff their texts normalise to the same `(IsThis, LowerInvariant)`, even under different registry keys. |
| `Segments.DisplayOfCreate` | source/Handlebars/Compiler/Structure/Path/ChainSegment.cs:124 | `ToString` of an interned segment is `this` for empty text, and otherwise the text with its leading `@` run removed. |
| `Segments.DisplayRoundTrip` | source/Handlebars/Compiler/Structure/Path/ChainSegment.cs:170-177 | Converting a segment to its text and back gives an equal segment, except exactly when the segment is a variable whose text is empty or `this` up to case. |
| `Segments.DotIsNotThis` | source/Handlebars/Compiler/Structure/Path/ChainSegment.cs:88-113 | `.` is not `IsThis`, despite the documentation comment. Its lower-case form is `.` and it keeps the supplied kind. |
| `Segments.CreateWellKnown` | source/Handlebars/Compiler/Structure/Path/ChainSegment.cs:50-59 | The bare key maps to the returned segment. Exactly the bare key, plus the `@` key when requested, is added, and no existing entry changes. A bare or `@` key that was not registered before gets the constructor's segment built with the supplied kind. |
| `Segments.CreateWellKnownConsistent` | source/Handlebars/Compiler/Structure/Path/ChainSegment.cs:50-59 | One registration keeps a consistent registry consistent. |
| `Segments.RegisterAll` | source/Handlebars/Compiler/Structure/Path/ChainSegment.cs:61-68 | Registering a table adds exactly the table's keys and never changes an existing entry. |
| `Segments.RegisterAllConsistent` | source/Handlebars/Compiler/Structure/Path/ChainSegment.cs:61-68 | Registering a table keeps a consistent registry consistent. |
| `Segments.InitialRegistryConsistent` | source/Handlebars/Compiler/Structure/Path/ChainSegment.cs:61-68 | After static initialisation every entry is the constructor's segment for its own key. |
| `Segments.InitialRegistryKeys` | source/Handlebars/Compiler/Structure/Path/ChainSegment.cs:61-68 | After static initialisation the registry holds exactly the bare names and the seven `@` keys. |
| `Segments.RegisterAllEntry` | source/Handlebars/Compiler/Structure/Path/ChainSegment.cs:61-68 | Given a table with distinct names, none empty or starting with `@`, and a registry that holds none of the table's bare or `@` keys: each entry's bare key holds the constructor's segment for the entry's kind, and so does its `@` key when the entry requests one. A key that was already registered keeps its old entry, so the precondition is needed. |
| `Segments.RegisteredKind` | source/Handlebars/Compiler/Structure/Path/ChainSegment.cs:81-98 | For a non-empty, unbracketed name not starting with `@`, whose kind is `Value` exactly when the name lower-cases to `value` and `This` exactly when it equals `this` ignoring case: the constructor keeps that kind under the bare key, and under the `@` key unless the kind is `This`. Without these conditions the override at line 98 can change the kind, as in `Create("value", Index, true)`. |
| `Segments.WellKnownRegistered` | source/Handlebars/Compiler/Structure/Path/ChainSegment.cs:61-68 | After static initialisation, each well-known name maps to its kind under the bare key and, except `This`, under the `@` key. `@This` is not registered. |
| `Segments.UnregisteredCaseVariant` | source/Handlebars/Compiler/Structure/Path/ChainSegment.cs:31-41 | An unregistered case variant of a registered key is interned with no supplied kind, yet equals the registered segment. |
| `Segments.AtKeyNotRegistered` | source/Handlebars/Compiler/Structure/Path/ChainSegment.cs:55-68 | Among the static registrations, `@` keys exist only for names whose initial is one of `I F L V K R P`. An `@` key with any other second character, such as `@This` or `@index`, is not pre-registered. |
| `Segments.LowercaseIndexHasNoKind` | source/Handlebars/Compiler/Structure/Path/ChainSegment.cs:55-61 | In a registry holding the initial keys, `@index` is interned with no well-known kind, although it equals the registered `@Index`. |
| `MemberAccessors.FindFirst` | source/Handlebars/MemberAccessors/ReflectionMemberAccessor.cs:97-100 | `FirstOrDefault` finds the index of an element satisfying the predicate with none before it. It returns none only if no element satisfies it. |
| `MemberAccessors.SelectMember` | source/Handlebars/MemberAccessors/ReflectionMemberAccessor.cs:95-121 | Selection picks the first property with no index parameters whose name matches ignoring case. Fields are searched only when no property matches, and the first matching field is taken. Otherwise nothing is selected. |
| `MemberAccessors.GetValueGetter` | source/Handlebars/MemberAccessors/ReflectionMemberAccessor.cs:95-122 | The getter reads the selected member, or is null when none is selected. A property's getter comes from the global delegate cache under the member's identity: it is reused if present and created otherwise. Existing delegates are unchanged. A field or no match leaves the delegate cache as it was; a property whose delegate is present gets that delegate back with the cache unchanged; a property whose delegate is absent adds exactly one delegate, bound to the requesting type. |
| `MemberAccessors.GetOrCreateAccessor` | source/Handlebars/MemberAccessors/ReflectionMemberAccessor.cs:47-93 | A cached entry, including "not found", is returned with the caches unchanged. Otherwise the selection runs once, and the stored and returned getter reads the member a fresh selection picks, or is null when there is none. Tables of other types are unchanged. On that miss a field or no match leaves the delegate cache unchanged. A selected property whose delegate is cached gets that shared delegate with the cache unchanged. A selected property whose delegate is absent adds exactly that delegate, bound to the requesting type. |
| `MemberAccessors.DirectTryGetValue` | source/Handlebars/MemberAccessors/ReflectionMemberAccessor.cs:45-55 | Found holds iff the cached getter is non-null. The value is that getter applied to the instance, or null. For an uncached pair the answer equals a fresh reflective search; for a cached pair the caches are unchanged. |
| `MemberAccessors.FirstAlias` | source/Handlebars/MemberAccessors/ReflectionMemberAccessor.cs:25-29 | Gives the index and value of the first provider reporting success, with every earlier provider failing. It gives none only if every provider fails. |
| `MemberAccessors.TryGetValue` | source/Handlebars/MemberAccessors/ReflectionMemberAccessor.cs:21-33 | A direct hit returns its value and consults no provider. On a miss, the first successful provider decides the result and later ones are not consulted. If all fail, the result is false with a null value. |
| `MemberAccessors.ClearTypes` | source/Handlebars/MemberAccessors/ReflectionMemberAccessor.cs:57-63 | The type cache is empty afterwards, and the delegate cache is unchanged. |
| `MemberAccessors.ClearDelegates` | source/Handlebars/MemberAccessors/ReflectionMemberAccessor.cs:130-133 | The delegate cache is empty afterwards, and the type tables are unchanged. |
| `MemberAccessors.DirectMatchesReference` | source/Handlebars/MemberAccessors/ReflectionMemberAccessor.cs:45-54 | From coherent caches, a lookup answers what a fresh reflective search answers, and the caches stay coherent. |
| `MemberAccessors.RepeatedLookupIsMemoised` | source/Handlebars/MemberAccessors/ReflectionMemberAccessor.cs:88-93 | Repeating a lookup gives an identical result and identical caches. Selection runs at most once, and only when the pair was not cached. |
| `MemberAccessors.CachedPairNeverReselects` | source/Handlebars/MemberAccessors/ReflectionMemberAccessor.cs:88-92 | Once a pair is cached, a lookup with any instance leaves the caches unchanged. It reports found iff the cached getter is non-null. |
| `MemberAccessors.EqualSegmentsShareEntry` | source/Handlebars/MemberAccessors/ReflectionMemberAccessor.cs:81-82 | Segments that compare equal share one per-type entry and resolve identically. |
| `MemberAccessors.ClearKeepsAnswers` | source/Handlebars/MemberAccessors/ReflectionMemberAccessor.cs:57-63 | Clearing the type cache, the delegate cache (`Delegates.Clear()` at line 132), or both, keeps the caches coherent and changes no lookup's answer. |
| `MemberAccessors.ClearForcesReselection` | source/Handlebars/MemberAccessors/ReflectionMemberAccessor.cs:59-61 | After the type cache is cleared, the next lookup runs the selection again. |
| `MemberAccessors.PropertyDelegateShared` | source/Handlebars/MemberAccessors/ReflectionMemberAccessor.cs:104-110 | The first type to select a property gets a delegate made for it. A second type selecting the same property receives that same delegate. |

## Left out

- Thread safety of `LookupSlim`, `DeferredValue` and `GcDeferredValue`. The tables are sequential maps with get-or-create, and creation races are not modelled.
- The weak lifetime of `GcDeferredValue`. After a collection the source may rebuild an equal segment instead of returning the identical one; the model's registry entries are never collected.
- The .NET string hash, which is randomised per process. `StringHash` is a deterministic stand-in. Only agreement of the hash with equality is relied on; the combining step `(IsThis.GetHashCode() * 397) ^ hash` is modelled with 32-bit wrap-around.
- Case mapping outside ASCII. `ToLowerInvariant` and `OrdinalIgnoreCase` are modelled on ASCII letters. Culture-sensitive `StartsWith`/`EndsWith` is modelled as ordinal.
- `Create(string)` with a null string. The registry's treatment of a null key is not part of this model. The constructor's handling of null is modelled (`Segments.NullIsEmpty`).
- `Equals(object)` with a non-segment argument, and the `==`/`!=` operators. These only wrap `Equals`.
- Reflection and delegate synthesis. This covers `GetProperties`/`GetFields` enumeration order (an input here), `MakeGenericMethod`, `CreateDelegate`, `field.GetValue`, and the cast to the bound type, together with the binding exceptions they can raise.
- The `Handlebars.Disposables` registration of the disposers. Clearing is an explicit operation.
- `Segments.LowercaseIndexHasNoKind` is stated for any consistent registry holding exactly the initial keys, with `@Index` of kind `Index`, rather than for `InitialRegistry()` itself. The initial registry meets those conditions by `InitialRegistryConsistent`, `InitialRegistryKeys` and `WellKnownRegistered`. Stating it about the literal registry makes the solver unfold every registration.
- `ObjectDescriptor`, a record of delegates plus a wrapper over a provider outside this core, and the benchmark program. Neither has behaviour to state here.
