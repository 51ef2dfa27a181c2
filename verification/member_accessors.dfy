/**
  Member resolution by reflection (`ReflectionMemberAccessor`): a per-type
  table of getters keyed by segment, filled at most once per (type,
  segment) pair including "not found", a global property-delegate cache
  keyed by member identity, an ordered alias-provider fallback, and the two
  explicit clears. Reflection is an injected function from a type to its
  public instance properties and fields; the host runtime's member read is
  an injected function too. The lock-free tables are sequential maps
  threaded through every call.
*/
module MemberAccessors {
  import opened Options
  import opened Text
  import opened Segments

  /** Identity of a host type. */
  type TypeId = nat

  /** Identity of a reflected member (`MemberInfo`). */
  type MemberId = nat

  /** A public instance property and the number of its index parameters. */
  datatype PropertyInfo = PropertyInfo(id: MemberId, name: string, indexParameters: nat)

  /** A public instance field. */
  datatype FieldInfo = FieldInfo(id: MemberId, name: string)

  /** What `GetProperties` and `GetFields` report for a type, in enumeration order. */
  datatype TypeMembers = TypeMembers(properties: seq<PropertyInfo>, fields: seq<FieldInfo>)

  /** Host values; `Null` is the C# null. */
  datatype Obj = Null | Ref(id: nat)

  /**
    A getter delegate: a compiled property getter, made for the type that
    first asked for that property, or a field reader.
  */
  datatype Getter = PropertyGetter(member: MemberId, boundType: TypeId) | FieldGetter(member: MemberId)

  /** The host runtime's read of a member from an instance. */
  type Reader = (MemberId, Obj) -> Obj

  /** Reflection: the members of every type. */
  type Reflection = TypeId -> TypeMembers

  /** An alias provider: `TryGetMemberByAlias`, `None` when it reports false. */
  type AliasProvider = (Obj, TypeId, ChainSegment) -> Option<Obj>

  /** Invoking a getter reads its member from the instance. */
  function Invoke(g: Getter, read: Reader, instance: Obj): Obj {
    read(g.member, instance)
  }

  // ---------------------------------------------------------------------
  // Getter selection (`GetValueGetter`)
  // ---------------------------------------------------------------------

  /** `FirstOrDefault`: the index of the first element satisfying `p`, if any. */
  function FindFirst<T>(s: seq<T>, p: T -> bool): (r: Option<nat>)
    ensures r.Some? ==> r.value < |s| && p(s[r.value])
    ensures r.Some? ==> forall j :: 0 <= j < r.value ==> !p(s[j])
    ensures r.None? ==> forall j :: 0 <= j < |s| ==> !p(s[j])
    decreases |s|
  {
    if |s| == 0 then None
    else if p(s[0]) then Some(0)
    else match FindFirst(s[1..], p)
      case None => None
      case Some(i) => Some(i + 1)
  }

  /** A property is a candidate when it takes no index and its name matches, ignoring case. */
  predicate PropertyMatches(p: PropertyInfo, lower: string) {
    p.indexParameters == 0 && EqualsIgnoreCase(p.name, lower)
  }

  /** A field is a candidate when its name matches, ignoring case. */
  predicate FieldMatches(f: FieldInfo, lower: string) {
    EqualsIgnoreCase(f.name, lower)
  }

  /** The outcome of the reflective search: a property, a field (by position) or nothing. */
  datatype Selection = SelectedProperty(at: nat) | SelectedField(at: nat) | NoMember

  /**
    The first matching property; only when no property matches, the first
    matching field; otherwise nothing.
  */
  function SelectMember(members: TypeMembers, lower: string): (r: Selection)
    ensures r.SelectedProperty? ==>
              && r.at < |members.properties|
              && PropertyMatches(members.properties[r.at], lower)
              && (forall j :: 0 <= j < r.at ==> !PropertyMatches(members.properties[j], lower))
    ensures !r.SelectedProperty? ==>
              forall j :: 0 <= j < |members.properties| ==> !PropertyMatches(members.properties[j], lower)
    ensures r.SelectedField? ==>
              && r.at < |members.fields|
              && FieldMatches(members.fields[r.at], lower)
              && (forall j :: 0 <= j < r.at ==> !FieldMatches(members.fields[j], lower))
    ensures r.NoMember? ==>
              forall j :: 0 <= j < |members.fields| ==> !FieldMatches(members.fields[j], lower)
  {
    match FindFirst(members.properties, p => PropertyMatches(p, lower))
    case Some(i) => SelectedProperty(i)
    case None =>
      match FindFirst(members.fields, f => FieldMatches(f, lower))
      case Some(i) => SelectedField(i)
      case None => NoMember
  }

  /** The member a selection designates. */
  function SelectedId(members: TypeMembers, lower: string): Option<MemberId> {
    match SelectMember(members, lower)
    case SelectedProperty(i) => Some(members.properties[i].id)
    case SelectedField(i) => Some(members.fields[i].id)
    case NoMember => None
  }

  /** The member a cached getter reads, `None` for a cached "not found". */
  function GetterMember(g: Option<Getter>): Option<MemberId> {
    match g
    case Some(x) => Some(x.member)
    case None => None
  }

  /** The global property-delegate cache, keyed by member identity. */
  type Delegates = map<MemberId, Getter>

  /** Every cached delegate is a property getter for the member it is filed under. */
  predicate DelegatesKeyed(d: Delegates) {
    forall m :: m in d ==> d[m].PropertyGetter? && d[m].member == m
  }

  /**
    `GetValueGetter(name, type)`: selects the member, and for a property
    takes the delegate from the global cache, creating it for `t` when absent.
  */
  function GetValueGetter(delegates: Delegates, members: TypeMembers, t: TypeId, name: ChainSegment)
    : (r: (Delegates, Option<Getter>))
    requires DelegatesKeyed(delegates)
    ensures DelegatesKeyed(r.0)
    ensures GetterMember(r.1) == SelectedId(members, name.lower)
    ensures SelectMember(members, name.lower).SelectedField? ==> r.1.Some? && r.1.value.FieldGetter?
    ensures SelectMember(members, name.lower).SelectedProperty? ==>
              var id := members.properties[SelectMember(members, name.lower).at].id;
              id in r.0 && r.1 == Some(r.0[id]) && (id in delegates ==> r.0[id] == delegates[id])
    ensures forall m :: m in delegates ==> m in r.0 && r.0[m] == delegates[m]
    ensures r.0.Keys <= delegates.Keys + (if r.1.Some? then {r.1.value.member} else {})
    ensures !SelectMember(members, name.lower).SelectedProperty? ==> r.0 == delegates
    ensures SelectMember(members, name.lower).SelectedProperty? ==>
              var id := members.properties[SelectMember(members, name.lower).at].id;
              id !in delegates ==> r.0 == delegates[id := PropertyGetter(id, t)]
    ensures SelectMember(members, name.lower).SelectedProperty? ==>
              var id := members.properties[SelectMember(members, name.lower).at].id;
              id in delegates ==> r.0 == delegates && r.1 == Some(delegates[id])
  {
    match SelectMember(members, name.lower)
    case SelectedProperty(i) =>
      var id := members.properties[i].id;
      if id in delegates then (delegates, Some(delegates[id]))
      else var g := PropertyGetter(id, t); (delegates[id := g], Some(g))
    case SelectedField(i) => (delegates, Some(FieldGetter(members.fields[i].id)))
    case NoMember => (delegates, None)
  }

  // ---------------------------------------------------------------------
  // The caches and the direct lookup (`MemberAccessor.TryGetValue`)
  // ---------------------------------------------------------------------

  /** A per-type table: segment key to the getter, or `None` for "not found". */
  type AccessorTable = map<SegmentKey, Option<Getter>>

  /**
    All cache state: the type-keyed descriptor tables, the global delegate
    cache, and `selections`, the number of times `GetValueGetter` has run.
  */
  datatype Caches = Caches(types: map<TypeId, AccessorTable>, delegates: Delegates, selections: nat)

  /** Caches as they are before the first lookup. */
  const EmptyCaches := Caches(map[], map[], 0)

  /** True when the getter for `t` and `name` is already cached. */
  predicate Cached(c: Caches, t: TypeId, name: ChainSegment) {
    t in c.types && KeyOf(name) in c.types[t]
  }

  /** The table for `t`, created empty when absent (`Descriptors.GetOrAdd`). */
  function TableFor(c: Caches, t: TypeId): AccessorTable {
    if t in c.types then c.types[t] else map[]
  }

  /**
    `GetOrCreateAccessor`, including fetching or creating the type's table:
    a cached entry is returned as is; otherwise `GetValueGetter` runs once
    and its result, "not found" included, is stored.
  */
  function GetOrCreateAccessor(c: Caches, reflect: Reflection, t: TypeId, name: ChainSegment)
    : (r: (Caches, Option<Getter>))
    requires DelegatesKeyed(c.delegates)
    ensures DelegatesKeyed(r.0.delegates)
    ensures Cached(r.0, t, name) && r.0.types[t][KeyOf(name)] == r.1
    ensures Cached(c, t, name) ==> r == (c, c.types[t][KeyOf(name)])
    ensures !Cached(c, t, name) ==> r.0.selections == c.selections + 1
    ensures !Cached(c, t, name) ==> GetterMember(r.1) == SelectedId(reflect(t), name.lower)
    ensures !Cached(c, t, name) ==> r.0.types[t] == TableFor(c, t)[KeyOf(name) := r.1]
    ensures forall u :: u != t ==> (u in r.0.types <==> u in c.types)
    ensures forall u :: u != t && u in c.types ==> r.0.types[u] == c.types[u]
    ensures forall m :: m in c.delegates ==> m in r.0.delegates && r.0.delegates[m] == c.delegates[m]
    ensures !Cached(c, t, name) && !SelectMember(reflect(t), name.lower).SelectedProperty? ==>
              r.0.delegates == c.delegates
    ensures !Cached(c, t, name) && SelectMember(reflect(t), name.lower).SelectedProperty? ==>
              var id := reflect(t).properties[SelectMember(reflect(t), name.lower).at].id;
              id !in c.delegates ==> r.0.delegates == c.delegates[id := PropertyGetter(id, t)]
    ensures !Cached(c, t, name) && SelectMember(reflect(t), name.lower).SelectedProperty? ==>
              var id := reflect(t).properties[SelectMember(reflect(t), name.lower).at].id;
              id in c.delegates ==> r.0.delegates == c.delegates && r.1 == Some(c.delegates[id])
  {
    if Cached(c, t, name) then (c, c.types[t][KeyOf(name)])
    else
      var table := TableFor(c, t);
      var (delegates, g) := GetValueGetter(c.delegates, reflect(t), t, name);
      (Caches(c.types[t := table[KeyOf(name) := g]], delegates, c.selections + 1), g)
  }

  /** The direct lookup's answer: whether a getter exists, the value it reads (null otherwise), and the new caches. */
  datatype DirectResult = DirectResult(caches: Caches, found: bool, value: Obj)

  /**
    `MemberAccessor.TryGetValue`: found iff the cached getter is non-null;
    the value is the getter applied to the instance. For an uncached pair
    the answer is the one a fresh reflective search gives.
  */
  function DirectTryGetValue(c: Caches, reflect: Reflection, read: Reader, instance: Obj, t: TypeId, name: ChainSegment)
    : (r: DirectResult)
    requires DelegatesKeyed(c.delegates)
    ensures var (c', g) := GetOrCreateAccessor(c, reflect, t, name);
            && r.caches == c'
            && (r.found <==> g.Some?)
            && (g.Some? ==> r.value == Invoke(g.value, read, instance))
            && (g.None? ==> r.value == Null)
    ensures Cached(c, t, name) ==> r.caches == c
    ensures !Cached(c, t, name) ==> (r.found, r.value) == ReferenceLookup(reflect, read, instance, t, name.lower)
  {
    var (c', g) := GetOrCreateAccessor(c, reflect, t, name);
    match g
    case Some(getter) => DirectResult(c', true, Invoke(getter, read, instance))
    case None => DirectResult(c', false, Null)
  }

  // ---------------------------------------------------------------------
  // Alias fallback (`ReflectionMemberAccessor.TryGetValue`)
  // ---------------------------------------------------------------------

  /** The first provider, from `from` on, that reports success: its index and value. */
  function FirstAlias(providers: seq<AliasProvider>, from: nat, instance: Obj, t: TypeId, name: ChainSegment)
    : (r: Option<(nat, Obj)>)
    requires from <= |providers|
    ensures r.Some? ==> from <= r.value.0 < |providers| && providers[r.value.0](instance, t, name) == Some(r.value.1)
    ensures r.Some? ==> forall j :: from <= j < r.value.0 ==> providers[j](instance, t, name).None?
    ensures r.None? ==> forall j :: from <= j < |providers| ==> providers[j](instance, t, name).None?
    decreases |providers| - from
  {
    if from == |providers| then None
    else match providers[from](instance, t, name)
      case Some(v) => Some((from, v))
      case None => FirstAlias(providers, from + 1, instance, t, name)
  }

  /**
    `ReflectionMemberAccessor.TryGetValue`. A direct hit is returned and no
    provider is consulted; otherwise providers are asked in order and the
    first success wins; when all fail the result is false with a null
    value. `consulted` counts the providers asked.
  */
  method TryGetValue(c: Caches, reflect: Reflection, read: Reader, providers: seq<AliasProvider>,
                     instance: Obj, t: TypeId, name: ChainSegment)
    returns (caches: Caches, found: bool, value: Obj, consulted: nat)
    requires DelegatesKeyed(c.delegates)
    ensures var d := DirectTryGetValue(c, reflect, read, instance, t, name);
            && caches == d.caches
            && (d.found ==> found && value == d.value && consulted == 0)
            && (!d.found ==> match FirstAlias(providers, 0, instance, t, name)
                              case Some((i, v)) => found && value == v && consulted == i + 1
                              case None => !found && value == Null && consulted == |providers|)
  {
    var direct := DirectTryGetValue(c, reflect, read, instance, t, name);
    caches := direct.caches;
    if direct.found {
      return caches, true, direct.value, 0;
    }
    var index := 0;
    while index < |providers|
      invariant 0 <= index <= |providers|
      invariant FirstAlias(providers, 0, instance, t, name) == FirstAlias(providers, index, instance, t, name)
    {
      var answer := providers[index](instance, t, name);
      if answer.Some? {
        return caches, true, answer.value, index + 1;
      }
      index := index + 1;
    }
    return caches, false, Null, |providers|;
  }

  // ---------------------------------------------------------------------
  // Clearing (`Disposer.Dispose`)
  // ---------------------------------------------------------------------

  /** `MemberAccessor.Disposer.Dispose`: drops every type's table. */
  function ClearTypes(c: Caches): (r: Caches)
    ensures r.types == map[] && r.delegates == c.delegates && r.selections == c.selections
  {
    c.(types := map[])
  }

  /** `RawObjectTypeDescriptor.Disposer.Dispose`: drops every property delegate. */
  function ClearDelegates(c: Caches): (r: Caches)
    ensures r.delegates == map[] && r.types == c.types && r.selections == c.selections
  {
    c.(delegates := map[])
  }

  // ---------------------------------------------------------------------
  // Cache coherence and memoisation
  // ---------------------------------------------------------------------

  /** The cached entry for `t` and `k`, if any, designates the member a fresh selection would pick. */
  predicate EntryAgrees(c: Caches, reflect: Reflection, t: TypeId, k: SegmentKey) {
    t in c.types && k in c.types[t] ==> GetterMember(c.types[t][k]) == SelectedId(reflect(t), k.lower)
  }

  /** The invariant every reachable cache state keeps. */
  ghost predicate Coherent(c: Caches, reflect: Reflection) {
    && DelegatesKeyed(c.delegates)
    && forall t, k :: EntryAgrees(c, reflect, t, k)
  }

  /** What a lookup means, computed from reflection alone with no cache. */
  function ReferenceLookup(reflect: Reflection, read: Reader, instance: Obj, t: TypeId, lower: string): (bool, Obj) {
    match SelectedId(reflect(t), lower)
    case Some(m) => (true, read(m, instance))
    case None => (false, Null)
  }

  /** The empty caches are coherent. */
  lemma EmptyCachesCoherent(reflect: Reflection)
    ensures Coherent(EmptyCaches, reflect)
  {
  }

  /**
    From coherent caches, the direct lookup answers exactly what a fresh
    reflective search answers, and the caches stay coherent.
  */
  lemma DirectMatchesReference(c: Caches, reflect: Reflection, read: Reader, instance: Obj, t: TypeId, name: ChainSegment)
    requires Coherent(c, reflect)
    ensures var d := DirectTryGetValue(c, reflect, read, instance, t, name);
            && (d.found, d.value) == ReferenceLookup(reflect, read, instance, t, name.lower)
            && Coherent(d.caches, reflect)
  {
    var (c', g) := GetOrCreateAccessor(c, reflect, t, name);
    var k := KeyOf(name);
    assert EntryAgrees(c, reflect, t, k);
    forall u, j
      ensures EntryAgrees(c', reflect, u, j)
    {
      assert EntryAgrees(c, reflect, u, j);
      if u == t && j == k {
      } else if u == t {
        if !Cached(c, t, name) && j in c'.types[t] {
          assert j in TableFor(c, t);
          assert t in c.types;
        }
      }
    }
  }

  /**
    Memoisation: repeating a lookup returns the same answer, leaves the
    caches exactly as the first call left them, and so never runs the
    selection again; the first call runs it at most once.
  */
  lemma RepeatedLookupIsMemoised(c: Caches, reflect: Reflection, read: Reader, instance: Obj, t: TypeId, name: ChainSegment)
    requires DelegatesKeyed(c.delegates)
    ensures var d1 := DirectTryGetValue(c, reflect, read, instance, t, name);
            var d2 := DirectTryGetValue(d1.caches, reflect, read, instance, t, name);
            && d2 == d1
            && d1.caches.selections == c.selections + (if Cached(c, t, name) then 0 else 1)
  {
  }

  /**
    A lookup with another instance reuses the cached getter: once a pair
    is cached, no instance makes the selection run again.
  */
  lemma CachedPairNeverReselects(c: Caches, reflect: Reflection, read: Reader, instance: Obj, t: TypeId, name: ChainSegment)
    requires DelegatesKeyed(c.delegates)
    requires Cached(c, t, name)
    ensures DirectTryGetValue(c, reflect, read, instance, t, name).caches == c
    ensures DirectTryGetValue(c, reflect, read, instance, t, name).found <==> c.types[t][KeyOf(name)].Some?
  {
  }

  /**
    The per-type table is keyed by segment equality: segments that compare
    equal (such as `Foo`, `[Foo]` and `@Foo`) share one entry and resolve
    identically.
  */
  lemma EqualSegmentsShareEntry(c: Caches, reflect: Reflection, read: Reader, instance: Obj, t: TypeId,
                                a: ChainSegment, b: ChainSegment)
    requires DelegatesKeyed(c.delegates)
    requires SegmentEquals(a, Some(b))
    ensures DirectTryGetValue(c, reflect, read, instance, t, a) == DirectTryGetValue(c, reflect, read, instance, t, b)
  {
    EqualityContract(a, b, b);
  }

  /**
    Clearing either cache, or both, changes no answer: a lookup afterwards
    repopulates the caches and returns what it returned before.
  */
  lemma ClearKeepsAnswers(c: Caches, reflect: Reflection, read: Reader, instance: Obj, t: TypeId, name: ChainSegment)
    requires Coherent(c, reflect)
    ensures Coherent(ClearTypes(c), reflect) && Coherent(ClearDelegates(c), reflect)
    ensures var before := DirectTryGetValue(c, reflect, read, instance, t, name);
            var afterTypes := DirectTryGetValue(ClearTypes(c), reflect, read, instance, t, name);
            var afterDelegates := DirectTryGetValue(ClearDelegates(c), reflect, read, instance, t, name);
            var afterBoth := DirectTryGetValue(ClearDelegates(ClearTypes(c)), reflect, read, instance, t, name);
            && (afterTypes.found, afterTypes.value) == (before.found, before.value)
            && (afterDelegates.found, afterDelegates.value) == (before.found, before.value)
            && (afterBoth.found, afterBoth.value) == (before.found, before.value)
  {
    assert Coherent(ClearTypes(c), reflect);
    assert Coherent(ClearDelegates(ClearTypes(c)), reflect);
    forall u, j
      ensures EntryAgrees(ClearDelegates(c), reflect, u, j)
    {
      assert EntryAgrees(c, reflect, u, j);
    }
    DirectMatchesReference(c, reflect, read, instance, t, name);
    DirectMatchesReference(ClearTypes(c), reflect, read, instance, t, name);
    DirectMatchesReference(ClearDelegates(c), reflect, read, instance, t, name);
    DirectMatchesReference(ClearDelegates(ClearTypes(c)), reflect, read, instance, t, name);
  }

  /** After the type tables are cleared, the next lookup runs the selection again. */
  lemma ClearForcesReselection(c: Caches, reflect: Reflection, read: Reader, instance: Obj, t: TypeId, name: ChainSegment)
    requires DelegatesKeyed(c.delegates)
    ensures DirectTryGetValue(ClearTypes(c), reflect, read, instance, t, name).caches.selections == c.selections + 1
  {
  }

  /**
    The delegate cache is keyed by the member alone: when two types
    resolve to the same property, the second type receives the delegate
    created for the first.
  */
  lemma PropertyDelegateShared(c: Caches, reflect: Reflection, t1: TypeId, t2: TypeId, n1: ChainSegment, n2: ChainSegment)
    requires DelegatesKeyed(c.delegates)
    requires !Cached(c, t1, n1)
    requires SelectMember(reflect(t1), n1.lower).SelectedProperty?
    requires SelectMember(reflect(t2), n2.lower).SelectedProperty?
    requires reflect(t1).properties[SelectMember(reflect(t1), n1.lower).at].id
          == reflect(t2).properties[SelectMember(reflect(t2), n2.lower).at].id
    requires reflect(t1).properties[SelectMember(reflect(t1), n1.lower).at].id !in c.delegates
    ensures var (c1, g1) := GetOrCreateAccessor(c, reflect, t1, n1);
            var (c2, g2) := GetOrCreateAccessor(c1, reflect, t2, n2);
            && g1 == Some(PropertyGetter(reflect(t1).properties[SelectMember(reflect(t1), n1.lower).at].id, t1))
            && (!Cached(c1, t2, n2) ==> g2 == g1)
  {
  }
}
