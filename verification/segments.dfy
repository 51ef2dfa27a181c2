/**
  One dot-separated component of a template path (`ChainSegment`): the
  normalisation its private constructor performs, the equality and hash
  contract over `(IsThis, LowerInvariant)`, and the interning registry keyed
  by the exact (ordinal) raw text, with the pre-registered well-known
  variables.
*/
module Segments {
  import opened Options
  import opened Text

  /** Reserved loop and context variables; `NoVariable` is the C# `None`. */
  datatype WellKnownVariable = NoVariable | Index | Key | Value | First | Last | Root | Parent | This

  /**
    A normalised segment. `value` is the text after the leading `@` run is
    removed and before bracket trimming (what `ToString` returns);
    `trimmed` has one outer `[`..`]` pair removed; `lower` is `trimmed`
    lower-cased. The precomputed hash code is a function of `isThis` and
    `lower` alone (`HashCode` below), so it is not stored.
  */
  datatype ChainSegment = ChainSegment(
    value: string,
    trimmed: string,
    lower: string,
    isThis: bool,
    isVariable: bool,
    isValue: bool,
    kind: WellKnownVariable)

  /** What equality and hashing of a segment look at. */
  datatype SegmentKey = SegmentKey(isThis: bool, lower: string)

  function KeyOf(s: ChainSegment): SegmentKey {
    SegmentKey(s.isThis, s.lower)
  }

  const ThisValue: string := "this"

  // ---------------------------------------------------------------------
  // Hashing
  // ---------------------------------------------------------------------

  /**
    Stand-in for the platform string hash: any deterministic function of the
    characters serves, since only agreement with equality is relied on.
  */
  function StringHash(s: string): bv32
    decreases |s|
  {
    if |s| == 0 then 5381
    else (StringHash(s[..|s| - 1]) * 33) ^ (((s[|s| - 1] as int) % 0x1_0000_0000) as bv32)
  }

  /** `bool.GetHashCode()`: 1 for true, 0 for false. */
  function BoolHash(b: bool): bv32 {
    if b then 1 else 0
  }

  /** `(IsThis.GetHashCode() * 397) ^ LowerInvariant.GetHashCode()`, with 32-bit wrap-around. */
  function HashOf(isThis: bool, lower: string): bv32 {
    (BoolHash(isThis) * 397) ^ StringHash(lower)
  }

  // ---------------------------------------------------------------------
  // Normalisation (the private constructor)
  // ---------------------------------------------------------------------

  predicate IsNullOrEmpty(raw: Option<string>) {
    raw.None? || raw.value == ""
  }

  /** True when `key` both starts with `[` and ends with `]`. */
  predicate Bracketed(key: string) {
    |key| > 0 && key[0] == '[' && key[|key| - 1] == ']'
  }

  /** Removes exactly one outer `[`..`]` pair, and only when both ends are present. */
  function TrimSquareBrackets(key: string): (r: string)
    ensures Bracketed(key) ==> |key| >= 2 && key == "[" + r + "]"
    ensures !Bracketed(key) ==> r == key
  {
    if Bracketed(key) then key[1..|key| - 1] else key
  }

  /** The kind after the two overrides: `Value` beats `This`, which beats the supplied kind. */
  function ResolveKind(supplied: WellKnownVariable, isThis: bool, isValue: bool): WellKnownVariable {
    if isValue then Value else if isThis then This else supplied
  }

  /** `new ChainSegment(value, wellKnownVariable)`; `raw == None` is a null string. */
  function Normalize(raw: Option<string>, supplied: WellKnownVariable): (r: ChainSegment)
    ensures IsNullOrEmpty(raw) ==> r.value == ThisValue && r.isThis && !r.isVariable
    ensures !IsNullOrEmpty(raw) ==> r.value == TrimStart(raw.value, '@')
    ensures r.isThis <==> IsNullOrEmpty(raw) || EqualsIgnoreCase(raw.value, ThisValue)
    ensures r.isVariable <==> !IsNullOrEmpty(raw) && raw.value[0] == '@'
    ensures r.kind == ResolveKind(supplied, r.isThis, r.isValue)
  {
    var isNullOrEmpty := IsNullOrEmpty(raw);
    var segmentValue := if isNullOrEmpty then ThisValue else TrimStart(raw.value, '@');
    var segmentTrimmed := TrimSquareBrackets(segmentValue);
    var isThis := isNullOrEmpty || EqualsIgnoreCase(raw.value, ThisValue);
    var lower := Lower(segmentTrimmed);
    var isValue := lower == "value";
    ChainSegment(segmentValue, segmentTrimmed, lower, isThis, !isNullOrEmpty && raw.value[0] == '@',
                 isValue, ResolveKind(supplied, isThis, isValue))
  }

  /**
    The derived fields of a constructed segment: one bracket layer removed
    from the displayed text, the lower-case form, `IsValue`, the hash, and
    the fact that `IsThis` forces the lower-case form `this`, so `IsThis`
    and `IsValue` never hold together.
  */
  lemma NormalizeFields(raw: Option<string>, supplied: WellKnownVariable)
    ensures var r := Normalize(raw, supplied);
            && (Bracketed(r.value) ==> r.value == "[" + r.trimmed + "]")
            && (!Bracketed(r.value) ==> r.trimmed == r.value)
            && r.lower == Lower(r.trimmed)
            && (r.isValue <==> r.lower == "value")
            && (r.isThis ==> r.lower == ThisValue)
            && !(r.isThis && r.isValue)
  {
    if Normalize(raw, supplied).isThis {
      ThisNormalizesToThis(raw);
    }
  }

  /**
    Text that is `this` up to case has no `@` and no brackets to strip, and
    lower-cases to `this`.
  */
  lemma ThisText(s: string)
    requires EqualsIgnoreCase(s, ThisValue)
    ensures TrimStart(s, '@') == s && !Bracketed(s) && Lower(s) == ThisValue
  {
    EqualsIgnoreCaseIffLowerEqual(s, ThisValue);
    assert Lower(s) == ThisValue;
    assert |s| == 4;
    assert LowerChar(s[0]) == 't';
    assert s[0] != '@';
    TrimStartNoLeading(s, '@');
    assert LowerChar(s[3]) == 's';
  }

  /**
    Null, empty and `this` text, whatever the case, all have the lower-case
    form `this` (and therefore never `value`).
  */
  lemma ThisNormalizesToThis(raw: Option<string>)
    requires IsNullOrEmpty(raw) || EqualsIgnoreCase(raw.value, ThisValue)
    ensures var v := if IsNullOrEmpty(raw) then ThisValue else TrimStart(raw.value, '@');
            Lower(TrimSquareBrackets(v)) == ThisValue
  {
    if !IsNullOrEmpty(raw) {
      ThisText(raw.value);
    }
  }

  /** The interned segment's `ToString`. */
  function Display(s: ChainSegment): string {
    s.value
  }

  // ---------------------------------------------------------------------
  // Equality and hash contract
  // ---------------------------------------------------------------------

  /**
    `EqualsImpl`: hash codes, `IsThis` and `LowerInvariant` all agree. The
    hash comparison is only a shortcut: the outcome is decided by the key.
  */
  function EqualsImpl(a: ChainSegment, b: ChainSegment): (r: bool)
    ensures r <==> KeyOf(a) == KeyOf(b)
  {
    HashCode(a) == HashCode(b) && a.isThis == b.isThis && a.lower == b.lower
  }

  /**
    `Equals(ChainSegment other)`: `other == None` is a null argument; the
    identity check comes first. Equality is decided by the key alone.
  */
  function SegmentEquals(a: ChainSegment, other: Option<ChainSegment>): (r: bool)
    ensures r <==> other.Some? && KeyOf(a) == KeyOf(other.value)
  {
    if other.None? then false
    else if a == other.value then true
    else EqualsImpl(a, other.value)
  }

  /** `GetHashCode`: the hash computed once in the constructor from `IsThis` and `LowerInvariant`. */
  function HashCode(s: ChainSegment): bv32 {
    HashOf(s.isThis, s.lower)
  }

  /**
    The combination step: `false` hashes to 0 and `true` to 1, so the string
    hash is kept as it is when `IsThis` is false and xor-ed with 397 when it
    is true.
  */
  lemma HashOfCases(lower: string)
    ensures HashOf(false, lower) == StringHash(lower)
    ensures HashOf(true, lower) == 397 ^ StringHash(lower)
    ensures HashOf(true, lower) != HashOf(false, lower)
  {
  }

  /**
    The equality contract: equality holds iff `(IsThis, LowerInvariant)`
    agree (the hash comparison never decides anything), it is never true of
    null, it is reflexive, symmetric and transitive, and equal segments have
    equal hash codes.
  */
  lemma EqualityContract(a: ChainSegment, b: ChainSegment, c: ChainSegment)
    ensures SegmentEquals(a, Some(b)) <==> KeyOf(a) == KeyOf(b)
    ensures !SegmentEquals(a, None)
    ensures SegmentEquals(a, Some(a))
    ensures SegmentEquals(a, Some(b)) <==> SegmentEquals(b, Some(a))
    ensures SegmentEquals(a, Some(b)) && SegmentEquals(b, Some(c)) ==> SegmentEquals(a, Some(c))
    ensures SegmentEquals(a, Some(b)) ==> HashCode(a) == HashCode(b)
  {
  }

  /** Segments with the same key are equal. */
  lemma SameKeyEqual(a: ChainSegment, b: ChainSegment)
    requires KeyOf(a) == KeyOf(b)
    ensures SegmentEquals(a, Some(b))
  {
    EqualityContract(a, b, b);
  }

  // ---------------------------------------------------------------------
  // Normalisation facts
  // ---------------------------------------------------------------------

  /** A null string and the empty string normalise to the same segment. */
  lemma NullIsEmpty(v: WellKnownVariable)
    ensures Normalize(None, v) == Normalize(Some(""), v)
    ensures Normalize(None, v).kind == This
  {
  }

  /**
    Feeding a segment's own kind back into the constructor reproduces the
    segment: the overrides are idempotent.
  */
  lemma {:induction false} KindFixpoint(raw: Option<string>, v: WellKnownVariable)
    ensures Normalize(raw, Normalize(raw, v).kind) == Normalize(raw, v)
  {
    var r := Normalize(raw, v);
    NormalizeFields(raw, v);
    assert ResolveKind(r.kind, r.isThis, r.isValue) == r.kind;
  }

  /** Bracket trimming strips one layer only: `[[x]]` becomes `[x]`. */
  lemma SingleBracketLayer(x: string)
    ensures TrimSquareBrackets("[" + x + "]") == x
    ensures TrimSquareBrackets("[[" + x + "]]") == "[" + x + "]"
  {
    assert ("[" + x + "]")[1..|x| + 1] == x;
    assert ("[[" + x + "]]")[1..|x| + 3] == "[" + x + "]";
  }

  /** `[]` trims to the empty string; a lone `[x` is not trimmed. */
  lemma BracketEdgeCases(x: string)
    requires |x| == 0 || x[|x| - 1] != ']'
    ensures TrimSquareBrackets("[]") == ""
    ensures TrimSquareBrackets("[" + x) == "[" + x
  {
  }

  /**
    Text starting with `@` is a variable, never `this`, and loses its whole
    leading run of `@`.
  */
  lemma {:induction false} VariablePrefix(x: string, v: WellKnownVariable)
    ensures Normalize(Some("@" + x), v).isVariable
    ensures !Normalize(Some("@" + x), v).isThis
    ensures Normalize(Some("@" + x), v).value == TrimStart(x, '@')
  {
    assert "@" + x == ['@'] + x;
    TrimStartPrefix(x, '@');
    assert !EqualsIgnoreCase("@" + x, ThisValue) by {
      EqualsIgnoreCaseIffLowerEqual("@" + x, ThisValue);
      assert Lower("@" + x)[0] == '@';
    }
  }

  /**
    `@this`, in any case, is a variable whose lower-case form is `this`,
    but it is not `this` itself and keeps the supplied kind.
  */
  lemma {:induction false} AtThisIsNotThis(x: string, v: WellKnownVariable)
    requires EqualsIgnoreCase(x, ThisValue)
    ensures Normalize(Some("@" + x), v).isVariable
    ensures !Normalize(Some("@" + x), v).isThis
    ensures Normalize(Some("@" + x), v).lower == ThisValue
    ensures Normalize(Some("@" + x), v).kind == v
  {
    var r := Normalize(Some("@" + x), v);
    VariablePrefix(x, v);
    ThisText(x);
    assert r.value == x;
    assert r.trimmed == x;
    assert r.lower == ThisValue;
    assert !r.isValue;
  }

  /** The text `this` in any case, and the empty text, are all equal and of kind `This`. */
  lemma ThisEquivalence(s: string, v: WellKnownVariable)
    requires s == "" || EqualsIgnoreCase(s, ThisValue)
    ensures Normalize(Some(s), v).isThis
    ensures Normalize(Some(s), v).kind == This
    ensures SegmentEquals(Normalize(Some(s), v), Some(Normalize(None, NoVariable)))
  {
    NormalizeFields(Some(s), v);
    NormalizeFields(None, NoVariable);
  }

  /**
    Prefixing `@` or wrapping in one bracket pair does not change what a
    segment is equal to: `Foo`, `[Foo]` and `@Foo` are pairwise equal, with
    equal hash codes, though their displayed texts differ.
  */
  lemma {:induction false} SigilAndBracketsAreTransparent(x: string)
    requires |x| > 0 && x[0] != '@' && !Bracketed(x)
    requires !EqualsIgnoreCase(x, ThisValue)
    ensures KeyOf(Normalize(Some("@" + x), NoVariable)) == KeyOf(Normalize(Some(x), NoVariable))
    ensures KeyOf(Normalize(Some("[" + x + "]"), NoVariable)) == KeyOf(Normalize(Some(x), NoVariable))
    ensures HashCode(Normalize(Some("@" + x), NoVariable)) == HashCode(Normalize(Some(x), NoVariable))
    ensures HashCode(Normalize(Some("[" + x + "]"), NoVariable)) == HashCode(Normalize(Some(x), NoVariable))
    ensures Normalize(Some("@" + x), NoVariable).isVariable && !Normalize(Some(x), NoVariable).isVariable
    ensures Display(Normalize(Some("[" + x + "]"), NoVariable)) != Display(Normalize(Some(x), NoVariable))
  {
    var plain := Normalize(Some(x), NoVariable);
    TrimStartNoLeading(x, '@');
    assert plain.value == x && plain.trimmed == x;

    var at := Normalize(Some("@" + x), NoVariable);
    assert "@" + x == ['@'] + x;
    TrimStartPrefix(x, '@');
    assert at.value == x;
    assert !EqualsIgnoreCase("@" + x, ThisValue) by {
      EqualsIgnoreCaseIffLowerEqual("@" + x, ThisValue);
      assert Lower("@" + x)[0] == '@';
    }

    var br := Normalize(Some("[" + x + "]"), NoVariable);
    TrimStartNoLeading("[" + x + "]", '@');
    assert br.value == "[" + x + "]";
    SingleBracketLayer(x);
    assert br.trimmed == x;
    assert !EqualsIgnoreCase("[" + x + "]", ThisValue) by {
      EqualsIgnoreCaseIffLowerEqual("[" + x + "]", ThisValue);
      assert Lower("[" + x + "]")[0] == '[';
    }
    assert |br.value| != |plain.value|;
  }

  /** `Foo`, `[Foo]` and `@Foo` compare equal, with lower-case form `foo`. */
  lemma FooExample(x: string)
    requires x == "Foo"
    ensures SegmentEquals(Normalize(Some(x), NoVariable), Some(Normalize(Some("[" + x + "]"), NoVariable)))
    ensures SegmentEquals(Normalize(Some(x), NoVariable), Some(Normalize(Some("@" + x), NoVariable)))
    ensures Normalize(Some(x), NoVariable).lower == "foo"
  {
    assert |x| == 3 && x[0] == 'F' && x[1] == 'o' && x[2] == 'o';
    assert !EqualsIgnoreCase(x, ThisValue);
    SigilAndBracketsAreTransparent(x);
    TrimStartNoLeading(x, '@');
    assert Lower(x) == "foo";
  }

  // ---------------------------------------------------------------------
  // Interning registry
  // ---------------------------------------------------------------------

  /** The registry: exact raw text to the segment interned for it. */
  type Registry = map<string, ChainSegment>

  /**
    Every entry is what the constructor builds from its key with some
    supplied kind (equivalently, with its own kind, by `KindFixpoint`).
  */
  predicate RegistryConsistent(reg: Registry) {
    forall k :: k in reg ==> reg[k] == Normalize(Some(k), reg[k].kind)
  }

  /**
    `Lookup.GetOrAdd(key, ValueFactory, variable)`: an existing entry wins
    and the supplied kind is then ignored.
  */
  function GetOrAdd(reg: Registry, key: string, variable: WellKnownVariable): (r: (Registry, ChainSegment))
    ensures key in r.0 && r.0[key] == r.1
    ensures r.0.Keys == reg.Keys + {key}
    ensures forall k :: k in reg ==> r.0[k] == reg[k]
    ensures key !in reg ==> r.1 == Normalize(Some(key), variable)
  {
    if key in reg then (reg, reg[key])
    else var s := Normalize(Some(key), variable); (reg[key := s], s)
  }

  /** Interning keeps the registry consistent. */
  lemma GetOrAddConsistent(reg: Registry, key: string, variable: WellKnownVariable)
    requires RegistryConsistent(reg)
    ensures RegistryConsistent(GetOrAdd(reg, key, variable).0)
  {
    if key !in reg {
      KindFixpoint(Some(key), variable);
    }
  }

  /**
    `ChainSegment.Create(string)`: the instance registered under the exact
    text, or else a fresh segment with no supplied kind, which is then
    registered under that text.
  */
  function Create(reg: Registry, value: string): (r: (ChainSegment, Registry))
    ensures r.0 == (if value in reg then reg[value] else Normalize(Some(value), NoVariable))
    ensures value in r.1 && r.1[value] == r.0
    ensures r.1.Keys == reg.Keys + {value}
    ensures forall k :: k in reg ==> r.1[k] == reg[k]
    ensures RegistryConsistent(reg) ==> RegistryConsistent(r.1)
  {
    var p := GetOrAdd(reg, value, NoVariable);
    if RegistryConsistent(reg) then
      GetOrAddConsistent(reg, value, NoVariable);
      (p.1, p.0)
    else
      (p.1, p.0)
  }

  /**
    The argument of `Create(object)`: an existing segment, a string, any
    other object given by its `ToString()` text, or null.
  */
  datatype CreateArgument = Segment(segment: ChainSegment) | Str(text: string) | Other(shown: string) | NullObject

  /** The text `Create(object)` interns: the string itself or the object's `ToString()`. */
  function ArgumentText(arg: CreateArgument): string
    requires arg.Str? || arg.Other?
  {
    if arg.Str? then arg.text else arg.shown
  }

  /**
    `ChainSegment.Create(object)`: an existing segment is returned as is,
    without touching the registry; a string or another object's text is
    interned; a null argument fails (`None`) because `value.ToString()` is
    called on it.
  */
  function CreateFromObject(reg: Registry, arg: CreateArgument): (r: Option<(ChainSegment, Registry)>)
    ensures r.None? <==> arg.NullObject?
    ensures arg.Segment? ==> r == Some((arg.segment, reg))
    ensures (arg.Str? || arg.Other?) ==>
              var t := ArgumentText(arg);
              && r.Some?
              && t in r.value.1 && r.value.1[t] == r.value.0
              && r.value.1.Keys == reg.Keys + {t}
              && (forall k :: k in reg ==> r.value.1[k] == reg[k])
              && (t in reg ==> r.value == (reg[t], reg))
              && (t !in reg ==> r.value.0 == Normalize(Some(t), NoVariable))
  {
    match arg
    case Segment(s) => Some((s, reg))
    case Str(t) => Some(Create(reg, t))
    case Other(t) => Some(Create(reg, t))
    case NullObject => None
  }

  /**
    Handing an interned segment back to `Create(object)` returns it
    unchanged, exactly as interning its text again would.
  */
  lemma CreateFromObjectIdempotent(reg: Registry, arg: CreateArgument)
    requires !arg.NullObject?
    ensures var (s, reg1) := CreateFromObject(reg, arg).value;
            CreateFromObject(reg1, Segment(s)) == Some((s, reg1))
    ensures arg.Str? || arg.Other? ==>
              var (s, reg1) := CreateFromObject(reg, arg).value;
              CreateFromObject(reg1, arg) == Some((s, reg1))
  {
  }

  /**
    A second `Create` with the same text returns the identical segment and
    leaves the registry as it is.
  */
  lemma CreateInterns(reg: Registry, value: string)
    ensures var (s, reg') := Create(reg, value); Create(reg', value) == (s, reg')
  {
  }

  /**
    Two interned segments from a consistent registry are equal iff their
    texts normalise to the same `(IsThis, LowerInvariant)` pair, even when
    they sit under different registry keys.
  */
  lemma CreatedEqualsIffSameKey(reg: Registry, s: string, t: string)
    requires RegistryConsistent(reg)
    ensures var (a, reg1) := Create(reg, s);
            var (b, _) := Create(reg1, t);
            SegmentEquals(a, Some(b)) <==>
              KeyOf(Normalize(Some(s), NoVariable)) == KeyOf(Normalize(Some(t), NoVariable))
  {
    var (a, reg1) := Create(reg, s);
    var (b, _) := Create(reg1, t);
    assert a == Normalize(Some(s), a.kind);
    assert b == Normalize(Some(t), b.kind);
    EqualityContract(a, b, b);
  }

  /**
    `ToString` of an interned segment is the text after its leading `@`
    run and before bracket trimming, or `this` for the empty text.
  */
  lemma DisplayOfCreate(reg: Registry, value: string)
    requires RegistryConsistent(reg)
    ensures Display(Create(reg, value).0) == (if value == "" then ThisValue else TrimStart(value, '@'))
  {
    var s := Create(reg, value).0;
    assert s == Normalize(Some(value), s.kind);
  }

  /**
    Converting a segment to its text and back (the implicit conversions to
    and from `string`) gives an equal segment, except when the segment is
    a variable whose text is empty or `this` up to case: `@` alone comes
    back as `this`, and `@this` comes back as `IsThis`.
  */
  lemma DisplayRoundTrip(reg: Registry, raw: Option<string>, v: WellKnownVariable)
    requires RegistryConsistent(reg)
    ensures var a := Normalize(raw, v);
            SegmentEquals(a, Some(Create(reg, Display(a)).0)) <==>
              !(a.isVariable && (Display(a) == "" || EqualsIgnoreCase(Display(a), ThisValue)))
  {
    var a := Normalize(raw, v);
    var b := Create(reg, Display(a)).0;
    assert b == Normalize(Some(a.value), b.kind);
    RenormalizedKey(raw, v, b.kind);
  }

  /**
    Rebuilding a segment from its displayed text: a non-empty display
    keeps the lower-case form, and `IsThis` is gained exactly by a
    variable whose display is empty or `this` up to case.
  */
  lemma RenormalizedKey(raw: Option<string>, v: WellKnownVariable, w: WellKnownVariable)
    ensures var a := Normalize(raw, v);
            var b := Normalize(Some(a.value), w);
            && (a.value != "" ==> b.lower == a.lower)
            && (a.value == "" ==> b.isThis && !a.isThis)
            && (b.isThis <==> a.isThis || (a.isVariable && (a.value == "" || EqualsIgnoreCase(a.value, ThisValue))))
            && (a.isThis ==> a.lower == ThisValue)
            && (b.isThis ==> b.lower == ThisValue)
  {
    var a := Normalize(raw, v);
    var b := Normalize(Some(a.value), w);
    NormalizeFields(raw, v);
    NormalizeFields(Some(a.value), w);
    if IsNullOrEmpty(raw) {
      EqualsIgnoreCaseIffLowerEqual(a.value, ThisValue);
    } else {
      var x := raw.value;
      if x[0] == '@' {
        AtTextIsNotThis(x);
      } else {
        TrimStartNoLeading(x, '@');
      }
      if a.value != "" {
        TrimStartNoLeading(a.value, '@');
      }
    }
  }

  /** Text starting with `@` is never `this` up to case. */
  lemma AtTextIsNotThis(x: string)
    requires |x| > 0 && x[0] == '@'
    ensures !EqualsIgnoreCase(x, ThisValue)
  {
    EqualsIgnoreCaseIffLowerEqual(x, ThisValue);
    assert Lower(x)[0] == '@';
  }

  /**
    The text `.` is not `IsThis`: the classification compares the original
    text with `this` only. It is an ordinary segment with lower-case form `.`.
  */
  lemma DotIsNotThis(x: string, v: WellKnownVariable)
    requires x == "."
    ensures !Normalize(Some(x), v).isThis
    ensures Normalize(Some(x), v).lower == "."
    ensures Normalize(Some(x), v).kind == v
  {
    EqualsIgnoreCaseIffLowerEqual(x, ThisValue);
    TrimStartNoLeading(x, '@');
    assert !Bracketed(x);
    assert Lower(x) == x;
  }

  /**
    `Create(value, variable, createVariable)`: the `@`-prefixed key first,
    then the bare key. Exactly those keys are added, no entry already
    present changes, and a fresh key gets the constructor's segment for the
    supplied kind.
  */
  function CreateWellKnown(reg: Registry, name: string, variable: WellKnownVariable, createVariable: bool)
    : (r: (ChainSegment, Registry))
    ensures name in r.1 && r.1[name] == r.0
    ensures r.1.Keys == reg.Keys + (if createVariable then {name, "@" + name} else {name})
    ensures forall k :: k in reg ==> k in r.1 && r.1[k] == reg[k]
    ensures name !in reg ==> r.0 == Normalize(Some(name), variable)
    ensures createVariable && "@" + name !in reg ==> r.1["@" + name] == Normalize(Some("@" + name), variable)
  {
    if createVariable then
      TwoAddsKeys(reg, "@" + name, name, variable);
      assert name != "@" + name by { assert |"@" + name| == |name| + 1; }
      var p := GetOrAdd(GetOrAdd(reg, "@" + name, variable).0, name, variable);
      (p.1, p.0)
    else
      var p := GetOrAdd(reg, name, variable);
      (p.1, p.0)
  }

  /** Two interning steps add exactly their two keys and keep every existing entry. */
  lemma TwoAddsKeys(reg: Registry, first: string, second: string, variable: WellKnownVariable)
    ensures var reg1 := GetOrAdd(GetOrAdd(reg, first, variable).0, second, variable).0;
            && reg1.Keys == reg.Keys + {second, first}
            && (forall k :: k in reg ==> k in reg1 && reg1[k] == reg[k])
  {
    var reg0 := GetOrAdd(reg, first, variable).0;
    assert reg0.Keys == reg.Keys + {first};
  }

  /** One registration keeps a registry consistent. */
  lemma CreateWellKnownConsistent(reg: Registry, name: string, variable: WellKnownVariable, createVariable: bool)
    requires RegistryConsistent(reg)
    ensures RegistryConsistent(CreateWellKnown(reg, name, variable, createVariable).1)
  {
    var reg1 := if createVariable then GetOrAdd(reg, "@" + name, variable).0 else reg;
    if createVariable {
      GetOrAddConsistent(reg, "@" + name, variable);
    }
    GetOrAddConsistent(reg1, name, variable);
  }

  /** One static well-known property: its name, its kind, and whether the `@` key is registered too. */
  datatype WellKnownEntry = WellKnownEntry(name: string, variable: WellKnownVariable, createVariable: bool)

  /** The static properties `Index` .. `This`, in declaration order. */
  const WellKnownTable: seq<WellKnownEntry> := [
    WellKnownEntry("Index", Index, true),
    WellKnownEntry("First", First, true),
    WellKnownEntry("Last", Last, true),
    WellKnownEntry("Value", Value, true),
    WellKnownEntry("Key", Key, true),
    WellKnownEntry("Root", Root, true),
    WellKnownEntry("Parent", Parent, true),
    WellKnownEntry("This", This, false)
  ]

  /** The keys an entry registers. */
  function EntryKeys(e: WellKnownEntry): set<string> {
    if e.createVariable then {e.name, "@" + e.name} else {e.name}
  }

  /** The keys a whole table registers. */
  function TableKeys(table: seq<WellKnownEntry>): set<string>
    decreases |table|
  {
    if |table| == 0 then {} else EntryKeys(table[0]) + TableKeys(table[1..])
  }

  /**
    Runs `CreateWellKnown` for each entry, front to back: exactly the
    table's keys are added and no entry already present changes.
  */
  function RegisterAll(reg: Registry, table: seq<WellKnownEntry>): (r: Registry)
    ensures r.Keys == reg.Keys + TableKeys(table)
    ensures forall k :: k in reg ==> r[k] == reg[k]
    decreases |table|
  {
    if |table| == 0 then reg
    else
      var e := table[0];
      var reg1 := CreateWellKnown(reg, e.name, e.variable, e.createVariable).1;
      assert reg1.Keys == reg.Keys + EntryKeys(e);
      assert TableKeys(table) == EntryKeys(e) + TableKeys(table[1..]);
      RegisterAll(reg1, table[1..])
  }

  /** Registration keeps a registry consistent. */
  lemma {:induction false} RegisterAllConsistent(reg: Registry, table: seq<WellKnownEntry>)
    requires RegistryConsistent(reg)
    ensures RegistryConsistent(RegisterAll(reg, table))
    decreases |table|
  {
    if |table| > 0 {
      var e := table[0];
      CreateWellKnownConsistent(reg, e.name, e.variable, e.createVariable);
      RegisterAllConsistent(CreateWellKnown(reg, e.name, e.variable, e.createVariable).1, table[1..]);
    }
  }

  /** The registry once the static initialisers have run. */
  function InitialRegistry(): Registry {
    RegisterAll(map[], WellKnownTable)
  }

  /** The initial registry is consistent. */
  lemma InitialRegistryConsistent()
    ensures RegistryConsistent(InitialRegistry())
  {
    var empty: Registry := map[];
    RegisterAllConsistent(empty, WellKnownTable);
  }

  /** Registering a table into an empty registry gives exactly the table's keys. */
  lemma RegisterFromEmptyKeys(table: seq<WellKnownEntry>)
    ensures RegisterAll(map[], table).Keys == TableKeys(table)
  {
  }

  /** The initial registry holds exactly the table's keys. */
  lemma InitialRegistryKeys()
    ensures InitialRegistry().Keys == TableKeys(WellKnownTable)
  {
    RegisterFromEmptyKeys(WellKnownTable);
  }

  /** Names that are non-empty, do not start with `@` and are pairwise distinct. */
  predicate DistinctPlainNames(table: seq<WellKnownEntry>) {
    && (forall i :: 0 <= i < |table| ==> |table[i].name| > 0 && table[i].name[0] != '@')
    && (forall i, j :: 0 <= i < j < |table| ==> table[i].name != table[j].name)
  }

  /**
    When none of the table's keys is registered beforehand, every entry's
    bare key, and its `@` key when requested, holds the constructor's
    segment built with the entry's kind.
  */
  lemma {:induction false} RegisterAllEntry(reg: Registry, table: seq<WellKnownEntry>, i: nat)
    requires DistinctPlainNames(table)
    requires i < |table|
    requires forall j :: 0 <= j < |table| ==> table[j].name !in reg && "@" + table[j].name !in reg
    ensures table[i].name in RegisterAll(reg, table)
    ensures RegisterAll(reg, table)[table[i].name] == Normalize(Some(table[i].name), table[i].variable)
    ensures table[i].createVariable ==>
              "@" + table[i].name in RegisterAll(reg, table) &&
              RegisterAll(reg, table)["@" + table[i].name] == Normalize(Some("@" + table[i].name), table[i].variable)
    decreases |table|
  {
    var e := table[0];
    var reg1 := CreateWellKnown(reg, e.name, e.variable, e.createVariable).1;
    assert e.name != "@" + e.name by { assert e.name[0] != ("@" + e.name)[0]; }
    if i > 0 {
      RestStayUnregistered(reg, table);
      RegisterAllEntry(reg1, table[1..], i - 1);
    }
  }

  /**
    Registering the first entry of a table with distinct plain names adds
    none of the other entries' keys.
  */
  lemma RestStayUnregistered(reg: Registry, table: seq<WellKnownEntry>)
    requires DistinctPlainNames(table) && |table| > 0
    requires forall j :: 0 <= j < |table| ==> table[j].name !in reg && "@" + table[j].name !in reg
    ensures var reg1 := CreateWellKnown(reg, table[0].name, table[0].variable, table[0].createVariable).1;
            forall j :: 1 <= j < |table| ==> table[j].name !in reg1 && "@" + table[j].name !in reg1
  {
    var e := table[0];
    var reg1 := CreateWellKnown(reg, e.name, e.variable, e.createVariable).1;
    forall j | 1 <= j < |table|
      ensures table[j].name !in reg1 && "@" + table[j].name !in reg1
    {
      var n := table[j].name;
      assert n != e.name;
      assert n != "@" + e.name by { assert n[0] != ("@" + e.name)[0]; }
      assert "@" + n != e.name by { assert ("@" + n)[0] != e.name[0]; }
      assert "@" + n != "@" + e.name by { assert ("@" + n)[1..] == n && ("@" + e.name)[1..] == e.name; }
    }
  }

  /**
    A name registered with a kind keeps that kind under both keys: the
    overrides change nothing because `Value` is registered as `Value` and
    `This` (not `@`-prefixed) as `This`.
  */
  lemma {:induction false} RegisteredKind(name: string, variable: WellKnownVariable)
    requires |name| > 0 && name[0] != '@' && !Bracketed(name)
    requires variable == Value <==> Lower(name) == "value"
    requires variable == This <==> EqualsIgnoreCase(name, ThisValue)
    ensures Normalize(Some(name), variable).kind == variable
    ensures variable != This ==> Normalize(Some("@" + name), variable).kind == variable
  {
    TrimStartNoLeading(name, '@');
    NormalizeFields(Some(name), variable);
    VariablePrefix(name, variable);
    NormalizeFields(Some("@" + name), variable);
  }

  /** Each table entry satisfies `RegisteredKind`'s conditions, so it keeps its kind. */
  lemma WellKnownEntryKind(i: nat)
    requires i < |WellKnownTable|
    ensures var e := WellKnownTable[i];
            && Normalize(Some(e.name), e.variable).kind == e.variable
            && (e.createVariable ==> Normalize(Some("@" + e.name), e.variable).kind == e.variable)
  {
    var e := WellKnownTable[i];
    var n := e.name;
    assert |n| > 0 && n[0] != '@' && !Bracketed(n);
    EqualsIgnoreCaseIffLowerEqual(n, ThisValue);
    if e.variable == Value {
      assert Lower(n) == "value";
    } else {
      assert Lower(n)[0] != 'v';
    }
    if e.variable == This {
      assert Lower(n) == ThisValue;
    } else {
      assert Lower(n)[0] != 't';
    }
    RegisteredKind(n, e.variable);
  }

  /** The initials of the names the table registers with an `@` key. */
  const VariableInitials: set<char> := {'I', 'F', 'L', 'V', 'K', 'R', 'P'}

  /** The table's names are plain and pairwise distinct. */
  lemma WellKnownNamesDistinct()
    ensures DistinctPlainNames(WellKnownTable)
  {
  }

  /** A key that no entry produces is not among the table's keys. */
  lemma {:induction false} NotInTableKeys(table: seq<WellKnownEntry>, k: string)
    requires forall i :: 0 <= i < |table| ==> k !in EntryKeys(table[i])
    ensures k !in TableKeys(table)
    decreases |table|
  {
    if |table| > 0 {
      NotInTableKeys(table[1..], k);
    }
  }

  /**
    An `@` key whose second character is not the initial of a name
    registered with an `@` key is not among the table's keys.
  */
  lemma AtKeyNotRegistered(k: string)
    requires |k| >= 2 && k[0] == '@'
    requires k[1] !in VariableInitials
    ensures k !in TableKeys(WellKnownTable)
  {
    forall i | 0 <= i < |WellKnownTable|
      ensures k !in EntryKeys(WellKnownTable[i])
    {
      var e := WellKnownTable[i];
      assert e.name[0] != '@';
      if e.createVariable {
        assert ("@" + e.name)[1] == e.name[0] != k[1];
      }
    }
    NotInTableKeys(WellKnownTable, k);
  }

  // `AtThisNotRegistered` and `LowercaseIndexNotRegistered` are the two
  // instances of `AtKeyNotRegistered` that later proofs need. Each fixes its
  // literal here, so a caller does not unfold the literal and the whole table
  // in one proof.

  /** `This` is registered without an `@` key. */
  lemma AtThisNotRegistered()
    ensures "@This" !in TableKeys(WellKnownTable)
  {
    var k := "@This";
    assert k[1] == 'T';
    AtKeyNotRegistered(k);
  }

  /** `@index` is not a registered key (only `@Index` is). */
  lemma LowercaseIndexNotRegistered()
    ensures "@index" !in TableKeys(WellKnownTable)
  {
    var k := "@index";
    assert k[1] == 'i';
    AtKeyNotRegistered(k);
  }

  /**
    After static initialisation, `Index`, `First`, `Last`, `Value`, `Key`,
    `Root` and `Parent` are registered under the bare and the `@` key with
    their kind, and `This` under the bare key only.
  */
  lemma WellKnownRegistered(i: nat)
    requires i < |WellKnownTable|
    ensures var e := WellKnownTable[i];
            && e.name in InitialRegistry()
            && InitialRegistry()[e.name].kind == e.variable
            && (e.createVariable ==> "@" + e.name in InitialRegistry())
            && (e.createVariable ==> InitialRegistry()["@" + e.name].kind == e.variable)
    ensures "This" in InitialRegistry() && "@This" !in InitialRegistry()
  {
    var empty: Registry := map[];
    WellKnownNamesDistinct();
    RegisterAllEntry(empty, WellKnownTable, i);
    WellKnownEntryKind(i);
    RegisterAllEntry(empty, WellKnownTable, 7);
    AtThisNotRegistered();
  }

  /** Lower-casing commutes with bracket trimming. */
  lemma LowerTrimSquareBrackets(v: string)
    ensures Lower(TrimSquareBrackets(v)) == TrimSquareBrackets(Lower(v))
  {
    if Bracketed(v) {
      assert Bracketed(Lower(v));
      assert Lower(v)[1..|v| - 1] == Lower(v[1..|v| - 1]);
    } else if |v| > 0 {
      assert Lower(v)[0] == '[' ==> v[0] == '[';
      assert Lower(v)[|v| - 1] == ']' ==> v[|v| - 1] == ']';
    }
  }

  /** The lower-case form of non-empty text depends only on the text's lower-cased characters. */
  lemma LowerFormOfLower(x: string, v: WellKnownVariable)
    requires x != ""
    ensures Normalize(Some(x), v).lower == TrimSquareBrackets(TrimStart(Lower(x), '@'))
  {
    LowerTrimStartAt(x);
    LowerTrimSquareBrackets(TrimStart(x, '@'));
  }

  /**
    Matching is case-insensitive: texts equal up to case normalise to equal
    segments, whatever kinds were supplied.
  */
  lemma CaseVariantsAreEqual(x: string, y: string, v: WellKnownVariable, w: WellKnownVariable)
    requires EqualsIgnoreCase(x, y)
    ensures KeyOf(Normalize(Some(x), v)) == KeyOf(Normalize(Some(y), w))
    ensures SegmentEquals(Normalize(Some(x), v), Some(Normalize(Some(y), w)))
  {
    EqualsIgnoreCaseIffLowerEqual(x, y);
    EqualsIgnoreCaseIffLowerEqual(x, ThisValue);
    EqualsIgnoreCaseIffLowerEqual(y, ThisValue);
    assert |x| == |y|;
    if x != "" {
      LowerFormOfLower(x, v);
      LowerFormOfLower(y, w);
    }
    assert Normalize(Some(x), v).isThis == Normalize(Some(y), w).isThis;
    assert Normalize(Some(x), v).lower == Normalize(Some(y), w).lower;
    SameKeyEqual(Normalize(Some(x), v), Normalize(Some(y), w));
  }

  /**
    The registry is keyed by the exact text: a case variant of a registered
    key that is not itself registered is interned with no supplied kind,
    yet compares equal to the registered segment.
  */
  lemma UnregisteredCaseVariant(reg: Registry, x: string, k: string)
    requires RegistryConsistent(reg)
    requires k in reg && x !in reg
    requires EqualsIgnoreCase(x, k)
    ensures Create(reg, x).0 == Normalize(Some(x), NoVariable)
    ensures SegmentEquals(Create(reg, x).0, Some(reg[k]))
    ensures reg[k].kind !in {This, Value} ==> Create(reg, x).0.kind == NoVariable
  {
    CaseVariantsAreEqual(x, k, NoVariable, reg[k].kind);
    assert reg[k] == Normalize(Some(k), reg[k].kind);
  }

  /**
    So `@index`, as written in templates, is interned with no well-known
    kind in any consistent registry holding the initial keys (the initial
    registry qualifies, by its contract and `WellKnownRegistered`),
    although it equals the registered `@Index`.
  */
  lemma LowercaseIndexHasNoKind(reg: Registry, x: string)
    requires x == "@index"
    requires RegistryConsistent(reg)
    requires reg.Keys == TableKeys(WellKnownTable)
    requires "@Index" in reg && reg["@Index"].kind == Index
    ensures Create(reg, x).0.kind == NoVariable
    ensures SegmentEquals(Create(reg, x).0, Some(reg["@Index"]))
  {
    LowercaseIndexNotRegistered();
    IndexIgnoreCase(x);
    UnregisteredCaseVariant(reg, x, "@Index");
  }

  /** `@index` and `@Index` differ only in case. */
  lemma IndexIgnoreCase(x: string)
    requires x == "@index"
    ensures EqualsIgnoreCase(x, "@Index")
  {
    var y := "@Index";
    assert |x| == |y| == 6;
    assert forall i :: 0 <= i < 6 ==> LowerChar(x[i]) == LowerChar(y[i]);
    assert Lower(x) == Lower(y);
    EqualsIgnoreCaseIffLowerEqual(x, y);
  }
}
