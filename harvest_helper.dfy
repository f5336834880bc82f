/**
 The harvest helper of StatePrinter: enumerating the instance fields of a type
 and its base types, deciding which types are worth dumping, and turning the
 names of compiler-generated backing fields back into property names.

 Reflection is replaced by a value: a `TypeRef` is either the null reference
 or a type with its name (what `Type.ToString()` gives), its base type and the
 fields declared directly on it, in the order reflection reports them.
 */
module HarvestHelper {
  import opened Strings

  /** The members of System.Reflection.BindingFlags that decide which fields a lookup reports. */
  datatype BindingFlag = Public | NonPublic | Instance | Static | DeclaredOnly | FlattenHierarchy

  type BindingFlags = set<BindingFlag>

  /** The accessibility of a field: public, private, or one of the others (protected, internal), which derived types inherit. */
  datatype Access = PublicAccess | PrivateAccess | FamilyOrAssemblyAccess

  /** A System.Reflection.FieldInfo: the raw field name, the name of the type declaring it, its type, its accessibility and whether it is static. */
  datatype FieldInfo = FieldInfo(name: string, declaringType: string, fieldType: string, access: Access, isStatic: bool)

  /** A System.Type reference: `Null`, or a type with its name as `ToString()` gives it, its `BaseType` and its declared fields. */
  datatype TypeRef = Null | Type(name: string, baseType: TypeRef, fields: seq<FieldInfo>)

  /** The suffix the C# compiler appends to the name of an auto-property's backing field. */
  const BackingFieldSuffix: string := ">k__BackingField"

  /** The flags the one-argument `GetFields` passes down: every instance field declared on the type itself. */
  const DefaultFlags: BindingFlags := {Public, NonPublic, Instance, DeclaredOnly}

  /** The name prefixes of the types that are not dumped. */
  const NonHarvestablePrefixes: seq<string> :=
    ["System.Reflection", "System.Runtime", "System.SignatureStruct", "System.Func"]

  predicate Distinct<T(==)>(s: seq<T>) {
    forall i, j | 0 <= i < j < |s| :: s[i] != s[j]
  }

  /** `a` is `b` with some elements left out, the rest in their order. */
  predicate Subsequence<T(==)>(a: seq<T>, b: seq<T>) {
    a == [] || (b != [] && ((a[0] == b[0] && Subsequence(a[1..], b[1..])) || Subsequence(a, b[1..])))
  }

  // ---------------------------------------------------------------------------
  // The reflection host
  // ---------------------------------------------------------------------------

  /** A field is reported under `flags` when its visibility and its being static are both asked for. */
  predicate Matches(f: FieldInfo, flags: BindingFlags) {
    && (if f.access == PublicAccess then Public in flags else NonPublic in flags)
    && (if f.isStatic then Static in flags else Instance in flags)
  }

  /** A base type's field is seen from a derived type unless it is private; a static one only under `FlattenHierarchy`. */
  predicate Inheritable(f: FieldInfo, flags: BindingFlags) {
    f.access != PrivateAccess && (f.isStatic ==> FlattenHierarchy in flags)
  }

  /** A field of the looked-up type itself (`inherited` false) or of one of its base types (`inherited` true) is reported. */
  predicate Selected(f: FieldInfo, flags: BindingFlags, inherited: bool) {
    Matches(f, flags) && (inherited ==> Inheritable(f, flags))
  }

  /** The fields of `fs` that are reported, in their original order. */
  function FilterFields(fs: seq<FieldInfo>, flags: BindingFlags, inherited: bool): (r: seq<FieldInfo>)
    ensures forall f :: f in r <==> f in fs && Selected(f, flags, inherited)
    ensures Subsequence(r, fs)
    ensures (forall f | f in fs :: Selected(f, flags, inherited)) ==> r == fs
    ensures |r| <= |fs|
    ensures Distinct(fs) ==> Distinct(r)
  {
    if fs == [] then []
    else
      var rest := FilterFields(fs[1..], flags, inherited);
      if Selected(fs[0], flags, inherited) then
        assert Distinct(fs) ==> fs[0] !in fs[1..];
        assert [fs[0]] + rest != [] && ([fs[0]] + rest)[1..] == rest;
        [fs[0]] + rest
      else
        assert fs[0] in fs;
        rest
  }

  /** The fields declared on `t` itself that `flags` selects. */
  function DeclaredFields(t: TypeRef, flags: BindingFlags): seq<FieldInfo>
    requires t.Type?
  {
    FilterFields(t.fields, flags, false)
  }

  /** The fields that a lookup on a type derived from `b` reports from `b` and its base types, nearest first. */
  function InheritedFields(b: TypeRef, flags: BindingFlags): (r: seq<FieldInfo>)
    ensures forall f | f in r :: Matches(f, flags) && Inheritable(f, flags)
    decreases b
  {
    if b.Null? then [] else FilterFields(b.fields, flags, true) + InheritedFields(b.baseType, flags)
  }

  /**
   `type.GetFields(flags)`: the fields declared on the type that `flags`
   selects and, unless `DeclaredOnly` is given, those it inherits.
   */
  function TypeGetFields(t: TypeRef, flags: BindingFlags): (r: seq<FieldInfo>)
    requires t.Type?
    ensures forall f | f in r :: Matches(f, flags)
    ensures forall f | f in t.fields && Matches(f, flags) :: f in r
    ensures DeclaredOnly in flags ==> r == DeclaredFields(t, flags)
    ensures DeclaredOnly !in flags ==> forall f | f in InheritedFields(t.baseType, flags) :: f in r
  {
    DeclaredFields(t, flags) + (if DeclaredOnly in flags then [] else InheritedFields(t.baseType, flags))
  }

  // ---------------------------------------------------------------------------
  // HarvestHelper
  // ---------------------------------------------------------------------------

  /** `IsHarvestable`: a type is dumped unless its name starts with one of the denied prefixes. */
  function IsHarvestable(t: TypeRef): (r: bool)
    requires t.Type?
    ensures r <==> forall p | p in NonHarvestablePrefixes :: !StartsWith(t.name, p)
  {
    var typename := t.name;
    !(|| StartsWith(typename, "System.Reflection")
      || StartsWith(typename, "System.Runtime")
      || StartsWith(typename, "System.SignatureStruct")
      || StartsWith(typename, "System.Func"))
  }

  /**
   `GetFields(type, flags)`: nothing for null or for a type that is not
   harvestable, otherwise the fields of the base type followed by those
   declared on the type itself.
   */
  function GetFieldsWithFlags(t: TypeRef, flags: BindingFlags): (r: seq<FieldInfo>)
    ensures forall f | f in r :: Matches(f, flags)
  {
    if t.Null? then []
    else if !IsHarvestable(t) then []
    else GetFieldsWithFlags(t.baseType, flags) + TypeGetFields(t, flags)
  }

  /** `GetFields(type)`: all public and non-public instance fields of the harvestable levels, base first. */
  function GetFields(t: TypeRef): (r: seq<FieldInfo>)
    ensures forall f | f in r :: !f.isStatic
  {
    GetFieldsWithFlags(t, DefaultFlags)
  }

  /** `SanitizeFieldName`: a name starting with '<' loses that character and every backing-field suffix. */
  function SanitizeFieldName(fieldName: string): (r: string)
    ensures |r| <= |fieldName|
    ensures StartsWith(fieldName, "<") ==> |r| < |fieldName|
  {
    if StartsWith(fieldName, "<") then ReplaceAll(fieldName[1..], BackingFieldSuffix, "")
    else fieldName
  }

  /** The name the C# compiler gives the backing field of the auto-property `property`. */
  function BackingFieldName(property: string): string {
    "<" + property + BackingFieldSuffix
  }

  // ---------------------------------------------------------------------------
  // The walk up the base-type chain, stated without recursion on the walk
  // ---------------------------------------------------------------------------

  /** The non-null types from `t` up through its base types, `t` first. */
  function Ancestry(t: TypeRef): (r: seq<TypeRef>)
    ensures forall L | L in r :: L.Type?
    ensures t.Type? ==> |r| > 0 && r[0] == t
  {
    if t.Null? then [] else [t] + Ancestry(t.baseType)
  }

  /** The longest prefix of `levels` whose types are all harvestable. */
  function HarvestablePrefix(levels: seq<TypeRef>): (r: seq<TypeRef>)
    requires forall L | L in levels :: L.Type?
    ensures r <= levels
    ensures forall L | L in r :: L.Type? && IsHarvestable(L)
    ensures |r| < |levels| ==> !IsHarvestable(levels[|r|])
  {
    if levels == [] || !IsHarvestable(levels[0]) then []
    else [levels[0]] + HarvestablePrefix(levels[1..])
  }

  /** The types whose fields the walk from `t` collects, `t` first. */
  function HarvestedLevels(t: TypeRef): seq<TypeRef> {
    HarvestablePrefix(Ancestry(t))
  }

  /** The names of `t` and all its base types. */
  function AncestryNames(t: TypeRef): set<string> {
    set L | L in Ancestry(t) :: L.name
  }

  function Reverse<T>(s: seq<T>): (r: seq<T>)
    ensures |r| == |s|
    ensures forall i | 0 <= i < |s| :: r[i] == s[|s| - 1 - i]
  {
    if s == [] then [] else Reverse(s[1..]) + [s[0]]
  }

  /** What a lookup with `flags` reports on each of `levels`, level after level. */
  function ConcatFields(levels: seq<TypeRef>, flags: BindingFlags): seq<FieldInfo>
    requires forall L | L in levels :: L.Type?
  {
    if levels == [] then [] else TypeGetFields(levels[0], flags) + ConcatFields(levels[1..], flags)
  }

  /** How many fields a lookup with `flags` reports on `levels` in all. */
  function FieldCount(levels: seq<TypeRef>, flags: BindingFlags): nat
    requires forall L | L in levels :: L.Type?
  {
    if levels == [] then 0 else |TypeGetFields(levels[0], flags)| + FieldCount(levels[1..], flags)
  }

  /**
   What reflection reports is consistent: every declared field names its own
   type as the declaring type and appears once, and no type shares its name
   with one of its base types.
   */
  predicate WellFormed(t: TypeRef) {
    t.Type? ==>
      && Distinct(t.fields)
      && (forall f | f in t.fields :: f.declaringType == t.name)
      && t.name !in AncestryNames(t.baseType)
      && WellFormed(t.baseType)
  }

  // ---------------------------------------------------------------------------
  // Properties of GetFields
  // ---------------------------------------------------------------------------

  lemma {:induction false} ConcatFieldsAppend(levels: seq<TypeRef>, t: TypeRef, flags: BindingFlags)
    requires forall L | L in levels :: L.Type?
    requires t.Type?
    ensures ConcatFields(levels + [t], flags) == ConcatFields(levels, flags) + TypeGetFields(t, flags)
  {
    if levels != [] {
      assert (levels + [t])[1..] == levels[1..] + [t];
      ConcatFieldsAppend(levels[1..], t, flags);
    }
  }

  /**
   The walk collects what a lookup with the same `flags` reports on every
   harvestable level, from the most basic one down to `t`.
   */
  lemma {:induction false} GetFieldsIsBaseFirst(t: TypeRef, flags: BindingFlags)
    ensures GetFieldsWithFlags(t, flags) == ConcatFields(Reverse(HarvestedLevels(t)), flags)
  {
    if t.Type? && IsHarvestable(t) {
      var below := HarvestedLevels(t.baseType);
      assert HarvestedLevels(t) == [t] + below;
      assert Reverse(HarvestedLevels(t)) == Reverse(below) + [t] by {
        assert ([t] + below)[1..] == below;
      }
      GetFieldsIsBaseFirst(t.baseType, flags);
      ConcatFieldsAppend(Reverse(below), t, flags);
    }
  }

  /** The walk returns as many fields as the lookups with `flags` report on the harvestable levels. */
  lemma {:induction false} GetFieldsLength(t: TypeRef, flags: BindingFlags)
    ensures |GetFieldsWithFlags(t, flags)| == FieldCount(HarvestedLevels(t), flags)
  {
    if t.Type? && IsHarvestable(t) {
      assert HarvestedLevels(t) == [t] + HarvestedLevels(t.baseType);
      GetFieldsLength(t.baseType, flags);
    }
  }

  /** A field is returned exactly when the lookup with `flags` on some harvestable level reports it. */
  lemma {:induction false} GetFieldsMembership(t: TypeRef, flags: BindingFlags, f: FieldInfo)
    ensures f in GetFieldsWithFlags(t, flags) <==>
            exists L | L in HarvestedLevels(t) :: f in TypeGetFields(L, flags)
  {
    if t.Type? && IsHarvestable(t) {
      var below := HarvestedLevels(t.baseType);
      assert HarvestedLevels(t) == [t] + below;
      GetFieldsMembership(t.baseType, flags, f);
      if f in GetFieldsWithFlags(t, flags) {
        if f in TypeGetFields(t, flags) {
          assert t in HarvestedLevels(t);
        } else {
          var L :| L in below && f in TypeGetFields(L, flags);
          assert L in HarvestedLevels(t);
        }
      }
    }
  }

  /** With the default flags, a field is returned exactly when it is an instance field of a harvestable level. */
  lemma GetFieldsSelectsInstanceFields(t: TypeRef, f: FieldInfo)
    ensures f in GetFields(t) <==> exists L | L in HarvestedLevels(t) :: f in L.fields && !f.isStatic
  {
    GetFieldsMembership(t, DefaultFlags, f);
    if exists L | L in HarvestedLevels(t) :: f in L.fields && !f.isStatic {
      var L :| L in HarvestedLevels(t) && f in L.fields && !f.isStatic;
      assert f in TypeGetFields(L, DefaultFlags);
    }
  }

  /** A harvestable type without a base type yields exactly its own selected fields, in declaration order. */
  lemma RootTypeYieldsOwnFields(t: TypeRef, flags: BindingFlags)
    requires t.Type? && t.baseType.Null? && IsHarvestable(t)
    ensures GetFieldsWithFlags(t, flags) == DeclaredFields(t, flags)
    ensures GetFields(t) == FilterFields(t.fields, DefaultFlags, false)
  {
    assert InheritedFields(t.baseType, flags) == [];
    assert GetFieldsWithFlags(t.baseType, flags) == [];
    assert GetFieldsWithFlags(t.baseType, DefaultFlags) == [];
  }

  /** A type whose name is denied yields nothing, whatever it declares and whatever its base types. */
  lemma NonHarvestableTypeYieldsNothing(name: string, base: TypeRef, fields: seq<FieldInfo>, flags: BindingFlags)
    requires exists p | p in NonHarvestablePrefixes :: StartsWith(name, p)
    ensures GetFieldsWithFlags(Type(name, base, fields), flags) == []
  {
  }

  /**
   With `DeclaredOnly`, the walk stops at the first type that is not
   harvestable: only the levels below it in `Ancestry(t)` contribute fields.
   (Without it, see `InheritedLookupPassesNonHarvestableBase`.)
   */
  lemma WalkStopsAtNonHarvestable(t: TypeRef, k: nat, flags: BindingFlags, f: FieldInfo)
    requires DeclaredOnly in flags
    requires k < |Ancestry(t)| && !IsHarvestable(Ancestry(t)[k])
    requires f in GetFieldsWithFlags(t, flags)
    ensures exists i | 0 <= i < k :: f in DeclaredFields(Ancestry(t)[i], flags)
  {
    var levels := HarvestedLevels(t);
    assert forall i | 0 <= i < |levels| :: IsHarvestable(Ancestry(t)[i]) by {
      forall i | 0 <= i < |levels|
        ensures IsHarvestable(Ancestry(t)[i])
      {
        assert levels[i] in levels;
      }
    }
    GetFieldsMembership(t, flags, f);
    var L :| L in levels && f in TypeGetFields(L, flags);
    var i :| 0 <= i < |levels| && levels[i] == L;
    assert Ancestry(t)[i] == L;
  }

  lemma DistinctConcat<T>(a: seq<T>, b: seq<T>)
    requires Distinct(a) && Distinct(b)
    requires forall x | x in a :: x !in b
    ensures Distinct(a + b)
  {
    forall i, j | 0 <= i < j < |a + b|
      ensures (a + b)[i] != (a + b)[j]
    {
      if i < |a| && j >= |a| {
        assert (a + b)[i] in a && (a + b)[j] in b;
      }
    }
  }

  /**
   With `DeclaredOnly`, on a well-formed type, every field is reported once and
   belongs to the type or one of its base types. (Without it, see
   `InheritedLookupRepeatsBaseFields`.)
   */
  lemma {:induction false} GetFieldsNoDuplicates(t: TypeRef, flags: BindingFlags)
    requires DeclaredOnly in flags
    requires WellFormed(t)
    ensures Distinct(GetFieldsWithFlags(t, flags))
    ensures forall f | f in GetFieldsWithFlags(t, flags) :: f.declaringType in AncestryNames(t)
  {
    if t.Type? && IsHarvestable(t) {
      var upper := GetFieldsWithFlags(t.baseType, flags);
      var own := TypeGetFields(t, flags);
      GetFieldsNoDuplicates(t.baseType, flags);
      assert Ancestry(t) == [t] + Ancestry(t.baseType);
      assert AncestryNames(t) == {t.name} + AncestryNames(t.baseType);
      forall f | f in upper
        ensures f !in own
      {
        assert f.declaringType != t.name;
      }
      DistinctConcat(upper, own);
    }
  }

  /** Without `DeclaredOnly`, a base type's public field is reported by both levels, so the walk returns it twice. */
  lemma InheritedLookupRepeatsBaseFields()
    ensures
      var x := FieldInfo("x", "App.A", "int", PublicAccess, false);
      var y := FieldInfo("y", "App.B", "int", PublicAccess, false);
      var b := Type("App.B", Type("App.A", Null, [x]), [y]);
      && WellFormed(b)
      && GetFieldsWithFlags(b, {Public, Instance}) == [x, y, x]
      && !Distinct(GetFieldsWithFlags(b, {Public, Instance}))
  {
    var x := FieldInfo("x", "App.A", "int", PublicAccess, false);
    var y := FieldInfo("y", "App.B", "int", PublicAccess, false);
    var a := Type("App.A", Null, [x]);
    var b := Type("App.B", a, [y]);
    var flags := {Public, Instance};
    assert "App.A"[4] != "App.B"[4];
    assert Ancestry(a) == [a];
    assert AncestryNames(a) == {"App.A"};
    assert "App.A"[0] == 'A' && "App.B"[0] == 'A';
    assert GetFieldsWithFlags(a, flags) == [x];
    assert TypeGetFields(b, flags) == [y, x];
    assert GetFieldsWithFlags(b, flags)[0] == GetFieldsWithFlags(b, flags)[2];
  }

  /** Without `DeclaredOnly`, a field declared above a non-harvestable base type is still returned. */
  lemma InheritedLookupPassesNonHarvestableBase()
    ensures
      var x := FieldInfo("x", "System.Runtime.A", "int", PublicAccess, false);
      var a := Type("System.Runtime.A", Null, [x]);
      var b := Type("App.B", a, []);
      && !IsHarvestable(a)
      && x in GetFieldsWithFlags(b, {Public, Instance})
  {
    var x := FieldInfo("x", "System.Runtime.A", "int", PublicAccess, false);
    var a := Type("System.Runtime.A", Null, [x]);
    var b := Type("App.B", a, []);
    assert StartsWith("System.Runtime.A", "System.Runtime");
    assert "App.B"[0] == 'A';
    assert FilterFields([x], {Public, Instance}, true) == [x];
    assert InheritedFields(a, {Public, Instance}) == [x];
    assert TypeGetFields(b, {Public, Instance}) == [x];
  }

  // ---------------------------------------------------------------------------
  // Properties of IsHarvestable
  // ---------------------------------------------------------------------------

  lemma DeniedPrefixesAreNotHarvestable(p: string, rest: string, base: TypeRef, fields: seq<FieldInfo>)
    requires p in NonHarvestablePrefixes
    ensures !IsHarvestable(Type(p + rest, base, fields))
  {
  }

  /** An application type is dumped; reflection, runtime and delegate types are not. */
  lemma HarvestabilityExamples()
    ensures IsHarvestable(Type("MyApp.Order", Null, []))
    ensures !IsHarvestable(Type("System.Reflection.RuntimeFieldInfo", Null, []))
    ensures !IsHarvestable(Type("System.RuntimeType", Null, []))
    ensures !IsHarvestable(Type("System.Func`2[System.Int32,System.String]", Null, []))
  {
    assert "MyApp.Order"[0] == 'M';
    assert StartsWith("System.Reflection.RuntimeFieldInfo", "System.Reflection");
    assert StartsWith("System.RuntimeType", "System.Runtime");
    assert StartsWith("System.Func`2[System.Int32,System.String]", "System.Func");
  }

  // ---------------------------------------------------------------------------
  // Properties of SanitizeFieldName
  // ---------------------------------------------------------------------------

  /** A pattern whose first character does not recur in it is first found, after a part free of it, at the part's end. */
  lemma FirstOccurrenceAtEnd(p: string, pat: string)
    requires pat != "" && pat[0] !in pat[1..] && !Contains(p, pat)
    ensures NoOccurrenceBefore(p + pat, pat, |p|)
  {
    forall j: nat | j < |p|
      ensures !OccursAt(p + pat, pat, j)
    {
      if j + |pat| <= |p| {
        OccursAtInPrefix(p, pat, pat, j);
      } else {
        var k := |p| - j;
        assert pat[1..][k - 1] == pat[k];
        assert (p + pat)[j..j + |pat|][k] == pat[0];
      }
    }
  }

  /**
   A name starting with '<' becomes the pieces of the rest of the name that
   lie between its backing-field suffixes, as a left-to-right scan finds them.
   */
  lemma SanitizeJoinsPieces(fieldName: string, pieces: seq<string>)
    requires StartsWith(fieldName, "<")
    requires LeftmostSplit(pieces, BackingFieldSuffix) && Join(pieces, BackingFieldSuffix) == fieldName[1..]
    ensures SanitizeFieldName(fieldName) == Join(pieces, "")
  {
    ReplaceAllIsJoin(pieces, BackingFieldSuffix, "");
  }

  /** A name that does not start with '<' is returned as it is. */
  lemma SanitizeKeepsUndecoratedNames(fieldName: string)
    requires !StartsWith(fieldName, "<")
    ensures SanitizeFieldName(fieldName) == fieldName
  {
  }

  /** Sanitising the backing field of a property gives back the property's name. */
  lemma SanitizeRestoresPropertyName(property: string)
    requires !Contains(property, BackingFieldSuffix)
    ensures SanitizeFieldName(BackingFieldName(property)) == property
  {
    var name := BackingFieldName(property);
    assert name[..1] == "<";
    assert name[1..] == Join([property, ""], BackingFieldSuffix);
    assert BackingFieldSuffix[1..] == "k__BackingField";
    FirstOccurrenceAtEnd(property, BackingFieldSuffix);
    assert LeftmostSplit([property, ""], BackingFieldSuffix);
    SanitizeJoinsPieces(name, [property, ""]);
  }

  /** A field named like a property and that property's backing field are shown under the same name. */
  lemma SanitizedNamesCanCollide(property: string)
    requires !Contains(property, BackingFieldSuffix) && !StartsWith(property, "<")
    ensures BackingFieldName(property) != property
    ensures SanitizeFieldName(property) == SanitizeFieldName(BackingFieldName(property))
  {
    SanitizeRestoresPropertyName(property);
  }

  /** The backing field of `Age` is shown as `Age`. */
  lemma SanitizeBackingFieldExample()
    ensures SanitizeFieldName("<Age>k__BackingField") == "Age"
  {
    SanitizeRestoresPropertyName("Age");
    assert BackingFieldName("Age") == "<Age>k__BackingField";
  }

  /** A name without the '<' marker is left alone. */
  lemma SanitizeUndecoratedExample()
    ensures SanitizeFieldName("count") == "count"
  {
    assert "count"[0] == 'c';
  }

  /** A field `Items` and the backing field of a property `Items` are both shown as `Items`. */
  lemma SanitizeCollisionExample()
    ensures SanitizeFieldName("Items") == "Items"
    ensures SanitizeFieldName("<Items>k__BackingField") == "Items"
  {
    assert "Items"[0] == 'I';
    SanitizedNamesCanCollide("Items");
    assert BackingFieldName("Items") == "<Items>k__BackingField";
  }

  /** Sanitising twice can strip a second '<': the operation is not idempotent. */
  lemma SanitizeIsNotIdempotent()
    ensures SanitizeFieldName("<<Age>k__BackingField") == "<Age"
    ensures SanitizeFieldName(SanitizeFieldName("<<Age>k__BackingField")) == "Age"
  {
    SanitizeRestoresPropertyName("<Age");
    assert BackingFieldName("<Age") == "<<Age>k__BackingField";
    assert SanitizeFieldName("<Age") == "Age";
  }

  /** Removing one suffix can join the text around it into a new suffix, which stays in the result. */
  lemma SanitizeCanLeaveSuffix()
    ensures SanitizeFieldName("<>k__Backing>k__BackingFieldField") == BackingFieldSuffix
  {
    var pieces := [">k__Backing", "Field"];
    assert BackingFieldSuffix[1..] == "k__BackingField";
    FirstOccurrenceAtEnd(">k__Backing", BackingFieldSuffix);
    assert LeftmostSplit(pieces, BackingFieldSuffix);
    assert Join(pieces, BackingFieldSuffix) == ">k__Backing>k__BackingFieldField";
    assert Join(pieces, "") == BackingFieldSuffix;
    SanitizeJoinsPieces("<>k__Backing>k__BackingFieldField", pieces);
  }
}
