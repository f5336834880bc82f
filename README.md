# StatePrinter field harvesting helper, in Dafny

This project models `HarvestHelper`, the reusable helper behind StatePrinter's
field harvesters. StatePrinter prints the state of an object through its
fields. The helper has three jobs:

- `GetFields` enumerates the instance fields of a type and of all its base types.
  It walks the base-type chain recursively and puts base-type fields first.
- `IsHarvestable` stops the walk at types whose names start with a denied
  framework prefix: `System.Reflection`, `System.Runtime`,
  `System.SignatureStruct` and `System.Func`.
- `SanitizeFieldName` turns a compiler-generated backing-field name such as
  `<Age>k__BackingField` back into the property name `Age`.

The project has two modules:

- `Strings` (`strings.dfy`) gives the .NET string operations the helper uses
  their ordinal meaning: `String.StartsWith` and `String.Replace`. `Replace` is
  defined as a left-to-right scan, `ReplaceAll`. It is proved equal to a
  declarative reading: cut the string at the occurrences a scan finds, then
  join the pieces with the replacement.
- `HarvestHelper` (`harvest_helper.dfy`) holds the model of the helper itself.
  - A `TypeRef` stands for a `System.Type` reference. It is either `Null` or a
    type with its name as `ToString()` gives it, its `BaseType` and the fields
    it declares, in reflection's order.
  - A `FieldInfo` holds a field's raw name, its declaring type, its field type,
    its accessibility (public, private, or protected/internal) and whether it
    is static.
  - `Type.GetFields(flags)` becomes `TypeGetFields`. It reports the declared
    fields that `Public`/`NonPublic` and `Instance`/`Static` select. Unless
    `DeclaredOnly` is given, it also reports the non-private fields inherited
    from base types. Inherited statics are reported only under
    `FlattenHierarchy`.

Every operation of the helper is a pure function. Its properties are stated
against independent definitions:

- The recursive walk equals the lookups on the harvestable ancestors,
  concatenated in reverse (`GetFieldsIsBaseFirst`).
- The number of fields returned equals the sum of the per-level counts
  (`GetFieldsLength`).
- A field is returned exactly when the lookup on some harvestable level
  reports it (`GetFieldsMembership`).
- For lookups with `DeclaredOnly`, as the one-argument `GetFields` makes them:
  - if reflection's answers are consistent, no field is returned twice
    (`GetFieldsNoDuplicates`);
  - nothing at or above the first non-harvestable type is returned
    (`WalkStopsAtNonHarvestable`).
- Without `DeclaredOnly`, both of those fail. A base type's public field is
  returned twice (`InheritedLookupRepeatsBaseFields`). A field above a
  non-harvestable base type is still returned, through the derived type's
  lookup (`InheritedLookupPassesNonHarvestableBase`).
- Sanitising the compiler's name for a property's backing field gives back the
  property name (`SanitizeRestoresPropertyName`).

Some of the source's behaviour is kept on purpose and proved:

- A plain field `Items` and the backing field of a property `Items` are both
  shown as `Items` (`SanitizedNamesCanCollide`).
- Sanitising is not idempotent: `<<Age>k__BackingField` becomes `<Age` and
  then `Age` (`SanitizeIsNotIdempotent`).
- One removal can join the text around it into a new suffix
  (`SanitizeCanLeaveSuffix`).
- The check is a plain prefix test, not a namespace test. So
  `System.RuntimeType` is not harvestable because it starts with
  `System.Runtime` (`HarvestabilityExamples`).

## Model

| member | source | states |
|---|---|---|
| `Strings.StartsWithIsConcatenation` | StatePrinter/FieldHarvesters/HarvestHelper.cs:70-73 | `s.StartsWith(p)` (ordinal) holds exactly when `s` is `p` followed by some rest |
| `Strings.ReplaceAll` | StatePrinter/FieldHarvesters/HarvestHelper.cs:81 | `String.Replace` as a left-to-right scan; a replacement no longer than the pattern never lengthens the string |
| `Strings.ReplaceAllWithoutOccurrence` | StatePrinter/FieldHarvesters/HarvestHelper.cs:81 | replacing in a string that does not contain the pattern returns it unchanged |
| `Strings.RemoveAllShortens` | StatePrinter/FieldHarvesters/HarvestHelper.cs:81 | `Replace(pat, "")` shortens the string if and only if the pattern occurs in it |
| `Strings.ReplaceAllSkipsClean` | StatePrinter/FieldHarvesters/HarvestHelper.cs:81 | a front part in which no occurrence starts is copied unchanged, and the scan continues after it |
| `Strings.ReplaceAllAtFront` | StatePrinter/FieldHarvesters/HarvestHelper.cs:81 | an occurrence at the front is replaced and the scan resumes right after it (no overlapping matches) |
| `Strings.ReplaceAllIsJoin` | StatePrinter/FieldHarvesters/HarvestHelper.cs:81 | for any cut of a string at its leftmost occurrences of the pattern, `Replace` equals joining the pieces with the replacement |
| `Strings.LeftmostSplitExists` | StatePrinter/FieldHarvesters/HarvestHelper.cs:81 | every string has such a cut, so the declarative reading covers every input |
| `HarvestHelper.FilterFields` | StatePrinter/FieldHarvesters/HarvestHelper.cs:61 | the per-type selection inside `type.GetFields(flags)`: exactly the fields the flags select (and that a derived type inherits, when looking at a base type), as a subsequence in declaration order, all of them when all are selected, without introducing duplicates |
| `HarvestHelper.InheritedFields` | StatePrinter/FieldHarvesters/HarvestHelper.cs:61 | what `type.GetFields(flags)` adds from the base types when `DeclaredOnly` is absent: only fields the flags select, none private, statics only under `FlattenHierarchy` |
| `HarvestHelper.TypeGetFields` | StatePrinter/FieldHarvesters/HarvestHelper.cs:61 | `type.GetFields(flags)`: every reported field is selected by the flags, every selected declared field is reported, with `DeclaredOnly` exactly the selected declared fields in declaration order, and without it every inherited field too |
| `HarvestHelper.IsHarvestable` | StatePrinter/FieldHarvesters/HarvestHelper.cs:67-76 | a type is harvestable if and only if its name starts with none of the four denied prefixes |
| `HarvestHelper.GetFieldsWithFlags` | StatePrinter/FieldHarvesters/HarvestHelper.cs:53-62 | `GetFields(type, flags)`: every field returned is one the flags select |
| `HarvestHelper.GetFields` | StatePrinter/FieldHarvesters/HarvestHelper.cs:39-47 | `GetFields(type)` passes `DefaultFlags` (Public, NonPublic, Instance and DeclaredOnly, lines 41-44) and returns no static field |
| `HarvestHelper.HarvestablePrefix` | StatePrinter/FieldHarvesters/HarvestHelper.cs:58-61 | the levels the walk visits: the longest prefix of the base-type chain, starting at the type, whose types are all harvestable |
| `HarvestHelper.GetFieldsIsBaseFirst` | StatePrinter/FieldHarvesters/HarvestHelper.cs:53-62 | the result is what `type.GetFields(flags)` reports on each harvestable level, with the same flags at every level, most basic level first and the type's own lookup last |
| `HarvestHelper.GetFieldsLength` | StatePrinter/FieldHarvesters/HarvestHelper.cs:53-62 | the number of fields returned is the sum, over the harvestable levels, of the number of fields the lookup reports there |
| `HarvestHelper.GetFieldsMembership` | StatePrinter/FieldHarvesters/HarvestHelper.cs:53-62 | a field is returned if and only if the lookup with the flags on some harvestable level reports it |
| `HarvestHelper.GetFieldsSelectsInstanceFields` | StatePrinter/FieldHarvesters/HarvestHelper.cs:39-62 | the one-argument overload returns exactly the instance fields, public or not, of the harvestable levels |
| `HarvestHelper.RootTypeYieldsOwnFields` | StatePrinter/FieldHarvesters/HarvestHelper.cs:55-61 | a harvestable type with no base type yields exactly its own selected fields, in declaration order |
| `HarvestHelper.NonHarvestableTypeYieldsNothing` | StatePrinter/FieldHarvesters/HarvestHelper.cs:58-59 | a type whose name starts with a denied prefix yields nothing, whatever it declares and whatever its base types are |
| `HarvestHelper.WalkStopsAtNonHarvestable` | StatePrinter/FieldHarvesters/HarvestHelper.cs:58-61 | with `DeclaredOnly`, every returned field is declared on a level below the first non-harvestable type in the chain; nothing at or above it is included |
| `HarvestHelper.GetFieldsNoDuplicates` | StatePrinter/FieldHarvesters/HarvestHelper.cs:61 | with `DeclaredOnly` and consistent reflection, each field is returned once, and its declaring type is the type or one of its base types |
| `HarvestHelper.InheritedLookupRepeatsBaseFields` | StatePrinter/FieldHarvesters/HarvestHelper.cs:53-62 | with `{Public, Instance}` (no `DeclaredOnly`), a consistent chain where A declares `x` and B declares `y` yields `[x, y, x]`, with `x` returned twice |
| `HarvestHelper.InheritedLookupPassesNonHarvestableBase` | StatePrinter/FieldHarvesters/HarvestHelper.cs:58-61 | with `{Public, Instance}`, a field of the non-harvestable base `System.Runtime.A` is still returned for its harvestable subtype |
| `HarvestHelper.DeniedPrefixesAreNotHarvestable` | StatePrinter/FieldHarvesters/HarvestHelper.cs:69-74 | every name that begins with one of the four denied prefixes is not harvestable |
| `HarvestHelper.HarvestabilityExamples` | StatePrinter/FieldHarvesters/HarvestHelper.cs:67-76 | `MyApp.Order` is harvestable; a reflection type, `System.RuntimeType` and a `System.Func` delegate type are not |
| `HarvestHelper.SanitizeFieldName` | StatePrinter/FieldHarvesters/HarvestHelper.cs:78-83 | sanitising never lengthens a name, and a name starting with '<' always gets strictly shorter |
| `HarvestHelper.SanitizeKeepsUndecoratedNames` | StatePrinter/FieldHarvesters/HarvestHelper.cs:80-82 | a name that does not start with '<', the empty name included, is returned unchanged |
| `HarvestHelper.SanitizeJoinsPieces` | StatePrinter/FieldHarvesters/HarvestHelper.cs:80-81 | a name starting with '<' becomes the pieces of the rest of the name between its `>k__BackingField` suffixes, concatenated |
| `HarvestHelper.SanitizeRestoresPropertyName` | StatePrinter/FieldHarvesters/HarvestHelper.cs:33-81 | for every property name not containing the suffix, sanitising the compiler's backing-field name `<name>k__BackingField` gives back the name |
| `HarvestHelper.SanitizedNamesCanCollide` | StatePrinter/FieldHarvesters/HarvestHelper.cs:78-83 | a plain field named like a property and that property's backing field have different raw names but the same sanitised name |
| `HarvestHelper.SanitizeBackingFieldExample` | StatePrinter/FieldHarvesters/HarvestHelper.cs:80-81 | `<Age>k__BackingField` is shown as `Age` |
| `HarvestHelper.SanitizeUndecoratedExample` | StatePrinter/FieldHarvesters/HarvestHelper.cs:82 | `count` is shown as `count` |
| `HarvestHelper.SanitizeCollisionExample` | StatePrinter/FieldHarvesters/HarvestHelper.cs:78-83 | `Items` and `<Items>k__BackingField` are both shown as `Items` |
| `HarvestHelper.SanitizeIsNotIdempotent` | StatePrinter/FieldHarvesters/HarvestHelper.cs:80-81 | `<<Age>k__BackingField` is shown as `<Age`, and sanitising that again gives `Age`, so sanitising twice differs from sanitising once |
| `HarvestHelper.SanitizeCanLeaveSuffix` | StatePrinter/FieldHarvesters/HarvestHelper.cs:81 | removing one suffix can join the surrounding text into a new `>k__BackingField`, which stays in the result |

## Left out

- .NET reflection. A type is a value holding its name, its base type and its declared fields, taken as given. `Type.BaseType` and `Type.GetFields` are reads of that value.
- TypeGetFields: of all the `BindingFlags` members, only `Public`, `NonPublic`, `Instance`, `Static`, `DeclaredOnly` and `FlattenHierarchy` are modelled. Accessibility is reduced to public, private and "other" (protected or internal), which is all the inheritance rule needs.
- TypeGetFields: .NET does not promise an order for `Type.GetFields`. The model lists the declared fields in declaration order, then the inherited ones, nearest base type first.
- How `Type.ToString()` formats generic and nested type names. The name is a given string.
- Culture-sensitive comparison in `String.StartsWith(string)`. Prefix tests are ordinal.
- The deferred evaluation of `Enumerable.Empty` and `Concat`. Results are finite sequences.
- IsHarvestable: requires a non-null type. On null, the source throws a `NullReferenceException` from `type.ToString()`, and that exception is not modelled.
- GetFieldsNoDuplicates: requires `DeclaredOnly` among the flags and consistent reflection answers (`WellFormed`). The helper itself does nothing to avoid duplicates. Without `DeclaredOnly`, the two-argument overload returns inherited fields twice (`InheritedLookupRepeatsBaseFields`).
- WalkStopsAtNonHarvestable: requires `DeclaredOnly` among the flags. Without it, the lookup on a harvestable type reaches past a non-harvestable base (`InheritedLookupPassesNonHarvestableBase`).
- Idempotence of `SanitizeFieldName` and the absence of the suffix from its result. The code does not promise either; `SanitizeIsNotIdempotent` and `SanitizeCanLeaveSuffix` show both fail.
