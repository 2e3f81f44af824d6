# dotnet-files document model in Dafny

This project models the document layer of `dotnet-files`, a C# library for reading and editing
MSBuild project files (`.csproj`) and XML solution files (`.slnx`) as typed documents over a
generic XML tree. The model covers:

- the per-node codecs: the `Include` attribute; attribute-or-child lookup; the strict
  `"true"`/`"false"` boolean codec; the strict enum codec, whose writes keep a field in the form it
  already has (attribute or child element).
- the typed item views: `PackageReference` (Version and three `Assets` flag lists),
  `ProjectReference`, `EmbeddedResource`, `Analyzer` and `Content`.
- the `Solution` entries and their `Path`.
- the `Assets` flags enum and its `;`-separated text.
- the `LangVersion` and `Sdk` token tables.
- the `Project` façade:
  - choosing the `PropertyGroup` for a condition, and reading and writing properties in it;
  - the target-framework list, which the façade caches and re-saves in singular or plural form;
  - the `ItemGroup` holding a kind, and adding, listing, clearing and removing items.
- the `Solution` façade, which clears, queries, adds and lists its `Project` entries.

The XML tree is a value, `Xml.Node(name, attributes, children, content)`.
- The `Project` and `Solution` classes hold their root in a mutable field, and every method that
  edits the document replaces that field.
- `Project` also holds the target-framework cache in a field.
- Each state-changing method is specified by a pure function of the old tree: `WithProperty`,
  `SavedTargetFrameworks`, `WithItem`, `WithoutItemsNamed`, `WithoutItem` and `Others`.
- Lemmas prove what those functions preserve and what reads back after them.
- The source's loops are methods with loop invariants, proved equal to those functions:
  - the target-framework split and join;
  - the asset-list scan;
  - the group and property searches;
  - the item listing and both item removals;
  - the solution loops.
- Exceptions become `Results.Result` values carrying an `Error` that says which case was hit.

Where the code's own comments or checks show an intent that the code does not carry out, the model
follows the code:

- Saving an empty target-framework list removes the first `TargetFramework` element, or the
  first `TargetFrameworks` element if there is no singular one. It never removes both, although
  the comment at `source/Project.cs:183` says both are removed when they exist
  (`source/Project.cs:182-194`). `ProjectFrameworks.ClearKeepsListBesideSingle` shows that a list
  kept beside a singular element still loads after a clear.
- Removing an item by its Include never removes its `ItemGroup`, even when that leaves the group
  empty (`source/Project.cs:562-586`). The check for an empty group at `source/Project.cs:579-583`
  runs only when nothing matched, so it never runs after a removal, and at that point the group
  still holds an item of the kind. `ProjectItems.RemoveLastItemKeepsGroup` states
  the outcome. Clearing a kind (`RemoveItemsWithName`) does remove the group it empties.
- Only the first `ItemGroup` holding a kind is cleared (`ProjectItems.ClearLeavesLaterGroups`).

## Model

| member | source | states |
|---|---|---|
| `TextOps.SegmentsJoin` | source/Project.cs:148-241 | a list saved joined with `;` loads back as the same parts when no part holds a separator and the last is non-empty |
| `TextOps.TrailingSeparator` | source/Project.cs:159-175 | a trailing separator adds no element to the scanned list |
| `Tokens.FindName` | source/Extensions/XMLNodeExtensions.cs:114 | enum parsing finds the first member name matching the text, and reports none only when no name matches |
| `Tokens.ParseEnumName` | source/Extensions/XMLNodeExtensions.cs:127-163 | the member name written for a value parses back to that value when the names are distinct and have no blank at either end |
| `LangVersions.IndexOf` | source/LangVersion.cs:78 | the table index is the first position holding the value, and -1 exactly when the value is not in the table |
| `LangVersions.TryParse` | source/LangVersion.cs:75-87 | accepts exactly the fifteen tokens of `All`, returns the token with that text, and the default value otherwise |
| `LangVersions.AcceptedTexts` | source/LangVersion.cs:29-46 | a version is in `All` exactly when its text is one of the fifteen listed tokens |
| `LangVersions.Parse` | source/LangVersion.cs:89-99 | succeeds exactly when `TryParse` does, with a value printing as the text; otherwise fails naming the text |
| `LangVersions.Equals` | source/LangVersion.cs:65-68 | two versions are equal exactly when their texts are |
| `LangVersions.ParseToString` | source/LangVersion.cs:55-99 | every version in `All` parses back from its text |
| `LangVersions.ToString` | source/LangVersion.cs:55-58 | the token's text; `TryParse` and `ParseToString` state that each version in `All` is read back from it |
| `LangVersions.RetiredVersionsRejected` | source/LangVersion.cs:23-46 | C# 6 down to C# 1 are declared but not in `All`, so their texts do not parse |
| `Sdks.IndexOf` | source/Sdk.cs:46 | the table index is the first position holding the SDK, and -1 exactly when it is absent |
| `Sdks.TryParse` | source/Sdk.cs:43-55 | accepts exactly `Microsoft.NET.Sdk` and `Microsoft.NET.Sdk.Web`, returning the SDK with that text |
| `Sdks.Equals` | source/Sdk.cs:28-31 | two SDKs are equal exactly when their texts are |
| `Sdks.ParseToString` | source/Sdk.cs:38-55 | every SDK in `All` parses back from its text |
| `Sdks.ToString` | source/Sdk.cs:38-41 | the SDK's text; `TryParse` and `ParseToString` state that each SDK in `All` is read back from it |
| `AssetFlags.Weight` | source/Assets.cs:5-17 | each flag's numeric value is its power of two, from All = 1 to None = 512 |
| `AssetFlags.AllAndNoneAreOrdinaryBits` | source/Assets.cs:7-16 | `All` and `None` are single bits like the others, so `All` is not the union of the other flags |
| `AssetFlags.ValueRange` | source/Assets.cs:5-17 | a flag set's numeric value is at most 1023, and at least 1 when the set is non-empty |
| `AssetFlags.CompileRuntimeValue` | source/Assets.cs:9-10 | Compile together with Runtime has value 6 |
| `AssetFlags.FoldedNamesDistinct` | source/Assets.cs:5-17 | the ten flag names stay distinct ignoring case |
| `AssetFlags.ParseFlagIgnoresCase` | source/PackageReference.cs:86 | a segment parses to a flag exactly when, with the blanks around it dropped, it equals that flag's name ignoring case |
| `AssetFlags.ParseFlag` | source/PackageReference.cs:86 | `Enum.TryParse(part, true)` on member names: the blanks around the segment dropped, then a name looked up ignoring case; `ParseFlagIgnoresCase` and `ParseFlagName` state its meaning |
| `AssetFlags.ParseFlags` | source/PackageReference.cs:80-111 | the union of the segments' flags, failing on the first segment that names no member; `ParseFlagsFails`, `ParseFlagsConcat` and `ParseFlagsOrderIndependent` state its meaning |
| `AssetFlags.ParseAssets` | source/PackageReference.cs:73-125 | text without `;` parsed whole, otherwise segment by segment; `ParseAssetsIsScan`, `FormatParse` and `EmptyDoesNotReadBack` state its meaning |
| `AssetFlags.FormatAssets` | source/PackageReference.cs:139 | `ToString()` with ", " replaced by ";": the names of the members in ascending bit order joined by `;`, and "0" for the empty set; `FormatParse` and `EmptyDoesNotReadBack` state its meaning |
| `TextOps.TrimBlanks` | source/PackageReference.cs:86 | the blanks `Enum.TryParse` skips around a name dropped from both ends; `TrimBlanksSlice` states its meaning |
| `TextOps.TrimBlanksSlice` | source/PackageReference.cs:86 | the trimmed text is a slice of the input with only blanks before and after it, and no blank at either of its own ends |
| `TextOps.TrimStartSuffix` | source/PackageReference.cs:86 | dropping the leading blanks keeps a suffix, drops only blanks and stops at a character that is not blank |
| `TextOps.TrimEndPrefix` | source/PackageReference.cs:86 | dropping the trailing blanks keeps a prefix, drops only blanks and stops at a character that is not blank |
| `AssetFlags.ParseFlagsFails` | source/PackageReference.cs:80-113 | a list of segments fails exactly when some segment names no flag, and the error carries such a segment |
| `AssetFlags.ParseFlagsConcat` | source/PackageReference.cs:80-113 | the flags read from two lists together are the union of the flags read from each |
| `AssetFlags.ParseFlagsStopsAtInvalid` | source/PackageReference.cs:86-93 | the first segment that names no flag is the one the error reports |
| `AssetFlags.ScanAssets` | source/PackageReference.cs:75-113 | the segment-by-segment scan returns the flags of the text's segments, or the error for the first bad segment |
| `AssetFlags.ParseAssetsIsScan` | source/PackageReference.cs:73-125 | a whole non-empty text parses as its segments do; the empty text is an error |
| `AssetFlags.FormatParse` | source/PackageReference.cs:71-163 | the `;`-joined names written for a non-empty flag set read back as that set |
| `AssetFlags.SpacedListParses` | source/PackageReference.cs:80-111 | a blank after the separator is skipped: "runtime; build" reads as Runtime and Build |
| `AssetFlags.EmptyDoesNotReadBack` | source/PackageReference.cs:139 | the empty set is written as "0", which reads back as an error |
| `AssetFlags.ParseFlagsOrderIndependent` | source/PackageReference.cs:80-113 | the order of the segments does not change whether or what the list parses to |
| `AssetFlags.SwappedPair` | source/PackageReference.cs:73-125 | `a;b` and `b;a` parse to the same flags |
| `NodeExtensions.SetInclude` | source/Extensions/XMLNodeExtensions.cs:20-30 | Include reads back as the text written; empty text removes the attribute; other attributes and the children are unchanged |
| `NodeExtensions.GetInclude` | source/Extensions/XMLNodeExtensions.cs:10-18 | the Include attribute's text, or empty text when it is absent; the `SetInclude` contract and `EmptyPackagePathKeepsAttribute` state what reads back |
| `NodeExtensions.TryGetAttributeOrChild` | source/Extensions/XMLNodeExtensions.cs:32-50 | a field is found exactly when the node has the attribute or a child of that name |
| `NodeExtensions.AttributeWinsOverChild` | source/Extensions/XMLNodeExtensions.cs:34-39 | with both an attribute and a child of the name, the attribute's value is read |
| `NodeExtensions.FirstChildWhenNoAttribute` | source/Extensions/XMLNodeExtensions.cs:41-46 | without the attribute, the first child of the name supplies the text |
| `NodeExtensions.SetField` | source/Extensions/XMLNodeExtensions.cs:73-108 | a written value reads back in the form the field had (a new field becomes an attribute); no value on an absent field changes nothing; other fields and attributes read the same |
| `NodeExtensions.SetFieldToCurrent` | source/Extensions/XMLNodeExtensions.cs:127-163 | writing the text a field already holds leaves the node unchanged |
| `NodeExtensions.GetBoolean` | source/Extensions/XMLNodeExtensions.cs:52-71 | absent reads as no value; only exactly "true" and "false" are booleans; other text is a format error carrying it |
| `NodeExtensions.SetBoolean` | source/Extensions/XMLNodeExtensions.cs:73-108 | a value reads back, and no value reads back absent when the field was written at most once; the field keeps its form; other fields are unchanged |
| `NodeExtensions.SetBooleanToCurrent` | source/Extensions/XMLNodeExtensions.cs:73-108 | writing the boolean a field already reads leaves the node unchanged |
| `NodeExtensions.GetEnum` | source/Extensions/XMLNodeExtensions.cs:110-125 | absent reads as no value; a member name in exact case, with blanks around it allowed, reads as that member; other text is a format error naming the enum type and the text |
| `NodeExtensions.SetEnum` | source/Extensions/XMLNodeExtensions.cs:127-163 | with distinct member names a written value reads back; the field keeps its form; other fields are unchanged |
| `PackageReferences.GetVersion` | source/PackageReference.cs:17-29 | a version exists exactly when the Version attribute does, and prints as that attribute's text |
| `PackageReferences.SetVersion` | source/PackageReference.cs:30-40 | the version written reads back, and no version removes the attribute; other attributes and the children are unchanged |
| `PackageReferences.AssetsOf` | source/PackageReference.cs:71-131 | absent reads as no value; otherwise the field's text parses to the flags, or to the error for the bad segment |
| `PackageReferences.GetAssets` | source/PackageReference.cs:71-131 | the getter's two branches (with and without a separator) compute `AssetsOf` |
| `PackageReferences.SetAssets` | source/PackageReference.cs:133-163 | the flags' text is written in the field's form, a new field becoming a child element; non-empty flags read back; no value clears a field written at most once; other fields are unchanged |
| `PackageReferences.AddedChildLookups` | source/PackageReference.cs:150-154 | a new asset child answers lookups of its name and no other |
| `PackageReferences.AssetListsIndependent` | source/PackageReference.cs:43-59 | setting one of the three asset lists leaves the other two reading the same |
| `PackageReferences.SetAssetsKeepsOther` | source/PackageReference.cs:133-163 | writing the asset list of one name leaves the list of any other name reading the same |
| `PackageReferences.DescribeNamesPackageAndVersion` | source/PackageReference.cs:66-69 | a reference describes itself as its Include, a space and its version |
| `PackageReferences.DescribeWithoutVersion` | source/PackageReference.cs:66-69 | without a version the description is the Include and a space |
| `PackageReferences.Describe` | source/PackageReference.cs:66-69 | the Include, a space and the Version text; `DescribeNamesPackageAndVersion` and `DescribeWithoutVersion` state it |
| `ContentItems.GetPackagePath` | source/Content.cs:23-34 | PackagePath is the attribute's text, or empty when the attribute is absent |
| `ContentItems.SetPackagePath` | source/Content.cs:35 | PackagePath always writes the attribute, even for empty text, and reads back; other attributes are unchanged |
| `ContentItems.FieldsIndependent` | source/Content.cs:11-41 | writing Pack or PackagePath leaves the other Content fields reading the same |
| `ContentItems.EmptyPackagePathKeepsAttribute` | source/Content.cs:23-35 | an empty PackagePath keeps its attribute, whereas an empty Include removes its own |
| `ContentItems.GetPack` | source/Content.cs:17-21 | Pack read by the strict boolean codec; the `NodeExtensions.GetBoolean` contract and `FieldsIndependent` state its meaning |
| `ContentItems.SetPack` | source/Content.cs:17-21 | Pack written by the form-preserving boolean codec; the `NodeExtensions.SetBoolean` contract and `FieldsIndependent` state its meaning |
| `ContentItems.GetVisible` | source/Content.cs:37-41 | Visible read by the strict boolean codec; the `NodeExtensions.GetBoolean` contract and `FieldsIndependent` state its meaning |
| `ContentItems.SetVisible` | source/Content.cs:37-41 | Visible written by the form-preserving boolean codec; the `NodeExtensions.SetBoolean` contract and `FieldsIndependent` state its meaning |
| `ContentItems.Describe` | source/Content.cs:48-51 | `ToString` is the Include text; `FieldsIndependent` shows the field writes keep it |
| `ProjectReferences.FieldsRoundTrip` | source/ProjectReference.cs:17-27 | OutputItemType and ReferenceOutputAssembly each read back as written and leave the other field and the Include as they were |
| `ProjectReferences.GetOutputItemType` | source/ProjectReference.cs:17-21 | OutputItemType read by the strict enum codec; the `NodeExtensions.GetEnum` contract and `FieldsRoundTrip` state its meaning |
| `ProjectReferences.SetOutputItemType` | source/ProjectReference.cs:17-21 | OutputItemType written by the form-preserving enum codec; the `NodeExtensions.SetEnum` contract and `FieldsRoundTrip` state its meaning |
| `ProjectReferences.GetReferenceOutputAssembly` | source/ProjectReference.cs:23-27 | ReferenceOutputAssembly read by the strict boolean codec; `FieldsRoundTrip` states its meaning |
| `ProjectReferences.SetReferenceOutputAssembly` | source/ProjectReference.cs:23-27 | ReferenceOutputAssembly written by the form-preserving boolean codec; `FieldsRoundTrip` states its meaning |
| `ProjectReferences.Describe` | source/ProjectReference.cs:34-37 | `ToString` is the Include text; `FieldsRoundTrip` shows the field writes keep it |
| `EmbeddedResources.DescribeAfterSetInclude` | source/EmbeddedResource.cs:11-25 | an embedded resource describes itself as the Include just written |
| `Analyzers.DescribeAfterSetInclude` | source/Analyzer.cs:11-25 | an analyzer describes itself as the Include just written |
| `Analyzers.Describe` | source/Analyzer.cs:22-25 | `ToString` is the Include text; `DescribeAfterSetInclude` states it |
| `EmbeddedResources.Describe` | source/EmbeddedResource.cs:22-25 | `ToString` is the Include text; `DescribeAfterSetInclude` states it |
| `SolutionProjects.GetPath` | source/SolutionProject.cs:10-14 | Path is the attribute's text, and reading it fails when the attribute is absent |
| `SolutionProjects.SetPath` | source/SolutionProject.cs:10-14 | the Path written reads back; other attributes and the children are unchanged |
| `SolutionProjects.DescribeAfterSetPath` | source/SolutionProject.cs:21-24 | a solution entry describes itself as its Path |
| `SolutionProjects.Describe` | source/SolutionProject.cs:21-24 | `ToString` is the Path, failing when the attribute is missing; `DescribeAfterSetPath` and the `GetPath` contract state it |
| `ProjectProperties.GroupIndex` | source/Project.cs:704-725 | the first PropertyGroup whose Condition equals the condition, or, for the empty condition, the first one without a Condition |
| `ProjectProperties.GroupIndexUnique` | source/Project.cs:704-725 | any index with the first-match property is the one the search returns |
| `ProjectProperties.PropertyGroup` | source/Project.cs:704-725 | the chosen group answers the condition, and "No PropertyGroup" is returned exactly when no group does |
| `ProjectProperties.AnswersOneCondition` | source/Project.cs:708-722 | a group answers at most one condition, so groups chosen for different conditions differ |
| `ProjectProperties.GroupIndexSameKeys` | source/Project.cs:704-725 | editing children while keeping their names and attributes keeps every group choice |
| `ProjectProperties.PropertyIndex` | source/Project.cs:727-741 | a property is the first child of the chosen group with exactly that name; a missing group is an error |
| `ProjectProperties.ReadBoolean` | source/Project.cs:635-643 | a present property reads true exactly when its text is "true" ignoring case, so any other text reads false |
| `ProjectProperties.ReadEnum` | source/Project.cs:668-679 | a property reads as a member whose name matches its text, blanks around it dropped, ignoring case; text matching no member reads as no value |
| `ProjectProperties.ReadLangVersion` | source/Project.cs:37-51 | a LangVersion is read exactly when the unconditioned group has the property and its text is an accepted token; it is in `All` and prints as that text; a missing property or unknown text reads as no value |
| `ProjectProperties.ReadSdk` | source/Project.cs:13-33 | the Sdk attribute must exist and name a known SDK; each failure has its own error |
| `ProjectProperties.WithPropertyKeepsGroups` | source/Project.cs:645-666 | a property write changes only the chosen group's children |
| `ProjectProperties.WriteThenRead` | source/Project.cs:645-666 | a written text reads back; no value leaves an existing property with empty text, and a missing one missing |
| `ProjectProperties.WriteKeepsOtherNames` | source/Project.cs:645-666 | a write leaves every other property of the group reading the same |
| `ProjectProperties.WriteKeepsOtherConditions` | source/Project.cs:645-666 | a write under one condition is invisible to reads under another |
| `ProjectProperties.ReplaceGroupKeepsSelection` | source/Project.cs:704-725 | changing a group's children keeps every condition's group choice |
| `ProjectProperties.ReplaceGroupKeepsOthers` | source/Project.cs:704-741 | changing a group that another condition did not choose keeps that condition's properties |
| `ProjectProperties.AppendOtherKeepsProperties` | source/Project.cs:704-741 | appending a root child that is not a PropertyGroup keeps every property |
| `ProjectProperties.RemoveOtherKeepsProperties` | source/Project.cs:704-741 | removing a root child that is not a PropertyGroup keeps every property |
| `ProjectProperties.ReplaceOtherKeepsProperties` | source/Project.cs:704-741 | rewriting a root child that is not a PropertyGroup keeps every property |
| `ProjectProperties.BooleanWriteThenRead` | source/Project.cs:635-666 | a boolean written as "True"/"False" reads back as that boolean |
| `ProjectProperties.ClearedBooleanReadsFalse` | source/Project.cs:645-666 | clearing an existing boolean leaves empty text, which reads as false; clearing a missing one leaves it missing |
| `ProjectProperties.EnumWriteThenRead` | source/Project.cs:668-702 | with names distinct ignoring case, an enum written reads back |
| `ProjectProperties.LangVersionWriteThenRead` | source/Project.cs:37-75 | a LangVersion from `All` written reads back |
| `ProjectProperties.WriteKeepsSdk` | source/Project.cs:13-33 | property writes never change the Sdk the project reads |
| `ProjectProperties.WithProperty` | source/Project.cs:645-666 | an existing property gets the text or is emptied; a missing one is added to the condition's group only when there is a text; `WithPropertyKeepsGroups`, `WriteThenRead`, `WriteKeepsOtherNames`, `WriteKeepsOtherConditions` and `WriteKeepsSdk` state its meaning |
| `ProjectProperties.WithBoolean` | source/Project.cs:645-666 | `WithProperty` with "True" or "False"; `BooleanWriteThenRead` and `ClearedBooleanReadsFalse` state its meaning |
| `ProjectProperties.WithEnum` | source/Project.cs:681-702 | `WithProperty` with the member's name; `EnumWriteThenRead` states its meaning |
| `ProjectProperties.WithLangVersion` | source/Project.cs:52-74 | `WithProperty` on the unconditioned group with the token's text; `LangVersionWriteThenRead` states its meaning |
| `ProjectProperties.WithIsTestProject` | source/Project.cs:87-108 | `WithBoolean` on the unconditioned group; `BooleanWriteThenRead` and `ClearedBooleanReadsFalse` state its meaning |
| `ProjectProperties.ReadIsTestProject` | source/Project.cs:78-86 | `ReadBoolean` on the unconditioned group: true exactly when the text is "true" ignoring case; the `ReadBoolean` contract states it |
| `ProjectFrameworks.FrameworksOf` | source/Project.cs:148-178 | a singular element reads as its one text; otherwise a plural element reads as its segments; otherwise nothing |
| `ProjectFrameworks.LoadedTargetFrameworks` | source/Project.cs:148-178 | loading fails with "No PropertyGroup" exactly when there is no unconditioned group |
| `ProjectFrameworks.ScanTargetFrameworks` | source/Project.cs:156-175 | the load loop's scan yields the frameworks of the text's segments |
| `ProjectFrameworks.ParseSnoc` | source/Project.cs:163-172 | each segment the scan closes adds its framework at the end |
| `ProjectFrameworks.JoinTargetFrameworks` | source/Project.cs:215-225 | the save loop's text is the frameworks' texts joined with `;` |
| `ProjectFrameworks.SaveInGroup` | source/Project.cs:180-241 | a save keeps the group's name and attributes |
| `ProjectFrameworks.WriteElement` | source/Project.cs:195-240 | writing one form keeps the group's name and attributes |
| `ProjectFrameworks.SavedTargetFrameworks` | source/Project.cs:180-241 | a save fails exactly when there is no unconditioned group, and otherwise keeps the root's name, attributes and number of children |
| `ProjectFrameworks.ParseTexts` | source/Project.cs:148-241 | the framework texts written parse back to the frameworks |
| `ProjectFrameworks.SaveThenReadGroup` | source/Project.cs:180-241 | with at most one framework element, and a list that `ListFormRepresentable` admits (no separator inside a text of a list of two or more, and a non-empty last text), the saved group reads back the saved list and still has at most one |
| `ProjectFrameworks.SaveThenLoad` | source/Project.cs:148-241 | saving a representable list and loading gives the same list, and keeps at most one framework element |
| `ProjectFrameworks.WriteElementKeepsOthers` | source/Project.cs:195-240 | writing one framework form leaves every other property of the group reading the same |
| `ProjectFrameworks.SaveKeepsOtherChildren` | source/Project.cs:180-241 | a save leaves every non-framework property of the group reading the same |
| `ProjectFrameworks.SaveKeepsOtherProperties` | source/Project.cs:180-241 | a save leaves every non-framework property under every condition reading the same |
| `ProjectFrameworks.LoadedByContents` | source/Project.cs:148-178 | what loads depends only on the texts of the two framework properties |
| `ProjectFrameworks.PropertyWriteKeepsFrameworks` | source/Project.cs:645-666 | writing any other property keeps the loaded frameworks |
| `ProjectFrameworks.ClearKeepsListBesideSingle` | source/Project.cs:182-194 | clearing a group holding both forms removes only the singular one, so the plural list loads afterwards |
| `ProjectItems.MatchingOfKind` | source/Project.cs:609-626 | every item listed among siblings is of the kind (ignoring case), every sibling of the kind is listed, and all siblings are listed exactly when all are of the kind |
| `ProjectItems.UnmatchingNotOfKind` | source/Project.cs:546-553 | what a clear keeps holds no item of the kind, and it keeps every sibling exactly when none is of the kind |
| `ProjectItems.MatchingConcat` | source/Project.cs:609-626 | the items of a kind in two runs of siblings are those of each run, in order |
| `ProjectItems.MatchingUnmatching` | source/Project.cs:546-553 | after a clear no item of the kind is left, and the items of every other kind are unchanged |
| `ProjectItems.ItemGroupWith` | source/Project.cs:588-607 | the chosen ItemGroup is the first holding an item of the kind |
| `ProjectItems.ItemGroupWithUnique` | source/Project.cs:588-607 | any index with the first-holder property is the one the search returns |
| `ProjectItems.ItemsInConcat` | source/Project.cs:609-626 | the items listed under two runs of root children are those of each run, in order |
| `ProjectItems.NoHolderNoItems` | source/Project.cs:588-626 | when no group holds the kind, no item of it is listed |
| `ProjectItems.ItemsOf` | source/Project.cs:609-626 | the items of the kind under every `ItemGroup` of the root, in document order; `ItemsInConcat`, `NoHolderNoItems`, `AddedItemPlace` and `RemovedItemPlace` state its meaning |
| `ProjectItems.IncludeItem` | source/Project.cs:366-371 | a new item has the kind's name, no children and the Include given |
| `ProjectItems.PackageReferenceItem` | source/Project.cs:438-444 | a new package reference reads back its Include and Version |
| `ProjectItems.ContentItem` | source/Project.cs:511-518 | a new Content item reads back its Include, Pack, PackagePath and Visible |
| `ProjectItems.ContentDefaults` | source/Project.cs:511 | by default a Content item is packed, has an empty PackagePath attribute and no Visible |
| `ProjectItems.WithItem` | source/Project.cs:366-382 | adding an item keeps the root's name and attributes |
| `ProjectItems.WithoutItemsNamed` | source/Project.cs:542-560 | clearing keeps the root's name and attributes |
| `ProjectItems.FirstTarget` | source/Project.cs:566-577 | the item removed is the first of the kind whose Include attribute equals the text exactly |
| `ProjectItems.FirstTargetUnique` | source/Project.cs:566-577 | any index with the first-match property is the one the search returns |
| `ProjectItems.WithoutItem` | source/Project.cs:562-586 | a removal that reports false leaves the tree unchanged, and no removal changes the number of root children |
| `ProjectItems.RemovedWhenPresent` | source/Project.cs:562-586 | an item is removed exactly when the first group holding the kind has one of that kind with that Include |
| `ProjectItems.AddedItemPlace` | source/Project.cs:366-382 | a new item is listed right after the other items of its group, or last in a new group |
| `ProjectItems.AddKeepsOtherKinds` | source/Project.cs:366-382 | adding an item keeps the list of every kind its name does not match |
| `ProjectItems.ClearLeavesLaterGroups` | source/Project.cs:542-560 | after a clear, the items of the kind left are exactly those of groups after the first holder |
| `ProjectItems.ClearSingleGroup` | source/Project.cs:542-560 | when one group holds the kind, clearing leaves none |
| `ProjectItems.ClearKeepsOtherKinds` | source/Project.cs:542-560 | clearing a kind keeps the list of every other kind |
| `ProjectItems.DropGroup` | source/Project.cs:555-558 | dropping the emptied group changes no list |
| `ProjectItems.RemovedItemPlace` | source/Project.cs:562-586 | when the first group holding the kind has a matching item, the removal succeeds, takes out exactly the first one and keeps the order of the rest |
| `ProjectItems.RemoveLastItemKeepsGroup` | source/Project.cs:579-583 | removing a group's only item leaves the group in place, empty |
| `ProjectItems.AddKeepsProperties` | source/Project.cs:366-382 | adding an item leaves every property reading the same |
| `ProjectItems.ClearKeepsProperties` | source/Project.cs:542-560 | clearing a kind leaves every property reading the same |
| `ProjectItems.RemoveKeepsProperties` | source/Project.cs:562-586 | removing an item leaves every property reading the same |
| `ProjectFiles.FindProperty` | source/Project.cs:730-738 | the property search loop finds the first child with exactly the name |
| `ProjectFiles.AddKeepsFrameworks` | source/Project.cs:366-382 | adding an item keeps the loaded frameworks |
| `ProjectFiles.ClearKeepsFrameworks` | source/Project.cs:542-560 | clearing a kind keeps the loaded frameworks |
| `ProjectFiles.RemoveKeepsFrameworks` | source/Project.cs:562-586 | removing an item keeps the loaded frameworks |
| `ProjectFiles.Project.FromTree` | source/Project.cs:112-116 | a project holds the parsed tree and an empty cache |
| `ProjectFiles.Project.Open` | source/Project.cs:112-118 | opening fails exactly when there is no unconditioned group; otherwise the cache equals the loaded list |
| `ProjectFiles.Project.FindPropertyGroup` | source/Project.cs:704-725 | the group search loop computes `PropertyGroup` |
| `ProjectFiles.Project.TryGetProperty` | source/Project.cs:727-741 | the property lookup computes `PropertyIndex` |
| `ProjectFiles.Project.GetBoolean` | source/Project.cs:635-643 | computes `ReadBoolean` on the current tree |
| `ProjectFiles.Project.GetEnum` | source/Project.cs:668-679 | computes `ReadEnum` on the current tree |
| `ProjectFiles.Project.GetLangVersion` | source/Project.cs:37-51 | computes `ReadLangVersion` on the current tree |
| `ProjectFiles.Project.SetProperty` | source/Project.cs:645-666 | the tree becomes `WithProperty` of the old tree, or stays with the error reported; the cache stays consistent when the name is not a framework property |
| `ProjectFiles.Project.SetBoolean` | source/Project.cs:645-666 | the tree becomes `WithBoolean` of the old tree; the cache stays consistent when the name is neither `TargetFramework` nor `TargetFrameworks` |
| `ProjectFiles.Project.SetEnum` | source/Project.cs:681-702 | the tree becomes `WithEnum` of the old tree; the cache stays consistent when the name is neither `TargetFramework` nor `TargetFrameworks` |
| `ProjectFiles.Project.SetLangVersion` | source/Project.cs:52-74 | the tree becomes `WithLangVersion` of the old tree; the cache stays consistent |
| `ProjectFiles.Project.SetIsTestProject` | source/Project.cs:88-109 | the tree becomes `WithIsTestProject` of the old tree; the cache stays consistent |
| `ProjectFiles.Project.LoadTargetFrameworks` | source/Project.cs:148-178 | appends the loaded list to the cache and leaves the tree unchanged |
| `ProjectFiles.Project.SaveTargetFrameworks` | source/Project.cs:180-241 | the tree becomes `SavedTargetFrameworks` of the old tree and cache; from a sound tree with a representable cache, the tree loads back as the cache |
| `ProjectFiles.Project.WriteFrameworkElement` | source/Project.cs:195-240 | the element write computes `WriteElement` |
| `ProjectFiles.Project.ClearTargetFrameworks` | source/Project.cs:243-247 | empties the cache and saves; from a sound tree the tree then loads as empty |
| `ProjectFiles.Project.AddTargetFramework` | source/Project.cs:249-260 | a framework already cached answers false and changes nothing; a new one is appended and saved |
| `ProjectFiles.Project.ContainsTargetFramework` | source/Project.cs:262-266 | when the cache is consistent, a framework is contained exactly when the tree loads it |
| `ProjectFiles.Project.FindItemGroupWith` | source/Project.cs:588-607 | the nested group search loop computes `ItemGroupWith` |
| `ProjectFiles.Project.GetItems` | source/Project.cs:609-626 | the nested listing loop yields `ItemsOf` |
| `ProjectFiles.Project.AddItem` | source/Project.cs:372-381 | the tree becomes `WithItem` of the old tree; the cache stays consistent |
| `ProjectFiles.Project.AddPackageReference` | source/Project.cs:438-455 | adds a package reference built from its Include and Version |
| `ProjectFiles.Project.AddProjectReference` | source/Project.cs:402-418 | adds a project reference built from its Include |
| `ProjectFiles.Project.AddEmbeddedResource` | source/Project.cs:366-382 | adds an embedded resource built from its Include |
| `ProjectFiles.Project.AddAnalyzer` | source/Project.cs:475-491 | adds an analyzer built from its Include |
| `ProjectFiles.Project.AddContent` | source/Project.cs:511-530 | adds a Content item built from its four fields |
| `ProjectFiles.Project.RemoveItemsWithName` | source/Project.cs:542-560 | the tree becomes `WithoutItemsNamed` of the old tree; the cache stays consistent |
| `ProjectFiles.Project.DropKind` | source/Project.cs:546-553 | the backward removal loop keeps exactly the children not of the kind |
| `ProjectFiles.FindTarget` | source/Project.cs:566-576 | the loop over the group's items finds the first of the kind whose Include is exactly the text |
| `ProjectFiles.Project.RemoveItemWithInclude` | source/Project.cs:562-586 | the forward loop's result and tree are `WithoutItem` of the old tree; the cache stays consistent |
| `SolutionFiles.Entries` | source/Solution.cs:81-90 | the entries listed are all named exactly `Project` and are no more than the children |
| `SolutionFiles.Others` | source/Solution.cs:44-54 | what a clear keeps holds no `Project` entry |
| `SolutionFiles.Entry` | source/Solution.cs:73-78 | a new entry is named `Project`, has no children and reads back its Path |
| `SolutionFiles.FindPathListed` | source/Solution.cs:56-71 | when every entry has a Path, the query answers whether some entry's Path is exactly the path |
| `SolutionFiles.MissingPathFails` | source/Solution.cs:56-71 | an entry without a Path, reached before any match, makes the query fail |
| `SolutionFiles.FindPath` | source/Solution.cs:56-71 | the first entry whose Path equals the text answers true; an entry without a Path reached before that fails; `FindPathListed` and `MissingPathFails` state its meaning |
| `SolutionFiles.EntriesAndOthers` | source/Solution.cs:44-54 | every child is either listed as an entry or kept by a clear |
| `SolutionFiles.ClearThenAdd` | source/Solution.cs:44-79 | after clearing and adding one project, that project is the only entry and the query finds it |
| `SolutionFiles.Solution.FromTree` | source/Solution.cs:15-19 | a solution holds the parsed tree |
| `SolutionFiles.Solution.ClearProjects` | source/Solution.cs:44-54 | the backward loop leaves the other children in order and no entry |
| `SolutionFiles.Solution.ContainsProject` | source/Solution.cs:56-71 | the forward scan computes `FindPath` |
| `SolutionFiles.Solution.AddProject` | source/Solution.cs:73-79 | appends a new entry with the path, which is listed last |
| `SolutionFiles.Solution.GetProjects` | source/Solution.cs:81-90 | the loop yields the entries in document order |

## Left out

- The XML parser, the serializer and its formatting options, `ToString` of the documents,
  `Dispose` and the binary serialization hooks are outside this model. The tree is given as a
  value and handed back as a value.
- `XMLNode` is a handle type whose edits are visible through every copy. The model treats nodes as
  values, so aliasing between item views and the tree is not captured. Each view operation returns
  the edited node instead.
- The `XMLNode` type belongs to another library, and the model assumes the following of it:
  - `GetAttribute` fails when the attribute is missing (`source/SolutionProject.cs:12`). This
    assumption is why `SolutionFiles.FindPath` fails on an entry without a Path and why
    `SolutionFiles.FindPathListed` requires `EntriesHavePaths`.
  - `SetAttribute` adds an attribute that is missing, as `SetOrAddAttribute` does
    (`source/Extensions/XMLNodeExtensions.cs:104`, `source/Extensions/XMLNodeExtensions.cs:159`).
  - `TryRemoveAttribute` removes every attribute with the key (`Xml.Erase`).
- `TargetFramework` and `SemanticVersion` belong to another library and are not part of this model.
  They are modelled as wrappers of their text, with parsing total.
- `Enum.TryParse` also accepts numbers and comma-separated member lists. Only member names are
  modelled, with the blanks around a name dropped. Enum types (`Nullable`, `OutputItemType`) are
  given as a list of member names.
- `Enum.TryParse` drops every white-space character (`Char.IsWhiteSpace`) around a name. The model
  drops only the ASCII blanks (space, tab, line feed, vertical tab, form feed, carriage return),
  so a name padded with another Unicode space is rejected here but accepted by the source.
- Case-insensitive comparison folds only the ASCII letters.
- The fixed-capacity ASCII text buffers behind `LangVersion`, `Sdk` and item names are modelled as
  unbounded text.
- The per-kind `Get…`, `Remove…` and `Clear…` methods of `Project` are the generic
  `GetItems`, `RemoveItemWithInclude` and `RemoveItemsWithName` applied to the kind constant.
  The getters' adding to a caller's list becomes a returned sequence.
- The boolean property pairs (`Optimize`, `TreatWarningsAsErrors` and the others in
  `BooleanPropertyNames`) are `GetBoolean`/`SetBoolean` with that name.
  `Nullable` is `GetEnum`/`SetEnum` with `NullableName`.
- The private `GetProperty` of `Project` is not called anywhere, so it is left out.
- The `Sdk` getter is the function `ProjectProperties.ReadSdk`, since it changes nothing.
- `GetProjects` of `Solution` returns the entry nodes rather than adding views to a caller's list.
- AssetFlags.FormatParse: requires a non-empty flag set. The empty set is written as "0", a
  numeric form that `Enum.TryParse` accepts but this model's parser, which reads only member
  names, rejects (`AssetFlags.EmptyDoesNotReadBack`).
- PackageReferences.SetAssets: promises that only a non-empty flag set reads back. The empty set
  is written as "0", which the source reads back as the empty set through the numeric form of
  `Enum.TryParse`. The model's parser reads only member names, so it rejects "0"
  (`AssetFlags.EmptyDoesNotReadBack`).
- ProjectFrameworks.SaveThenLoad: requires at most one framework element. It also requires that
  a list of two or more frameworks has no separator inside a text and a non-empty last text.
  Outside these conditions the source does not round-trip either.
