/** Token types whose own definitions are not part of this model. A target
    framework moniker and a semantic version are kept as the text they were
    parsed from, so formatting gives that text back. An enum type (Nullable,
    OutputItemType) is described by its name and its member names; a value
    is the index of its member, and parsing is a lookup in that table. */
module Tokens {
  import opened Results
  import opened TextOps

  datatype TargetFramework = TargetFramework(moniker: string)

  /** `TargetFramework.Parse`; moniker validation is not part of this model. */
  function ParseTargetFramework(text: string): TargetFramework {
    TargetFramework(text)
  }

  /** `TargetFramework.ToString`. */
  function TargetFrameworkText(tf: TargetFramework): string {
    tf.moniker
  }

  /** Parses every segment, in order. */
  function ParseTargetFrameworks(parts: seq<string>): (r: seq<TargetFramework>)
    ensures |r| == |parts|
    ensures forall i :: 0 <= i < |parts| ==> r[i] == ParseTargetFramework(parts[i])
  {
    if parts == [] then []
    else ParseTargetFrameworks(parts[..|parts| - 1]) + [ParseTargetFramework(parts[|parts| - 1])]
  }

  /** Formats every framework, in order. */
  function TargetFrameworkTexts(tfs: seq<TargetFramework>): (r: seq<string>)
    ensures |r| == |tfs|
    ensures forall i :: 0 <= i < |tfs| ==> r[i] == TargetFrameworkText(tfs[i])
  {
    seq(|tfs|, i requires 0 <= i < |tfs| => TargetFrameworkText(tfs[i]))
  }

  datatype SemanticVersion = SemanticVersion(text: string)

  /** `SemanticVersion.Parse`; version syntax is not part of this model. */
  function ParseSemanticVersion(text: string): SemanticVersion {
    SemanticVersion(text)
  }

  function SemanticVersionText(v: SemanticVersion): string {
    v.text
  }

  // ---------------------------------------------------------------- enum name tables

  datatype EnumType = EnumType(typeName: string, names: seq<string>)

  /** Index of the first member whose name equals `text`, exactly or ignoring case. */
  function FindName(names: seq<string>, text: string, ignoreCase: bool): (r: Option<nat>)
    ensures r.Some? ==> r.value < |names| && NameMatches(names[r.value], text, ignoreCase)
    ensures r.Some? ==> forall k :: 0 <= k < r.value ==> !NameMatches(names[k], text, ignoreCase)
    ensures r.None? ==> forall k :: 0 <= k < |names| ==> !NameMatches(names[k], text, ignoreCase)
  {
    if names == [] then None
    else if NameMatches(names[0], text, ignoreCase) then Some(0)
    else match FindName(names[1..], text, ignoreCase)
      case None => None
      case Some(i) => Some(i + 1)
  }

  predicate NameMatches(name: string, text: string, ignoreCase: bool) {
    if ignoreCase then EqualsIgnoreCase(name, text) else name == text
  }

  /** No two members share a name (under the comparison in use). */
  predicate DistinctNames(e: EnumType, ignoreCase: bool) {
    forall i, j :: 0 <= i < j < |e.names| ==> !NameMatches(e.names[i], e.names[j], ignoreCase)
  }

  /** Member names are identifiers, so none starts or ends with a blank. */
  predicate TrimmedNames(e: EnumType) {
    forall i :: 0 <= i < |e.names| ==> TrimBlanks(e.names[i]) == e.names[i]
  }

  /** `Enum.TryParse<T>(text, ignoreCase)` restricted to member names: the
      blanks around the name are skipped before the lookup. */
  function TryParseEnum(e: EnumType, text: string, ignoreCase: bool): Option<nat> {
    FindName(e.names, TrimBlanks(text), ignoreCase)
  }

  /** `Enum.GetName` / `ToString` of a member. */
  function EnumName(e: EnumType, v: nat): string
    requires v < |e.names|
  {
    e.names[v]
  }

  /** A member's name parses back to that member. */
  lemma ParseEnumName(e: EnumType, v: nat, ignoreCase: bool)
    requires v < |e.names| && DistinctNames(e, ignoreCase) && TrimmedNames(e)
    ensures TryParseEnum(e, EnumName(e, v), ignoreCase) == Some(v)
  {
    assert TrimBlanks(e.names[v]) == e.names[v];
    EqualsIgnoreCaseReflexive(e.names[v]);
    var r := FindName(e.names, e.names[v], ignoreCase);
    assert r.Some?;
  }
}
