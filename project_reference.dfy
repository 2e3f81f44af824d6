/** The typed view of a `ProjectReference` item: Include, the
    OutputItemType enum and the ReferenceOutputAssembly boolean, both with
    the strict codecs. OutputItemType's member table is a parameter. */
module ProjectReferences {
  import opened Results
  import opened Xml
  import opened Tokens
  import opened NodeExtensions

  const OutputItemTypeName: string := "OutputItemType"
  const ReferenceOutputAssemblyName: string := "ReferenceOutputAssembly"

  function GetOutputItemType(n: Node, e: EnumType): Result<Option<nat>> {
    GetEnum(n, OutputItemTypeName, e)
  }

  function SetOutputItemType(n: Node, e: EnumType, value: Option<nat>): Node
    requires value.Some? ==> value.value < |e.names|
  {
    SetEnum(n, OutputItemTypeName, e, value)
  }

  function GetReferenceOutputAssembly(n: Node): Result<Option<bool>> {
    GetBoolean(n, ReferenceOutputAssemblyName)
  }

  function SetReferenceOutputAssembly(n: Node, value: Option<bool>): Node {
    SetBoolean(n, ReferenceOutputAssemblyName, value)
  }

  /** `ToString` is the Include text. */
  function Describe(n: Node): string {
    GetInclude(n)
  }

  /** Writing either field reads back and leaves the other field and the Include alone. */
  lemma FieldsRoundTrip(n: Node, e: EnumType, kind: nat, flag: bool)
    requires kind < |e.names| && DistinctNames(e, false) && TrimmedNames(e)
    ensures GetOutputItemType(SetOutputItemType(n, e, Some(kind)), e) == Ok(Some(kind))
    ensures GetReferenceOutputAssembly(SetOutputItemType(n, e, Some(kind))) == GetReferenceOutputAssembly(n)
    ensures Describe(SetOutputItemType(n, e, Some(kind))) == Describe(n)
    ensures GetReferenceOutputAssembly(SetReferenceOutputAssembly(n, Some(flag))) == Ok(Some(flag))
    ensures GetOutputItemType(SetReferenceOutputAssembly(n, Some(flag)), e) == GetOutputItemType(n, e)
    ensures Describe(SetReferenceOutputAssembly(n, Some(flag))) == Describe(n)
  {
  }
}
