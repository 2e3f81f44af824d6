/** The typed view of an `EmbeddedResource` item: its Include only. */
module EmbeddedResources {
  import opened Xml
  import opened NodeExtensions

  /** `ToString` is the Include text. */
  function Describe(n: Node): string {
    GetInclude(n)
  }

  /** A resource describes itself by the path it was given. */
  lemma DescribeAfterSetInclude(n: Node, text: string)
    ensures Describe(SetInclude(n, text)) == text
  {
  }
}
