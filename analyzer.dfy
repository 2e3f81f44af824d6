/** The typed view of an `Analyzer` item: its Include only. */
module Analyzers {
  import opened Xml
  import opened NodeExtensions

  /** `ToString` is the Include text. */
  function Describe(n: Node): string {
    GetInclude(n)
  }

  /** An analyzer describes itself by the path it was given. */
  lemma DescribeAfterSetInclude(n: Node, text: string)
    ensures Describe(SetInclude(n, text)) == text
  {
  }
}
