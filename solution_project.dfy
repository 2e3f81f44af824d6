/** The typed view of a solution's `Project` entry: its Path attribute. */
module SolutionProjects {
  import opened Results
  import opened Xml

  const PathAttribute: string := "Path"

  /** `GetAttribute("Path")`; an entry without the attribute is an error. */
  function GetPath(n: Node): (r: Result<string>)
    ensures r.Ok? <==> ContainsAttribute(n, PathAttribute)
    ensures r.Ok? ==> TryGetAttribute(n, PathAttribute) == Some(r.value)
    ensures r.Err? ==> r.error == MissingAttribute(PathAttribute)
  {
    match TryGetAttribute(n, PathAttribute)
    case Some(p) => Ok(p)
    case None => Err(MissingAttribute(PathAttribute))
  }

  /** Sets or adds the attribute, even for empty text. */
  function SetPath(n: Node, path: string): (r: Node)
    ensures GetPath(r) == Ok(path)
    ensures forall k :: k != PathAttribute ==> TryGetAttribute(r, k) == TryGetAttribute(n, k)
    ensures r.name == n.name && r.children == n.children && r.content == n.content
  {
    SetAttribute(n, PathAttribute, path)
  }

  /** `ToString` is the path. */
  function Describe(n: Node): Result<string> {
    GetPath(n)
  }

  /** An entry describes itself by the path it was given. */
  lemma DescribeAfterSetPath(n: Node, path: string)
    ensures Describe(SetPath(n, path)) == Ok(path)
  {
  }
}
