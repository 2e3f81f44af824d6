/** A solution document: `Project` entries directly under the root, each
    naming a project file by its Path attribute. */
module SolutionFiles {
  import opened Results
  import opened Xml
  import SolutionProjects

  const ProjectName: string := "Project"

  /** An entry is a child named exactly `Project`. */
  predicate IsEntry(n: Node) {
    n.name == ProjectName
  }

  /** The entries among the children, in document order. */
  function Entries(cs: seq<Node>): (r: seq<Node>)
    ensures |r| <= |cs|
    ensures forall k :: 0 <= k < |r| ==> IsEntry(r[k])
  {
    if cs == [] then []
    else Entries(cs[..|cs| - 1]) + (if IsEntry(cs[|cs| - 1]) then [cs[|cs| - 1]] else [])
  }

  /** The children that are not entries, in order. */
  function Others(cs: seq<Node>): (r: seq<Node>)
    ensures |r| <= |cs|
    ensures forall k :: 0 <= k < |r| ==> !IsEntry(r[k])
  {
    if cs == [] then []
    else (if IsEntry(cs[0]) then [] else [cs[0]]) + Others(cs[1..])
  }

  /** The scan of `ContainsProject`: the first entry with the path answers
      true; an entry without a Path before that is an error. */
  function FindPath(cs: seq<Node>, path: string): Result<bool> {
    if cs == [] then Ok(false)
    else if IsEntry(cs[0]) then
      match SolutionProjects.GetPath(cs[0])
      case Err(e) => Err(e)
      case Ok(p) => if p == path then Ok(true) else FindPath(cs[1..], path)
    else FindPath(cs[1..], path)
  }

  /** The entry `AddProject` builds. */
  function Entry(path: string): (r: Node)
    ensures IsEntry(r) && r.children == []
    ensures SolutionProjects.GetPath(r) == Ok(path)
  {
    SolutionProjects.SetPath(Element(ProjectName, []), path)
  }

  predicate EntriesHavePaths(cs: seq<Node>) {
    forall k :: 0 <= k < |cs| && IsEntry(cs[k]) ==> ContainsAttribute(cs[k], SolutionProjects.PathAttribute)
  }

  predicate Listed(cs: seq<Node>, path: string) {
    exists k :: 0 <= k < |cs| && IsEntry(cs[k]) && SolutionProjects.GetPath(cs[k]) == Ok(path)
  }

  /** When every entry has a Path, `ContainsProject` answers whether one
      entry's Path is exactly the given path. */
  lemma {:induction false} FindPathListed(cs: seq<Node>, path: string)
    requires EntriesHavePaths(cs)
    ensures FindPath(cs, path) == Ok(Listed(cs, path))
    decreases |cs|
  {
    if cs != [] {
      assert forall k :: 0 <= k < |cs| - 1 ==> cs[1..][k] == cs[k + 1];
      FindPathListed(cs[1..], path);
      if Listed(cs[1..], path) {
        var k :| 0 <= k < |cs[1..]| && IsEntry(cs[1..][k]) && SolutionProjects.GetPath(cs[1..][k]) == Ok(path);
        assert cs[k + 1] == cs[1..][k];
      }
      if Listed(cs, path) && !(IsEntry(cs[0]) && SolutionProjects.GetPath(cs[0]) == Ok(path)) {
        var k :| 0 <= k < |cs| && IsEntry(cs[k]) && SolutionProjects.GetPath(cs[k]) == Ok(path);
        assert k != 0 && cs[1..][k - 1] == cs[k];
      }
    }
  }

  /** An entry without a Path met before any match makes the scan fail. */
  lemma {:induction false} MissingPathFails(cs: seq<Node>, path: string, j: nat)
    requires j < |cs| && IsEntry(cs[j]) && !ContainsAttribute(cs[j], SolutionProjects.PathAttribute)
    requires forall k :: 0 <= k < j && IsEntry(cs[k]) ==> SolutionProjects.GetPath(cs[k]).Ok? && SolutionProjects.GetPath(cs[k]) != Ok(path)
    ensures FindPath(cs, path) == Err(MissingAttribute(SolutionProjects.PathAttribute))
    decreases j
  {
    if j > 0 {
      assert forall k :: 0 <= k < j - 1 ==> cs[1..][k] == cs[k + 1];
      MissingPathFails(cs[1..], path, j - 1);
    }
  }

  lemma EntriesSnoc(cs: seq<Node>, x: Node)
    ensures Entries(cs + [x]) == Entries(cs) + (if IsEntry(x) then [x] else [])
  {
    assert (cs + [x])[..|cs|] == cs;
  }

  /** Children without entries list no entries. */
  lemma {:induction false} NoEntries(cs: seq<Node>)
    requires forall k :: 0 <= k < |cs| ==> !IsEntry(cs[k])
    ensures Entries(cs) == []
    decreases |cs|
  {
    if cs != [] {
      NoEntries(cs[..|cs| - 1]);
    }
  }

  /** Every child is either an entry or kept by `Others`. */
  lemma {:induction false} EntriesAndOthers(cs: seq<Node>)
    ensures |Entries(cs)| + |Others(cs)| == |cs|
    decreases |cs|
  {
    if cs != [] {
      EntriesAndOthers(cs[1..]);
      EntriesCons(cs[0], cs[1..]);
      assert [cs[0]] + cs[1..] == cs;
    }
  }

  lemma {:induction false} EntriesCons(x: Node, cs: seq<Node>)
    ensures Entries([x] + cs) == (if IsEntry(x) then [x] else []) + Entries(cs)
    decreases |cs|
  {
    if cs == [] {
      assert [x] + cs == [x];
      assert [x][..0] == [];
    } else {
      var cs', y := cs[..|cs| - 1], cs[|cs| - 1];
      EntriesCons(x, cs');
      assert ([x] + cs)[..|[x] + cs| - 1] == [x] + cs';
    }
  }

  /** After clearing, adding one project leaves exactly that entry, with its path. */
  lemma ClearThenAdd(cs: seq<Node>, path: string)
    ensures Entries(Others(cs) + [Entry(path)]) == [Entry(path)]
    ensures FindPath(Others(cs) + [Entry(path)], path) == Ok(true)
  {
    NoEntries(Others(cs));
    EntriesSnoc(Others(cs), Entry(path));
    FindPathListed(Others(cs) + [Entry(path)], path);
    assert (Others(cs) + [Entry(path)])[|Others(cs)|] == Entry(path);
  }

  class Solution {
    var root: Node

    /** A parsed solution tree. */
    constructor FromTree(tree: Node)
      ensures root == tree
    {
      root := tree;
    }

    /** `ClearProjects`: the backward loop removing every entry; the other
        children stay, in order. */
    method ClearProjects()
      modifies this
      ensures root == old(root).(children := Others(old(root).children))
      ensures Entries(root.children) == []
    {
      var children := root.children;
      var i := |children|;
      while i > 0
        invariant 0 <= i <= |children|
        invariant root == old(root).(children := children[..i] + Others(children[i..]))
      {
        i := i - 1;
        OthersStep(children, i, root.children);
        if root.children[i].name == ProjectName {
          root := RemoveChildAt(root, i);
        }
      }
      assert children[..0] == [] && children[0..] == children;
      NoEntries(root.children);
    }

    /** `ContainsProject`: the forward scan over the entries. */
    method ContainsProject(path: string) returns (r: Result<bool>)
      ensures r == FindPath(root.children, path)
    {
      var cs := root.children;
      var i := 0;
      while i < |cs|
        invariant i <= |cs|
        invariant FindPath(cs, path) == FindPath(cs[i..], path)
      {
        assert cs[i..][1..] == cs[i + 1..];
        if cs[i].name == ProjectName {
          var p := SolutionProjects.GetPath(cs[i]);
          if p.Err? {
            return Err(p.error);
          }
          if p.value == path {
            return Ok(true);
          }
        }
        i := i + 1;
      }
      return Ok(false);
    }

    /** `AddProject`: a new entry with the path, appended last. */
    method AddProject(path: string)
      modifies this
      ensures root == AddChild(old(root), Entry(path))
      ensures Entries(root.children) == Entries(old(root).children) + [Entry(path)]
    {
      EntriesSnoc(root.children, Entry(path));
      root := AddChild(root, Entry(path));
    }

    /** `GetProjects`: the entries in document order. */
    method GetProjects() returns (projects: seq<Node>)
      ensures projects == Entries(root.children)
    {
      var cs := root.children;
      projects := [];
      var i := 0;
      while i < |cs|
        invariant i <= |cs|
        invariant projects == Entries(cs[..i])
      {
        EntriesSnoc(cs[..i], cs[i]);
        assert cs[..i + 1] == cs[..i] + [cs[i]];
        if cs[i].name == ProjectName {
          projects := projects + [cs[i]];
        }
        i := i + 1;
      }
      assert cs[..i] == cs;
    }
  }

  /** One step of the backward removal loop at position `i`. */
  lemma OthersStep(s: seq<Node>, i: nat, cs: seq<Node>)
    requires i < |s| && cs == s[..i + 1] + Others(s[i + 1..])
    ensures i < |cs| && cs[i] == s[i]
    ensures IsEntry(s[i]) ==> cs[..i] + cs[i + 1..] == s[..i] + Others(s[i..])
    ensures !IsEntry(s[i]) ==> cs == s[..i] + Others(s[i..])
  {
    assert s[..i + 1] == s[..i] + [s[i]];
    assert s[i..][1..] == s[i + 1..];
    assert s[i..][0] == s[i];
    if IsEntry(s[i]) {
      assert cs[..i] == s[..i];
      assert cs[i + 1..] == Others(s[i + 1..]);
    }
  }
}
