/** The target frameworks of a project: read from the unconditioned
    PropertyGroup (a single `TargetFramework`, else a ';'-separated
    `TargetFrameworks`), and written back in whichever of the two forms the
    number of frameworks calls for. */
module ProjectFrameworks {
  import opened Results
  import opened Xml
  import opened TextOps
  import opened Tokens
  import opened ProjectProperties

  const SingleName: string := "TargetFramework"
  const MultipleName: string := "TargetFrameworks"

  predicate IsFrameworkElement(n: Node) {
    n.name == SingleName || n.name == MultipleName
  }

  /** The group writes its frameworks in at most one element. */
  predicate AtMostOneFrameworkElement(cs: seq<Node>) {
    forall i, j :: 0 <= i < j < |cs| ==> !(IsFrameworkElement(cs[i]) && IsFrameworkElement(cs[j]))
  }

  predicate NoFrameworkElement(cs: seq<Node>) {
    forall k :: 0 <= k < |cs| ==> !IsFrameworkElement(cs[k])
  }

  /** The frameworks a group holds: the single element wins over the list. */
  function FrameworksOf(g: Node): (r: seq<TargetFramework>)
    ensures ChildContent(g, SingleName).Some? ==> TargetFrameworkTexts(r) == [ChildContent(g, SingleName).value]
    ensures ChildContent(g, SingleName).None? && ChildContent(g, MultipleName).Some? ==>
      TargetFrameworkTexts(r) == Segments(ChildContent(g, MultipleName).value)
    ensures ChildContent(g, SingleName).None? && ChildContent(g, MultipleName).None? ==> r == []
  {
    match ChildContent(g, SingleName)
    case Some(text) => [ParseTargetFramework(text)]
    case None =>
      match ChildContent(g, MultipleName)
      case Some(text) => ParseTargetFrameworks(Segments(text))
      case None => []
  }

  /** `LoadTargetFrameworks`: the frameworks of the unconditioned group; no
      such group is an error. */
  function LoadedTargetFrameworks(root: Node): (r: Result<seq<TargetFramework>>)
    ensures r.Err? <==> PropertyGroup(root, []).Err?
    ensures r.Err? ==> r.error == NoPropertyGroup
  {
    match PropertyGroup(root, [])
    case Err(e) => Err(e)
    case Ok(i) => Ok(FrameworksOf(root.children[i]))
  }

  /** The loop of `LoadTargetFrameworks` over the list text: a segment is
      reported at each separator, and the last one at the final character. */
  method ScanTargetFrameworks(content: string) returns (tfs: seq<TargetFramework>)
    ensures tfs == ParseTargetFrameworks(Segments(content))
  {
    tfs := [];
    var start, index := 0, 0;
    while index < |content|
      invariant start <= index <= |content|
      invariant index < |content| ==> Split(content[..index])[|Split(content[..index])| - 1] == content[start..index]
      invariant tfs == ParseTargetFrameworks(Scanned(content, index))
    {
      ScanStep(content, index, start);
      if content[index] == Separator {
        ParseSnoc(Scanned(content, index), content[start..index]);
        tfs := tfs + [ParseTargetFramework(content[start..index])];
        start := index + 1;
      } else if index == |content| - 1 {
        ParseSnoc(Scanned(content, index), content[start..]);
        tfs := tfs + [ParseTargetFramework(content[start..])];
      }
      index := index + 1;
    }
    ScannedAll(content);
  }

  lemma ParseSnoc(parts: seq<string>, part: string)
    ensures ParseTargetFrameworks(parts + [part]) == ParseTargetFrameworks(parts) + [ParseTargetFramework(part)]
  {
    assert (parts + [part])[..|parts|] == parts;
  }

  /** The loop of `SaveTargetFrameworks` building the list text. */
  method JoinTargetFrameworks(tfs: seq<TargetFramework>) returns (text: string)
    ensures text == Join(TargetFrameworkTexts(tfs))
  {
    text := [];
    var i := 0;
    while i < |tfs|
      invariant i <= |tfs|
      invariant text == Join(TargetFrameworkTexts(tfs)[..i])
    {
      if i > 0 {
        text := text + [Separator];
      }
      text := text + TargetFrameworkText(tfs[i]);
      assert TargetFrameworkTexts(tfs)[..i + 1][..i] == TargetFrameworkTexts(tfs)[..i];
      i := i + 1;
    }
    assert TargetFrameworkTexts(tfs)[..|tfs|] == TargetFrameworkTexts(tfs);
  }

  /** The edit `SaveTargetFrameworks` makes to the group: no frameworks
      removes the single element, else the list element; one framework is
      written in the single element, more in the list element. */
  function SaveInGroup(g: Node, tfs: seq<TargetFramework>): (r: Node)
    ensures r.name == g.name && r.attributes == g.attributes
  {
    if |tfs| == 0 then
      match FirstChildIndex(g.children, SingleName)
      case Some(j) => RemoveChildAt(g, j)
      case None =>
        match FirstChildIndex(g.children, MultipleName)
        case Some(j) => RemoveChildAt(g, j)
        case None => g
    else if |tfs| == 1 then WriteElement(g, SingleName, MultipleName, TargetFrameworkText(tfs[0]))
    else WriteElement(g, MultipleName, SingleName, Join(TargetFrameworkTexts(tfs)))
  }

  /** Overwrites the first `keep` element's content; without one, removes
      the first `other` element and appends a new `keep` element. */
  function WriteElement(g: Node, keep: string, other: string, text: string): (r: Node)
    ensures r.name == g.name && r.attributes == g.attributes
  {
    match FirstChildIndex(g.children, keep)
    case Some(j) => ReplaceChildAt(g, j, WithContent(g.children[j], text))
    case None =>
      var g1 := match FirstChildIndex(g.children, other)
        case Some(j) => RemoveChildAt(g, j)
        case None => g;
      AddChild(g1, Element(keep, text))
  }

  /** `SaveTargetFrameworks` on the whole tree; no unconditioned group is an error. */
  function SavedTargetFrameworks(root: Node, tfs: seq<TargetFramework>): (r: Result<Node>)
    ensures r.Err? <==> PropertyGroup(root, []).Err?
    ensures r.Ok? ==> r.value.name == root.name && r.value.attributes == root.attributes && |r.value.children| == |root.children|
  {
    match PropertyGroup(root, [])
    case Err(e) => Err(e)
    case Ok(i) => Ok(ReplaceChildAt(root, i, SaveInGroup(root.children[i], tfs)))
  }

  // ---------------------------------------------------------------- round trip

  /** Frameworks the list form can carry: more than one framework needs
      monikers without separators and a non-empty last moniker. */
  predicate ListFormRepresentable(tfs: seq<TargetFramework>) {
    |tfs| >= 2 ==> (forall i :: 0 <= i < |tfs| ==> NoSeparator(tfs[i].moniker)) && tfs[|tfs| - 1].moniker != []
  }

  lemma ParseTexts(tfs: seq<TargetFramework>)
    ensures ParseTargetFrameworks(TargetFrameworkTexts(tfs)) == tfs
  {
  }

  lemma NoFrameworkLookups(cs: seq<Node>)
    requires NoFrameworkElement(cs)
    ensures FirstChildIndex(cs, SingleName) == None && FirstChildIndex(cs, MultipleName) == None
  {
    FirstChildIndexUnique(cs, SingleName, None);
    FirstChildIndexUnique(cs, MultipleName, None);
  }

  lemma RemoveOnlyFramework(cs: seq<Node>, j: nat)
    requires AtMostOneFrameworkElement(cs) && j < |cs| && IsFrameworkElement(cs[j])
    ensures NoFrameworkElement(cs[..j] + cs[j + 1..])
  {
    var ds := cs[..j] + cs[j + 1..];
    forall k | 0 <= k < |ds|
      ensures !IsFrameworkElement(ds[k])
    {
      if k < j {
        assert ds[k] == cs[k];
      } else {
        assert ds[k] == cs[k + 1];
      }
    }
  }

  /** A group with neither element, after the element for `name` is appended. */
  lemma AppendToEmpty(cs: seq<Node>, name: string, text: string)
    requires NoFrameworkElement(cs) && (name == SingleName || name == MultipleName)
    ensures AtMostOneFrameworkElement(cs + [Element(name, text)])
    ensures FirstChildIndex(cs + [Element(name, text)], name) == Some(|cs|)
    ensures name == MultipleName ==> FirstChildIndex(cs + [Element(name, text)], SingleName) == None
  {
    NoFrameworkLookups(cs);
    FirstChildAppend(cs, Element(name, text), name);
    FirstChildAppend(cs, Element(name, text), SingleName);
  }

  lemma NoneFoundMeansNone(cs: seq<Node>)
    requires FirstChildIndex(cs, SingleName) == None && FirstChildIndex(cs, MultipleName) == None
    ensures NoFrameworkElement(cs)
  {
  }

  /** The same names, hence the same element form, after overwriting content. */
  lemma OverwriteKeepsForm(cs: seq<Node>, j: nat, text: string)
    requires AtMostOneFrameworkElement(cs) && j < |cs|
    ensures AtMostOneFrameworkElement(cs[j := WithContent(cs[j], text)])
    ensures FirstChildIndex(cs[j := WithContent(cs[j], text)], SingleName) == FirstChildIndex(cs, SingleName)
    ensures FirstChildIndex(cs[j := WithContent(cs[j], text)], MultipleName) == FirstChildIndex(cs, MultipleName)
  {
    FirstChildSameNames(cs, cs[j := WithContent(cs[j], text)], SingleName);
    FirstChildSameNames(cs, cs[j := WithContent(cs[j], text)], MultipleName);
  }

  /** Saving then reading the group gives the frameworks back, and the group
      still writes them in at most one element. */
  lemma SaveThenReadGroup(g: Node, tfs: seq<TargetFramework>)
    requires AtMostOneFrameworkElement(g.children) && ListFormRepresentable(tfs)
    ensures FrameworksOf(SaveInGroup(g, tfs)) == tfs
    ensures AtMostOneFrameworkElement(SaveInGroup(g, tfs).children)
  {
    var cs := g.children;
    var single := FirstChildIndex(cs, SingleName);
    var multiple := FirstChildIndex(cs, MultipleName);
    var r := SaveInGroup(g, tfs);
    if |tfs| == 0 {
      if single.Some? {
        RemoveOnlyFramework(cs, single.value);
        NoFrameworkLookups(r.children);
      } else if multiple.Some? {
        RemoveOnlyFramework(cs, multiple.value);
        NoFrameworkLookups(r.children);
      }
    } else if |tfs| == 1 {
      var text := TargetFrameworkText(tfs[0]);
      if single.Some? {
        OverwriteKeepsForm(cs, single.value, text);
      } else {
        var g1 := if multiple.Some? then RemoveChildAt(g, multiple.value) else g;
        if multiple.Some? {
          RemoveOnlyFramework(cs, multiple.value);
        } else {
          NoneFoundMeansNone(cs);
        }
        AppendToEmpty(g1.children, SingleName, text);
      }
      assert [ParseTargetFramework(text)] == tfs;
    } else {
      var text := Join(TargetFrameworkTexts(tfs));
      SegmentsJoin(TargetFrameworkTexts(tfs));
      ParseTexts(tfs);
      if multiple.Some? {
        if single.Some? {
          assert IsFrameworkElement(cs[single.value]) && IsFrameworkElement(cs[multiple.value]);
          assert false;
        }
        OverwriteKeepsForm(cs, multiple.value, text);
      } else {
        var g1 := if single.Some? then RemoveChildAt(g, single.value) else g;
        if single.Some? {
          RemoveOnlyFramework(cs, single.value);
        } else {
          NoneFoundMeansNone(cs);
        }
        AppendToEmpty(g1.children, MultipleName, text);
      }
    }
  }

  /** `SaveTargetFrameworks` followed by `LoadTargetFrameworks` gives the
      frameworks back when the unconditioned group writes them in at most
      one element and the list form can carry them. */
  lemma SaveThenLoad(root: Node, tfs: seq<TargetFramework>)
    requires PropertyGroup(root, []).Ok?
    requires AtMostOneFrameworkElement(root.children[PropertyGroup(root, []).value].children)
    requires ListFormRepresentable(tfs)
    ensures LoadedTargetFrameworks(SavedTargetFrameworks(root, tfs).value) == Ok(tfs)
    ensures var r := SavedTargetFrameworks(root, tfs).value;
      AtMostOneFrameworkElement(r.children[PropertyGroup(r, []).value].children)
  {
    var i := PropertyGroup(root, []).value;
    ReplaceGroupKeepsSelection(root, i, SaveInGroup(root.children[i], tfs));
    SaveThenReadGroup(root.children[i], tfs);
  }

  lemma WriteElementKeepsOthers(g: Node, keep: string, other: string, text: string, name: string)
    requires name != keep && name != other
    ensures ChildContent(WriteElement(g, keep, other, text), name) == ChildContent(g, name)
  {
    var cs := g.children;
    match FirstChildIndex(cs, keep) {
      case Some(j) =>
        FirstNamedReplace(cs, j, WithContent(cs[j], text), name);
      case None =>
        match FirstChildIndex(cs, other) {
          case Some(j) =>
            FirstNamedRemove(cs, j, name);
            FirstNamedAppend(cs[..j] + cs[j + 1..], Element(keep, text), name);
          case None =>
            FirstNamedAppend(cs, Element(keep, text), name);
        }
    }
  }

  /** Saving touches no other child of the group. */
  lemma SaveKeepsOtherChildren(g: Node, tfs: seq<TargetFramework>, name: string)
    requires name != SingleName && name != MultipleName
    ensures ChildContent(SaveInGroup(g, tfs), name) == ChildContent(g, name)
  {
    var cs := g.children;
    if |tfs| == 0 {
      match FirstChildIndex(cs, SingleName) {
        case Some(j) => FirstNamedRemove(cs, j, name);
        case None =>
          match FirstChildIndex(cs, MultipleName) {
            case Some(j) => FirstNamedRemove(cs, j, name);
            case None =>
          }
      }
    } else if |tfs| == 1 {
      WriteElementKeepsOthers(g, SingleName, MultipleName, TargetFrameworkText(tfs[0]), name);
    } else {
      WriteElementKeepsOthers(g, MultipleName, SingleName, Join(TargetFrameworkTexts(tfs)), name);
    }
  }

  /** Saving frameworks leaves every other property, under every condition, as it read. */
  lemma SaveKeepsOtherProperties(root: Node, tfs: seq<TargetFramework>, condition: string, name: string)
    requires PropertyGroup(root, []).Ok? && name != SingleName && name != MultipleName
    ensures PropertyContent(SavedTargetFrameworks(root, tfs).value, condition, name) == PropertyContent(root, condition, name)
  {
    var i := PropertyGroup(root, []).value;
    var g := SaveInGroup(root.children[i], tfs);
    ReplaceGroupKeepsSelection(root, i, g);
    if PropertyGroup(root, condition) == Ok(i) {
      SaveKeepsOtherChildren(root.children[i], tfs, name);
    } else {
      ReplaceGroupKeepsOthers(root, i, g, condition, name);
    }
  }

  /** The unconditioned group exists and writes its frameworks in at most one element. */
  predicate FrameworkFormSound(root: Node) {
    PropertyGroup(root, []).Ok? && AtMostOneFrameworkElement(root.children[PropertyGroup(root, []).value].children)
  }

  /** The loaded frameworks depend only on the two framework properties. */
  lemma LoadedByContents(a: Node, b: Node)
    requires PropertyContent(a, [], SingleName) == PropertyContent(b, [], SingleName)
    requires PropertyContent(a, [], MultipleName) == PropertyContent(b, [], MultipleName)
    ensures LoadedTargetFrameworks(a) == LoadedTargetFrameworks(b)
  {
  }

  /** Writing any other property leaves the loaded frameworks as they were. */
  lemma PropertyWriteKeepsFrameworks(root: Node, condition: string, name: string, text: Option<string>)
    requires PropertyGroup(root, condition).Ok? && name != SingleName && name != MultipleName
    ensures LoadedTargetFrameworks(WithProperty(root, condition, name, text).value) == LoadedTargetFrameworks(root)
  {
    var r := WithProperty(root, condition, name, text).value;
    if condition == [] {
      WriteKeepsOtherNames(root, condition, name, text, SingleName);
      WriteKeepsOtherNames(root, condition, name, text, MultipleName);
    } else {
      WriteKeepsOtherConditions(root, condition, name, text, [], SingleName);
      WriteKeepsOtherConditions(root, condition, name, text, [], MultipleName);
    }
    LoadedByContents(r, root);
  }

  /** Clearing removes only the first of the two elements: with a single
      element and a list both present, the list survives and is what reads
      back afterwards. */
  lemma ClearKeepsListBesideSingle(g: Node, j: nat)
    requires FirstChildIndex(g.children, SingleName) == Some(j)
    requires forall k :: 0 <= k < |g.children| && k != j ==> g.children[k].name != SingleName
    requires ChildContent(g, MultipleName).Some?
    ensures FrameworksOf(SaveInGroup(g, [])) == ParseTargetFrameworks(Segments(ChildContent(g, MultipleName).value))
  {
    var cs := g.children;
    var ds := cs[..j] + cs[j + 1..];
    forall k | 0 <= k < |ds|
      ensures ds[k].name != SingleName
    {
      if k < j {
        assert ds[k] == cs[k];
      } else {
        assert ds[k] == cs[k + 1];
      }
    }
    FirstChildIndexUnique(ds, SingleName, None);
    FirstNamedRemove(cs, j, MultipleName);
  }
}
