/** The project document: the tree and the cached list of target
    frameworks. Every read resolves the PropertyGroup first; every write
    replaces the tree; the framework cache is written through by
    `SaveTargetFrameworks`. */
module ProjectFiles {
  import opened Results
  import opened Xml
  import opened TextOps
  import opened Tokens
  import LangVersions
  import opened NodeExtensions
  import opened ProjectProperties
  import opened ProjectFrameworks
  import opened ProjectItems

  /** A write that may fail: on success the tree is the written one, on
      failure it is unchanged and the failure is reported. */
  predicate Applied(res: Result<Node>, before: Node, after: Node, outcome: Outcome) {
    match res
    case Ok(n) => after == n && outcome == Pass
    case Err(e) => after == before && outcome == Fail(e)
  }

  /** The loop of `TryGetProperty` over a group's children. */
  method FindProperty(g: Node, name: string) returns (r: Option<nat>)
    ensures r == FirstChildIndex(g.children, name)
  {
    var i := 0;
    while i < |g.children|
      invariant i <= |g.children|
      invariant forall k :: 0 <= k < i ==> g.children[k].name != name
    {
      if g.children[i].name == name {
        FirstChildIndexUnique(g.children, name, Some(i));
        return Some(i);
      }
      i := i + 1;
    }
    FirstChildIndexUnique(g.children, name, None);
    return None;
  }

  /** The loop of `RemoveItemWithNameAndAttribute` over the group's items:
      the first of the kind whose Include is exactly the text. */
  method FindTarget(children: seq<Node>, kind: string, includeText: string) returns (r: Option<nat>)
    ensures r == FirstTarget(children, kind, includeText)
  {
    var j := 0;
    while j < |children|
      invariant j <= |children|
      invariant forall m :: 0 <= m < j ==> !IsTarget(children[m], kind, includeText)
    {
      if EqualsIgnoreCase(children[j].name, kind) && TryGetAttribute(children[j], IncludeAttribute) == Some(includeText) {
        FirstTargetUnique(children, kind, includeText, j);
        return Some(j);
      }
      j := j + 1;
    }
    return None;
  }

  /** Item edits leave the loaded frameworks as they were. */
  lemma AddKeepsFrameworks(root: Node, item: Node)
    ensures LoadedTargetFrameworks(WithItem(root, item)) == LoadedTargetFrameworks(root)
  {
    AddKeepsProperties(root, item, [], SingleName);
    AddKeepsProperties(root, item, [], MultipleName);
    LoadedByContents(WithItem(root, item), root);
  }

  lemma ClearKeepsFrameworks(root: Node, kind: string)
    ensures LoadedTargetFrameworks(WithoutItemsNamed(root, kind)) == LoadedTargetFrameworks(root)
  {
    ClearKeepsProperties(root, kind, [], SingleName);
    ClearKeepsProperties(root, kind, [], MultipleName);
    LoadedByContents(WithoutItemsNamed(root, kind), root);
  }

  lemma RemoveKeepsFrameworks(root: Node, kind: string, includeText: string)
    ensures LoadedTargetFrameworks(WithoutItem(root, kind, includeText).1) == LoadedTargetFrameworks(root)
  {
    RemoveKeepsProperties(root, kind, includeText, [], SingleName);
    RemoveKeepsProperties(root, kind, includeText, [], MultipleName);
    LoadedByContents(WithoutItem(root, kind, includeText).1, root);
  }

  class Project {
    var root: Node
    var targetFrameworks: seq<TargetFramework>

    /** The cache holds what the tree holds. */
    ghost predicate Consistent()
      reads this
    {
      LoadedTargetFrameworks(root) == Ok(targetFrameworks)
    }

    /** A parsed tree with an empty cache, before loading. */
    constructor FromTree(tree: Node)
      ensures root == tree && targetFrameworks == []
    {
      root := tree;
      targetFrameworks := [];
    }

    /** `new Project(bytes)` on the parsed tree: loading the frameworks fails
        when there is no unconditioned PropertyGroup. */
    static method Open(tree: Node) returns (r: Result<Project>)
      ensures r.Err? <==> PropertyGroup(tree, []).Err?
      ensures r.Err? ==> r.error == NoPropertyGroup
      ensures r.Ok? ==> fresh(r.value) && r.value.root == tree && r.value.Consistent()
    {
      var p := new Project.FromTree(tree);
      var outcome := p.LoadTargetFrameworks();
      if outcome.Fail? {
        return Err(outcome.error);
      }
      assert [] + LoadedTargetFrameworks(tree).value == LoadedTargetFrameworks(tree).value;
      return Ok(p);
    }

    // ------------------------------------------------------------ properties

    /** `GetPropertyGroup`: the first group answering the condition. */
    method FindPropertyGroup(condition: string) returns (r: Result<nat>)
      ensures r == PropertyGroup(root, condition)
    {
      var i := 0;
      while i < |root.children|
        invariant i <= |root.children|
        invariant forall k :: 0 <= k < i ==> !Answers(root.children[k], condition)
      {
        var child := root.children[i];
        if child.name == PropertyGroupName {
          match TryGetAttribute(child, ConditionAttribute) {
            case Some(c) =>
              if c == condition {
                GroupIndexUnique(root.children, condition, Some(i));
                return Ok(i);
              }
            case None =>
              if condition == [] {
                GroupIndexUnique(root.children, condition, Some(i));
                return Ok(i);
              }
          }
        }
        i := i + 1;
      }
      GroupIndexUnique(root.children, condition, None);
      return Err(NoPropertyGroup);
    }

    /** `TryGetProperty`: the group's first child with the name. */
    method TryGetProperty(name: string, condition: string) returns (r: Result<Option<nat>>)
      ensures r == PropertyIndex(root, condition, name)
    {
      var group := FindPropertyGroup(condition);
      if group.Err? {
        return Err(group.error);
      }
      var found := FindProperty(root.children[group.value], name);
      return Ok(found);
    }

    /** `GetBoolean`: "true" ignoring case is true, any other text false. */
    method GetBoolean(name: string, condition: string) returns (r: Result<Option<bool>>)
      ensures r == ReadBoolean(root, name, condition)
    {
      var group := FindPropertyGroup(condition);
      if group.Err? {
        return Err(group.error);
      }
      var g := root.children[group.value];
      var found := FindProperty(g, name);
      if found.None? {
        return Ok(None);
      }
      return Ok(Some(EqualsIgnoreCase(g.children[found.value].content, "true")));
    }

    /** `GetEnum`: a member name ignoring case; other text reads as no value. */
    method GetEnum(name: string, condition: string, e: EnumType) returns (r: Result<Option<nat>>)
      ensures r == ReadEnum(root, name, condition, e)
    {
      var group := FindPropertyGroup(condition);
      if group.Err? {
        return Err(group.error);
      }
      var g := root.children[group.value];
      var found := FindProperty(g, name);
      if found.None? {
        return Ok(None);
      }
      return Ok(TryParseEnum(e, g.children[found.value].content, true));
    }

    /** The `LangVersion` getter. */
    method GetLangVersion() returns (r: Result<Option<LangVersions.LangVersion>>)
      ensures r == ReadLangVersion(root)
    {
      var group := FindPropertyGroup([]);
      if group.Err? {
        return Err(group.error);
      }
      var g := root.children[group.value];
      var found := FindProperty(g, LangVersionName);
      if found.None? {
        return Ok(None);
      }
      var (ok, v) := LangVersions.TryParse(g.children[found.value].content);
      return if ok then Ok(Some(v)) else Ok(None);
    }

    /** The write all property setters share. */
    method SetProperty(name: string, condition: string, text: Option<string>) returns (outcome: Outcome)
      modifies this
      ensures Applied(WithProperty(old(root), condition, name, text), old(root), root, outcome)
      ensures targetFrameworks == old(targetFrameworks)
      ensures name != SingleName && name != MultipleName && old(Consistent()) ==> Consistent()
    {
      var group := FindPropertyGroup(condition);
      if group.Err? {
        return Fail(group.error);
      }
      var i := group.value;
      var g := root.children[i];
      var found := FindProperty(g, name);
      match found {
        case Some(j) =>
          root := ReplaceChildAt(root, i, ReplaceChildAt(g, j, WithContent(g.children[j], text.GetOr([]))));
        case None =>
          if text.Some? {
            root := ReplaceChildAt(root, i, AddChild(g, Element(name, text.value)));
          }
      }
      outcome := Pass;
      if name != SingleName && name != MultipleName {
        PropertyWriteKeepsFrameworks(old(root), condition, name, text);
      }
    }

    /** `SetBoolean`: "True"/"False", or the content cleared for no value. */
    method SetBoolean(name: string, condition: string, value: Option<bool>) returns (outcome: Outcome)
      modifies this
      ensures Applied(WithBoolean(old(root), name, condition, value), old(root), root, outcome)
      ensures targetFrameworks == old(targetFrameworks)
      ensures name != SingleName && name != MultipleName && old(Consistent()) ==> Consistent()
    {
      outcome := SetProperty(name, condition, if value.Some? then Some(PropertyText(value.value)) else None);
    }

    /** `SetEnum`: the member name, or the content cleared for no value. */
    method SetEnum(name: string, condition: string, e: EnumType, value: Option<nat>) returns (outcome: Outcome)
      requires value.Some? ==> value.value < |e.names|
      modifies this
      ensures Applied(WithEnum(old(root), name, condition, e, value), old(root), root, outcome)
      ensures targetFrameworks == old(targetFrameworks)
      ensures name != SingleName && name != MultipleName && old(Consistent()) ==> Consistent()
    {
      outcome := SetProperty(name, condition, if value.Some? then Some(EnumName(e, value.value)) else None);
    }

    /** The `LangVersion` setter. */
    method SetLangVersion(value: Option<LangVersions.LangVersion>) returns (outcome: Outcome)
      modifies this
      ensures Applied(WithLangVersion(old(root), value), old(root), root, outcome)
      ensures targetFrameworks == old(targetFrameworks)
      ensures old(Consistent()) ==> Consistent()
    {
      outcome := SetProperty(LangVersionName, [], if value.Some? then Some(LangVersions.ToString(value.value)) else None);
    }

    /** The `IsTestProject` setter. */
    method SetIsTestProject(value: Option<bool>) returns (outcome: Outcome)
      modifies this
      ensures Applied(WithIsTestProject(old(root), value), old(root), root, outcome)
      ensures targetFrameworks == old(targetFrameworks)
      ensures old(Consistent()) ==> Consistent()
    {
      outcome := SetBoolean(IsTestProjectName, [], value);
    }

    // ------------------------------------------------------------ target frameworks

    /** `LoadTargetFrameworks`: appends the frameworks the tree holds to the cache. */
    method LoadTargetFrameworks() returns (outcome: Outcome)
      modifies this
      ensures root == old(root)
      ensures match LoadedTargetFrameworks(root)
        case Ok(tfs) => outcome == Pass && targetFrameworks == old(targetFrameworks) + tfs
        case Err(e) => outcome == Fail(e) && targetFrameworks == old(targetFrameworks)
    {
      var group := FindPropertyGroup([]);
      if group.Err? {
        return Fail(group.error);
      }
      var g := root.children[group.value];
      var single := FindProperty(g, SingleName);
      if single.Some? {
        targetFrameworks := targetFrameworks + [ParseTargetFramework(g.children[single.value].content)];
      } else {
        var multiple := FindProperty(g, MultipleName);
        if multiple.Some? {
          var parsed := ScanTargetFrameworks(g.children[multiple.value].content);
          targetFrameworks := targetFrameworks + parsed;
        }
      }
      return Pass;
    }

    /** `SaveTargetFrameworks`: writes the cache into the unconditioned
        group; when the group writes its frameworks in at most one element
        and the list form can carry the cache, the tree then holds exactly
        the cache. */
    method SaveTargetFrameworks() returns (outcome: Outcome)
      modifies this
      ensures Applied(SavedTargetFrameworks(old(root), targetFrameworks), old(root), root, outcome)
      ensures targetFrameworks == old(targetFrameworks)
      ensures old(FrameworkFormSound(root)) && ListFormRepresentable(targetFrameworks) ==>
        Consistent() && FrameworkFormSound(root)
    {
      var group := FindPropertyGroup([]);
      if group.Err? {
        return Fail(group.error);
      }
      var i := group.value;
      var g := root.children[i];
      if |targetFrameworks| == 0 {
        match FirstChildIndex(g.children, SingleName) {
          case Some(j) =>
            g := RemoveChildAt(g, j);
          case None =>
            match FirstChildIndex(g.children, MultipleName) {
              case Some(j) =>
                g := RemoveChildAt(g, j);
              case None =>
            }
        }
      } else if |targetFrameworks| == 1 {
        g := WriteFrameworkElement(g, SingleName, MultipleName, TargetFrameworkText(targetFrameworks[0]));
      } else {
        var text := JoinTargetFrameworks(targetFrameworks);
        g := WriteFrameworkElement(g, MultipleName, SingleName, text);
      }
      root := ReplaceChildAt(root, i, g);
      outcome := Pass;
      if FrameworkFormSound(old(root)) && ListFormRepresentable(targetFrameworks) {
        SaveThenLoad(old(root), targetFrameworks);
      }
    }

    /** Overwrites the `keep` element, or replaces the `other` element by a new `keep` element. */
    static method WriteFrameworkElement(g: Node, keep: string, other: string, text: string) returns (r: Node)
      ensures r == WriteElement(g, keep, other, text)
    {
      match FirstChildIndex(g.children, keep) {
        case Some(j) =>
          r := ReplaceChildAt(g, j, WithContent(g.children[j], text));
        case None =>
          r := g;
          match FirstChildIndex(g.children, other) {
            case Some(j) =>
              r := RemoveChildAt(r, j);
            case None =>
          }
          r := AddChild(r, Element(keep, text));
      }
    }

    /** `ClearTargetFrameworks`: empties the cache and writes it through. */
    method ClearTargetFrameworks() returns (outcome: Outcome)
      modifies this
      ensures targetFrameworks == []
      ensures Applied(SavedTargetFrameworks(old(root), []), old(root), root, outcome)
      ensures old(FrameworkFormSound(root)) ==> Consistent() && FrameworkFormSound(root)
    {
      targetFrameworks := [];
      outcome := SaveTargetFrameworks();
    }

    /** `AddTargetFramework`: a framework already cached changes nothing and
        reports false; a new one is appended to the cache and written
        through. A failing write leaves the framework cached. */
    method AddTargetFramework(tf: TargetFramework) returns (r: Result<bool>)
      modifies this
      ensures tf in old(targetFrameworks) ==> r == Ok(false) && root == old(root) && targetFrameworks == old(targetFrameworks)
      ensures tf !in old(targetFrameworks) ==>
        && targetFrameworks == old(targetFrameworks) + [tf]
        && match SavedTargetFrameworks(old(root), targetFrameworks)
           case Ok(n) => root == n && r == Ok(true)
           case Err(e) => root == old(root) && r == Err(e)
      ensures tf in targetFrameworks
      ensures old(FrameworkFormSound(root)) && old(Consistent()) && ListFormRepresentable(targetFrameworks) ==>
        Consistent() && FrameworkFormSound(root)
    {
      if tf in targetFrameworks {
        return Ok(false);
      }
      targetFrameworks := targetFrameworks + [tf];
      var outcome := SaveTargetFrameworks();
      if outcome.Fail? {
        return Err(outcome.error);
      }
      return Ok(true);
    }

    /** `ContainsTargetFramework` asks the cache, which answers for the tree while consistent. */
    function ContainsTargetFramework(tf: TargetFramework): (r: bool)
      reads this
      ensures Consistent() ==> (r <==> tf in LoadedTargetFrameworks(root).value)
    {
      tf in targetFrameworks
    }

    // ------------------------------------------------------------ items

    /** `TryGetItemGroupWith`: the first `ItemGroup` holding an item of the kind. */
    method FindItemGroupWith(kind: string) returns (r: Option<nat>)
      ensures r == ItemGroupWith(root.children, kind)
    {
      var i := 0;
      while i < |root.children|
        invariant i <= |root.children|
        invariant forall k :: 0 <= k < i ==> !HoldsKind(root.children[k], kind)
      {
        var g := root.children[i];
        if g.name == ItemGroupName {
          var j := 0;
          while j < |g.children|
            invariant j <= |g.children|
            invariant forall m :: 0 <= m < j ==> !IsKind(g.children[m], kind)
          {
            if EqualsIgnoreCase(g.children[j].name, kind) {
              ItemGroupWithUnique(root.children, kind, Some(i));
              return Some(i);
            }
            j := j + 1;
          }
        }
        i := i + 1;
      }
      ItemGroupWithUnique(root.children, kind, None);
      return None;
    }

    /** `GetItems`, which the `Get...` of each kind lists: every item of the
        kind in every `ItemGroup`, in document order. */
    method GetItems(kind: string) returns (items: seq<Node>)
      ensures items == ItemsOf(root, kind)
    {
      var cs := root.children;
      items := [];
      var i := 0;
      while i < |cs|
        invariant i <= |cs|
        invariant items == ItemsIn(cs[..i], kind)
      {
        var g := cs[i];
        if g.name == ItemGroupName {
          ghost var before := items;
          var children := g.children;
          var j := 0;
          while j < |children|
            invariant j <= |children|
            invariant items == before + Matching(children[..j], kind)
          {
            MatchingPrefixGrows(children, j, kind);
            if IsKind(children[j], kind) {
              items := items + [children[j]];
            }
            j := j + 1;
          }
          assert children[..j] == children;
        }
        ItemsPrefixGrows(cs, i, kind);
        i := i + 1;
      }
      assert cs[..i] == cs;
    }

    /** The add every `Add...` shares. */
    method AddItem(item: Node)
      modifies this
      ensures root == WithItem(old(root), item)
      ensures targetFrameworks == old(targetFrameworks)
      ensures old(Consistent()) ==> Consistent()
    {
      var found := FindItemGroupWith(item.name);
      match found {
        case Some(i) =>
          root := ReplaceChildAt(root, i, AddChild(root.children[i], item));
        case None =>
          root := AddChild(root, Node(ItemGroupName, [], [item], []));
      }
      AddKeepsFrameworks(old(root), item);
    }

    method AddPackageReference(includeText: string, version: SemanticVersion)
      modifies this
      ensures root == WithItem(old(root), PackageReferenceItem(includeText, version))
      ensures targetFrameworks == old(targetFrameworks)
    {
      AddItem(PackageReferenceItem(includeText, version));
    }

    method AddProjectReference(includeText: string)
      modifies this
      ensures root == WithItem(old(root), IncludeItem(ProjectReferenceKind, includeText))
      ensures targetFrameworks == old(targetFrameworks)
    {
      AddItem(IncludeItem(ProjectReferenceKind, includeText));
    }

    method AddEmbeddedResource(includeText: string)
      modifies this
      ensures root == WithItem(old(root), IncludeItem(EmbeddedResourceKind, includeText))
      ensures targetFrameworks == old(targetFrameworks)
    {
      AddItem(IncludeItem(EmbeddedResourceKind, includeText));
    }

    method AddAnalyzer(includeText: string)
      modifies this
      ensures root == WithItem(old(root), IncludeItem(AnalyzerKind, includeText))
      ensures targetFrameworks == old(targetFrameworks)
    {
      AddItem(IncludeItem(AnalyzerKind, includeText));
    }

    /** `AddContent`; its defaults are `pack` = true, `packagePath` empty, `visible` none. */
    method AddContent(includeText: string, pack: Option<bool>, packagePath: string, visible: Option<bool>)
      modifies this
      ensures root == WithItem(old(root), ContentItem(includeText, pack, packagePath, visible))
      ensures targetFrameworks == old(targetFrameworks)
    {
      AddItem(ContentItem(includeText, pack, packagePath, visible));
    }

    /** `RemoveItemsWithName`, which each `Clear...` calls: the backward
        removal loop over the first group holding the kind. */
    method RemoveItemsWithName(kind: string)
      modifies this
      ensures root == WithoutItemsNamed(old(root), kind)
      ensures targetFrameworks == old(targetFrameworks)
      ensures old(Consistent()) ==> Consistent()
    {
      ClearKeepsFrameworks(root, kind);
      var found := FindItemGroupWith(kind);
      if found.None? {
        return;
      }
      var i := found.value;
      var g := root.children[i];
      var cs := DropKind(g.children, kind);
      if cs == [] {
        root := RemoveChildAt(root, i);
      } else {
        root := ReplaceChildAt(root, i, g.(children := cs));
      }
    }

    /** The backward `RemoveAt` loop of `RemoveItemsWithName`. */
    static method DropKind(children: seq<Node>, kind: string) returns (cs: seq<Node>)
      ensures cs == Unmatching(children, kind)
    {
      cs := children;
      var k := |cs|;
      while k > 0
        invariant 0 <= k <= |children|
        invariant cs == children[..k] + Unmatching(children[k..], kind)
      {
        k := k - 1;
        UnmatchingStep(children, k, cs, kind);
        if IsKind(cs[k], kind) {
          cs := cs[..k] + cs[k + 1..];
        }
      }
      assert children[..0] == [] && children[0..] == children;
    }

    /** `RemoveItemWithNameAndAttribute` on Include, which each `Remove...`
        calls: the forward search of the first group holding the kind. */
    method RemoveItemWithInclude(kind: string, includeText: string) returns (removed: bool)
      modifies this
      ensures (removed, root) == WithoutItem(old(root), kind, includeText)
      ensures targetFrameworks == old(targetFrameworks)
      ensures old(Consistent()) ==> Consistent()
    {
      RemoveKeepsFrameworks(root, kind, includeText);
      var found := FindItemGroupWith(kind);
      if found.None? {
        return false;
      }
      var i := found.value;
      var g := root.children[i];
      var j := FindTarget(g.children, kind, includeText);
      if j.Some? {
        root := ReplaceChildAt(root, i, RemoveChildAt(g, j.value));
        return true;
      }
      // The group holds an item of the kind, so the source's empty-group
      // check on this path never removes it.
      return false;
    }
  }
}
