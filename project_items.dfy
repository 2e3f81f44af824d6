/** The items of a project: item elements grouped under `ItemGroup`
    children of the root. Items of a kind are matched by name ignoring
    case; adding goes to the first group already holding that kind (or a
    new group), clearing and removing work only in that first group. */
module ProjectItems {
  import opened Results
  import opened Xml
  import opened TextOps
  import opened Tokens
  import opened NodeExtensions
  import ContentItems
  import PackageReferences
  import ProjectProperties

  const ItemGroupName: string := "ItemGroup"

  const PackageReferenceKind: string := "PackageReference"
  const ProjectReferenceKind: string := "ProjectReference"
  const EmbeddedResourceKind: string := "EmbeddedResource"
  const AnalyzerKind: string := "Analyzer"
  const ContentKind: string := "Content"

  /** `NameEquals`: an item is of a kind when the names agree ignoring case. */
  predicate IsKind(n: Node, kind: string) {
    EqualsIgnoreCase(n.name, kind)
  }

  /** The items of a kind among some siblings, in order. */
  function Matching(cs: seq<Node>, kind: string): (r: seq<Node>)
    ensures |r| <= |cs|
  {
    if cs == [] then []
    else Matching(cs[..|cs| - 1], kind) + (if IsKind(cs[|cs| - 1], kind) then [cs[|cs| - 1]] else [])
  }

  /** The siblings that are not of the kind, in order. */
  function Unmatching(cs: seq<Node>, kind: string): (r: seq<Node>)
    ensures |r| <= |cs|
  {
    if cs == [] then []
    else (if IsKind(cs[0], kind) then [] else [cs[0]]) + Unmatching(cs[1..], kind)
  }

  /** Every item listed is of the kind, and every sibling of the kind is listed. */
  lemma {:induction false} MatchingOfKind(cs: seq<Node>, kind: string)
    ensures forall k :: 0 <= k < |Matching(cs, kind)| ==> IsKind(Matching(cs, kind)[k], kind)
    ensures |Matching(cs, kind)| == |cs| <==> forall k :: 0 <= k < |cs| ==> IsKind(cs[k], kind)
    ensures forall k :: 0 <= k < |cs| && IsKind(cs[k], kind) ==> cs[k] in Matching(cs, kind)
    decreases |cs|
  {
    if cs != [] {
      var init := cs[..|cs| - 1];
      MatchingOfKind(init, kind);
      forall k | 0 <= k < |cs| && IsKind(cs[k], kind)
        ensures cs[k] in Matching(cs, kind)
      {
        if k < |init| {
          assert init[k] == cs[k];
        }
      }
      if forall k :: 0 <= k < |cs| ==> IsKind(cs[k], kind) {
        assert forall k :: 0 <= k < |init| ==> IsKind(init[k], kind);
      }
      if |Matching(cs, kind)| == |cs| {
        assert |Matching(init, kind)| == |init|;
        forall k | 0 <= k < |cs|
          ensures IsKind(cs[k], kind)
        {
          if k < |init| {
            assert init[k] == cs[k];
          }
        }
      }
    }
  }

  /** What a clear keeps holds nothing of the kind, and everything else. */
  lemma {:induction false} UnmatchingNotOfKind(cs: seq<Node>, kind: string)
    ensures forall k :: 0 <= k < |Unmatching(cs, kind)| ==> !IsKind(Unmatching(cs, kind)[k], kind)
    ensures |Unmatching(cs, kind)| == |cs| <==> forall k :: 0 <= k < |cs| ==> !IsKind(cs[k], kind)
    decreases |cs|
  {
    if cs != [] {
      var rest := cs[1..];
      UnmatchingNotOfKind(rest, kind);
      var u := Unmatching(rest, kind);
      var head := if IsKind(cs[0], kind) then [] else [cs[0]];
      assert Unmatching(cs, kind) == head + u;
      forall k | 0 <= k < |head + u|
        ensures !IsKind((head + u)[k], kind)
      {
        if k >= |head| {
          assert (head + u)[k] == u[k - |head|];
        }
      }
      if forall k :: 0 <= k < |cs| ==> !IsKind(cs[k], kind) {
        assert forall k :: 0 <= k < |rest| ==> !IsKind(rest[k], kind) by {
          forall k | 0 <= k < |rest| ensures !IsKind(rest[k], kind) {
            assert rest[k] == cs[k + 1];
          }
        }
      }
      if |Unmatching(cs, kind)| == |cs| {
        assert |u| == |rest|;
        forall k | 0 <= k < |cs|
          ensures !IsKind(cs[k], kind)
        {
          if k > 0 {
            assert cs[k] == rest[k - 1];
          }
        }
      }
    }
  }

  lemma {:induction false} MatchingConcat(a: seq<Node>, b: seq<Node>, kind: string)
    ensures Matching(a + b, kind) == Matching(a, kind) + Matching(b, kind)
    decreases |b|
  {
    if b == [] {
      assert a + b == a;
    } else {
      var b', x := b[..|b| - 1], b[|b| - 1];
      assert a + b == (a + b') + [x];
      assert (a + b)[..|a + b| - 1] == a + b';
      MatchingConcat(a, b', kind);
    }
  }

  /** Dropping the items of a kind leaves no item of that kind and every
      item of a kind with another name. */
  lemma {:induction false} MatchingUnmatching(cs: seq<Node>, kind: string, other: string)
    ensures Matching(Unmatching(cs, kind), kind) == []
    ensures !EqualsIgnoreCase(kind, other) ==> Matching(Unmatching(cs, kind), other) == Matching(cs, other)
    decreases |cs|
  {
    if cs != [] {
      var head := if IsKind(cs[0], kind) then [] else [cs[0]];
      MatchingUnmatching(cs[1..], kind, other);
      MatchingConcat(head, Unmatching(cs[1..], kind), kind);
      MatchingConcat(head, Unmatching(cs[1..], kind), other);
      MatchingConcat([cs[0]], cs[1..], other);
      assert [cs[0]] + cs[1..] == cs;
      assert Matching([cs[0]], other) == [] + (if IsKind(cs[0], other) then [cs[0]] else []);
    }
  }

  /** One step of the backward removal loop at position `k`. */
  lemma UnmatchingStep(s: seq<Node>, k: nat, cs: seq<Node>, kind: string)
    requires k < |s| && cs == s[..k + 1] + Unmatching(s[k + 1..], kind)
    ensures k < |cs| && cs[k] == s[k]
    ensures IsKind(s[k], kind) ==> cs[..k] + cs[k + 1..] == s[..k] + Unmatching(s[k..], kind)
    ensures !IsKind(s[k], kind) ==> cs == s[..k] + Unmatching(s[k..], kind)
  {
    assert s[..k + 1] == s[..k] + [s[k]];
    assert s[k..][1..] == s[k + 1..];
    assert s[k..][0] == s[k];
    var u := Unmatching(s[k + 1..], kind);
    if IsKind(s[k], kind) {
      assert cs[..k] == s[..k];
      assert cs[k + 1..] == u;
    }
  }

  // ---------------------------------------------------------------- the group to work in

  /** An `ItemGroup` (exact name) holding at least one item of the kind. */
  predicate HoldsKind(g: Node, kind: string) {
    g.name == ItemGroupName && exists k :: 0 <= k < |g.children| && IsKind(g.children[k], kind)
  }

  predicate IsFirstHolding(cs: seq<Node>, kind: string, r: Option<nat>) {
    match r
    case Some(i) => i < |cs| && HoldsKind(cs[i], kind) && forall k :: 0 <= k < i ==> !HoldsKind(cs[k], kind)
    case None => forall k :: 0 <= k < |cs| ==> !HoldsKind(cs[k], kind)
  }

  /** `TryGetItemGroupWith`: the first group holding an item of the kind. */
  function ItemGroupWith(cs: seq<Node>, kind: string): (r: Option<nat>)
    ensures IsFirstHolding(cs, kind, r)
  {
    if cs == [] then None
    else if HoldsKind(cs[0], kind) then Some(0)
    else match ItemGroupWith(cs[1..], kind)
      case None => None
      case Some(i) => Some(i + 1)
  }

  lemma ItemGroupWithUnique(cs: seq<Node>, kind: string, r: Option<nat>)
    requires IsFirstHolding(cs, kind, r)
    ensures ItemGroupWith(cs, kind) == r
  {
  }

  // ---------------------------------------------------------------- listing

  /** Every item of the kind in every `ItemGroup`, in document order. */
  function ItemsIn(cs: seq<Node>, kind: string): seq<Node> {
    if cs == [] then []
    else ItemsIn(cs[..|cs| - 1], kind) + GroupItems(cs[|cs| - 1], kind)
  }

  /** The items one child of the root contributes. */
  function GroupItems(g: Node, kind: string): seq<Node> {
    if g.name == ItemGroupName then Matching(g.children, kind) else []
  }

  /** `GetItems`, which every `Get...` of the project lists. */
  function ItemsOf(root: Node, kind: string): seq<Node> {
    ItemsIn(root.children, kind)
  }

  lemma {:induction false} ItemsInConcat(a: seq<Node>, b: seq<Node>, kind: string)
    ensures ItemsIn(a + b, kind) == ItemsIn(a, kind) + ItemsIn(b, kind)
    decreases |b|
  {
    if b == [] {
      assert a + b == a;
    } else {
      var b', x := b[..|b| - 1], b[|b| - 1];
      assert (a + b)[..|a + b| - 1] == a + b';
      assert (a + b)[|a + b| - 1] == x;
      ItemsInConcat(a, b', kind);
      calc {
        ItemsIn(a + b, kind);
        ItemsIn(a + b', kind) + GroupItems(x, kind);
        ItemsIn(a, kind) + ItemsIn(b', kind) + GroupItems(x, kind);
        ItemsIn(a, kind) + ItemsIn(b, kind);
      }
    }
  }

  /** The root's items split around one child. */
  lemma ItemsAround(cs: seq<Node>, i: nat, kind: string)
    requires i < |cs|
    ensures ItemsIn(cs, kind) == ItemsIn(cs[..i], kind) + GroupItems(cs[i], kind) + ItemsIn(cs[i + 1..], kind)
  {
    assert cs == cs[..i] + [cs[i]] + cs[i + 1..];
    ItemsInConcat(cs[..i] + [cs[i]], cs[i + 1..], kind);
    ItemsInConcat(cs[..i], [cs[i]], kind);
    assert [cs[i]][..0] == [];
  }

  /** The root's items after one child is replaced. */
  lemma ItemsReplace(cs: seq<Node>, i: nat, g: Node, kind: string)
    requires i < |cs|
    ensures ItemsIn(cs[i := g], kind) == ItemsIn(cs[..i], kind) + GroupItems(g, kind) + ItemsIn(cs[i + 1..], kind)
  {
    ItemsAround(cs[i := g], i, kind);
    assert cs[i := g][..i] == cs[..i] && cs[i := g][i + 1..] == cs[i + 1..];
  }

  /** The root's items after one child is removed. */
  lemma ItemsRemove(cs: seq<Node>, i: nat, kind: string)
    requires i < |cs|
    ensures ItemsIn(cs[..i] + cs[i + 1..], kind) == ItemsIn(cs[..i], kind) + ItemsIn(cs[i + 1..], kind)
  {
    ItemsInConcat(cs[..i], cs[i + 1..], kind);
  }

  /** The root's items after a child is appended. */
  lemma ItemsAppend(cs: seq<Node>, g: Node, kind: string)
    ensures ItemsIn(cs + [g], kind) == ItemsIn(cs, kind) + GroupItems(g, kind)
  {
    assert (cs + [g])[..|cs|] == cs;
  }

  lemma MatchingSnoc(cs: seq<Node>, x: Node, kind: string)
    ensures Matching(cs + [x], kind) == Matching(cs, kind) + (if IsKind(x, kind) then [x] else [])
  {
    assert (cs + [x])[..|cs|] == cs;
  }

  lemma MatchingPrefixGrows(cs: seq<Node>, j: nat, kind: string)
    requires j < |cs|
    ensures Matching(cs[..j + 1], kind) == Matching(cs[..j], kind) + (if IsKind(cs[j], kind) then [cs[j]] else [])
  {
    assert cs[..j + 1] == cs[..j] + [cs[j]];
    MatchingSnoc(cs[..j], cs[j], kind);
  }

  lemma {:induction false} MatchingNone(cs: seq<Node>, kind: string)
    requires forall k :: 0 <= k < |cs| ==> !IsKind(cs[k], kind)
    ensures Matching(cs, kind) == []
    decreases |cs|
  {
    if cs != [] {
      MatchingNone(cs[..|cs| - 1], kind);
    }
  }

  /** Children not holding the kind contribute no items of it. */
  lemma {:induction false} NoHolderNoItems(cs: seq<Node>, kind: string)
    requires forall k :: 0 <= k < |cs| ==> !HoldsKind(cs[k], kind)
    ensures ItemsIn(cs, kind) == []
    decreases |cs|
  {
    if cs != [] {
      NoHolderNoItems(cs[..|cs| - 1], kind);
      var g := cs[|cs| - 1];
      assert !HoldsKind(g, kind);
      if g.name == ItemGroupName {
        MatchingNone(g.children, kind);
      }
    }
  }

  // ---------------------------------------------------------------- new items

  /** `new XMLNode(kind)` with its Include set. */
  function IncludeItem(kind: string, includeText: string): (r: Node)
    ensures r.name == kind && r.children == []
    ensures GetInclude(r) == includeText
  {
    SetInclude(Element(kind, []), includeText)
  }

  /** The node `AddPackageReference` builds. */
  function PackageReferenceItem(includeText: string, version: SemanticVersion): (r: Node)
    ensures r.name == PackageReferenceKind && r.children == []
    ensures GetInclude(r) == includeText && PackageReferences.GetVersion(r) == Some(version)
  {
    PackageReferences.SetVersion(IncludeItem(PackageReferenceKind, includeText), Some(version))
  }

  /** The node `AddContent` builds: Include, then Pack, PackagePath and
      Visible, each read back as given. */
  function ContentItem(includeText: string, pack: Option<bool>, packagePath: string, visible: Option<bool>): (r: Node)
    ensures r.name == ContentKind
    ensures GetInclude(r) == includeText
    ensures ContentItems.GetPack(r) == Ok(pack)
    ensures ContentItems.GetPackagePath(r) == packagePath
    ensures ContentItems.GetVisible(r) == Ok(visible)
  {
    var n0 := IncludeItem(ContentKind, includeText);
    var n1 := ContentItems.SetPack(n0, pack);
    var n2 := ContentItems.SetPackagePath(n1, packagePath);
    var n3 := ContentItems.SetVisible(n2, visible);
    assert AtMostOneOccurrence(n0, ContentItems.PackName);
    assert AtMostOneOccurrence(n2, ContentItems.VisibleName);
    ContentItems.FieldsIndependent(n1, visible, packagePath);
    ContentItems.FieldsIndependent(n2, visible, packagePath);
    n3
  }

  /** The defaults of `AddContent`: packed, an empty PackagePath attribute, no Visible. */
  lemma ContentDefaults(includeText: string)
    ensures var r := ContentItem(includeText, Some(true), [], None);
      && ContentItems.GetPack(r) == Ok(Some(true))
      && ContainsAttribute(r, ContentItems.PackagePathAttribute)
      && ContentItems.GetVisible(r) == Ok(None)
  {
    var n1 := ContentItems.SetPack(IncludeItem(ContentKind, includeText), Some(true));
    ContentItems.EmptyPackagePathKeepsAttribute(n1);
  }

  // ---------------------------------------------------------------- edits

  /** The add every `Add...` shares: the item joins the first group holding
      its kind, or a new group appended to the root. */
  function WithItem(root: Node, item: Node): (r: Node)
    ensures r.name == root.name && r.attributes == root.attributes
  {
    match ItemGroupWith(root.children, item.name)
    case Some(i) => ReplaceChildAt(root, i, AddChild(root.children[i], item))
    case None => AddChild(root, Node(ItemGroupName, [], [item], []))
  }

  /** `RemoveItemsWithName`: drops every item of the kind from the first
      group holding one, and that group too when nothing is left in it. */
  function WithoutItemsNamed(root: Node, kind: string): (r: Node)
    ensures r.name == root.name && r.attributes == root.attributes
  {
    match ItemGroupWith(root.children, kind)
    case None => root
    case Some(i) =>
      var g := root.children[i];
      var kept := Unmatching(g.children, kind);
      if kept == [] then RemoveChildAt(root, i) else ReplaceChildAt(root, i, g.(children := kept))
  }

  predicate IsTarget(n: Node, kind: string, includeText: string) {
    IsKind(n, kind) && TryGetAttribute(n, IncludeAttribute) == Some(includeText)
  }

  /** Index of the first item of the kind whose Include is exactly `includeText`. */
  function FirstTarget(cs: seq<Node>, kind: string, includeText: string): (r: Option<nat>)
    ensures r.Some? ==> r.value < |cs| && IsTarget(cs[r.value], kind, includeText)
    ensures r.Some? ==> forall k :: 0 <= k < r.value ==> !IsTarget(cs[k], kind, includeText)
    ensures r.None? ==> forall k :: 0 <= k < |cs| ==> !IsTarget(cs[k], kind, includeText)
  {
    if cs == [] then None
    else if IsTarget(cs[0], kind, includeText) then Some(0)
    else match FirstTarget(cs[1..], kind, includeText)
      case None => None
      case Some(j) => Some(j + 1)
  }

  lemma FirstTargetUnique(cs: seq<Node>, kind: string, includeText: string, j: nat)
    requires j < |cs| && IsTarget(cs[j], kind, includeText)
    requires forall k :: 0 <= k < j ==> !IsTarget(cs[k], kind, includeText)
    ensures FirstTarget(cs, kind, includeText) == Some(j)
  {
    var r := FirstTarget(cs, kind, includeText);
    assert r.Some?;
  }

  /** `RemoveItemWithNameAndAttribute` on Include: removes the first match in
      the first group holding the kind and reports whether it did. The
      group stays even when it is left empty. */
  function WithoutItem(root: Node, kind: string, includeText: string): (r: (bool, Node))
    ensures !r.0 ==> r.1 == root
    ensures r.1.name == root.name && r.1.attributes == root.attributes && |r.1.children| == |root.children|
  {
    match ItemGroupWith(root.children, kind)
    case None => (false, root)
    case Some(i) =>
      var g := root.children[i];
      match FirstTarget(g.children, kind, includeText)
      case Some(j) => (true, ReplaceChildAt(root, i, RemoveChildAt(g, j)))
      case None => (false, root)
  }

  /** An item is removed exactly when the first group holding the kind has
      one of that kind with that Include. */
  lemma RemovedWhenPresent(root: Node, kind: string, includeText: string)
    ensures WithoutItem(root, kind, includeText).0 <==>
      (ItemGroupWith(root.children, kind).Some? &&
       exists j :: 0 <= j < |root.children[ItemGroupWith(root.children, kind).value].children| &&
         IsTarget(root.children[ItemGroupWith(root.children, kind).value].children[j], kind, includeText))
  {
    match ItemGroupWith(root.children, kind) {
      case None =>
      case Some(i) =>
        var cs := root.children[i].children;
        match FirstTarget(cs, kind, includeText) {
          case Some(j) =>
          case None =>
        }
    }
  }

  // ---------------------------------------------------------------- what the edits do to the lists

  /** Adding an item puts it right after the other items of its kind in
      the group it joins, or last in a new group; nothing else moves. */
  lemma AddedItemPlace(root: Node, item: Node)
    ensures ItemsOf(WithItem(root, item), item.name) ==
      match ItemGroupWith(root.children, item.name)
      case Some(i) => ItemsIn(root.children[..i + 1], item.name) + [item] + ItemsIn(root.children[i + 1..], item.name)
      case None => ItemsOf(root, item.name) + [item]
  {
    var cs := root.children;
    var kind := item.name;
    EqualsIgnoreCaseReflexive(kind);
    var after := WithItem(root, item).children;
    match ItemGroupWith(cs, kind) {
      case Some(i) =>
        assert ItemsIn(after, kind) == ItemsIn(cs[..i + 1], kind) + [item] + ItemsIn(cs[i + 1..], kind) by {
          assert after == cs[i := AddChild(cs[i], item)];
          AddedToGroup(cs, i, item);
        }
      case None =>
        assert ItemsIn(after, kind) == ItemsIn(cs, kind) + [item] by {
          assert after == cs + [Node(ItemGroupName, [], [item], [])];
          AddedInNewGroup(cs, item);
        }
    }
  }

  lemma AddedToGroup(cs: seq<Node>, i: nat, item: Node)
    requires i < |cs| && cs[i].name == ItemGroupName && IsKind(item, item.name)
    ensures ItemsIn(cs[i := AddChild(cs[i], item)], item.name) ==
      ItemsIn(cs[..i + 1], item.name) + [item] + ItemsIn(cs[i + 1..], item.name)
  {
    AddToGroup(cs, i, item, item.name);
    ItemsPrefixGrows(cs, i, item.name);
  }

  lemma ItemsPrefixGrows(cs: seq<Node>, i: nat, kind: string)
    requires i < |cs|
    ensures ItemsIn(cs[..i + 1], kind) == ItemsIn(cs[..i], kind) + GroupItems(cs[i], kind)
  {
    assert cs[..i + 1] == cs[..i] + [cs[i]];
    ItemsAppend(cs[..i], cs[i], kind);
  }

  lemma AddedInNewGroup(cs: seq<Node>, item: Node)
    requires IsKind(item, item.name)
    ensures ItemsIn(cs + [Node(ItemGroupName, [], [item], [])], item.name) == ItemsIn(cs, item.name) + [item]
  {
    ItemsAppend(cs, Node(ItemGroupName, [], [item], []), item.name);
    MatchingSnoc([], item, item.name);
    assert [] + [item] == [item];
  }

  /** The items of a kind after `item` joins the group at `i`. */
  lemma AddToGroup(cs: seq<Node>, i: nat, item: Node, kind: string)
    requires i < |cs| && cs[i].name == ItemGroupName
    ensures ItemsIn(cs[i := AddChild(cs[i], item)], kind) ==
      ItemsIn(cs[..i], kind) + GroupItems(cs[i], kind) + (if IsKind(item, kind) then [item] else []) + ItemsIn(cs[i + 1..], kind)
  {
    var g := AddChild(cs[i], item);
    ItemsReplace(cs, i, g, kind);
    GroupItemsAdd(cs[i], item, kind);
    Reassociate(ItemsIn(cs[..i], kind), GroupItems(cs[i], kind), if IsKind(item, kind) then [item] else [], ItemsIn(cs[i + 1..], kind));
  }

  lemma GroupItemsAdd(g: Node, item: Node, kind: string)
    requires g.name == ItemGroupName
    ensures GroupItems(AddChild(g, item), kind) == GroupItems(g, kind) + (if IsKind(item, kind) then [item] else [])
  {
    MatchingSnoc(g.children, item, kind);
  }

  lemma Reassociate(a: seq<Node>, b: seq<Node>, c: seq<Node>, d: seq<Node>)
    ensures a + (b + c) + d == a + b + c + d
  {
  }

  /** Adding an item leaves the items of every kind that its name does not match. */
  lemma AddKeepsOtherKinds(root: Node, item: Node, kind: string)
    requires !EqualsIgnoreCase(item.name, kind)
    ensures ItemsOf(WithItem(root, item), kind) == ItemsOf(root, kind)
  {
    var cs := root.children;
    assert !IsKind(item, kind);
    match ItemGroupWith(cs, item.name) {
      case Some(i) =>
        AddToGroup(cs, i, item, kind);
        ItemsAround(cs, i, kind);
      case None =>
        ItemsAppend(cs, Node(ItemGroupName, [], [item], []), kind);
        MatchingSnoc([], item, kind);
    }
  }

  /** Clearing empties only the first group holding the kind: what is left
      of the kind is exactly what later groups hold. */
  lemma ClearLeavesLaterGroups(root: Node, kind: string)
    ensures ItemsOf(WithoutItemsNamed(root, kind), kind) ==
      match ItemGroupWith(root.children, kind)
      case Some(i) => ItemsIn(root.children[i + 1..], kind)
      case None => []
  {
    var cs := root.children;
    var after := WithoutItemsNamed(root, kind).children;
    match ItemGroupWith(cs, kind) {
      case None =>
        assert ItemsIn(after, kind) == [] by {
          NoHolderNoItems(cs, kind);
        }
      case Some(i) =>
        assert ItemsIn(cs[..i], kind) == [] by {
          NoHolderNoItems(cs[..i], kind);
        }
        var g := cs[i];
        var kept := Unmatching(g.children, kind);
        if kept == [] {
          assert ItemsIn(after, kind) == ItemsIn(cs[i + 1..], kind) by {
            assert after == cs[..i] + cs[i + 1..];
            ClearDropsGroup(cs, i, kind);
          }
        } else {
          assert ItemsIn(after, kind) == ItemsIn(cs[i + 1..], kind) by {
            assert after == cs[i := g.(children := kept)];
            ClearEmptiesGroup(cs, i, kind);
          }
        }
    }
  }

  lemma ClearDropsGroup(cs: seq<Node>, i: nat, kind: string)
    requires i < |cs| && ItemsIn(cs[..i], kind) == []
    ensures ItemsIn(cs[..i] + cs[i + 1..], kind) == ItemsIn(cs[i + 1..], kind)
  {
    ItemsInConcat(cs[..i], cs[i + 1..], kind);
    assert [] + ItemsIn(cs[i + 1..], kind) == ItemsIn(cs[i + 1..], kind);
  }

  lemma ClearEmptiesGroup(cs: seq<Node>, i: nat, kind: string)
    requires i < |cs| && cs[i].name == ItemGroupName && ItemsIn(cs[..i], kind) == []
    ensures ItemsIn(cs[i := cs[i].(children := Unmatching(cs[i].children, kind))], kind) == ItemsIn(cs[i + 1..], kind)
  {
    var g := cs[i].(children := Unmatching(cs[i].children, kind));
    MatchingUnmatching(cs[i].children, kind, kind);
    assert GroupItems(g, kind) == [];
    ItemsReplace(cs, i, g, kind);
    var rest := ItemsIn(cs[i + 1..], kind);
    assert [] + [] + rest == rest;
  }

  /** With one group holding the kind, clearing leaves none of it. */
  lemma ClearSingleGroup(root: Node, kind: string, i: nat)
    requires ItemGroupWith(root.children, kind) == Some(i)
    requires forall k :: i < k < |root.children| ==> !HoldsKind(root.children[k], kind)
    ensures ItemsOf(WithoutItemsNamed(root, kind), kind) == []
  {
    var rest := root.children[i + 1..];
    assert ItemsIn(rest, kind) == [] by {
      assert forall k :: 0 <= k < |rest| ==> rest[k] == root.children[i + 1 + k];
      NoHolderNoItems(rest, kind);
    }
    ClearLeavesLaterGroups(root, kind);
  }

  /** Clearing leaves the items of every kind with another name. */
  lemma ClearKeepsOtherKinds(root: Node, kind: string, other: string)
    requires !EqualsIgnoreCase(kind, other)
    ensures ItemsOf(WithoutItemsNamed(root, kind), other) == ItemsOf(root, other)
  {
    var cs := root.children;
    match ItemGroupWith(cs, kind) {
      case None =>
      case Some(i) =>
        ClearGroupKeepsOtherKinds(cs, i, kind, other);
    }
  }

  lemma ClearGroupKeepsOtherKinds(cs: seq<Node>, i: nat, kind: string, other: string)
    requires i < |cs| && cs[i].name == ItemGroupName && !EqualsIgnoreCase(kind, other)
    ensures var kept := Unmatching(cs[i].children, kind);
      ItemsIn(if kept == [] then cs[..i] + cs[i + 1..] else cs[i := cs[i].(children := kept)], other) == ItemsIn(cs, other)
  {
    var kept := Unmatching(cs[i].children, kind);
    MatchingUnmatching(cs[i].children, kind, other);
    if kept == [] {
      DropGroup(cs, i, other);
    } else {
      ReplaceGroup(cs, i, kept, other);
    }
  }

  lemma DropGroup(cs: seq<Node>, i: nat, kind: string)
    requires i < |cs| && GroupItems(cs[i], kind) == []
    ensures ItemsIn(cs[..i] + cs[i + 1..], kind) == ItemsIn(cs, kind)
  {
    ItemsAround(cs, i, kind);
    ItemsRemove(cs, i, kind);
  }

  lemma ReplaceGroup(cs: seq<Node>, i: nat, kept: seq<Node>, kind: string)
    requires i < |cs| && cs[i].name == ItemGroupName && Matching(kept, kind) == Matching(cs[i].children, kind)
    ensures ItemsIn(cs[i := cs[i].(children := kept)], kind) == ItemsIn(cs, kind)
  {
    ItemsAround(cs, i, kind);
    ItemsReplace(cs, i, cs[i].(children := kept), kind);
  }

  /** A successful removal takes out exactly the first matching item of the
      first group holding the kind, keeping the order of the rest. */
  lemma RemovedItemPlace(root: Node, kind: string, includeText: string, i: nat, j: nat)
    requires ItemGroupWith(root.children, kind) == Some(i)
    requires FirstTarget(root.children[i].children, kind, includeText) == Some(j)
    ensures WithoutItem(root, kind, includeText).0
    ensures ItemsOf(root, kind) == Matching(root.children[i].children[..j], kind) + [root.children[i].children[j]] +
      Matching(root.children[i].children[j + 1..], kind) + ItemsIn(root.children[i + 1..], kind)
    ensures ItemsOf(WithoutItem(root, kind, includeText).1, kind) == Matching(root.children[i].children[..j], kind) +
      Matching(root.children[i].children[j + 1..], kind) + ItemsIn(root.children[i + 1..], kind)
  {
    var rs := root.children;
    assert WithoutItem(root, kind, includeText).1.children == rs[i := RemoveChildAt(rs[i], j)];
    assert ItemsIn(rs[..i], kind) == [] by {
      NoHolderNoItems(rs[..i], kind);
    }
    ItemsBeforeRemove(rs, i, j, kind);
    ItemsAfterRemove(rs, i, j, kind);
  }

  lemma ItemsBeforeRemove(rs: seq<Node>, i: nat, j: nat, kind: string)
    requires i < |rs| && rs[i].name == ItemGroupName && j < |rs[i].children| && IsKind(rs[i].children[j], kind)
    requires ItemsIn(rs[..i], kind) == []
    ensures var cs := rs[i].children;
      ItemsIn(rs, kind) == Matching(cs[..j], kind) + [cs[j]] + Matching(cs[j + 1..], kind) + ItemsIn(rs[i + 1..], kind)
  {
    var cs := rs[i].children;
    ItemsAround(rs, i, kind);
    assert GroupItems(rs[i], kind) == Matching(cs, kind);
    var m, rest := Matching(cs, kind), ItemsIn(rs[i + 1..], kind);
    assert ItemsIn(rs, kind) == m + rest by {
      assert ItemsIn(rs, kind) == [] + m + rest;
      assert [] + m == m;
    }
    SplitAt(cs, j, kind);
  }

  lemma ItemsAfterRemove(rs: seq<Node>, i: nat, j: nat, kind: string)
    requires i < |rs| && rs[i].name == ItemGroupName && j < |rs[i].children| && IsKind(rs[i].children[j], kind)
    requires ItemsIn(rs[..i], kind) == []
    ensures var cs := rs[i].children;
      ItemsIn(rs[i := RemoveChildAt(rs[i], j)], kind) == Matching(cs[..j], kind) + Matching(cs[j + 1..], kind) + ItemsIn(rs[i + 1..], kind)
  {
    var cs := rs[i].children;
    var g := RemoveChildAt(rs[i], j);
    ItemsReplace(rs, i, g, kind);
    assert GroupItems(g, kind) == Matching(cs[..j] + cs[j + 1..], kind);
    var m, rest := Matching(cs[..j] + cs[j + 1..], kind), ItemsIn(rs[i + 1..], kind);
    assert ItemsIn(rs[i := g], kind) == m + rest by {
      assert ItemsIn(rs[i := g], kind) == [] + m + rest;
      assert [] + m == m;
    }
    SplitAt(cs, j, kind);
  }

  /** The items of a kind among siblings, split around one of that kind. */
  lemma SplitAt(cs: seq<Node>, j: nat, kind: string)
    requires j < |cs| && IsKind(cs[j], kind)
    ensures Matching(cs, kind) == Matching(cs[..j], kind) + [cs[j]] + Matching(cs[j + 1..], kind)
    ensures Matching(cs[..j] + cs[j + 1..], kind) == Matching(cs[..j], kind) + Matching(cs[j + 1..], kind)
  {
    assert cs == (cs[..j] + [cs[j]]) + cs[j + 1..];
    MatchingConcat(cs[..j] + [cs[j]], cs[j + 1..], kind);
    MatchingSnoc(cs[..j], cs[j], kind);
    MatchingConcat(cs[..j], cs[j + 1..], kind);
  }

  /** Removing the only item of a group leaves the group in place, empty
      (whereas clearing removes it). */
  lemma RemoveLastItemKeepsGroup(root: Node, kind: string, includeText: string)
    requires WithoutItem(root, kind, includeText).0
    requires |root.children[ItemGroupWith(root.children, kind).value].children| == 1
    ensures var i := ItemGroupWith(root.children, kind).value;
      var r := WithoutItem(root, kind, includeText).1;
      r.children[i].name == ItemGroupName && r.children[i].children == []
  {
  }

  /** Item edits never touch a PropertyGroup, so every property reads the same. */
  lemma AddKeepsProperties(root: Node, item: Node, condition: string, key: string)
    ensures ProjectProperties.PropertyContent(WithItem(root, item), condition, key) == ProjectProperties.PropertyContent(root, condition, key)
  {
    match ItemGroupWith(root.children, item.name) {
      case Some(i) =>
        ProjectProperties.ReplaceOtherKeepsProperties(root, i, AddChild(root.children[i], item), condition, key);
      case None =>
        ProjectProperties.AppendOtherKeepsProperties(root, Node(ItemGroupName, [], [item], []), condition, key);
    }
  }

  lemma ClearKeepsProperties(root: Node, kind: string, condition: string, key: string)
    ensures ProjectProperties.PropertyContent(WithoutItemsNamed(root, kind), condition, key) == ProjectProperties.PropertyContent(root, condition, key)
  {
    match ItemGroupWith(root.children, kind) {
      case Some(i) =>
        var g := root.children[i];
        var kept := Unmatching(g.children, kind);
        if kept == [] {
          ProjectProperties.RemoveOtherKeepsProperties(root, i, condition, key);
        } else {
          ProjectProperties.ReplaceOtherKeepsProperties(root, i, g.(children := kept), condition, key);
        }
      case None =>
    }
  }

  lemma RemoveKeepsProperties(root: Node, kind: string, includeText: string, condition: string, key: string)
    ensures ProjectProperties.PropertyContent(WithoutItem(root, kind, includeText).1, condition, key) == ProjectProperties.PropertyContent(root, condition, key)
  {
    match ItemGroupWith(root.children, kind) {
      case Some(i) =>
        var g := root.children[i];
        match FirstTarget(g.children, kind, includeText) {
          case Some(j) =>
            ProjectProperties.ReplaceOtherKeepsProperties(root, i, RemoveChildAt(g, j), condition, key);
          case None =>
        }
      case None =>
    }
  }
}
