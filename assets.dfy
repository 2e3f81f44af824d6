/** The `Assets` flags enumeration and its text form: a `;`-separated list
    of member names, matched ignoring case and OR-ed together. A flags value
    is modelled as the set of members it contains, so OR is set union. */
module AssetFlags {
  import Results
  import opened TextOps

  datatype Flag =
    | All | Compile | Runtime | ContentFiles | Build
    | BuildMultiTargeting | BuildTransitive | Analyzers | Native | None

  type Assets = set<Flag>

  /** Members in declaration (and value) order. */
  const Flags: seq<Flag> := [All, Compile, Runtime, ContentFiles, Build,
                             BuildMultiTargeting, BuildTransitive, Analyzers, Native, None]

  const Names: seq<string> := ["All", "Compile", "Runtime", "ContentFiles", "Build",
                               "BuildMultiTargeting", "BuildTransitive", "Analyzers", "Native", "None"]

  /** A member's numeric value: 2 to the power of its position. */
  function Weight(f: Flag): (r: nat)
    ensures r == [1, 2, 4, 8, 16, 32, 64, 128, 256, 512][Position(f)]
  {
    match f
    case All => 1
    case Compile => 2
    case Runtime => 4
    case ContentFiles => 8
    case Build => 16
    case BuildMultiTargeting => 32
    case BuildTransitive => 64
    case Analyzers => 128
    case Native => 256
    case None => 512
  }

  function Position(f: Flag): (r: nat)
    ensures r < 10 && Flags[r] == f
  {
    match f
    case All => 0
    case Compile => 1
    case Runtime => 2
    case ContentFiles => 3
    case Build => 4
    case BuildMultiTargeting => 5
    case BuildTransitive => 6
    case Analyzers => 7
    case Native => 8
    case None => 9
  }

  /** Numeric value of the members of `s` found in `Flags[k..]`. */
  function Numeric(s: Assets, k: nat): nat
    requires k <= 10
    decreases 10 - k
  {
    if k == 10 then 0 else (if Flags[k] in s then Weight(Flags[k]) else 0) + Numeric(s, k + 1)
  }

  /** The integer a flags value stands for. */
  function Value(s: Assets): nat {
    Numeric(s, 0)
  }

  /** `All` is the bit 1, not the union of the others; `None` is the bit 512. */
  lemma AllAndNoneAreOrdinaryBits()
    ensures Value({All}) == 1
    ensures Value({None}) == 512
    ensures Value({Compile, Runtime, ContentFiles, Build, BuildMultiTargeting,
                   BuildTransitive, Analyzers, Native, None}) == 1022
  {
  }

  /** The members from position `k` on contribute less than 2^10 and,
      when one of them is present, at least its own bit. */
  lemma {:induction false} NumericRange(s: Assets, k: nat)
    requires k <= 10
    ensures Numeric(s, k) <= [1023, 1022, 1020, 1016, 1008, 992, 960, 896, 768, 512, 0][k]
    ensures (exists i :: k <= i < 10 && Flags[i] in s) ==> Numeric(s, k) >= 1
    decreases 10 - k
  {
    if k < 10 {
      NumericRange(s, k + 1);
    }
  }

  /** Every combination of named members lies in 0..1023, and a non-empty one in 1..1023. */
  lemma ValueRange(s: Assets)
    ensures Value(s) <= 1023
    ensures s != {} ==> 1 <= Value(s)
  {
    NumericRange(s, 0);
    if s != {} {
      var f :| f in s;
      assert Flags[Position(f)] in s;
    }
  }

  // ---------------------------------------------------------------- parsing

  /** Member names folded to upper case. */
  const FoldedNames: seq<string> := ["ALL", "COMPILE", "RUNTIME", "CONTENTFILES", "BUILD",
                                     "BUILDMULTITARGETING", "BUILDTRANSITIVE", "ANALYZERS", "NATIVE", "NONE"]

  /** Position of the first upper-case spelling from `k` on equal to `folded`. */
  function FindFolded(folded: string, k: nat): (r: Results.Option<nat>)
    requires k <= 10
    ensures r.Some? ==> k <= r.value < 10 && FoldedNames[r.value] == folded
    ensures r.None? ==> forall j :: k <= j < 10 ==> FoldedNames[j] != folded
    decreases 10 - k
  {
    if k == 10 then Results.None
    else if folded == FoldedNames[k] then Results.Some(k)
    else FindFolded(folded, k + 1)
  }

  /** `Enum.TryParse(token, ignoreCase: true)` for one member name, the
      blanks around it skipped. */
  function ParseFlag(token: string): Results.Option<Flag> {
    match FindFolded(FoldCase(TrimBlanks(token)), 0)
    case Some(k) => Results.Some(Flags[k])
    case None => Results.None
  }

  /** Union of the parsed segments; the first segment that names no member is the error. */
  function ParseFlags(parts: seq<string>): Results.Result<Assets> {
    if parts == [] then Results.Ok({})
    else match ParseFlag(parts[0])
      case None => Results.Err(Results.InvalidAssets(parts[0]))
      case Some(f) =>
        match ParseFlags(parts[1..])
        case Ok(rest) => Results.Ok({f} + rest)
        case Err(e) => Results.Err(e)
  }

  /** A list of segments fails exactly when some segment names no member,
      and the error carries such a segment. */
  lemma {:induction false} ParseFlagsFails(parts: seq<string>)
    ensures ParseFlags(parts).Err? <==> exists i :: 0 <= i < |parts| && ParseFlag(parts[i]).None?
    ensures ParseFlags(parts).Err? ==> exists i :: 0 <= i < |parts| && ParseFlags(parts).error == Results.InvalidAssets(parts[i]) && ParseFlag(parts[i]).None?
  {
    if parts != [] {
      var rest := parts[1..];
      ParseFlagsFails(rest);
      if ParseFlag(parts[0]).Some? {
        if exists i :: 0 <= i < |parts| && ParseFlag(parts[i]).None? {
          var i :| 0 <= i < |parts| && ParseFlag(parts[i]).None?;
          assert rest[i - 1] == parts[i];
        }
        if ParseFlags(parts).Err? {
          var i :| 0 <= i < |rest| && ParseFlags(rest).error == Results.InvalidAssets(rest[i]) && ParseFlag(rest[i]).None?;
          assert parts[i + 1] == rest[i];
        }
      }
    }
  }

  /** Text without a separator is parsed whole; otherwise every segment is,
      a trailing separator adding nothing. */
  function ParseAssets(text: string): Results.Result<Assets> {
    if NoSeparator(text) then
      match ParseFlag(text)
      case Some(f) => Results.Ok({f})
      case None => Results.Err(Results.InvalidAssets(text))
    else ParseFlags(Segments(text))
  }

  // ---------------------------------------------------------------- formatting

  /** Names of the members of `s` from position `k` on, in ascending order. */
  function FlagNames(s: Assets, k: nat): seq<string>
    requires k <= 10
    decreases 10 - k
  {
    if k == 10 then []
    else (if Flags[k] in s then [Names[k]] else []) + FlagNames(s, k + 1)
  }

  /** `ToString()` of a flags value with ", " replaced by ";": the members'
      names joined by ';'; the empty value formats as "0". */
  function FormatAssets(s: Assets): string {
    if s == {} then "0" else Join(FlagNames(s, 0))
  }

  // ---------------------------------------------------------------- round trip

  /** A text folds to `u` when each of its characters upper-cases to `u`'s. */
  lemma FoldsTo(n: string, u: string)
    requires |n| == |u| && forall i :: 0 <= i < |n| ==> Upper(n[i]) == u[i]
    ensures FoldCase(n) == u
  {
  }

  /** Folding a member name gives its upper-case spelling. */
  lemma FoldName(k: nat)
    requires k < 10
    ensures FoldCase(Names[k]) == FoldedNames[k]
  {
    if k < 5 {
      FoldLowerNames(k);
    } else {
      FoldUpperNames(k);
    }
  }

  lemma FoldLowerNames(k: nat)
    requires k < 5
    ensures FoldCase(Names[k]) == FoldedNames[k]
  {
    if k == 0 { FoldsTo("All", "ALL"); }
    else if k == 1 { FoldsTo("Compile", "COMPILE"); }
    else if k == 2 { FoldsTo("Runtime", "RUNTIME"); }
    else if k == 3 { FoldsTo("ContentFiles", "CONTENTFILES"); }
    else { FoldsTo("Build", "BUILD"); }
  }

  lemma FoldUpperNames(k: nat)
    requires 5 <= k < 10
    ensures FoldCase(Names[k]) == FoldedNames[k]
  {
    if k == 5 { FoldsTo("BuildMultiTargeting", "BUILDMULTITARGETING"); }
    else if k == 6 { FoldsTo("BuildTransitive", "BUILDTRANSITIVE"); }
    else if k == 7 { FoldsTo("Analyzers", "ANALYZERS"); }
    else if k == 8 { FoldsTo("Native", "NATIVE"); }
    else { FoldsTo("None", "NONE"); }
  }

  /** Upper-case spellings differ pairwise. */
  lemma FoldedNamesDistinct()
    ensures forall i, j :: 0 <= i < j < 10 ==> FoldedNames[i] != FoldedNames[j]
  {
    assert FoldedNames[1][0] != FoldedNames[2][0];
  }

  /** A token names a member exactly when it equals that member's name ignoring case. */
  lemma ParseFlagIgnoresCase(token: string, f: Flag)
    ensures ParseFlag(token) == Results.Some(f) <==> EqualsIgnoreCase(Names[Position(f)], TrimBlanks(token))
  {
    FoldName(Position(f));
    FoldedNamesDistinct();
    var r := FindFolded(FoldCase(TrimBlanks(token)), 0);
    if r.Some? {
      assert Flags[r.value] == f <==> r.value == Position(f);
    }
  }

  /** Each member name parses to that member. */
  lemma ParseFlagName(k: nat)
    requires k < 10
    ensures ParseFlag(Names[k]) == Results.Some(Flags[k])
  {
    NamesWithoutSeparator(k);
    TrimUnblanked(Names[k]);
    FoldName(k);
    FoldedNamesDistinct();
  }

  /** Members of `s` from position `k` on. */
  function MembersFrom(s: Assets, k: nat): Assets
    requires k <= 10
    decreases 10 - k
  {
    if k == 10 then {} else (if Flags[k] in s then {Flags[k]} else {}) + MembersFrom(s, k + 1)
  }

  lemma {:induction false} MembersFromAll(s: Assets, k: nat)
    requires k <= 10
    ensures forall f :: f in MembersFrom(s, k) <==> f in s && Position(f) >= k
    decreases 10 - k
  {
    if k < 10 {
      MembersFromAll(s, k + 1);
    }
  }

  /** Parsing a list whose first segment names a member adds that member. */
  lemma ParseFlagsCons(part: string, rest: seq<string>, f: Flag)
    requires ParseFlag(part) == Results.Some(f) && ParseFlags(rest).Ok?
    ensures ParseFlags([part] + rest) == Results.Ok({f} + ParseFlags(rest).value)
  {
    assert ([part] + rest)[0] == part && ([part] + rest)[1..] == rest;
  }

  /** The names written for `s` from position `k` on parse back to its members there. */
  lemma {:induction false} FlagNamesParse(s: Assets, k: nat)
    requires k <= 10
    ensures ParseFlags(FlagNames(s, k)) == Results.Ok(MembersFrom(s, k))
    decreases 10 - k
  {
    if k < 10 {
      FlagNamesParse(s, k + 1);
      var rest, members := FlagNames(s, k + 1), MembersFrom(s, k + 1);
      if Flags[k] in s {
        ParseFlagName(k);
        ParseFlagsCons(Names[k], rest, Flags[k]);
        assert FlagNames(s, k) == [Names[k]] + rest;
        assert MembersFrom(s, k) == {Flags[k]} + members;
      } else {
        assert FlagNames(s, k) == [] + rest == rest;
        assert MembersFrom(s, k) == {} + members == members;
      }
    }
  }

  /** A single segment naming a member parses to that member alone. */
  lemma ParseOne(part: string, f: Flag)
    requires ParseFlag(part) == Results.Some(f)
    ensures ParseFlags([part]) == Results.Ok({f})
  {
    ParseFlagsCons(part, [], f);
    assert [part] + [] == [part];
    assert {f} + {} == {f};
  }

  /** Member names are non-empty, contain no separator and have no blank at either end. */
  lemma NamesWithoutSeparator(k: nat)
    requires k < 10
    ensures NoSeparator(Names[k]) && Names[k] != []
    ensures !IsBlank(Names[k][0]) && !IsBlank(Names[k][|Names[k]| - 1])
  {
    if k == 0 {} else if k == 1 {} else if k == 2 {} else if k == 3 {} else if k == 4 {}
    else if k == 5 {} else if k == 6 {} else if k == 7 {} else if k == 8 {} else {}
  }

  /** Only member names are written, each usable as a segment. */
  lemma {:induction false} FlagNamesWellFormed(s: Assets, k: nat)
    requires k <= 10
    ensures forall i :: 0 <= i < |FlagNames(s, k)| ==> NoSeparator(FlagNames(s, k)[i]) && FlagNames(s, k)[i] != []
    decreases 10 - k
  {
    if k < 10 {
      FlagNamesWellFormed(s, k + 1);
      NamesWithoutSeparator(k);
    }
  }

  lemma MembersFromZero(s: Assets)
    ensures MembersFrom(s, 0) == s
  {
    MembersFromAll(s, 0);
  }

  /** A single name is parsed whole, as the one-segment list would be. */
  lemma ParseSingleName(name: string)
    requires NoSeparator(name) && ParseFlag(name).Some?
    ensures ParseAssets(name) == ParseFlags([name])
  {
    assert [name][1..] == [];
    assert {ParseFlag(name).value} + {} == {ParseFlag(name).value};
  }

  /** Two or more names are parsed segment by segment. */
  lemma ParseJoinedNames(names: seq<string>)
    requires |names| >= 2
    requires forall i :: 0 <= i < |names| ==> NoSeparator(names[i]) && names[i] != []
    ensures ParseAssets(Join(names)) == ParseFlags(names)
  {
    JoinHasSeparator(names);
    SegmentsJoin(names);
  }

  /** Written text reads back as the same members: `ParseAssets(FormatAssets(s)) == s`. */
  lemma {:induction false} FormatParse(s: Assets)
    requires s != {}
    ensures ParseAssets(FormatAssets(s)) == Results.Ok(s)
  {
    var names := FlagNames(s, 0);
    assert ParseAssets(Join(names)) == Results.Ok(s) by {
      FlagNamesParse(s, 0);
      FlagNamesWellFormed(s, 0);
      MembersFromZero(s);
      if |names| == 0 {
        assert false;
      } else if |names| == 1 {
        assert Join(names) == names[0] && names == [names[0]];
        ParseSingleName(names[0]);
      } else {
        ParseJoinedNames(names);
      }
    }
  }

  /** Parsing two lists one after the other unites their members. */
  lemma {:induction false} ParseFlagsConcat(a: seq<string>, b: seq<string>)
    requires ParseFlags(a).Ok? && ParseFlags(b).Ok?
    ensures ParseFlags(a + b) == Results.Ok(ParseFlags(a).value + ParseFlags(b).value)
  {
    if a == [] {
      assert a + b == b;
      assert ParseFlags(a).value + ParseFlags(b).value == ParseFlags(b).value;
    } else {
      assert (a + b)[0] == a[0] && (a + b)[1..] == a[1..] + b;
      ParseFlagsConcat(a[1..], b);
      var f := ParseFlag(a[0]).value;
      assert ParseFlags(a).value == {f} + ParseFlags(a[1..]).value;
      var a1, bv := ParseFlags(a[1..]).value, ParseFlags(b).value;
      assert ParseFlags(a + b) == Results.Ok({f} + (a1 + bv));
      assert {f} + (a1 + bv) == ({f} + a1) + bv;
    }
  }

  /** The first segment naming no member is the error, whatever follows it. */
  lemma {:induction false} ParseFlagsStopsAtInvalid(a: seq<string>, part: string, rest: seq<string>)
    requires ParseFlags(a).Ok? && ParseFlag(part).None?
    ensures ParseFlags(a + [part] + rest) == Results.Err(Results.InvalidAssets(part))
  {
    if a == [] {
      assert a + [part] + rest == [part] + rest;
    } else {
      assert (a + [part] + rest)[0] == a[0];
      assert (a + [part] + rest)[1..] == a[1..] + [part] + rest;
      ParseFlagsStopsAtInvalid(a[1..], part, rest);
    }
  }

  /** The segment a scan closes at position `index`, if any: the one ended
      by a separator there, or the last one when `index` is the final character. */
  function ClosedSegment(text: string, index: nat, start: nat): Results.Option<string>
    requires start <= index < |text|
  {
    if text[index] == Separator then Results.Some(text[start..index])
    else if index == |text| - 1 then Results.Some(text[start..])
    else Results.None
  }

  /** A closed segment naming no member is the parse's error. */
  lemma ScanRejects(text: string, index: nat, part: string)
    requires index < |text| && Scanned(text, index + 1) == Scanned(text, index) + [part]
    requires ParseFlags(Scanned(text, index)).Ok? && ParseFlag(part).None?
    ensures ParseFlags(Segments(text)) == Results.Err(Results.InvalidAssets(part))
  {
    var done := Scanned(text, index);
    ScannedPrefix(text, index + 1);
    var segments := Segments(text);
    assert segments == done + [part] + segments[|done| + 1..];
    ParseFlagsStopsAtInvalid(done, part, segments[|done| + 1..]);
  }

  /** A closed segment naming a member adds it to the value. */
  lemma ScanAccepts(done: seq<string>, part: string, assets: Assets, f: Flag)
    requires ParseFlags(done) == Results.Ok(assets) && ParseFlag(part) == Results.Some(f)
    ensures ParseFlags(done + [part]) == Results.Ok(assets + {f})
  {
    assert ParseFlags([part]) == Results.Ok({f} + {});
    ParseFlagsConcat(done, [part]);
    assert assets + ({f} + {}) == assets + {f};
  }

  /** One iteration of the `GetAssets` loop: what it has scanned grows by
      the segment it closes, and the open segment then starts at `next`. */
  lemma ScanAssetsStep(text: string, index: nat, start: nat, next: nat)
    requires start <= index < |text|
    requires Split(text[..index])[|Split(text[..index])| - 1] == text[start..index]
    requires next == if text[index] == Separator then index + 1 else start
    ensures ClosedSegment(text, index, start).None? ==> Scanned(text, index + 1) == Scanned(text, index)
    ensures ClosedSegment(text, index, start).Some? ==>
      Scanned(text, index + 1) == Scanned(text, index) + [ClosedSegment(text, index, start).value]
    ensures next <= index + 1
    ensures index + 1 < |text| ==> Split(text[..index + 1])[|Split(text[..index + 1])| - 1] == text[next..index + 1]
  {
    ScanStep(text, index, start);
  }

  /** The loop of `GetAssets`: segments are parsed as their end is reached
      and the first one naming no member stops the scan. */
  method ScanAssets(text: string) returns (r: Results.Result<Assets>)
    ensures r == ParseFlags(Segments(text))
  {
    var start, index := 0, 0;
    var assets: Assets := {};
    while index < |text|
      invariant start <= index <= |text|
      invariant index < |text| ==> Split(text[..index])[|Split(text[..index])| - 1] == text[start..index]
      invariant ParseFlags(Scanned(text, index)) == Results.Ok(assets)
    {
      var next := if text[index] == Separator then index + 1 else start;
      ScanAssetsStep(text, index, start, next);
      var closed := ClosedSegment(text, index, start);
      if closed.Some? {
        var part := closed.value;
        match ParseFlag(part) {
          case None =>
            ScanRejects(text, index, part);
            return Results.Err(Results.InvalidAssets(part));
          case Some(f) =>
            ScanAccepts(Scanned(text, index), part, assets, f);
            assets := assets + {f};
        }
      }
      start, index := next, index + 1;
    }
    ScannedAll(text);
    r := Results.Ok(assets);
  }

  /** With a separator present `ParseAssets` is the scan; without one it
      differs only on the empty text, which the whole-text parse rejects
      while the scan would accept it as the empty value. */
  lemma ParseAssetsIsScan(text: string)
    ensures text != [] ==> ParseAssets(text) == ParseFlags(Segments(text))
    ensures ParseAssets([]) == Results.Err(Results.InvalidAssets([]))
    ensures ParseFlags(Segments([])) == Results.Ok({})
  {
    if text != [] && NoSeparator(text) {
      SplitWithoutSeparator(text);
      assert Segments(text) == [text];
      match ParseFlag(text) {
        case Some(f) =>
          assert ParseFlags([text]) == Results.Ok({f} + {});
          assert {f} + {} == {f};
        case None =>
      }
    }
    assert FoldCase([]) == [];
  }

  /** Segment order does not matter: two lists parse alike in either order. */
  lemma ParseFlagsOrderIndependent(a: seq<string>, b: seq<string>)
    ensures ParseFlags(a + b).Ok? <==> ParseFlags(b + a).Ok?
    ensures ParseFlags(a + b).Ok? ==> ParseFlags(a + b) == ParseFlags(b + a)
  {
    var ab, ba := a + b, b + a;
    ParseFlagsFails(a);
    ParseFlagsFails(b);
    ParseFlagsFails(ab);
    ParseFlagsFails(ba);
    if ParseFlags(a).Ok? && ParseFlags(b).Ok? {
      ParseFlagsConcat(a, b);
      ParseFlagsConcat(b, a);
      assert ParseFlags(a).value + ParseFlags(b).value == ParseFlags(b).value + ParseFlags(a).value;
    } else if ParseFlags(a).Err? {
      var i :| 0 <= i < |a| && ParseFlag(a[i]).None?;
      assert ab[i] == a[i] && ba[|b| + i] == a[i];
    } else {
      var i :| 0 <= i < |b| && ParseFlag(b[i]).None?;
      assert ba[i] == b[i] && ab[|a| + i] == b[i];
    }
  }

  /** Two names with one separator between them are two segments. */
  lemma TwoSegments(x: string, y: string)
    requires NoSeparator(x) && NoSeparator(y) && y != []
    ensures !NoSeparator(x + [Separator] + y)
    ensures Segments(x + [Separator] + y) == [x, y]
  {
    var parts := [x, y];
    assert parts[..1] == [x];
    assert Join(parts) == x + [Separator] + y;
    JoinHasSeparator(parts);
    SegmentsJoin(parts);
  }

  /** Two member names joined by ';' mean the same in either order (for
      example "Compile;Runtime" and "Runtime;Compile", both Compile | Runtime). */
  lemma SwappedPair(x: string, y: string)
    requires ParseFlag(x).Some? && ParseFlag(y).Some?
    requires NoSeparator(x) && NoSeparator(y) && x != [] && y != []
    ensures ParseAssets(x + [Separator] + y) == ParseAssets(y + [Separator] + x)
                                             == Results.Ok({ParseFlag(x).value, ParseFlag(y).value})
  {
    var fx, fy := ParseFlag(x).value, ParseFlag(y).value;
    ParseOne(x, fx);
    ParseOne(y, fy);
    ParseFlagsConcat([x], [y]);
    ParseFlagsOrderIndependent([x], [y]);
    assert {fx} + {fy} == {fx, fy};
    assert [x] + [y] == [x, y] && [y] + [x] == [y, x];
    TwoSegments(x, y);
    TwoSegments(y, x);
  }

  /** A blank after the separator is skipped, as `Enum.TryParse` skips it:
      "runtime; build" reads as Runtime | Build. */
  lemma SpacedListParses()
    ensures ParseAssets("runtime; build") == Results.Ok({Runtime, Build})
  {
    var x, y := "runtime", " build";
    RuntimeParses();
    SpacedBuildParses();
    assert "runtime; build" == x + [Separator] + y;
    SwappedPair(x, y);
  }

  lemma RuntimeParses()
    ensures ParseFlag("runtime") == Results.Some(Runtime)
  {
    TrimUnblanked("runtime");
    FoldsTo("runtime", "RUNTIME");
  }

  lemma SpacedBuildParses()
    ensures ParseFlag(" build") == Results.Some(Build)
  {
    assert TrimStart(" build") == "build";
    TrimUnblanked("build");
    FoldsTo("build", "BUILD");
  }

  /** The empty value is written as "0", which names no member, so it does
      not read back. */
  lemma EmptyDoesNotReadBack()
    ensures ParseAssets(FormatAssets({})) == Results.Err(Results.InvalidAssets("0"))
  {
    TrimUnblanked("0");
    assert FoldCase("0") == "0";
    assert NoSeparator("0");
  }

  /** Compile | Runtime is the integer 6. */
  lemma CompileRuntimeValue()
    ensures Value({Compile, Runtime}) == 6
  {
  }
}
