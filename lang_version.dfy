/** C# language version tokens: a closed table of accepted texts. */
module LangVersions {
  import opened Results

  datatype LangVersion = LangVersion(text: string)

  const Preview: LangVersion := LangVersion("preview")
  const Latest: LangVersion := LangVersion("latest")
  const LatestMajor: LangVersion := LangVersion("latestMajor")
  const Default: LangVersion := LangVersion("default")
  const CSharp14: LangVersion := LangVersion("14.0")
  const CSharp13: LangVersion := LangVersion("13.0")
  const CSharp12: LangVersion := LangVersion("12.0")
  const CSharp11: LangVersion := LangVersion("11.0")
  const CSharp10: LangVersion := LangVersion("10.0")
  const CSharp9: LangVersion := LangVersion("9.0")
  const CSharp8: LangVersion := LangVersion("8.0")
  const CSharp7_3: LangVersion := LangVersion("7.3")
  const CSharp7_2: LangVersion := LangVersion("7.2")
  const CSharp7_1: LangVersion := LangVersion("7.1")
  const CSharp7: LangVersion := LangVersion("7.0")
  const CSharp6: LangVersion := LangVersion("6.0")
  const CSharp5: LangVersion := LangVersion("5.0")
  const CSharp4: LangVersion := LangVersion("4.0")
  const CSharp3: LangVersion := LangVersion("3.0")
  const CSharp2: LangVersion := LangVersion("2.0")
  const CSharp1: LangVersion := LangVersion("1.0")

  /** The accepted tokens. The versions before 7.0 are declared above but are not listed here. */
  const All: seq<LangVersion> := [
    Preview, Latest, LatestMajor, Default,
    CSharp14, CSharp13, CSharp12, CSharp11, CSharp10, CSharp9, CSharp8,
    CSharp7_3, CSharp7_2, CSharp7_1, CSharp7
  ]

  /** The value of `default(LangVersion)`: empty text. */
  const Empty: LangVersion := LangVersion("")

  /** `Array.IndexOf`: the first position holding `v`, or -1. */
  function IndexOf(table: seq<LangVersion>, v: LangVersion): (r: int)
    ensures -1 <= r < |table|
    ensures r >= 0 ==> table[r] == v && forall k :: 0 <= k < r ==> table[k] != v
    ensures r == -1 <==> v !in table
  {
    if table == [] then -1
    else if table[0] == v then 0
    else var i := IndexOf(table[1..], v); if i == -1 then -1 else i + 1
  }

  function ToString(v: LangVersion): string {
    v.text
  }

  /** Succeeds exactly for the fifteen listed texts; on failure the value is the default. */
  function TryParse(text: string): (r: (bool, LangVersion))
    ensures r.0 <==> text in {"preview", "latest", "latestMajor", "default", "14.0", "13.0", "12.0",
                              "11.0", "10.0", "9.0", "8.0", "7.3", "7.2", "7.1", "7.0"}
    ensures r.0 ==> ToString(r.1) == text && r.1 in All
    ensures !r.0 ==> r.1 == Empty
  {
    var v := LangVersion(text);
    AcceptedTexts(text);
    if IndexOf(All, v) != -1 then (true, v) else (false, Empty)
  }

  lemma AcceptedTexts(text: string)
    ensures LangVersion(text) in All <==> text in {"preview", "latest", "latestMajor", "default", "14.0", "13.0", "12.0",
                                                   "11.0", "10.0", "9.0", "8.0", "7.3", "7.2", "7.1", "7.0"}
  {
    var texts := seq(|All|, i requires 0 <= i < |All| => All[i].text);
    assert texts == ["preview", "latest", "latestMajor", "default", "14.0", "13.0", "12.0",
                     "11.0", "10.0", "9.0", "8.0", "7.3", "7.2", "7.1", "7.0"];
    assert LangVersion(text) in All <==> text in texts;
  }

  /** `Parse`: the accepted value, or an error for any other text. */
  function Parse(text: string): (r: Result<LangVersion>)
    ensures r.Ok? <==> TryParse(text).0
    ensures r.Ok? ==> ToString(r.value) == text
    ensures r.Err? ==> r.error == InvalidLangVersion(text)
  {
    var (ok, v) := TryParse(text);
    if ok then Ok(v) else Err(InvalidLangVersion(text))
  }

  /** Equality by text; Dafny's `==` and `!=` on the datatype agree with it. */
  function Equals(a: LangVersion, b: LangVersion): (r: bool)
    ensures r <==> a == b
  {
    ToString(a) == ToString(b)
  }

  /** Every listed token formats to text that parses back to it. */
  lemma {:induction false} ParseToString(v: LangVersion)
    requires v in All
    ensures Parse(ToString(v)) == Ok(v)
  {
    assert IndexOf(All, LangVersion(ToString(v))) != -1;
  }

  /** "6.0" down to "1.0" have constants but are not accepted. */
  lemma RetiredVersionsRejected()
    ensures !TryParse(ToString(CSharp6)).0 && !TryParse(ToString(CSharp5)).0
    ensures !TryParse(ToString(CSharp4)).0 && !TryParse(ToString(CSharp3)).0
    ensures !TryParse(ToString(CSharp2)).0 && !TryParse(ToString(CSharp1)).0
  {
    RetiredRejected('6');
    RetiredRejected('5');
    RetiredRejected('4');
    RetiredRejected('3');
    RetiredRejected('2');
    RetiredRejected('1');
  }

  /** "d.0" for a digit `d` from 1 to 6 is none of the accepted texts. */
  lemma RetiredRejected(d: char)
    requires '1' <= d <= '6'
    ensures !TryParse([d, '.', '0']).0
  {
  }
}
