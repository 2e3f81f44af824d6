/** Project SDK identifiers: a closed table of accepted texts. */
module Sdks {
  datatype Sdk = Sdk(text: string)

  const MicrosoftNETSdk: Sdk := Sdk("Microsoft.NET.Sdk")
  const MicrosoftNETSdkWeb: Sdk := Sdk("Microsoft.NET.Sdk.Web")

  const All: seq<Sdk> := [MicrosoftNETSdk, MicrosoftNETSdkWeb]

  /** The value of `default(Sdk)`: empty text. */
  const Empty: Sdk := Sdk("")

  /** `Array.IndexOf`: the first position holding `v`, or -1. */
  function IndexOf(table: seq<Sdk>, v: Sdk): (r: int)
    ensures -1 <= r < |table|
    ensures r >= 0 ==> table[r] == v && forall k :: 0 <= k < r ==> table[k] != v
    ensures r == -1 <==> v !in table
  {
    if table == [] then -1
    else if table[0] == v then 0
    else var i := IndexOf(table[1..], v); if i == -1 then -1 else i + 1
  }

  function ToString(v: Sdk): string {
    v.text
  }

  /** Succeeds exactly for the two SDK names; on failure the value is the default. */
  function TryParse(text: string): (r: (bool, Sdk))
    ensures r.0 <==> text == "Microsoft.NET.Sdk" || text == "Microsoft.NET.Sdk.Web"
    ensures r.0 ==> ToString(r.1) == text && r.1 in All
    ensures !r.0 ==> r.1 == Empty
  {
    var v := Sdk(text);
    if IndexOf(All, v) != -1 then (true, v) else (false, Empty)
  }

  /** Equality by text; Dafny's `==` and `!=` on the datatype agree with it. */
  function Equals(a: Sdk, b: Sdk): (r: bool)
    ensures r <==> a == b
  {
    ToString(a) == ToString(b)
  }

  /** Both listed SDKs format to text that parses back to them. */
  lemma ParseToString(v: Sdk)
    requires v in All
    ensures TryParse(ToString(v)) == (true, v)
  {
  }
}
