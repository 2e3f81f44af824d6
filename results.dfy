/** Optional values, the failures the document layer reports, and the
    results that carry them. Every exception of the library becomes an
    `Err` value here. */
module Results {

  datatype Option<+T> = None | Some(value: T) {
    function GetOr(default: T): T {
      match this
      case Some(v) => v
      case None => default
    }
  }

  /** The failures the core raises, one constructor per throw site kind. */
  datatype Error =
    | NoPropertyGroup                          // no PropertyGroup matches the condition
    | NoSdkAttribute                           // the root has no Sdk attribute
    | InvalidSdk(text: string)                 // the Sdk attribute is not a known SDK
    | InvalidBoolean(text: string)             // strict boolean codec: neither "true" nor "false"
    | InvalidEnum(typeName: string, text: string) // strict enum codec: no member of that name
    | InvalidAssets(text: string)              // an Assets segment names no flag
    | InvalidLangVersion(text: string)         // LangVersion.Parse on unknown text
    | MissingAttribute(name: string)           // GetAttribute on an absent attribute

  datatype Result<+T> = Ok(value: T) | Err(error: Error)

  datatype Outcome = Pass | Fail(error: Error)
}
