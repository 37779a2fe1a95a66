/**
 * The JSON converter of the core version type (Converters/DotnetVersionJsonConverter.cs):
 * a version is stored as the string "major.minor.patch" and read back with Parse.
 */
module DotnetVersionJson {
  import opened Wrappers
  import opened DotNetText
  import opened DotnetVersions

  /** The JSON token the reader stands on. */
  datatype JsonToken = JsonString(text: string) | JsonNull | JsonOther

  /** What reading a token can throw. */
  datatype ReadFailure =
    | NotAString                    // GetString on a token that is neither a string nor null
    | Unparsable(cause: ParseFailure) // the exception DotnetVersion.Parse threw

  /** `Read`: a string token is parsed, a null token gives null. */
  function Read(token: JsonToken): (r: Result<Option<DotnetVersion>, ReadFailure>)
    ensures token == JsonNull <==> r == Success(None)
    ensures r.Success? && r.value.Some? ==> token.JsonString? && WellFormed(r.value.value)
    ensures token.JsonOther? ==> r == Failure(NotAString)
  {
    match token
    case JsonString(text) =>
      ParseWellFormedWhenSuccessful(text);
      (match Parse(text)
       case Success(v) => Success(Some(v))
       case Failure(e) => Failure(Unparsable(e)))
    case JsonNull => Success(None)
    case JsonOther => Failure(NotAString)
  }

  lemma ParseWellFormedWhenSuccessful(text: string)
    ensures Parse(text).Success? ==> WellFormed(Parse(text).value)
  {
    if Parse(text).Success? {
      ParseWellFormed(text);
    }
  }

  /** `Write`: the version's ToString as a JSON string; preview information is not written. */
  function Write(v: DotnetVersion): JsonToken {
    JsonString(ToString(v))
  }

  /**
   * Reading what was written recovers major, minor and patch; preview flags,
   * identifier and revision are lost on the way.
   */
  lemma ReadWrite(v: DotnetVersion)
    requires 0 <= v.major && 0 <= v.minor && 0 <= v.patch
    ensures Read(Write(v)) == Success(Some(Create(v.major, v.minor, v.patch)))
  {
    ParseToString(v);
  }

  /** So the round trip is exact for stable versions with nothing but numbers set. */
  lemma ReadWriteStable(v: DotnetVersion)
    requires 0 <= v.major && 0 <= v.minor && 0 <= v.patch
    requires IsStable(v) && v.previewIdentifier == None && v.revision == None
    ensures Read(Write(v)) == Success(Some(v))
  {
    ReadWrite(v);
  }

  /** An unparsable string fails with Parse's own exception. */
  lemma ReadRejectsLetters()
    ensures Read(JsonString("8.0.a")) == Failure(Unparsable(FormatError))
    ensures Read(JsonString("8.0.aaa-rc.1")) == Failure(Unparsable(FormatError))
  {
    ParseRejectsLetter();
    ParseRejectsLettersBeforeTag();
  }
}
