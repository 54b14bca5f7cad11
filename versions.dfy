/**
 * ToVersion: version text that may be a bare build number such as "3035"
 * as well as a dotted version such as "3035.24".
 *
 * Version.Parse, which reads the dotted form, is library code outside the
 * model; it is the parameter `parseDotted`.
 */
module VersionConversion {
  import opened Wrappers
  import opened Errors
  import opened NumberText

  /** System.Version: an unset build or revision is -1. */
  datatype Version = Version(major: int, minor: int, build: int, revision: int)

  /** new Version(): 0.0, with build and revision unset. */
  const ZeroVersion := Version(0, 0, -1, -1)

  /** Version.Parse, supplied by the caller. */
  type VersionParser = string -> Result<Version, Exception>

  /** new Version(major, 0): a negative major is an ArgumentOutOfRangeException. */
  function MajorVersion(major: int): (r: Result<Version, Exception>)
    ensures r.Ok? <==> major >= 0
    ensures r.Ok? ==> r.value.major == major && r.value.minor == 0 && r.value.build == -1 && r.value.revision == -1
    ensures r.Err? ==> r.error == ArgumentOutOfRangeException
  {
    if major < 0 then Err(ArgumentOutOfRangeException) else Ok(Version(major, 0, -1, -1))
  }

  /**
   * ToVersion: null or empty text is the zero version; text with a '.' goes to
   * Version.Parse; anything else is read by int.Parse as the major number of
   * a version whose minor number is 0.
   */
  function ToVersion(value: NullableString, parseDotted: VersionParser): (r: Result<Version, Exception>)
    ensures value == None || value == Some("") ==> r == Ok(ZeroVersion)
    ensures value.Some? && '.' in value.value ==> r == parseDotted(value.value)
    ensures value.Some? && value.value != [] && '.' !in value.value ==>
      (r.Ok? <==> ParseInt32(value.value).Ok? && ParseInt32(value.value).value >= 0) &&
      (r.Ok? ==> r.value == Version(ParseInt32(value.value).value, 0, -1, -1)) &&
      (r.Err? ==> r.error in {FormatException, OverflowException, ArgumentOutOfRangeException})
  {
    match value
    case None => Ok(ZeroVersion)
    case Some(s) =>
      if s == [] then Ok(ZeroVersion)
      else if '.' in s then parseDotted(s)
      else
        match ParseInt32(s)
        case Err(e) => Err(e)
        case Ok(n) => MajorVersion(n)
  }

  /** A bare build number written by int.ToString() is read back as the major number. */
  lemma BareNumberVersion(n: int, parseDotted: VersionParser)
    requires 0 <= n <= MaxInt32
    ensures ToVersion(Some(IntText(n)), parseDotted) == Ok(Version(n, 0, -1, -1))
  {
    ParseInt32IntText(n);
  }

  /** A negative bare number parses, but is no major number. */
  lemma NegativeBareNumber(n: int, parseDotted: VersionParser)
    requires MinInt32 <= n < 0
    ensures ToVersion(Some(IntText(n)), parseDotted) == Err(ArgumentOutOfRangeException)
  {
    ParseInt32IntText(n);
  }

  /** A bare number beyond the 32-bit range, on either side, overflows. */
  lemma OversizedBareNumber(n: int, parseDotted: VersionParser)
    requires n < MinInt32 || n > MaxInt32
    ensures ToVersion(Some(IntText(n)), parseDotted) == Err(OverflowException)
  {
    var s := IntText(n);
    assert s != [] && '.' !in s;
    assert ParseInt32(s) == Err(OverflowException) by {
      TextPrimitives.TrimKeeps(s);
      if n < 0 {
        assert s[1..] == NatText(-n);
      }
    }
  }

  /** The build number of the comment at ToVersion: "3035" is version 3035.0. */
  lemma BuildNumberExample(parseDotted: VersionParser)
    ensures ToVersion(Some("3035"), parseDotted) == Ok(Version(3035, 0, -1, -1))
  {
    assert IntText(3035) == "3035";
    BareNumberVersion(3035, parseDotted);
  }
}
