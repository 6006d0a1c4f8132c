/** The `Sqltypes` enumeration of src/types.rs: the four SQL type names the older
    per-line scanners abbreviate, their `Display` short forms, and the two `TryFrom`
    conversions from a word. */
module SqlTypes {

  datatype Result<T> = Ok(value: T) | Err(error: string)

  datatype Sqltypes = Integer | Character | Boolean | Decimal

  const InvalidType: string := "Invalid type"

  /** `Display::fmt`: the short form written for each variant. */
  function Display(t: Sqltypes): string {
    match t
    case Integer => "INT"
    case Character => "CHAR"
    case Boolean => "BOOL"
    case Decimal => "DEC"
  }

  /** The long form each variant is recognised from. */
  function LongForm(t: Sqltypes): string {
    match t
    case Integer => "INTEGER"
    case Character => "CHARACTER"
    case Boolean => "BOOLEAN"
    case Decimal => "DECIMAL"
  }

  /** `TryFrom<&str>`: an exact, case-sensitive match on the four long forms. */
  function TryFromStr(value: string): (r: Result<Sqltypes>)
    ensures r.Ok? <==> value in {"INTEGER", "CHARACTER", "BOOLEAN", "DECIMAL"}
    ensures r.Ok? ==> LongForm(r.value) == value
    ensures r.Err? ==> r.error == InvalidType
  {
    if value == "INTEGER" then Ok(Integer)
    else if value == "CHARACTER" then Ok(Character)
    else if value == "BOOLEAN" then Ok(Boolean)
    else if value == "DECIMAL" then Ok(Decimal)
    else Err(InvalidType)
  }

  /** `TryFrom<String>`: matches the owned string against the same four long forms. */
  function TryFromString(value: string): (r: Result<Sqltypes>)
    ensures r.Ok? <==> value in {"INTEGER", "CHARACTER", "BOOLEAN", "DECIMAL"}
    ensures r.Ok? ==> LongForm(r.value) == value
    ensures r.Err? ==> r.error == InvalidType
  {
    var s := value[..];
    if s == "INTEGER" then Ok(Integer)
    else if s == "CHARACTER" then Ok(Character)
    else if s == "BOOLEAN" then Ok(Boolean)
    else if s == "DECIMAL" then Ok(Decimal)
    else Err(InvalidType)
  }

  /** What the per-line scanners emit for a collected word: the short form when the
      word converts, the word itself otherwise. */
  function Abbreviate(word: string): (r: string)
    ensures TryFromString(word).Ok? ==> r == Display(TryFromString(word).value)
    ensures TryFromString(word).Err? ==> r == word
    ensures |r| <= |word|
  {
    match TryFromString(word)
    case Ok(short) => ContractionOfLongForm(short); Display(short)
    case Err(_) => word
  }

  /** Both conversions agree on every input. */
  lemma ConversionsAgree(value: string)
    ensures TryFromStr(value) == TryFromString(value)
  {
  }

  /** Recognising a variant's long form gives that variant back. */
  lemma LongFormRoundTrip(t: Sqltypes)
    ensures TryFromStr(LongForm(t)) == Ok(t)
    ensures TryFromString(LongForm(t)) == Ok(t)
  {
  }

  /** The short form is a proper prefix of the long form. */
  lemma ContractionOfLongForm(t: Sqltypes)
    ensures |Display(t)| < |LongForm(t)|
    ensures Display(t) == LongForm(t)[..|Display(t)|]
  {
  }

  /** For every accepted word, the displayed short form is a shorter prefix of it. */
  lemma ShortFormIsPrefix(value: string)
    requires TryFromStr(value).Ok?
    ensures |Display(TryFromStr(value).value)| < |value|
    ensures Display(TryFromStr(value).value) == value[..|Display(TryFromStr(value).value)|]
  {
    ContractionOfLongForm(TryFromStr(value).value);
  }

  /** Distinct variants display as distinct strings. */
  lemma DisplayInjective(a: Sqltypes, b: Sqltypes)
    ensures Display(a) == Display(b) ==> a == b
  {
  }

  /** Lower-case and comma-suffixed forms are refused. */
  lemma RefusedForms()
    ensures TryFromStr("integer") == Err(InvalidType)
    ensures TryFromStr("INTEGER,") == Err(InvalidType)
    ensures TryFromStr("TEMPORARY") == Err(InvalidType)
    ensures TryFromString("Boolean") == Err(InvalidType)
  {
  }
}
