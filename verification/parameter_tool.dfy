/** The two accessors of Flink's `ParameterTool` that the offset selection
    uses. A parameter set is an immutable map from property name to property;
    the parsing of a properties file into that map is not part of this model. */
module ParameterTool {
  import opened Wrappers
  import opened JavaTypes

  /** One property value: its text, and what `Long.parseLong` makes of that text
      (`None` when the text is not a decimal `long` and the call would throw). */
  datatype Property = Property(text: string, asLong: Option<Long>)

  type Parameters = map<string, Property>

  /** `get(key, defaultValue)`: the property's text, or the default when the
      key is absent. */
  function Get(p: Parameters, key: string, default: string): (r: string)
    ensures key !in p ==> r == default
    ensures key in p ==> r == p[key].text
  {
    if key in p then p[key].text else default
  }

  /** `getLong(key, defaultValue)`: the default when the key is absent,
      otherwise the property read as a `long`, which throws
      `NumberFormatException` when the text is not one. */
  function GetLong(p: Parameters, key: string, default: Long): (r: Result<Long, Exception>)
    ensures key !in p ==> r == Success(default)
    ensures key in p && p[key].asLong.Some? ==> r == Success(p[key].asLong.value)
    ensures key in p && p[key].asLong.None? ==> r == Failure(NumberFormatException(p[key].text))
  {
    if key !in p then Success(default)
    else match p[key].asLong
      case Some(n) => Success(n)
      case None => Failure(NumberFormatException(p[key].text))
  }
}
