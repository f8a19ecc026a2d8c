/**
 * The Config interface: the priority constants, the default getOrder(), and
 * the default coercions that every provider layers on its own getStr(key).
 */
module Config {
  import opened Wrappers
  import opened JavaLang

  // Priority constants: a larger number means a higher priority, consulted earlier.
  const LOW_ORDER: int := 0
  const VERSION_ORDER: int := 100
  const USER_ORDER: int := 200
  const ENV_ORDER: int := 300
  const SYSTEM_ORDER: int := 400
  const SPRING_ORDER: int := 500
  const HIGH_ORDER: int := 1000

  /** What getOrder() returns for an implementation that does not override it. */
  const DEFAULT_ORDER: int := 0

  lemma OrdersIncrease()
    ensures LOW_ORDER < VERSION_ORDER < USER_ORDER < ENV_ORDER < SYSTEM_ORDER < SPRING_ORDER < HIGH_ORDER
    ensures DEFAULT_ORDER == LOW_ORDER
  {
  }

  /**
   * A provider as the registry sees it: the getOrder() it declares, when it
   * overrides the default, and the keys its getStr answers with their values.
   */
  datatype Provider = Provider(declaredOrder: Option<int>, values: map<string, string>) {

    /** getOrder(): the declared order, or the interface default. */
    function GetOrder(): (order: int)
      ensures declaredOrder.None? ==> order == LOW_ORDER
      ensures declaredOrder.Some? ==> order == declaredOrder.value
    {
      declaredOrder.GetOr(DEFAULT_ORDER)
    }

    /** getStr(key): the value, or null when the provider does not know the key. */
    function GetStr(key: string): (value: Option<string>)
      ensures value.Some? <==> key in values
      ensures value.Some? ==> value.value == values[key]
    {
      if key in values then Some(values[key]) else None
    }
  }

  // ---------------------------------------------------------------------------
  // The default coercions, as functions of the answer `value` of getStr(key).
  // ConfigHelper applies the same coercions to the registry's answer.

  /** getStr(key, defaultValue). */
  function StrOr(value: Option<string>, default: Option<string>): (r: Option<string>)
    ensures value.None? ==> r == default
    ensures value.Some? ==> r == value
  {
    if value.None? then default else value
  }

  /** getInt(key): null when absent, otherwise Integer.parseInt, which may throw. */
  function IntOf(value: Option<string>): (r: Result<Option<int>, Error>)
    ensures value.None? <==> r == Ok(None)
    ensures value.Some? ==> (r.Err? <==> ParseInt(value.value).Err?)
    ensures value.Some? && r.Ok? ==> r.value == Some(ParseInt(value.value).value)
  {
    match value
    case None => Ok(None)
    case Some(text) =>
      match ParseInt(text)
      case Err(e) => Err(e)
      case Ok(n) => Ok(Some(n))
  }

  /** getInt(key, defaultValue): the default replaces an absent value, never a malformed one. */
  function IntOr(value: Option<string>, default: Option<int>): (r: Result<Option<int>, Error>)
    ensures value.None? ==> r == Ok(default)
    ensures value.Some? ==> r == IntOf(value)
  {
    match IntOf(value)
    case Err(e) => Err(e)
    case Ok(n) => Ok(if n.Some? then n else default)
  }

  /** getBoolean(key): Boolean.valueOf of the value, so an absent key gives false. */
  function BoolOf(value: Option<string>): (b: bool)
    ensures value.None? ==> !b
    ensures value.Some? ==> (b <==> EqualsIgnoreCase(value.value, "true"))
  {
    ParseBoolean(value)
  }

  /** getBoolean(key, defaultValue): the default only when the key is absent. */
  function BoolOr(value: Option<string>, default: bool): (b: bool)
    ensures value.None? ==> b == default
    ensures value.Some? ==> b == ParseBoolean(value)
  {
    if value.None? then default else ParseBoolean(value)
  }

  /** An int stored as its decimal text reads back as that int, whatever the default. */
  lemma IntRoundTrip(n: int, default: Option<int>)
    ensures IntOf(Some(IntToString(n))) == Ok(Some(n))
    ensures IntOr(Some(IntToString(n)), default) == Ok(Some(n))
  {
    ParseIntToString(n);
  }

  /** Malformed text raises NumberFormatException; a default never hides it. */
  lemma MalformedIntIsAnError(text: string, default: Option<int>)
    requires !AllDigits(text) && text != [] && text[0] != '-' && text[0] != '+'
    ensures IntOr(Some(text), default) == Err(NumberFormat(text))
  {
  }

  lemma BooleanExamples(default: bool)
    ensures BoolOf(Some("True")) && !BoolOf(Some("yes")) && !BoolOf(None)
    ensures BoolOr(Some("yes"), true) == false && BoolOr(None, default) == default
  {
    ParseBooleanExamples();
  }
}
