/**
 * LocatorValidator.validate: every top-level value of a parsed locator file
 * must itself be a mapping (component name to its locators).
 */
module LocatorValidator {
  import opened Outcomes

  /** A value as the YAML parser returns it. */
  datatype YamlValue =
    | YamlMap(entries: map<string, YamlValue>)
    | YamlList(items: seq<YamlValue>)
    | YamlScalar(text: string)
    | YamlNull

  /** The shape `validate` accepts: `instanceof Map` holds of every value (never of null). */
  predicate AllValuesAreMaps(locatorMap: map<string, YamlValue>)
  {
    forall key :: key in locatorMap ==> locatorMap[key].YamlMap?
  }

  function InvalidFormat(key: string): string
  {
    "Invalid locator format for: " + key
  }

  /**
   * The loop over `entrySet()`. A `HashMap` visits its entries in an order
   * the caller cannot rely on, so the entry checked next is chosen freely;
   * whichever offending entry comes first is the one reported.
   */
  method Validate(locatorMap: map<string, YamlValue>) returns (r: Outcome<string>)
    ensures r == Pass <==> AllValuesAreMaps(locatorMap)
    ensures r.Fail? ==> exists key :: key in locatorMap && !locatorMap[key].YamlMap? && r.error == InvalidFormat(key)
  {
    var remaining := locatorMap.Keys;
    while remaining != {}
      invariant remaining <= locatorMap.Keys
      invariant forall key :: key in locatorMap && key !in remaining ==> locatorMap[key].YamlMap?
      decreases remaining
    {
      var key :| key in remaining;
      if !locatorMap[key].YamlMap? {
        return Fail(InvalidFormat(key));
      }
      remaining := remaining - {key};
    }
    r := Pass;
  }
}
