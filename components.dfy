/**
 * The parameter store of the extender framework (class Parameters in
 * Comodojo\Extender\Components): a PHP array with string keys, merged into
 * with `array_replace`.
 */
module Components {
  import opened PhpArray

  /** The parameter store: one field, reassigned by every merge. */
  class Parameters<V> {
    var parameters: seq<Entry<string, V>>

    ghost predicate Valid()
      reads this
    {
      DistinctKeys(parameters)
    }

    /** `new Parameters($parameters = array())`: one merge into the empty store. */
    constructor (init: seq<Entry<string, V>>)
      requires DistinctKeys(init)
      ensures Valid()
      ensures parameters == Replace([], init)
      ensures parameters == init
    {
      parameters := [];
      new;
      var self := Merge(init);
      FromArray(init);
    }

    /** `merge($properties)`: `array_replace` into the store, returning the store itself. */
    method Merge(properties: seq<Entry<string, V>>) returns (self: Parameters<V>)
      requires Valid()
      modifies this
      ensures Valid()
      ensures parameters == Replace(old(parameters), properties)
      ensures self == this
    {
      ReplaceDistinct(parameters, properties);
      parameters := Replace(parameters, properties);
      self := this;
    }
  }
}
