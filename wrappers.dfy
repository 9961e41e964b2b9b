/** Optional values: a TypeScript field that is `undefined` or a column that is `null`. */
module Wrappers {
  datatype Option<+T> = None | Some(value: T)

  /**
   * The field `key` of an object built by `Object.assign(this, partial)`: set exactly
   * when the partial supplies it, and then to the supplied value.
   */
  function Lookup<K, V>(partial: map<K, V>, key: K): Option<V> {
    if key in partial then Some(partial[key]) else None
  }
}
