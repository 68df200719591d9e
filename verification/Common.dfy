/** Failure-free wrappers shared by every module. */
module Common {
  datatype Option<+T> = None | Some(value: T)

  /** The value of a key the way a Go map read gives it: the zero value when the key is absent. */
  function Lookup<K, V>(m: map<K, V>, k: K, zero: V): V {
    if k in m then m[k] else zero
  }
}
