/** The result of looking something up: a Go map read, or a search for a
    pattern in a string. */
module Lookups {

  /** `Missing` stands for Go's "not there": the nil zero value of a map of
      pointers, or `-1` from `strings.Index`. */
  datatype Found<T> = Missing | Found(value: T)

  /** Go's `m[k]` on a map of pointers: the stored value, or nil (`Missing`)
      when the key is absent. */
  function Lookup<K, V>(m: map<K, V>, k: K): (r: Found<V>)
    ensures r.Found? <==> k in m
    ensures r.Found? ==> r.value == m[k]
  {
    if k in m then Found(m[k]) else Missing
  }
}
