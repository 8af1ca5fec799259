/** The C++ `std::optional` the rideables return: `{}` is `Absent`. */
module Optionals {
  datatype Optional<T> = Absent | Present(value: T)

  /** What a key maps to in an abstract map, as an optional. */
  function Find<K, V>(m: map<K, V>, k: K): (r: Optional<V>)
    ensures r.Present? <==> k in m
    ensures r.Present? ==> r.value == m[k]
  {
    if k in m then Present(m[k]) else Absent
  }
}
