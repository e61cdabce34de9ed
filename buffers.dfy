/** Filling a preallocated buffer front to back, one slot at a time. */
module Buffers {
  /** `a[i] = v` on a buffer whose first `i` slots are filled: the filled prefix grows by `v` and the slots after it keep their values. */
  method Put<T>(a: array<T>, i: nat, v: T)
    requires i < a.Length
    modifies a
    ensures a[..i + 1] == old(a[..i]) + [v]
    ensures a[i + 1..] == old(a[i + 1..])
  {
    a[i] := v;
    assert a[..i + 1] == old(a[..i]) + [v];
  }
}
