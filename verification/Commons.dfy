/** What several components share: optional values, minima and Python's slices. */
module Commons {
  datatype Option<T> = None | Some(value: T)

  function Min(a: int, b: int): int { if a < b then a else b }

  /** A Python slice with non-negative bounds: clipped at the end, empty when turned around. */
  function Slice<T>(s: seq<T>, lo: nat, hi: nat): seq<T> {
    var h := Min(hi, |s|);
    if lo < h then s[lo..h] else []
  }
}
