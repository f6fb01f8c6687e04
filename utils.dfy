/** `isUint8ArrayEquals` (src/utils.ts): byte arrays compared element by
    element. The UTF-8 helpers the codec imports from the same file are
    modelled in module `Utf8`. */
module Utils {
  import opened Bytes

  /** Lengths first, then an index loop that stops at the first byte that
      differs. */
  method IsUint8ArrayEquals(left: array<byte>, right: array<byte>) returns (eq: bool)
    ensures eq <==> left[..] == right[..]
  {
    if left.Length != right.Length {
      return false;
    }
    var i := 0;
    while i < left.Length
      invariant 0 <= i <= left.Length
      invariant left[..i] == right[..i]
    {
      if left[i] != right[i] {
        assert left[..][i] != right[..][i];
        return false;
      }
      assert left[..i + 1] == left[..i] + [left[i]];
      assert right[..i + 1] == right[..i] + [right[i]];
      i := i + 1;
    }
    assert left[..] == left[..left.Length];
    assert right[..] == right[..right.Length];
    return true;
  }
}
