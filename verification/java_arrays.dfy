/** The two library routines the list uses to move its elements:
    java.lang.System.arraycopy and java.util.Arrays.copyOf. */
module JavaArrays {
  import opened Wrappers

  /** `n` null slots. */
  ghost function Nulls<T>(n: nat): (s: seq<Option<T>>)
    ensures |s| == n && forall k :: 0 <= k < n ==> s[k] == None
  {
    seq(n, _ => None)
  }

  /** Copies `src[srcPos..srcPos+length)` onto `dest[destPos..destPos+length)`.
      As System.arraycopy promises, the copy behaves as if it went through a
      temporary buffer, so it is also right when `src` and `dest` are the same
      array and the two ranges overlap. */
  method ArrayCopy<U>(src: array<U>, srcPos: nat, dest: array<U>, destPos: nat, length: nat)
    requires srcPos + length <= src.Length && destPos + length <= dest.Length
    modifies dest
    ensures dest[..] == old(dest[..destPos]) + old(src[srcPos..srcPos + length]) + old(dest[destPos + length..])
  {
    forall k | 0 <= k < length {
      dest[destPos + k] := src[srcPos + k];
    }
  }

  /** A new array of `newLength` slots holding `original` followed by nulls. */
  method CopyOf<T>(original: array<Option<T>>, newLength: nat) returns (copy: array<Option<T>>)
    requires original.Length <= newLength
    ensures fresh(copy)
    ensures copy[..] == original[..] + Nulls(newLength - original.Length)
  {
    copy := new Option<T>[newLength](_ => None);
    ArrayCopy(original, 0, copy, 0, original.Length);
  }
}
