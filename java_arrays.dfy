/** The one piece of java.util.Arrays the containers rely on. */
module JavaArrays {

  /** Arrays.copyOf: a fresh array of length n holding the first elements of a,
      padded with the element type's default value (null, 0 or '\0'). */
  method CopyOf<T>(a: array<T>, n: nat, pad: T) returns (b: array<T>)
    ensures fresh(b) && b.Length == n
    ensures n <= a.Length ==> b[..] == a[..n]
    ensures a.Length <= n ==> b[..a.Length] == a[..]
    ensures forall i :: a.Length <= i < n ==> b[i] == pad
  {
    b := new T[n](_ => pad);
    var i := 0;
    while i < n && i < a.Length
      invariant 0 <= i <= n && i <= a.Length
      invariant forall k :: 0 <= k < i ==> b[k] == a[k]
      invariant forall k :: i <= k < n ==> b[k] == pad
    {
      b[i] := a[i];
      i := i + 1;
    }
  }
}
