// Overlapping block moves inside one buffer, as the C library's memmove
// performs them.  Lists, byte queues and strings are all shifted with it.
module Memory {

  // The contents `s` after moving the n elements at src to dst.
  ghost function Moved<T>(s: seq<T>, dst: nat, src: nat, n: nat): (r: seq<T>)
    requires dst + n <= |s| && src + n <= |s|
  {
    s[..dst] + s[src..src + n] + s[dst + n..]
  }

  // The right-hand sides of the parallel assignment are read before anything
  // is written, which is what memmove guarantees for overlapping blocks.
  method MemMove<T>(a: array<T>, dst: nat, src: nat, n: nat)
    requires dst + n <= a.Length && src + n <= a.Length
    modifies a
    ensures a[..] == Moved(old(a[..]), dst, src, n)
  {
    forall i | 0 <= i < n {
      a[dst + i] := a[src + i];
    }
  }
}
