/** Types and constants that several parts of the kernel share. */
module Common {
  const PAGE_4K := 0x1000
  const PAGE_2M := 0x20_0000
  const PAGE_1G := 0x4000_0000

  datatype PageSize = Size4K | Size2M | Size1G

  datatype CacheType = WriteBack | Uncached | WriteCombining | WriteThrough | WriteProtected

  datatype Option<T> = None | Some(value: T)

  ghost predicate NoDup(s: seq<nat>)
  {
    forall i, j {:trigger s[i], s[j]} :: 0 <= i < j < |s| ==> s[i] != s[j]
  }
}
