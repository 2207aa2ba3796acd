/** `strndup` from the project's own <string.h> (include/string.h): a bounded
    copy into a fresh buffer of `size + 1` bytes, always NUL-terminated. */
module CStrings {
  import opened CType

  /** What `strndup` may assume of `src`: every byte it reads exists. It reads
      until `size` bytes or a NUL, so either `size` bytes are there or a NUL is. */
  predicate Readable(src: seq<Byte>, size: nat) {
    size <= |src| || 0 in src
  }

  /** The number of bytes copied: `size`, or the index of the first NUL if
      that comes earlier. */
  function CopyLength(src: seq<Byte>, size: nat): (n: nat)
    requires Readable(src, size)
    ensures n <= size && n <= |src|
    ensures forall k :: 0 <= k < n ==> src[k] != 0
    ensures n == size || src[n] == 0
  {
    CountFrom(src, size, 0)
  }

  /** The count of the copy loop, resumed at index `i`. */
  function CountFrom(src: seq<Byte>, size: nat, i: nat): (n: nat)
    requires Readable(src, size) && i <= size && i <= |src|
    requires forall k :: 0 <= k < i ==> src[k] != 0
    ensures i <= n <= size && n <= |src|
    ensures forall k :: 0 <= k < n ==> src[k] != 0
    ensures n == size || src[n] == 0
    decreases size - i
  {
    if i == size then i
    else if src[i] == 0 then i
    else CountFrom(src, size, i + 1)
  }

  /** Two copy lengths with the defining properties are the same number. */
  lemma CopyLengthUnique(src: seq<Byte>, size: nat, n: nat)
    requires Readable(src, size) && n <= size && n <= |src|
    requires forall k :: 0 <= k < n ==> src[k] != 0
    requires n == size || src[n] == 0
    ensures n == CopyLength(src, size)
  {
  }

  /** The copy reads `src` only below `size`: the bytes from `size` on do not
      change how much is copied. */
  lemma CopyLengthIgnoresTail(src: seq<Byte>, size: nat)
    requires size <= |src|
    ensures CopyLength(src, size) == CopyLength(src[..size], size)
  {
    var n := CopyLength(src, size);
    assert forall k :: 0 <= k < n ==> src[..size][k] == src[k];
    CopyLengthUnique(src[..size], size, n);
  }

  /** `strndup(src, size)`. */
  method StrNDup(src: array<Byte>, size: nat) returns (buf: array<Byte>)
    requires Readable(src[..], size)
    ensures fresh(buf) && buf.Length == size + 1
    ensures buf[..CopyLength(src[..], size)] == src[..CopyLength(src[..], size)]
    ensures buf[CopyLength(src[..], size)] == 0
  {
    buf := new Byte[size + 1];
    var i := 0;
    while i < size && src[i] != 0
      invariant i <= size && i <= src.Length
      invariant forall k :: 0 <= k < i ==> src[k] != 0 && buf[k] == src[k]
    {
      buf[i] := src[i];
      i := i + 1;
    }
    buf[i] := 0;
    CopyLengthUnique(src[..], size, i);
  }
}
