/** Backslash escapes in Markdown source. */
module Escapes {
  import opened Common

  const BACKSLASH: byte := 92

  /** Reading from `lo`, the byte at `i` is taken literally: an unescaped backslash stands before it. */
  predicate EscapedFrom(b: seq<byte>, lo: nat, i: nat)
    requires lo <= i <= |b|
  {
    i > lo && b[i - 1] == BACKSLASH && !EscapedFrom(b, lo, i - 1)
  }
}
