/** Zero-terminated byte strings. A Dafny `char` stands for one byte; the terminator is not stored. */
module CString {

  datatype Option<+T> = None | Some(value: T)

  const NUL := '\0'

  /** The byte a pointer into `s` reads: the terminator when it points just past the last byte. */
  function At(s: string, i: nat): char
    requires i <= |s|
  {
    if i < |s| then s[i] else NUL
  }

  predicate NulFree(s: string) {
    NUL !in s
  }

  /** What a C caller sees of a buffer: everything before the first zero byte. */
  function UpToNul(s: string): (r: string)
    ensures NulFree(r)
    ensures NulFree(s) ==> r == s
  {
    if s == "" || s[0] == NUL then "" else [s[0]] + UpToNul(s[1..])
  }

  /** `x` occurs in `s` at position `i`. */
  predicate StartsWith(s: string, i: nat, x: string) {
    i + |x| <= |s| && s[i..i + |x|] == x
  }

  lemma StartsWithConcat(s: string, i: nat, x: string, y: string)
    ensures StartsWith(s, i, x + y) <==> StartsWith(s, i, x) && StartsWith(s, i + |x|, y)
    ensures StartsWith(s, i, x + y) ==> i + |x| + |y| <= |s|
  {
    if StartsWith(s, i, x + y) {
      assert x == (x + y)[..|x|] == s[i..i + |x|];
      assert y == (x + y)[|x|..] == s[i + |x|..i + |x| + |y|];
    }
    if StartsWith(s, i, x) && StartsWith(s, i + |x|, y) {
      assert s[i..i + |x| + |y|] == s[i..i + |x|] + s[i + |x|..i + |x| + |y|];
    }
  }

  lemma StartsWithAt(s: string, i: nat, x: string, k: nat)
    requires StartsWith(s, i, x) && k < |x|
    ensures i + k < |s| && s[i + k] == x[k]
  {
    assert s[i..i + |x|][k] == x[k];
  }

  lemma Associate<T>(x: seq<T>, y: seq<T>, z: seq<T>)
    ensures x + y + z == x + (y + z)
  {
  }
}
