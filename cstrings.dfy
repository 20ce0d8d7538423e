/**
  The C string conventions that the queue relies on. A C string is a buffer
  of characters whose text ends at the first NUL; `strlen` counts the
  characters before it, and `strncpy(dst, src, n)` writes exactly `n`
  characters: the text of `src` as far as it fits, then NUL padding.
 */
module CStrings {

  const NUL: char := '\0'

  /** A buffer holds a C string when a terminator occurs somewhere in it. */
  predicate Terminated(buf: seq<char>) {
    NUL in buf
  }

  /** `strlen`: the position of the first NUL. */
  function Strlen(buf: seq<char>): (n: nat)
    requires Terminated(buf)
    ensures n < |buf| && buf[n] == NUL
    ensures forall i | 0 <= i < n :: buf[i] != NUL
  {
    if buf[0] == NUL then 0
    else
      assert NUL in buf[1..] by {
        var j :| 0 <= j < |buf| && buf[j] == NUL;
        assert buf[1..][j - 1] == NUL;
      }
      1 + Strlen(buf[1..])
  }

  /** The text a terminated buffer holds: the characters before its first NUL. */
  function Text(buf: seq<char>): (t: seq<char>)
    requires Terminated(buf)
    ensures NUL !in t
    ensures |t| < |buf| && buf[..|t| + 1] == t + [NUL]
  {
    buf[..Strlen(buf)]
  }

  /** A text followed by a terminator reads back as that text, whatever follows. */
  lemma TextOfTerminated(t: seq<char>, rest: seq<char>)
    requires NUL !in t
    ensures Terminated(t + [NUL] + rest)
    ensures Text(t + [NUL] + rest) == t
  {
    var buf := t + [NUL] + rest;
    assert buf[|t|] == NUL;
    var n := Strlen(buf);
    assert n == |t|;
    assert buf[..n] == t;
  }

  /** The `n` characters that `strncpy(dst, src, n)` writes when `src` holds the text `t`. */
  function Strncpy(t: seq<char>, n: nat): (r: seq<char>)
  {
    seq(n, i requires 0 <= i < n => if i < |t| then t[i] else NUL)
  }

  /** `strncpy(dst, src, n)` into a caller buffer of at least `n` cells. */
  method StrncpyInto(dst: array<char>, t: seq<char>, n: nat)
    requires n <= dst.Length
    modifies dst
    ensures dst[..n] == Strncpy(t, n)
    ensures dst[n..] == old(dst[n..])
  {
    forall i | 0 <= i < n {
      dst[i] := if i < |t| then t[i] else NUL;
    }
  }

  /**
    Copies the text `t` out into a caller buffer of capacity `bufsize`:
    `strncpy(sp, t, bufsize - 1)` followed by `sp[bufsize - 1] = '\0'`.
    Nothing at or beyond `bufsize` is written.
   */
  method CopyOutInto(sp: array<char>, t: seq<char>, bufsize: nat)
    requires NUL !in t && 1 <= bufsize <= sp.Length
    modifies sp
    ensures sp[..bufsize] == CopyOut(t, bufsize)
    ensures sp[bufsize..] == old(sp[bufsize..])
  {
    StrncpyInto(sp, t, bufsize - 1);
    sp[bufsize - 1] := NUL;
    assert sp[..bufsize] == sp[..bufsize - 1] + [NUL];
  }

  /**
    The first `bufsize` cells of a caller buffer after a text `t` has been
    copied out with `strncpy(sp, t, bufsize - 1)` and `sp[bufsize - 1] = '\0'`:
    the buffer is terminated within its capacity and holds `t` when `t`
    fits, otherwise the first `bufsize - 1` characters of `t`.
   */
  function CopyOut(t: seq<char>, bufsize: nat): (r: seq<char>)
    requires NUL !in t && bufsize >= 1
    ensures |r| == bufsize && r[bufsize - 1] == NUL
    ensures Terminated(r)
    ensures Text(r) == if |t| < bufsize then t else t[..bufsize - 1]
  {
    var r := Strncpy(t, bufsize - 1) + [NUL];
    var kept := if |t| < bufsize then t else t[..bufsize - 1];
    assert r == kept + [NUL] + r[|kept| + 1..];
    TextOfTerminated(kept, r[|kept| + 1..]);
    r
  }
}
