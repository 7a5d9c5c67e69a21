/** Strings in C buffers: the bytes before the first NUL. */
module CStrings {
  import opened Bytes

  /** The text in a buffer that holds a NUL. */
  function Text(s: bytes): (t: bytes)
    requires 0 in s
    ensures t < s && s[|t|] == 0 && 0 !in t
  {
    if s[0] == 0 then [] else
      assert 0 in s[1..];
      [s[0]] + Text(s[1..])
  }

  lemma {:induction false} TextIs(s: bytes, t: bytes)
    requires t < s && s[|t|] == 0 && 0 !in t
    ensures 0 in s && Text(s) == t
  {
    if t != [] {
      assert s[0] == t[0];
      TextIs(s[1..], t[1..]);
    }
  }

  method StrLen(s: array<byte>) returns (n: nat)
    requires 0 in s[..]
    ensures n == |Text(s[..])|
  {
    n := 0;
    while s[n] != 0
      invariant n < s.Length && 0 !in s[..n]
      decreases s.Length - n
    {
      assert forall i :: 0 <= i <= n ==> s[..][i] != 0;
      n := n + 1;
    }
    TextIs(s[..], s[..n]);
  }

  /** The first n bytes of t are in place in what was a0, and nothing else has changed. */
  ghost predicate Written(a: bytes, a0: bytes, t: bytes, n: nat) {
    && n <= |t| && n <= |a| == |a0|
    && a[..n] == t[..n] && a[n..] == a0[n..]
  }

  lemma WrittenMore(a: bytes, b: bytes, a0: bytes, t: bytes, n: nat)
    requires Written(a, a0, t, n) && n < |t| && n < |a| && b == a[n := t[n]]
    ensures Written(b, a0, t, n + 1)
  {
    assert b[..n + 1] == a[..n] + [b[n]];
    assert b[n + 1..] == a[n..][1..];
    assert a0[n + 1..] == a0[n..][1..];
  }

  lemma WrittenBlock(a: bytes, b: bytes, a0: bytes, t: bytes, n: nat, m: nat)
    requires Written(a, a0, t, n) && n + m <= |t| && n + m <= |a| && b == a[..n] + t[n..n + m] + a[n + m..]
    ensures Written(b, a0, t, n + m)
  {
    assert b[..n + m] == a[..n] + t[n..n + m] == t[..n + m];
    assert b[n + m..] == a[n..][m..];
    assert a0[n + m..] == a0[n..][m..];
  }

  lemma WrittenAll(a: bytes, a0: bytes, t: bytes)
    requires Written(a, a0, t, |t|)
    ensures a[..|t|] == t && a[|t|..] == a0[|t|..]
  {
  }

  /** Ending a written text with a NUL makes it the text of the buffer. */
  lemma WrittenText(a: bytes, b: bytes, a0: bytes, t: bytes)
    requires Written(a, a0, t, |t|) && |t| < |a| && b == a[|t| := 0] && 0 !in t
    ensures b[..|t|] == t && 0 in b && Text(b) == t && b[|t| + 1..] == a0[|t| + 1..]
  {
    assert b[..|t|] == t;
    assert b[|t| + 1..] == a[|t|..][1..];
    assert a0[|t| + 1..] == a0[|t|..][1..];
    TextIs(b, t);
  }

  /** One byte more: the C idiom of storing through a pointer and moving it on. */
  method Emit(dst: array<byte>, p: nat, c: byte, ghost d0: bytes, ghost t: bytes) returns (next: nat)
    requires Written(dst[..], d0, t, p) && p < |t| && p < dst.Length && c == t[p]
    modifies dst
    ensures next == p + 1 && Written(dst[..], d0, t, next)
  {
    ghost var before := dst[..];
    dst[p] := c;
    WrittenMore(before, dst[..], d0, t, p);
    return p + 1;
  }

  /** Zeroes a whole buffer. */
  method MemZero(a: array<byte>)
    modifies a
    ensures a[..] == Zeros(a.Length)
  {
    for i := 0 to a.Length
      invariant forall k :: 0 <= k < i ==> a[k] == 0
    {
      a[i] := 0;
    }
  }

  /** Copies bytes into a buffer. */
  method CopyAt(dst: array<byte>, at: nat, b: bytes)
    requires at + |b| <= dst.Length
    modifies dst
    ensures dst[..] == old(dst[..at]) + b + old(dst[at + |b|..])
  {
    for i := 0 to |b|
      invariant forall k :: 0 <= k < at ==> dst[k] == old(dst[k])
      invariant forall k :: at <= k < at + i ==> dst[k] == b[k - at]
      invariant forall k :: at + i <= k < dst.Length ==> dst[k] == old(dst[k])
    {
      dst[at + i] := b[i];
    }
  }

  method CopyIn(dst: array<byte>, b: bytes)
    requires |b| <= dst.Length
    modifies dst
    ensures dst[..] == b + old(dst[|b|..])
  {
    CopyAt(dst, 0, b);
  }

  /** At most n bytes of a text, filled up with NULs. */
  method StrNCpy(dst: array<byte>, src: array<byte>, n: nat)
    requires n <= dst.Length && 0 in src[..] && dst != src
    modifies dst
    ensures var t := Text(src[..]);
            dst[..] == if |t| < n then t + Zeros(n - |t|) + old(dst[n..]) else t[..n] + old(dst[n..])
  {
    ghost var t := Text(src[..]);
    var i := 0;
    while i < n && src[i] != 0
      invariant i <= n && i <= |t|
      invariant forall k :: 0 <= k < i ==> dst[k] == t[k]
      invariant forall k :: i <= k < dst.Length ==> dst[k] == old(dst[k])
    {
      dst[i] := src[i];
      i := i + 1;
    }
    ghost var stop := i;
    while i < n
      invariant stop <= i <= n
      invariant forall k :: 0 <= k < stop ==> dst[k] == t[k]
      invariant forall k :: stop <= k < i ==> dst[k] == 0
      invariant forall k :: i <= k < dst.Length ==> dst[k] == old(dst[k])
    {
      dst[i] := 0;
      i := i + 1;
    }
  }
}
