/** The string searches of the line rewriting. */
module IrcText {
  import opened Wrappers

  predicate At(s: string, p: string, i: nat) {
    i <= |s| && p <= s[i..]
  }

  /** The first place where p occurs. */
  function Find(s: string, p: string): (r: Option<nat>)
    ensures r.Some? ==> At(s, p, r.value) && forall i: nat :: i < r.value ==> !At(s, p, i)
    ensures r.None? ==> forall i: nat :: !At(s, p, i)
  {
    if p <= s then
      assert At(s, p, 0);
      Some(0)
    else if s == [] then None
    else
      var r := Find(s[1..], p);
      assert forall i: nat :: i > 0 ==> (At(s, p, i) <==> At(s[1..], p, i - 1)) by { Shifted(s, p); }
      if r.Some? then Some(r.value + 1) else None
  }

  lemma Shifted(s: string, p: string)
    requires s != []
    ensures forall i: nat :: i > 0 ==> (At(s, p, i) <==> At(s[1..], p, i - 1))
  {
    forall i: nat | i > 0 ensures At(s, p, i) <==> At(s[1..], p, i - 1) {
      if i <= |s| {
        assert s[i..] == s[1..][i - 1..];
      }
    }
  }

  predicate Contains(s: string, p: string) {
    Find(s, p).Some?
  }

  lemma FindIs(s: string, p: string, i: nat)
    requires At(s, p, i) && forall j: nat :: j < i ==> !At(s, p, j)
    ensures Find(s, p) == Some(i)
  {
  }

  /** Character k of an occurrence. */
  lemma AtChar(s: string, p: string, i: nat, k: nat)
    requires At(s, p, i) && k < |p|
    ensures i + k < |s| && s[i + k] == p[k]
  {
    assert s[i..][k] == p[k];
  }

  /** White space as Unicode defines it. */
  predicate IsSpace(c: char) {
    '\t' <= c <= '\r' || c == ' ' || c == '\U{85}' || c == '\U{A0}' || c == '\U{1680}'
    || '\U{2000}' <= c <= '\U{200A}' || c == '\U{2028}' || c == '\U{2029}' || c == '\U{202F}'
    || c == '\U{205F}' || c == '\U{3000}'
  }

  predicate Word(s: string) {
    s != [] && forall i :: 0 <= i < |s| ==> !IsSpace(s[i])
  }

  function TrimStart(s: string): string {
    if s != [] && IsSpace(s[0]) then TrimStart(s[1..]) else s
  }

  function TrimEnd(s: string): string {
    if s != [] && IsSpace(s[|s| - 1]) then TrimEnd(s[..|s| - 1]) else s
  }

  function Trim(s: string): string {
    TrimEnd(TrimStart(s))
  }

  /** Without the line ends behind it. */
  function Chomp(s: string): (r: string)
    ensures r <= s
  {
    if s != [] && (s[|s| - 1] == '\r' || s[|s| - 1] == '\n') then Chomp(s[..|s| - 1]) else s
  }

  function WordLen(s: string): (n: nat)
    ensures n <= |s| && forall i :: 0 <= i < n ==> !IsSpace(s[i])
    ensures n < |s| ==> IsSpace(s[n])
  {
    if s == [] || IsSpace(s[0]) then 0 else 1 + WordLen(s[1..])
  }

  /** The words between white space. */
  function Tokens(s: string): seq<string>
    decreases |s|
  {
    if s == [] then []
    else if IsSpace(s[0]) then Tokens(s[1..])
    else [s[..WordLen(s)]] + Tokens(s[WordLen(s)..])
  }

  lemma {:induction false} WordLenIs(w: string, rest: string)
    requires forall i :: 0 <= i < |w| ==> !IsSpace(w[i])
    requires rest != [] && IsSpace(rest[0])
    ensures WordLen(w + rest) == |w|
  {
    hide IsSpace;
    if w == [] {
      assert w + rest == rest;
    } else {
      assert (w + rest)[1..] == w[1..] + rest;
      WordLenIs(w[1..], rest);
    }
  }

  /** A word and the space behind it make the first token. */
  lemma TokensWord(w: string, rest: string)
    requires Word(w) && rest != [] && IsSpace(rest[0])
    ensures Tokens(w + rest) == [w] + Tokens(rest[1..])
  {
    WordLenIs(w, rest);
    hide IsSpace;
    var s := w + rest;
    assert s[0] == w[0] && s[..|w|] == w && s[|w|..] == rest;
  }

  lemma {:induction false} TrimWord(before: string, w: string, after: string)
    requires Word(w)
    requires forall i :: 0 <= i < |before| ==> IsSpace(before[i])
    requires forall i :: 0 <= i < |after| ==> IsSpace(after[i])
    ensures Trim(before + w + after) == w
  {
    hide IsSpace;
    TrimStartWord(before, w + after);
    assert before + (w + after) == before + w + after;
    TrimEndWord(w, after);
  }

  lemma {:induction false} TrimStartWord(before: string, s: string)
    requires s != [] && !IsSpace(s[0]) && forall i :: 0 <= i < |before| ==> IsSpace(before[i])
    ensures TrimStart(before + s) == s
  {
    hide IsSpace;
    if before == [] {
      assert before + s == s;
    } else {
      assert (before + s)[1..] == before[1..] + s;
      TrimStartWord(before[1..], s);
    }
  }

  lemma {:induction false} TrimEndWord(s: string, after: string)
    requires s != [] && !IsSpace(s[|s| - 1]) && forall i :: 0 <= i < |after| ==> IsSpace(after[i])
    ensures TrimEnd(s + after) == s
  {
    hide IsSpace;
    if after == [] {
      assert s + after == s;
    } else {
      var n := |after| - 1;
      assert (s + after)[..|s| + n] == s + after[..n];
      TrimEndWord(s, after[..n]);
    }
  }

  /** Line ends are cut off the end only. */
  lemma {:induction false} ChompConcat(a: string, b: string)
    requires a != [] && a[|a| - 1] != '\r' && a[|a| - 1] != '\n'
    ensures Chomp(a + b) == a + Chomp(b)
  {
    if b == [] {
      assert a + b == a;
    } else if b[|b| - 1] == '\r' || b[|b| - 1] == '\n' {
      assert (a + b)[..|a + b| - 1] == a + b[..|b| - 1];
      ChompConcat(a, b[..|b| - 1]);
    }
  }
}
