/** Byte strings and the two searches the protocols rely on: memchr for LF and memmem for CRLF. */
module Bytes {

  /** A C++ `char`; the program sees the first 256 values, the theorems hold for all of them. */
  type Byte = char
  type Text = seq<Byte>

  const CR: Byte := '\r'
  const LF: Byte := '\n'
  const CRLF: Text := [CR, LF]

  datatype Option<+T> = None | Some(value: T)

  function Find(s: Text, b: Byte): (r: Option<nat>)
    ensures r.None? <==> b !in s
    ensures r.Some? ==> r.value < |s| && s[r.value] == b && b !in s[..r.value]
  {
    if s == [] then None
    else if s[0] == b then Some(0)
    else match Find(s[1..], b)
      case None => None
      case Some(i) => assert s[..i + 1] == [s[0]] + s[1..][..i]; Some(i + 1)
  }

  predicate CrlfAt(s: Text, i: int) {
    0 <= i && i + 1 < |s| && s[i] == CR && s[i + 1] == LF
  }

  ghost predicate HasCrlf(s: Text) {
    exists i :: CrlfAt(s, i)
  }

  function FindCrlf(s: Text): (r: Option<nat>)
    ensures r.None? <==> !HasCrlf(s)
    ensures r.Some? ==> CrlfAt(s, r.value) && forall j | 0 <= j < r.value :: !CrlfAt(s, j)
  {
    if |s| < 2 then None
    else if CrlfAt(s, 0) then Some(0)
    else
      assert forall i | 0 < i :: CrlfAt(s, i) <==> CrlfAt(s[1..], i - 1);
      match FindCrlf(s[1..])
      case None => None
      case Some(i) => assert CrlfAt(s, i + 1); Some(i + 1)
  }

  /** `line` without one trailing CR (`rtrim_cc`, and what every line reader of the program does). */
  function StripCr(line: Text): Text {
    if line != [] && line[|line| - 1] == CR then line[..|line| - 1] else line
  }

  function Concat(chunks: seq<Text>): Text {
    if chunks == [] then [] else chunks[0] + Concat(chunks[1..])
  }

  lemma Assoc<T>(a: seq<T>, b: seq<T>, c: seq<T>)
    ensures (a + b) + c == a + (b + c)
  {
  }

  lemma Units<T>(a: seq<T>)
    ensures a + [] == a && [] + a == a
  {
  }

  lemma SplitAround<T>(s: seq<T>, i: nat)
    requires i < |s|
    ensures s[..i] + [s[i]] + s[i + 1..] == s
  {
  }

  lemma DropDrop<T>(s: seq<T>, i: nat, j: nat)
    requires i + j <= |s|
    ensures s[i..][j..] == s[i + j..]
  {
  }

  lemma CutConcat<T>(a: seq<T>, b: seq<T>, k: nat)
    requires k <= |a|
    ensures (a + b)[..k] == a[..k] && (a + b)[k..] == a[k..] + b
  {
  }

  lemma CutBehind<T>(a: seq<T>, b: seq<T>, k: nat)
    requires k <= |b|
    ensures (a + b)[..|a| + k] == a + b[..k] && (a + b)[|a| + k..] == b[k..]
  {
  }

  lemma CutTwice<T>(s: seq<T>, k: nat, n: nat)
    requires k <= n <= |s|
    ensures s[..n][..k] == s[..k] && s[..n][k..] == s[k..][..n - k]
  {
  }

  lemma TakeMore<T>(s: seq<T>, k: nat, n: nat)
    requires k + n <= |s|
    ensures s[..k] + s[k..][..n] == s[..k + n]
  {
  }

  lemma PrefixChain<T>(a: seq<T>, b: seq<T>, c: seq<T>)
    requires a <= b <= c
    ensures a <= c && c[|a|..] == b[|a|..] + c[|b|..]
  {
  }

  lemma ConcatAppend(xs: seq<Text>, ys: seq<Text>)
    ensures Concat(xs + ys) == Concat(xs) + Concat(ys)
  {
    if xs == [] {
      assert xs + ys == ys;
    } else {
      assert (xs + ys)[1..] == xs[1..] + ys;
      ConcatAppend(xs[1..], ys);
    }
  }

  lemma OneChunk(s: Text)
    ensures Concat([s]) == s
  {
    assert [s][1..] == [];
    Units(s);
  }

  /** The first occurrence is the only one with nothing before it. */
  lemma FindAt(s: Text, b: Byte, t: Text)
    requires b !in s
    ensures Find(s + [b] + t, b) == Some(|s|)
  {
    var u := s + [b] + t;
    assert u[|s|] == b;
    assert forall i | 0 <= i < |s| :: u[i] == s[i];
  }

  /** A line that holds no CRLF is found whole, even if it ends in CR. */
  lemma FindCrlfAt(line: Text, rest: Text)
    requires !HasCrlf(line)
    ensures FindCrlf(line + CRLF + rest) == Some(|line|)
  {
    var u := line + CRLF + rest;
    assert CrlfAt(u, |line|);
    forall j | 0 <= j < |line| ensures !CrlfAt(u, j) {
      assert CrlfAt(u, j) && j + 1 < |line| ==> CrlfAt(line, j);
    }
  }
}
