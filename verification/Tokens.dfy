/**
 `strtok` (libc/string.c:50-65) and what it computes: the nonempty pieces between delimiters.
 */
module Tokens {

  const NUL: char := '\0'

  // Length of the leading piece without the delimiter
  function PieceLen(s: string, d: char): (k: nat)
    ensures k <= |s| && d !in s[..k] && (k < |s| ==> s[k] == d)
  {
    if |s| == 0 || s[0] == d then 0
    else
      var k := PieceLen(s[1..], d) + 1;
      assert s[..k] == [s[0]] + s[1..][..k - 1];
      k
  }

  // The nonempty pieces between delimiters, in order
  function Split(s: string, d: char): (t: seq<string>)
    decreases |s|
  {
    if |s| == 0 then []
    else if s[0] == d then Split(s[1..], d)
    else [s[..PieceLen(s, d)]] + Split(s[PieceLen(s, d)..], d)
  }

  // Every piece after a delimiter, as in an absolute path
  function Rendered(names: seq<string>, d: char): string {
    if |names| == 0 then "" else [d] + names[0] + Rendered(names[1..], d)
  }

  predicate Piece(s: string, d: char) { |s| > 0 && d !in s }

  lemma PieceLenIs(s: string, d: char, k: nat)
    requires k <= |s| && d !in s[..k] && (k < |s| ==> s[k] == d)
    ensures PieceLen(s, d) == k
  {
    assert PieceLen(s, d) == k;
  }

  /** Splitting inverts rendering: pieces come back in order and whole. */
  lemma {:induction false} SplitRendered(names: seq<string>, d: char)
    requires forall i :: 0 <= i < |names| ==> Piece(names[i], d)
    ensures Split(Rendered(names, d), d) == names
  {
    if |names| > 0 {
      var s, x, rest := Rendered(names, d), names[0], Rendered(names[1..], d);
      assert s[1..] == x + rest;
      SplitRendered(names[1..], d);
      assert rest == "" || rest[0] == d;
      assert (x + rest)[..|x|] == x && (x + rest)[|x|..] == rest;
      PieceLenIs(x + rest, d, |x|);
    }
  }

  /** What splitting is: nothing for no text, a delimiter separates what stands before it from what
      stands behind, and a text without delimiters is its own piece. */
  lemma {:induction false} SplitAround(a: string, b: string, d: char)
    ensures Split("", d) == []
    ensures Split(a + [d] + b, d) == Split(a, d) + Split(b, d)
    decreases |a|
  {
    if |a| == 0 {
      assert (a + [d] + b)[1..] == b;
    } else if a[0] == d {
      assert (a + [d] + b)[1..] == a[1..] + [d] + b;
      SplitAround(a[1..], b, d);
    } else {
      FirstPiece(a, b, d);
      SplitAround(a[PieceLen(a, d)..], b, d);
    }
  }

  lemma FirstPiece(a: string, b: string, d: char)
    requires |a| > 0 && a[0] != d
    ensures var k := PieceLen(a, d);
      && k > 0 && Split(a, d) == [a[..k]] + Split(a[k..], d)
      && Split(a + [d] + b, d) == [a[..k]] + Split(a[k..] + [d] + b, d)
  {
    var k, s := PieceLen(a, d), a + [d] + b;
    assert s[..k] == a[..k] && s[k..] == a[k..] + [d] + b;
    PieceLenIs(s, d, k);
  }

  lemma SplitPiece(a: string, d: char)
    requires Piece(a, d)
    ensures Split(a, d) == [a]
  {
    PieceLenIs(a, d, |a|);
    assert a[..|a|] == a && a[|a|..] == "";
  }

  lemma SplitSkips(s: string, d: char)
    requires |s| > 0 && s[0] == d
    ensures Split(s, d) == Split(s[1..], d)
  {
  }

  lemma {:induction false} SplitPieces(s: string, d: char)
    ensures forall i :: 0 <= i < |Split(s, d)| ==> Piece(Split(s, d)[i], d)
    decreases |s|
  {
    if |s| > 0 {
      if s[0] == d {
        SplitPieces(s[1..], d);
      } else {
        SplitPieces(s[PieceLen(s, d)..], d);
      }
    }
  }

  // ----- The C function -----

  // The C string at position p of a buffer
  function CString(s: seq<char>): (r: string)
    ensures |r| <= |s| && r == s[..|r|] && NUL !in r
    ensures |r| < |s| ==> s[|r|] == NUL
  {
    if |s| == 0 || s[0] == NUL then [] else [s[0]] + CString(s[1..])
  }

  lemma CStringIs(s: seq<char>, n: nat)
    requires n <= |s| && NUL !in s[..n] && (n < |s| ==> s[n] == NUL)
    ensures CString(s) == s[..n]
  {
    if n < |CString(s)| {
      assert false;
    }
    assert |CString(s)| == n;
  }

  lemma CStringDrop(s: seq<char>, j: nat)
    requires j <= |CString(s)|
    ensures CString(s[j..]) == CString(s)[j..]
  {
    var n := |CString(s)|;
    assert s[j..][..n - j] == CString(s)[j..];
    assert forall c :: c in CString(s)[j..] ==> c in CString(s);
    CStringIs(s[j..], n - j);
  }

  // Split at the first delimiter after a token
  lemma SplitToken(s: string, d: char)
    requires |s| > 0 && s[0] != d
    ensures var k := PieceLen(s, d);
      k > 0 && Split(s, d) == [s[..k]] + (if k < |s| then Split(s[k + 1..], d) else [])
  {
    var k := PieceLen(s, d);
    if k < |s| {
      assert s[k..][1..] == s[k + 1..];
      SplitSkips(s[k..], d);
    }
  }

  // The static variable strtok_p and the buffer it points into; pos is -1 for NULL
  class Tokenizer {
    const buf: array<char>
    var pos: int

    ghost predicate Valid()
      reads this, buf
    {
      -1 <= pos < buf.Length && (pos >= 0 ==> |CString(buf[pos..])| < buf.Length - pos)
    }

    // The tokens that later calls will return
    ghost function Rest(d: char): seq<string>
      requires -1 <= pos < buf.Length
      reads this, buf
    {
      if pos < 0 then [] else Split(CString(buf[pos..]), d)
    }

    // strtok(s, d) on a fresh copy of s starts at its first character.
    constructor (s: string)
      requires NUL !in s
      ensures Valid() && fresh(buf) && forall d :: Rest(d) == Split(s, d)
    {
      buf := new char[|s| + 1](i => if 0 <= i < |s| then s[i] else NUL);
      pos := 0;
      new;
      assert buf[0..][..|s|] == s;
      CStringIs(buf[0..], |s|);
    }

    // One call: the next token, or NULL when there is none
    method Next(d: char) returns (ok: bool, tok: string)
      requires Valid() && d != NUL
      modifies this, buf
      ensures Valid()
      ensures old(Rest(d)) == if ok then [tok] + Rest(d) else []
      ensures !ok ==> tok == "" && Rest(d) == []
    {
      if pos < 0 { return false, ""; }
      SkipDelimiters(d);
      if buf[pos] == NUL {
        pos := -1;
        return false, "";
      }
      ok := true;
      tok := Cut(d);
    }

    // The string at r, character by character
    lemma Chars(r: nat, s: string)
      requires r < buf.Length && s == CString(buf[r..]) && |s| < buf.Length - r
      ensures forall j :: 0 <= j < |s| ==> buf[r + j] == s[j]
      ensures buf[r + |s|] == NUL
    {
      var t := buf[r..];
      forall j | 0 <= j < |s| ensures buf[r + j] == s[j] {
        assert t[j] == buf[r + j];
      }
      assert t[|s|] == buf[r + |s|];
    }

    method SkipDelimiters(d: char)
      requires Valid() && pos >= 0 && d != NUL
      modifies `pos
      ensures Valid() && pos >= 0 && Rest(d) == old(Rest(d))
      ensures buf[pos] != d
      ensures Rest(d) == [] <==> buf[pos] == NUL
    {
      ghost var rest := Rest(d);
      while buf[pos] != NUL && buf[pos] == d
        invariant 0 <= pos < buf.Length && |CString(buf[pos..])| < buf.Length - pos
        invariant Split(CString(buf[pos..]), d) == rest
        decreases buf.Length - pos
      {
        SkipOne(pos, d);
        pos := pos + 1;
      }
      AtEnd(pos, d);
    }

    // A delimiter in front of the string does not change its tokens.
    lemma SkipOne(p: nat, d: char)
      requires p < buf.Length && |CString(buf[p..])| < buf.Length - p && buf[p] == d != NUL
      ensures p + 1 < buf.Length && |CString(buf[p + 1..])| < buf.Length - (p + 1)
      ensures Split(CString(buf[p + 1..]), d) == Split(CString(buf[p..]), d)
    {
      var s := buf[p..];
      assert s[0] == buf[p] && s[1..] == buf[p + 1..];
      assert CString(s)[1..] == CString(s[1..]);
    }

    lemma AtEnd(p: nat, d: char)
      requires p < buf.Length && (buf[p] == NUL || buf[p] != d)
      ensures Split(CString(buf[p..]), d) == [] <==> buf[p] == NUL
    {
      var s := buf[p..];
      assert s[0] == buf[p];
    }

    // Past the characters of a token
    method SkipToken(d: char, ghost s: string)
      requires Valid() && pos >= 0 && d != NUL && s == CString(buf[pos..])
      modifies `pos
      ensures 0 <= pos < buf.Length && pos == old(pos) + PieceLen(s, d)
      ensures buf[old(pos)..pos] == s[..PieceLen(s, d)]
      ensures buf[pos] == NUL <==> PieceLen(s, d) == |s|
    {
      ghost var r, k := pos, PieceLen(s, d);
      Chars(r, s);
      assert buf[r + k] == NUL || buf[r + k] == d;
      while buf[pos] != NUL && buf[pos] != d
        invariant r <= pos <= r + k
        decreases buf.Length - pos
      {
        pos := pos + 1;
      }
      assert pos == r + k;
      assert buf[r..][..k] == buf[r..pos];
    }

    // From the first character of a token to the delimiter or the end
    method Cut(d: char) returns (tok: string)
      requires Valid() && pos >= 0 && buf[pos] != NUL && buf[pos] != d && d != NUL
      modifies this, buf
      ensures Valid()
      ensures [tok] + Rest(d) == old(Rest(d))
    {
      var r := pos;
      ghost var tail, s := buf[r..], CString(buf[r..]);
      ghost var k := PieceLen(s, d);
      Chars(r, s);
      SplitToken(s, d);
      SkipToken(d, s);
      tok := buf[r..pos];
      assert buf[pos..] == tail[k..];
      if k < |s| { TailAfter(tail, k + 1); }
      Advance();
    }

    // Past the delimiter, which becomes the token's terminator; NULL at the end of the string
    method Advance()
      requires 0 <= pos < buf.Length && (buf[pos] != NUL ==> pos + 1 < buf.Length)
      modifies this, buf
      ensures if old(buf[pos]) == NUL then pos == -1
              else pos == old(pos) + 1 && buf[pos..] == old(buf[pos..])[1..]
    {
      if buf[pos] != NUL {
        ghost var rest := buf[pos..][1..];
        buf[pos] := NUL;
        pos := pos + 1;
        assert buf[pos..] == rest;
      } else {
        pos := -1;
      }
    }
  }

  // The string behind position j of a terminated string
  lemma TailAfter(s: seq<char>, j: nat)
    requires j <= |CString(s)| < |s|
    ensures CString(s[j..]) == CString(s)[j..] && |CString(s[j..])| < |s| - j
  {
    CStringDrop(s, j);
  }
}
