/**
  Character and string helpers playing the role of Go's `strings` package
  on `seq<char>`. Lower-casing covers ASCII `A`-`Z` only.
 */
module Strings {

  predicate IsUpper(c: char) {
    'A' <= c <= 'Z'
  }

  predicate IsLowerLetter(c: char) {
    'a' <= c <= 'z'
  }

  predicate IsAsciiLetter(c: char) {
    IsUpper(c) || IsLowerLetter(c)
  }

  /** True when no character of `s` is an ASCII upper-case letter. */
  predicate NoUpper(s: string) {
    forall i :: 0 <= i < |s| ==> !IsUpper(s[i])
  }

  /** `strings.HasPrefix(s, p)` */
  predicate HasPrefix(s: string, p: string) {
    |p| <= |s| && s[..|p|] == p
  }

  /** `strings.HasSuffix(s, t)` */
  predicate HasSuffix(s: string, t: string) {
    |t| <= |s| && s[|s| - |t|..] == t
  }

  /** `sub` occurs in `s` starting at offset `i`. */
  predicate OccursAt(s: string, sub: string, i: int) {
    0 <= i && i + |sub| <= |s| && s[i..i + |sub|] == sub
  }

  /** `strings.Contains(s, sub)`: `sub` occurs at some offset of `s`. */
  predicate HasSubstring(s: string, sub: string) {
    exists i :: 0 <= i <= |s| && OccursAt(s, sub, i)
  }

  /** Lower-case one character (ASCII only). */
  function LowerChar(c: char): (d: char)
    ensures !IsUpper(d)
    ensures IsUpper(c) ==> IsLowerLetter(d) && d as int == c as int + 32
    ensures !IsUpper(c) ==> d == c
  {
    if IsUpper(c) then (c as int + 32) as char else c
  }

  /** `strings.ToLower` restricted to ASCII. */
  function Lower(s: string): (r: string)
    ensures |r| == |s|
    ensures forall i :: 0 <= i < |s| ==> r[i] == LowerChar(s[i])
    ensures NoUpper(r)
  {
    seq(|s|, i requires 0 <= i < |s| => LowerChar(s[i]))
  }

  /** `strings.Replace(s, [from], [to], -1)` for single characters. */
  function ReplaceChar(s: string, from: char, to: char): (r: string)
    ensures |r| == |s|
    ensures forall i :: 0 <= i < |s| ==> r[i] == (if s[i] == from then to else s[i])
    ensures from != to ==> from !in r
  {
    seq(|s|, i requires 0 <= i < |s| => if s[i] == from then to else s[i])
  }

  /** `strings.Replace(s, [c], "", -1)`: every occurrence of `c` deleted. */
  function RemoveChar(s: string, c: char): (r: string)
    ensures c !in r
    ensures forall d :: d in r ==> d in s
    ensures |r| <= |s|
    ensures forall d :: d != c ==> multiset(r)[d] == multiset(s)[d]
  {
    if |s| == 0 then []
    else
      assert s == [s[0]] + s[1..];
      if s[0] == c then RemoveChar(s[1..], c)
      else [s[0]] + RemoveChar(s[1..], c)
  }

  /** `strings.Split(s, [c])[0]`: the part of `s` before the first `c`, or all of `s`. */
  function BeforeFirst(s: string, c: char): (r: string)
    ensures HasPrefix(s, r)
    ensures c !in r
    ensures |r| == |s| || s[|r|] == c
  {
    if |s| == 0 then []
    else if s[0] == c then []
    else [s[0]] + BeforeFirst(s[1..], c)
  }

  /** The loop behind `strings.Contains`, checked against its definition. */
  method Contains(s: string, sub: string) returns (found: bool)
    ensures found <==> HasSubstring(s, sub)
  {
    var i := 0;
    while i + |sub| <= |s|
      invariant 0 <= i
      invariant forall j :: 0 <= j < i ==> !OccursAt(s, sub, j)
      decreases |s| - i
    {
      if s[i..i + |sub|] == sub {
        assert OccursAt(s, sub, i);
        return true;
      }
      i := i + 1;
    }
    assert forall j :: i <= j ==> !OccursAt(s, sub, j);
    return false;
  }

  /** `BeforeFirst` stops exactly at the first occurrence of its separator. */
  lemma BeforeFirstAt(s: string, c: char, i: int)
    requires 0 <= i <= |s| && c !in s[..i] && (i == |s| || s[i] == c)
    ensures BeforeFirst(s, c) == s[..i]
  {
  }

  /** Deleting a character distributes over concatenation, so the order of what is kept is kept. */
  lemma {:induction false} RemoveCharAppend(a: string, b: string, c: char)
    ensures RemoveChar(a + b, c) == RemoveChar(a, c) + RemoveChar(b, c)
  {
    if |a| == 0 {
      assert a + b == b;
    } else {
      assert (a + b)[1..] == a[1..] + b;
      RemoveCharAppend(a[1..], b, c);
    }
  }

  /** Deleting a character that does not occur changes nothing. */
  lemma {:induction false} RemoveCharAbsent(s: string, c: char)
    requires c !in s
    ensures RemoveChar(s, c) == s
  {
    if |s| > 0 {
      RemoveCharAbsent(s[1..], c);
    }
  }

  /** Lower-casing keeps every non-letter character where it was. */
  lemma LowerKeepsNonLetter(s: string, c: char)
    requires !IsAsciiLetter(c)
    ensures forall i :: 0 <= i < |s| ==> (Lower(s)[i] == c <==> s[i] == c)
    ensures c in Lower(s) <==> c in s
  {
    if c in s {
      var i :| 0 <= i < |s| && s[i] == c;
      assert Lower(s)[i] == c;
    }
  }
}
