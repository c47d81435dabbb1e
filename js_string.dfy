/**
 * The few string built-ins of ECMAScript that the table script relies on:
 * `String.prototype.trim`, `toLowerCase`, `includes` and `replace` with a
 * string pattern (which replaces the first occurrence only).
 */
module JsString {

  /** WhiteSpace and LineTerminator code points of ECMA-262, the set that
      `trim` strips and that `Number(string)` ignores around a literal. */
  predicate IsSpace(c: char) {
    || c == '\t' || c == '\n' || c == '\U{000B}' || c == '\U{000C}' || c == '\r'
    || c == ' ' || c == '\U{00A0}' || c == '\U{1680}'
    || ('\U{2000}' <= c <= '\U{200A}')
    || c == '\U{2028}' || c == '\U{2029}' || c == '\U{202F}' || c == '\U{205F}'
    || c == '\U{3000}' || c == '\U{FEFF}'
  }

  predicate NoSpace(s: string) {
    forall i :: 0 <= i < |s| ==> !IsSpace(s[i])
  }

  lemma NoSpaceAppend(a: string, b: string)
    requires NoSpace(a) && NoSpace(b)
    ensures NoSpace(a + b)
  {
    assert forall i :: |a| <= i < |a + b| ==> (a + b)[i] == b[i - |a|];
  }

  /** Drops leading white space: the result is the suffix of `s` that starts
      at its first non-space character. */
  function TrimStart(s: string): (r: string)
    ensures |r| <= |s| && r == s[|s| - |r|..]
    ensures forall k :: 0 <= k < |s| - |r| ==> IsSpace(s[k])
    ensures r == [] || !IsSpace(r[0])
  {
    if |s| > 0 && IsSpace(s[0]) then TrimStart(s[1..]) else s
  }

  /** Drops trailing white space: the result is the prefix of `s` that ends
      at its last non-space character. */
  function TrimEnd(s: string): (r: string)
    ensures |r| <= |s| && r == s[..|r|]
    ensures forall k :: |r| <= k < |s| ==> IsSpace(s[k])
    ensures r == [] || !IsSpace(r[|r| - 1])
  {
    if |s| > 0 && IsSpace(s[|s| - 1]) then TrimEnd(s[..|s| - 1]) else s
  }

  /** `s.trim()`: what it returns neither starts nor ends with white space. */
  function Trim(s: string): (r: string)
    ensures |r| <= |s|
    ensures r == [] || (!IsSpace(r[0]) && !IsSpace(r[|r| - 1]))
  {
    var t := TrimStart(s);
    var r := TrimEnd(t);
    assert r == [] || r[0] == t[0];
    r
  }

  /** Only white space lies outside `s[i..j]`. */
  predicate SpaceOutside(s: string, i: int, j: int) {
    && 0 <= i <= j <= |s|
    && (forall k :: 0 <= k < i ==> IsSpace(s[k]))
    && (forall k :: j <= k < |s| ==> IsSpace(s[k]))
  }

  /** What `trim` returns is a slice of its argument with only white space
      cut off on either side. */
  lemma TrimIsSlice(s: string)
    ensures exists i, j :: SpaceOutside(s, i, j) && Trim(s) == s[i..j]
  {
    var t := TrimStart(s);
    var r := TrimEnd(t);
    var i := |s| - |t|;
    var j := i + |r|;
    assert r == s[i..j];
    forall k | j <= k < |s|
      ensures IsSpace(s[k])
    {
      assert s[k] == t[k - i];
    }
    assert SpaceOutside(s, i, j);
  }

  /** A string with no white space at either end is left alone by `trim`;
      in particular trimming twice is trimming once. */
  lemma {:induction false} TrimOfTrimmed(s: string)
    requires s == [] || (!IsSpace(s[0]) && !IsSpace(s[|s| - 1]))
    ensures Trim(s) == s
  {
  }

  lemma TrimIdempotent(s: string)
    ensures Trim(Trim(s)) == Trim(s)
  {
    TrimOfTrimmed(Trim(s));
  }

  /** `toLowerCase`, on the ASCII letters. */
  function LowerChar(c: char): char {
    if 'A' <= c <= 'Z' then (c as int - 'A' as int + 'a' as int) as char else c
  }

  function ToLower(s: string): (r: string)
    ensures |r| == |s| && forall i :: 0 <= i < |s| ==> r[i] == LowerChar(s[i])
  {
    if s == [] then [] else [LowerChar(s[0])] + ToLower(s[1..])
  }

  /** Lower-casing twice is lower-casing once. */
  lemma LowerTwice(s: string)
    ensures ToLower(ToLower(s)) == ToLower(s)
  {
  }

  predicate OccursAt(s: string, q: string, i: int) {
    0 <= i <= |s| - |q| && s[i..i + |q|] == q
  }

  /** `s.includes(q)`: `q` occurs in `s` at some position. Only a text no
      longer than `s` can, and the empty text always does. */
  predicate Contains(s: string, q: string)
    ensures Contains(s, q) ==> |q| <= |s|
    ensures q == [] ==> Contains(s, q)
  {
    assert q == [] ==> OccursAt(s, q, 0);
    exists i | 0 <= i <= |s| - |q| :: OccursAt(s, q, i)
  }

  /** The first index of `c` in `s`, or `|s|` when there is none. */
  function IndexOf(s: string, c: char): (i: nat)
    ensures i <= |s|
    ensures forall k :: 0 <= k < i ==> s[k] != c
    ensures i < |s| ==> s[i] == c
  {
    if s == [] then 0 else if s[0] == c then 0 else 1 + IndexOf(s[1..], c)
  }

  /** `s.replace(c, "")` with a one-character string pattern: only the first
      occurrence is removed. */
  function RemoveFirst(s: string, c: char): (r: string)
    ensures c !in s ==> r == s
    ensures c in s ==> |r| == |s| - 1 && multiset(r) == multiset(s) - multiset{c}
    ensures c in s ==> exists i :: 0 <= i < |s| && s[i] == c && c !in s[..i] && r == s[..i] + s[i + 1..]
  {
    var i := IndexOf(s, c);
    if i < |s| then
      assert s == s[..i] + [c] + s[i + 1..];
      assert c !in s[..i];
      s[..i] + s[i + 1..]
    else s
  }

  /** A single trailing occurrence is the one that is removed. */
  lemma RemoveFirstOfSuffix(s: string, c: char)
    requires c !in s
    ensures RemoveFirst(s + [c], c) == s
  {
    var i := IndexOf(s + [c], c);
    assert (s + [c])[|s|] == c;
    assert (s + [c])[..i] == s;
  }

  /** When `c` occurs twice, the later occurrence survives the removal. */
  lemma RemoveFirstKeepsSecond(s: string, c: char, i: nat, j: nat)
    requires i < j < |s| && s[i] == c && s[j] == c
    ensures c in RemoveFirst(s, c)
  {
    var k := IndexOf(s, c);
    assert k <= i;
    var b := s[k + 1..];
    assert b[j - k - 1] == c;
    assert RemoveFirst(s, c) == s[..k] + b;
  }

  /** Trimming keeps every character that is not white space. */
  lemma TrimKeeps(s: string, c: char)
    requires c in s && !IsSpace(c)
    ensures c in Trim(s)
  {
    var t := TrimStart(s);
    var k :| 0 <= k < |s| && s[k] == c;
    assert t[k - (|s| - |t|)] == c;
    var r := TrimEnd(t);
    assert r[k - (|s| - |t|)] == c;
  }
}
