/**
 * The ASCII behaviour of the Go string functions the services use:
 * strings.ToLower, strings.TrimSpace, strings.EqualFold, strings.Contains,
 * strings.HasPrefix, strings.Title and counting a separator for strings.Split.
 * Characters outside ASCII are left as they are.
 */
module Ascii {

  predicate IsUpper(c: char) { 'A' <= c <= 'Z' }

  predicate IsLower(c: char) { 'a' <= c <= 'z' }

  predicate IsLetter(c: char) { IsUpper(c) || IsLower(c) }

  predicate IsDigit(c: char) { '0' <= c <= '9' }

  /** unicode.IsSpace restricted to ASCII: tab, newline, vertical tab, form feed, carriage return, space. */
  predicate IsSpace(c: char) {
    c == ' ' || c == '\t' || c == '\n' || c == '\U{B}' || c == '\U{C}' || c == '\r'
  }

  function LowerChar(c: char): (r: char)
    ensures !IsUpper(r)
    ensures IsUpper(c) || r == c
  {
    if IsUpper(c) then (c as int + 32) as char else c
  }

  function UpperChar(c: char): (r: char)
    ensures !IsLower(r)
    ensures IsLower(c) || r == c
  {
    if IsLower(c) then (c as int - 32) as char else c
  }

  /** strings.ToLower */
  function ToLower(s: string): (r: string)
    ensures |r| == |s|
    ensures forall i :: 0 <= i < |s| ==> r[i] == LowerChar(s[i])
  {
    if s == [] then [] else [LowerChar(s[0])] + ToLower(s[1..])
  }

  lemma ToLowerIdempotent(s: string)
    ensures ToLower(ToLower(s)) == ToLower(s)
  {
  }

  /** Text without upper-case letters is its own lower-case form. */
  /** No capital letter anywhere in s. */
  predicate NoUpper(s: string) {
    forall i :: 0 <= i < |s| ==> !IsUpper(s[i])
  }

  /** A text that lower-casing leaves alone has no capital letters. */
  lemma LoweredNoUpper(s: string)
    requires ToLower(s) == s
    ensures NoUpper(s)
  {
    forall i | 0 <= i < |s|
      ensures !IsUpper(s[i])
    {
      assert ToLower(s)[i] == LowerChar(s[i]);
    }
  }

  lemma ToLowerAppend(a: string, b: string)
    ensures ToLower(a + b) == ToLower(a) + ToLower(b)
  {
    assert ToLower(a + b) == ToLower(a) + ToLower(b);
  }

  /** strings.EqualFold on ASCII text: the same length and the same letters up to case, pair by pair. */
  predicate EqualFold(a: string, b: string) {
    if a == [] then b == []
    else b != [] && LowerChar(a[0]) == LowerChar(b[0]) && EqualFold(a[1..], b[1..])
  }

  /** Equal up to case means equal once both are lower-cased. */
  lemma {:induction false} EqualFoldLower(a: string, b: string)
    ensures EqualFold(a, b) <==> ToLower(a) == ToLower(b)
  {
    if a != [] && b != [] {
      EqualFoldLower(a[1..], b[1..]);
      assert ToLower(a) == [LowerChar(a[0])] + ToLower(a[1..]);
      assert ToLower(b) == [LowerChar(b[0])] + ToLower(b[1..]);
      if ToLower(a) == ToLower(b) {
        assert ToLower(a)[1..] == ToLower(a[1..]);
        assert ToLower(b)[1..] == ToLower(b[1..]);
      }
    }
  }

  /** Every text is equal to itself up to case. */
  lemma {:induction false} EqualFoldReflexive(a: string)
    ensures EqualFold(a, a)
  {
    if a != [] {
      EqualFoldReflexive(a[1..]);
    }
  }

  /** On texts with no capital letters, equality up to case is plain equality. */
  lemma {:induction false} EqualFoldNoUpper(a: string, b: string)
    requires NoUpper(a) && NoUpper(b)
    ensures EqualFold(a, b) <==> a == b
  {
    if a != [] && b != [] {
      EqualFoldNoUpper(a[1..], b[1..]);
      assert a == [a[0]] + a[1..];
      assert b == [b[0]] + b[1..];
    } else if a == b {
      assert EqualFold(a, b);
    }
  }

  function TrimLeft(s: string): (r: string)
    ensures |r| <= |s| && r == s[|s| - |r|..]
    ensures r == [] || !IsSpace(r[0])
    ensures forall i :: 0 <= i < |s| - |r| ==> IsSpace(s[i])
  {
    if s != [] && IsSpace(s[0]) then TrimLeft(s[1..]) else s
  }

  function TrimRight(s: string): (r: string)
    ensures |r| <= |s| && r == s[..|r|]
    ensures r == [] || !IsSpace(r[|r| - 1])
    ensures forall i :: |r| <= i < |s| ==> IsSpace(s[i])
  {
    if s != [] && IsSpace(s[|s| - 1]) then TrimRight(s[..|s| - 1]) else s
  }

  /** strings.TrimSpace: the longest infix of s with no surrounding white space */
  function TrimSpace(s: string): (r: string)
    ensures |r| <= |s|
    ensures r == [] || (!IsSpace(r[0]) && !IsSpace(r[|r| - 1]))
  {
    TrimRight(TrimLeft(s))
  }

  lemma TrimSpaceOfTrimmed(s: string)
    requires s == [] || (!IsSpace(s[0]) && !IsSpace(s[|s| - 1]))
    ensures TrimSpace(s) == s
  {
  }

  predicate AllSpace(s: string) {
    forall i :: 0 <= i < |s| ==> IsSpace(s[i])
  }

  /** A concatenation is all white space exactly when each of its parts is. */
  lemma AllSpaceAppend(a: string, b: string)
    ensures AllSpace(a + b) <==> AllSpace(a) && AllSpace(b)
  {
    if AllSpace(a + b) {
      forall i | 0 <= i < |a| ensures IsSpace(a[i]) {
        assert a[i] == (a + b)[i];
      }
      forall i | 0 <= i < |b| ensures IsSpace(b[i]) {
        assert b[i] == (a + b)[|a| + i];
      }
    }
  }

  /** TrimSpace leaves nothing exactly when the string is all white space. */
  lemma {:induction false} TrimSpaceEmpty(s: string)
    ensures TrimSpace(s) == [] <==> AllSpace(s)
  {
    var l := TrimLeft(s);
    assert TrimSpace(s) == TrimRight(l);
  }

  /** Lower-casing never creates nor removes white space, so it commutes with TrimSpace. */
  lemma LowerSpace(c: char)
    ensures IsSpace(LowerChar(c)) == IsSpace(c)
  {
  }

  /** s contains sub starting at position i */
  predicate MatchAt<T(==)>(s: seq<T>, sub: seq<T>, i: int) {
    0 <= i && i + |sub| <= |s| && s[i..i + |sub|] == sub
  }

  /** strings.Contains / bytes.Contains */
  predicate Contains<T(==)>(s: seq<T>, sub: seq<T>) {
    exists i :: 0 <= i <= |s| - |sub| && MatchAt(s, sub, i)
  }

  /** strings.HasPrefix */
  predicate HasPrefix<T(==)>(s: seq<T>, prefix: seq<T>) {
    |prefix| <= |s| && s[..|prefix|] == prefix
  }

  /** How many times c occurs in s; strings.Split(s, c) has Count(s, c) + 1 parts. */
  function Count(s: string, c: char): (n: nat)
    ensures n <= |s|
    ensures n == 0 <==> c !in s
  {
    if s == [] then 0 else (if s[0] == c then 1 else 0) + Count(s[1..], c)
  }

  /** Position of the first c in s, or |s| when there is none. */
  function IndexOf(s: string, c: char): (k: nat)
    ensures k <= |s|
    ensures c !in s[..k]
    ensures k < |s| ==> s[k] == c
    ensures k == |s| <==> c !in s
  {
    if s == [] then 0 else if s[0] == c then 0 else 1 + IndexOf(s[1..], c)
  }

  lemma {:induction false} CountSplit(s: string, c: char, k: nat)
    requires k <= |s|
    ensures Count(s, c) == Count(s[..k], c) + Count(s[k..], c)
  {
    if k > 0 {
      CountSplit(s[1..], c, k - 1);
      SliceOfTail(s, k);
    }
  }

  lemma SliceOfTail<T>(s: seq<T>, k: nat)
    requires 0 < k <= |s|
    ensures s[1..][..k - 1] == s[1..k] && s[1..][k - 1..] == s[k..] && s[..k][1..] == s[1..k]
  {
  }

  /** The first c is at k when s[k] is c and none precedes it. */
  lemma IndexOfIs(s: string, c: char, k: nat)
    requires k < |s| && s[k] == c && c !in s[..k]
    ensures IndexOf(s, c) == k
  {
  }

  /** The occurrences from an occurrence on are that one and those after it. */
  lemma CountAt(s: string, c: char, k: nat)
    requires k < |s| && s[k] == c
    ensures Count(s[k..], c) == 1 + Count(s[k + 1..], c)
  {
    assert s[k..][1..] == s[k + 1..];
  }

  /** When c occurs once, the text is what precedes it, c, and a rest without c. */
  lemma OnlyOccurrence(s: string, c: char, k: nat)
    requires k == IndexOf(s, c) && Count(s, c) == 1
    ensures k < |s| && s == s[..k] + [c] + s[k + 1..] && c !in s[k + 1..]
  {
    CountSplit(s, c, k);
    CountAt(s, c, k);
    assert s == s[..k] + s[k..];
    assert s[k..] == [s[k]] + s[k + 1..];
  }

  /** strings.Split(s, sep) for a one-character separator: the pieces between separators, at least one. */
  function Split(s: string, c: char): (parts: seq<string>)
    ensures |parts| >= 1
    decreases |s|
  {
    var i := IndexOf(s, c);
    if i == |s| then [s] else [s[..i]] + Split(s[i + 1..], c)
  }

  /** strings.Join(parts, sep) */
  function Join(parts: seq<string>, sep: string): string {
    if parts == [] then ""
    else if |parts| == 1 then parts[0]
    else parts[0] + sep + Join(parts[1..], sep)
  }

  /** Split loses nothing: the pieces joined with the separator give back the text. */
  lemma {:induction false} SplitJoin(s: string, c: char)
    ensures Join(Split(s, c), [c]) == s
    decreases |s|
  {
    var i := IndexOf(s, c);
    if i < |s| {
      var rest := Split(s[i + 1..], c);
      SplitJoin(s[i + 1..], c);
      JoinCons(s[..i], rest, [c]);
      Around(s, i);
    }
  }

  /** A sequence is what precedes position i, the element there, and what follows. */
  lemma Around<T>(s: seq<T>, i: nat)
    requires i < |s|
    ensures s == s[..i] + [s[i]] + s[i + 1..]
  {
  }

  lemma JoinCons(first: string, rest: seq<string>, sep: string)
    requires |rest| >= 1
    ensures Join([first] + rest, sep) == first + sep + Join(rest, sep)
  {
    assert ([first] + rest)[1..] == rest;
  }

  /** No piece holds the separator, and there is one piece more than separators. */
  lemma {:induction false} SplitPieces(s: string, c: char)
    ensures forall k :: 0 <= k < |Split(s, c)| ==> c !in Split(s, c)[k]
    ensures |Split(s, c)| == Count(s, c) + 1
    decreases |s|
  {
    var i := IndexOf(s, c);
    if i < |s| {
      CountSplit(s, c, i);
      assert s[i..][1..] == s[i + 1..];
      SplitPieces(s[i + 1..], c);
    }
  }

  /**
   * strings.Title with ASCII rules: a letter is upper-cased when the character before it
   * is a separator (anything but a letter, a digit or '_') or when it starts the text.
   */
  predicate IsSeparator(c: char) {
    !(IsLetter(c) || IsDigit(c) || c == '_')
  }

  function TitleFrom(prev: char, s: string): (r: string)
    decreases |s|
    ensures |r| == |s|
    ensures forall i :: 0 <= i < |s| ==> r[i] == s[i] || r[i] == UpperChar(s[i])
    ensures forall i :: 0 <= i < |s| ==> r[i] == (if IsSeparator(if i == 0 then prev else s[i - 1]) then UpperChar(s[i]) else s[i])
  {
    if s == [] then [] else [if IsSeparator(prev) then UpperChar(s[0]) else s[0]] + TitleFrom(s[0], s[1..])
  }

  function Title(s: string): (r: string)
    ensures |r| == |s|
  {
    TitleFrom(' ', s)
  }

  /** Title only changes case: lower-casing its result gives back the lower-cased input. */
  lemma TitleOnlyChangesCase(s: string)
    ensures ToLower(Title(s)) == ToLower(s)
  {
    var t := TitleFrom(' ', s);
    assert Title(s) == t;
    forall i | 0 <= i < |s|
      ensures ToLower(t)[i] == ToLower(s)[i]
    {
      assert t[i] == s[i] || t[i] == UpperChar(s[i]);
      assert LowerChar(UpperChar(s[i])) == LowerChar(s[i]);
    }
  }
}
