/**
 The string operations of the Go standard library that the gateway uses, with the laws that
 say what they mean. Strings are byte strings, one character per byte.
 */
module Strings {

  /** Splits at every `sep`; always at least one part. */
  function Split(s: string, sep: char): (parts: seq<string>)
    ensures |parts| >= 1
  {
    if s == "" then [""]
    else
      var rest := Split(s[1..], sep);
      if s[0] == sep then [""] + rest else [[s[0]] + rest[0]] + rest[1..]
  }

  function Join(parts: seq<string>, sep: char): (s: string)
    requires |parts| >= 1
  {
    if |parts| == 1 then parts[0] else parts[0] + [sep] + Join(parts[1..], sep)
  }

  ghost predicate NoneContains(parts: seq<string>, sep: char)
  {
    forall i :: 0 <= i < |parts| ==> sep !in parts[i]
  }

  /** Splitting loses nothing and no part contains the separator. */
  lemma {:induction false} JoinSplit(s: string, sep: char)
    ensures Join(Split(s, sep), sep) == s
    ensures NoneContains(Split(s, sep), sep)
  {
    if s != "" {
      JoinSplit(s[1..], sep);
      var rest := Split(s[1..], sep);
      if s[0] == sep {
        assert ([""] + rest)[1..] == rest;
      } else {
        var parts := [[s[0]] + rest[0]] + rest[1..];
        assert parts[1..] == rest[1..];
      }
      assert s == [s[0]] + s[1..];
    }
  }

  /** A separator-free head followed by a separator is the first part. */
  lemma {:induction false} SplitAt(head: string, tail: string, sep: char)
    requires sep !in head
    ensures Split(head + [sep] + tail, sep) == [head] + Split(tail, sep)
  {
    var s := head + [sep] + tail;
    if head == "" {
      assert s[1..] == tail;
    } else {
      SplitAt(head[1..], tail, sep);
      assert s[1..] == head[1..] + [sep] + tail;
      assert [head[0]] + head[1..] == head;
    }
  }

  lemma {:induction false} SplitClean(s: string, sep: char)
    requires sep !in s
    ensures Split(s, sep) == [s]
  {
    if s != "" {
      SplitClean(s[1..], sep);
      assert [s[0]] + s[1..] == s;
    }
  }

  /** Splitting is the only way to write a string as separator-free parts: the inverse of Join. */
  lemma {:induction false} SplitJoin(parts: seq<string>, sep: char)
    requires |parts| >= 1 && NoneContains(parts, sep)
    ensures Split(Join(parts, sep), sep) == parts
  {
    if |parts| == 1 {
      SplitClean(parts[0], sep);
    } else {
      SplitJoin(parts[1..], sep);
      SplitAt(parts[0], Join(parts[1..], sep), sep);
      assert [parts[0]] + parts[1..] == parts;
    }
  }

  function TrimLeft(s: string, c: char): (r: string)
    ensures |r| <= |s| && (r == "" || r[0] != c)
  {
    if s != "" && s[0] == c then TrimLeft(s[1..], c) else s
  }

  function TrimRight(s: string, c: char): (r: string)
    ensures |r| <= |s| && (r == "" || r[|r|-1] != c)
  {
    if s != "" && s[|s|-1] == c then TrimRight(s[..|s|-1], c) else s
  }

  /** Removes every leading and trailing `c`. */
  function Trim(s: string, c: char): (r: string)
  {
    TrimRight(TrimLeft(s, c), c)
  }

  ghost predicate AllAre(s: string, c: char)
  {
    forall i :: 0 <= i < |s| ==> s[i] == c
  }

  lemma {:induction false} TrimLeftDrops(s: string, c: char)
    ensures AllAre(s[..|s|-|TrimLeft(s, c)|], c) && s[|s|-|TrimLeft(s, c)|..] == TrimLeft(s, c)
  {
    if s != "" && s[0] == c {
      TrimLeftDrops(s[1..], c);
      var n := |s| - |TrimLeft(s, c)|;
      assert s[..n] == [s[0]] + s[1..][..n-1] && s[n..] == s[1..][n-1..];
    }
  }

  lemma {:induction false} TrimRightDrops(s: string, c: char)
    ensures AllAre(s[|TrimRight(s, c)|..], c) && s[..|TrimRight(s, c)|] == TrimRight(s, c)
  {
    if s != "" && s[|s|-1] == c {
      TrimRightDrops(s[..|s|-1], c);
      var n := |TrimRight(s, c)|;
      assert s[n..] == s[..|s|-1][n..] + [c] && s[..n] == s[..|s|-1][..n];
    }
  }

  /** Trimming takes off characters `c` at both ends and nothing else, and leaves none there. */
  lemma {:induction false} TrimExactly(s: string, c: char)
    ensures exists left, right :: AllAre(left, c) && AllAre(right, c) && s == left + Trim(s, c) + right
    ensures Trim(s, c) == "" || (Trim(s, c)[0] != c && Trim(s, c)[|Trim(s, c)|-1] != c)
  {
    hide TrimLeft, TrimRight, AllAre;
    var t := TrimLeft(s, c);
    var r := Trim(s, c);
    TrimLeftDrops(s, c);
    TrimRightDrops(t, c);
    var left, right := s[..|s|-|t|], t[|r|..];
    assert s == left + t && t == r + right;
    assert s == left + r + right;
  }

  lemma {:induction false} TrimLeftMore(left: string, s: string, c: char)
    requires AllAre(left, c)
    ensures TrimLeft(left + s, c) == TrimLeft(s, c)
  {
    if left == "" {
      assert left + s == s;
    } else {
      TrimLeftMore(left[1..], s, c);
      assert (left + s)[0] == c && (left + s)[1..] == left[1..] + s;
    }
  }

  lemma {:induction false} TrimRightMore(s: string, right: string, c: char)
    requires AllAre(right, c)
    ensures TrimRight(s + right, c) == TrimRight(s, c)
  {
    if right == "" {
      assert s + right == s;
    } else {
      var n := |right| - 1;
      TrimRightMore(s, right[..n], c);
      assert (s + right)[|s| + n] == c && (s + right)[..|s| + n] == s + right[..n];
    }
  }

  lemma {:induction false} TrimLeftBefore(s: string, right: string, c: char)
    requires AllAre(right, c)
    ensures TrimLeft(s + right, c) == if TrimLeft(s, c) == "" then "" else TrimLeft(s, c) + right
  {
    if s == "" {
      assert s + right == right;
      TrimLeftMore(right, "", c);
      assert right + "" == right;
    } else if s[0] == c {
      TrimLeftBefore(s[1..], right, c);
      assert (s + right)[1..] == s[1..] + right;
    }
  }

  /** More of the same character at the ends changes nothing. */
  lemma {:induction false} TrimMore(left: string, s: string, right: string, c: char)
    requires AllAre(left, c) && AllAre(right, c)
    ensures Trim(left + s + right, c) == Trim(s, c)
  {
    hide TrimLeft, TrimRight;
    assert left + s + right == left + (s + right);
    TrimLeftMore(left, s + right, c);
    TrimLeftBefore(s, right, c);
    TrimRightMore(TrimLeft(s, c), right, c);
    if TrimLeft(s, c) == "" {
      TrimRightMore("", "", c);
    }
  }

  predicate HasPrefix(s: string, prefix: string)
  {
    |prefix| <= |s| && s[..|prefix|] == prefix
  }

  /** Removes the prefix if it is there. */
  function TrimPrefix(s: string, prefix: string): (r: string)
    ensures HasPrefix(s, prefix) ==> s == prefix + r
    ensures !HasPrefix(s, prefix) ==> r == s
  {
    if HasPrefix(s, prefix) then s[|prefix|..] else s
  }

  predicate Contains(s: string, sub: string)
  {
    exists i :: 0 <= i <= |s| - |sub| && s[i..][..|sub|] == sub
  }

  /** Containing means being cut around. */
  lemma {:induction false} ContainsExactly(s: string, sub: string)
    ensures Contains(s, sub) <==> exists before, after :: s == before + sub + after
  {
    if Contains(s, sub) {
      var i :| 0 <= i <= |s| - |sub| && s[i..][..|sub|] == sub;
      assert s == s[..i] + sub + s[i+|sub|..];
    }
    forall before, after | s == before + sub + after ensures Contains(s, sub) {
      assert s[|before|..][..|sub|] == sub;
    }
  }

  /** The position of the first `c`, or the length if there is none. */
  function IndexOf(s: string, c: char): (i: nat)
    ensures i <= |s|
    ensures c !in s[..i]
    ensures i < |s| ==> s[i] == c
    ensures i == |s| <==> c !in s
  {
    if s == "" then 0
    else if s[0] == c then 0
    else
      var i := 1 + IndexOf(s[1..], c);
      assert s[..i] == [s[0]] + s[1..][..i-1];
      i
  }
}
