/**
 * String helpers shared by the handler and the client: ASCII lower-casing,
 * character replacement, joining, splitting and counting.
 */
module Text {

  /** ASCII lower-casing of one character; every other character is kept. */
  function LowerChar(c: char): char {
    if 'A' <= c <= 'Z' then (c as int - 'A' as int + 'a' as int) as char else c
  }

  predicate IsLowerCase(s: string) {
    forall i :: 0 <= i < |s| ==> !('A' <= s[i] <= 'Z')
  }

  /** `str.lower()` / `String.prototype.toLowerCase()` restricted to ASCII letters. */
  function ToLower(s: string): (r: string)
    ensures |r| == |s|
    ensures forall i :: 0 <= i < |s| ==> r[i] == LowerChar(s[i])
  {
    if s == [] then [] else [LowerChar(s[0])] + ToLower(s[1..])
  }

  lemma ToLowerIsLowerCase(s: string)
    ensures IsLowerCase(ToLower(s))
    ensures ToLower(ToLower(s)) == ToLower(s)
  {
  }

  /** Lower-casing leaves a string that has no upper-case letter unchanged. */
  lemma ToLowerOfLowerCase(s: string)
    requires IsLowerCase(s)
    ensures ToLower(s) == s
  {
  }

  /** Every occurrence of `from` replaced by `to` (`s.replace(/from/g, to)`). */
  function Replace(s: string, from: char, to: char): (r: string)
    ensures |r| == |s|
    ensures forall i :: 0 <= i < |s| ==> r[i] == if s[i] == from then to else s[i]
  {
    if s == [] then [] else [if s[0] == from then to else s[0]] + Replace(s[1..], from, to)
  }

  /** After replacing `from` by a different character, `from` no longer occurs. */
  lemma ReplaceRemoves(s: string, from: char, to: char)
    requires from != to
    ensures from !in Replace(s, from, to)
  {
  }

  /** `parts.join(sep)`: the parts with `sep` between consecutive ones. */
  function Join(parts: seq<string>, sep: string): string {
    if parts == [] then ""
    else if |parts| == 1 then parts[0]
    else parts[0] + sep + Join(parts[1..], sep)
  }

  /** Every part followed by the terminator `t`, including the last one. */
  function Terminated(parts: seq<string>, t: char): string {
    if parts == [] then "" else parts[0] + [t] + Terminated(parts[1..], t)
  }

  /** Appending one more part appends it and its terminator at the end. */
  lemma {:induction false} TerminatedSnoc(parts: seq<string>, x: string, t: char)
    ensures Terminated(parts + [x], t) == Terminated(parts, t) + x + [t]
  {
    if parts == [] {
      assert parts + [x] == [x];
    } else {
      assert (parts + [x])[1..] == parts[1..] + [x];
      TerminatedSnoc(parts[1..], x, t);
    }
  }

  /** Number of occurrences of `c` in `s`. */
  function Count(s: string, c: char): nat {
    if s == [] then 0 else (if s[0] == c then 1 else 0) + Count(s[1..], c)
  }

  lemma {:induction false} CountAppend(a: string, b: string, c: char)
    ensures Count(a + b, c) == Count(a, c) + Count(b, c)
  {
    if a == [] {
      assert a + b == b;
    } else {
      assert (a + b)[1..] == a[1..] + b;
      CountAppend(a[1..], b, c);
    }
  }

  lemma {:induction false} CountAbsent(s: string, c: char)
    requires c !in s
    ensures Count(s, c) == 0
  {
    if s != [] {
      assert c !in s[1..];
      CountAbsent(s[1..], c);
    }
  }

  /** Each part terminated by `t`, none containing `t`: exactly one `t` per part. */
  lemma {:induction false} CountTerminated(parts: seq<string>, t: char)
    requires forall i :: 0 <= i < |parts| ==> t !in parts[i]
    ensures Count(Terminated(parts, t), t) == |parts|
  {
    if parts != [] {
      CountTerminated(parts[1..], t);
      CountAbsent(parts[0], t);
      CountAppend(parts[0], [t], t);
      CountAppend(parts[0] + [t], Terminated(parts[1..], t), t);
    }
  }

  /** Occurrences of `c` in all the parts together. */
  function CountAll(parts: seq<string>, c: char): nat {
    if parts == [] then 0 else Count(parts[0], c) + CountAll(parts[1..], c)
  }

  /** A character occurs in a terminated list as often as in its parts, plus once per part if it is the terminator. */
  lemma {:induction false} CountTerminatedAll(parts: seq<string>, t: char, c: char)
    ensures Count(Terminated(parts, t), c) == CountAll(parts, c) + (if c == t then |parts| else 0)
  {
    if parts != [] {
      CountTerminatedAll(parts[1..], t, c);
      CountAppend(parts[0], [t], c);
      CountAppend(parts[0] + [t], Terminated(parts[1..], t), c);
      assert Count([t], c) == (if t == c then 1 else 0) + Count([t][1..], c);
    }
  }

  lemma {:induction false} CountPresent(s: string, c: char)
    requires c in s
    ensures Count(s, c) >= 1
  {
    if s[0] != c {
      assert c in s[1..];
      CountPresent(s[1..], c);
    }
  }

  lemma {:induction false} CountAllPart(parts: seq<string>, k: nat, c: char)
    requires k < |parts|
    ensures CountAll(parts, c) >= Count(parts[k], c)
  {
    if k > 0 {
      assert parts[1..][k - 1] == parts[k];
      CountAllPart(parts[1..], k - 1, c);
    }
  }

  /**
   * The pieces of `s` between occurrences of `c` (what `s.split(c)` returns):
   * one more piece than there are separators, the last one possibly empty.
   */
  function Split(s: string, c: char): (r: seq<string>)
    ensures |r| >= 1
  {
    if s == [] then [""]
    else
      var rest := Split(s[1..], c);
      if s[0] == c then [""] + rest else [[s[0]] + rest[0]] + rest[1..]
  }

  lemma {:induction false} SplitAfterPiece(x: string, rest: string, c: char)
    requires c !in x
    ensures Split(x + [c] + rest, c) == [x] + Split(rest, c)
  {
    if x == [] {
      assert x + [c] + rest == [c] + rest;
      assert ([c] + rest)[1..] == rest;
    } else {
      assert (x + [c] + rest)[1..] == x[1..] + [c] + rest;
      SplitAfterPiece(x[1..], rest, c);
      assert [x[0]] + x[1..] == x;
    }
  }

  /** Splitting a terminated list on its terminator gives back the parts, then an empty piece. */
  lemma {:induction false} SplitTerminated(parts: seq<string>, t: char)
    requires forall i :: 0 <= i < |parts| ==> t !in parts[i]
    ensures Split(Terminated(parts, t), t) == parts + [""]
  {
    if parts != [] {
      SplitTerminated(parts[1..], t);
      SplitAfterPiece(parts[0], Terminated(parts[1..], t), t);
      assert [parts[0]] + (parts[1..] + [""]) == parts + [""];
    }
  }

  /** A character that is neither the terminator nor in any part does not occur. */
  lemma {:induction false} TerminatedAvoids(parts: seq<string>, t: char, c: char)
    requires c != t
    requires forall i :: 0 <= i < |parts| ==> c !in parts[i]
    ensures c !in Terminated(parts, t)
  {
    if parts != [] {
      TerminatedAvoids(parts[1..], t, c);
    }
  }
}
