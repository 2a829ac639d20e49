/** The parts of java.lang.String and of Java's exceptions that the edit-spec
    parsers rely on. Java strings are sequences of chars; an index of -1 means
    "not found", exactly as String.indexOf and String.lastIndexOf report it. */
module JavaLang {

  /** The exceptions a malformed edit or namespace spec raises. */
  datatype Exception =
    | IllegalArgument(message: string)
    | StringIndexOutOfBounds(begin: int, end: int, length: int)

  /** String.indexOf(c, from): the least index at or after `from` (a negative
      `from` counts as 0) holding `c`, or -1 when there is none. */
  function IndexOfFrom(s: string, c: char, from: int): (r: int)
    ensures r == -1 || (0 <= r < |s| && from <= r && s[r] == c)
    ensures forall k :: 0 <= k < |s| && from <= k && (r == -1 || k < r) ==> s[k] != c
    decreases |s| - from
  {
    if from < 0 then IndexOfFrom(s, c, 0)
    else if from >= |s| then -1
    else if s[from] == c then from
    else IndexOfFrom(s, c, from + 1)
  }

  /** String.indexOf(c): the first occurrence of `c`, or -1. */
  function IndexOf(s: string, c: char): (r: int)
    ensures r == -1 <==> c !in s
    ensures r != -1 ==> 0 <= r < |s| && s[r] == c && c !in s[..r]
  {
    IndexOfFrom(s, c, 0)
  }

  /** String.lastIndexOf(c): the last occurrence of `c`, or -1. */
  function LastIndexOf(s: string, c: char): (r: int)
    ensures r == -1 <==> c !in s
    ensures r != -1 ==> 0 <= r < |s| && s[r] == c && c !in s[r + 1..]
  {
    if |s| == 0 then -1
    else if s[|s| - 1] == c then |s| - 1
    else
      var r := LastIndexOf(s[..|s| - 1], c);
      assert s == s[..|s| - 1] + [s[|s| - 1]];
      assert r != -1 ==> s[r + 1..] == s[..|s| - 1][r + 1..] + [s[|s| - 1]];
      r
  }

  /** Splitting at a separator that does not occur in the head is unique:
      the head ends at the first occurrence of the separator. */
  lemma {:induction false} SplitAtFirst(x1: string, t1: string, x2: string, t2: string, sep: char)
    requires x1 + [sep] + t1 == x2 + [sep] + t2
    requires sep !in x1 && sep !in x2
    ensures x1 == x2 && t1 == t2
  {
    var s := x1 + [sep] + t1;
    assert s[|x1|] == sep && s[|x2|] == sep;
    assert forall k :: 0 <= k < |x1| ==> s[k] == x1[k];
    assert forall k :: 0 <= k < |x2| ==> s[k] == x2[k];
    assert |x1| == |x2|;
    assert x1 == s[..|x1|];
    assert x2 == (x2 + [sep] + t2)[..|x2|];
    assert t1 == s[|x1| + 1..];
    assert t2 == (x2 + [sep] + t2)[|x2| + 1..];
  }

  /** Splitting at a separator that does not occur in the tail is unique:
      the tail starts after the last occurrence of the separator. */
  lemma {:induction false} SplitAtLast(x1: string, t1: string, x2: string, t2: string, sep: char)
    requires x1 + [sep] + t1 == x2 + [sep] + t2
    requires sep !in t1 && sep !in t2
    ensures x1 == x2 && t1 == t2
  {
    var s := x1 + [sep] + t1;
    assert s[|x1|] == sep && s[|x2|] == sep;
    assert forall k :: |x1| < k < |s| ==> s[k] == t1[k - |x1| - 1];
    assert forall k :: |x2| < k < |s| ==> s[k] == t2[k - |x2| - 1];
    assert |x1| == |x2|;
    assert x1 == s[..|x1|];
    assert x2 == (x2 + [sep] + t2)[..|x2|];
    assert t1 == s[|x1| + 1..];
    assert t2 == (x2 + [sep] + t2)[|x2| + 1..];
  }

  /** IndexOf from `from` reports `q` when `q` holds `c` and nothing between
      `from` and `q` does. */
  lemma IndexOfFromAt(s: string, c: char, from: nat, q: nat)
    requires from <= q < |s| && s[q] == c && c !in s[from..q]
    ensures IndexOfFrom(s, c, from) == q
  {
  }

  /** LastIndexOf reports `q` when `q` holds `c` and nothing after it does. */
  lemma LastIndexOfAt(s: string, c: char, q: nat)
    requires q < |s| && s[q] == c && c !in s[q + 1..]
    ensures LastIndexOf(s, c) == q
  {
  }
}
