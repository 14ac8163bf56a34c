/** The array operations the application relies on (`findIndex`, `find`, `filter`, counting
    with `forEach`), as functions on sequences, with the facts about them the rest of the
    model uses. */
module Lists {

  /** `s.findIndex(p)`: the first index whose element satisfies `p`, or -1. */
  function FindIndex<T>(s: seq<T>, p: T -> bool): (r: int)
    ensures -1 <= r < |s|
    ensures r == -1 <==> forall i :: 0 <= i < |s| ==> !p(s[i])
    ensures 0 <= r ==> p(s[r]) && forall i :: 0 <= i < r ==> !p(s[i])
  {
    if s == [] then -1
    else if p(s[0]) then 0
    else
      var k := FindIndex(s[1..], p);
      if k == -1 then -1 else k + 1
  }

  /** `s.filter(keep)`: the elements that satisfy `keep`, in their original order. */
  function Filter<T>(s: seq<T>, keep: T -> bool): (r: seq<T>)
    ensures |r| <= |s|
  {
    if s == [] then []
    else (if keep(s[0]) then [s[0]] else []) + Filter(s[1..], keep)
  }

  /** Everything a filter returns satisfies `keep` and comes from its input. */
  lemma {:induction false} FilterSound<T>(s: seq<T>, keep: T -> bool)
    ensures forall i :: 0 <= i < |Filter(s, keep)| ==> keep(Filter(s, keep)[i])
    ensures multiset(Filter(s, keep)) <= multiset(s)
  {
    if s != [] {
      FilterSound(s[1..], keep);
      assert s == [s[0]] + s[1..];
    }
  }

  /** Every element of the input that satisfies `keep` is returned. */
  lemma {:induction false} FilterComplete<T>(s: seq<T>, keep: T -> bool)
    ensures forall i :: 0 <= i < |s| && keep(s[i]) ==> s[i] in Filter(s, keep)
  {
    if s != [] {
      FilterComplete(s[1..], keep);
      assert forall i :: 1 <= i < |s| ==> s[i] == s[1..][i - 1];
    }
  }

  /** Filtering distributes over concatenation, so it keeps the relative order of what it keeps. */
  lemma {:induction false} FilterAppend<T>(a: seq<T>, b: seq<T>, keep: T -> bool)
    ensures Filter(a + b, keep) == Filter(a, keep) + Filter(b, keep)
  {
    if a == [] {
      assert a + b == b;
    } else {
      var head: seq<T> := if keep(a[0]) then [a[0]] else [];
      assert (a + b)[0] == a[0];
      assert (a + b)[1..] == a[1..] + b;
      assert Filter(a + b, keep) == head + Filter(a[1..] + b, keep);
      FilterAppend(a[1..], b, keep);
      assert Filter(a, keep) == head + Filter(a[1..], keep);
    }
  }

  /** A filter that keeps everything returns its input. */
  lemma {:induction false} FilterKeepsAll<T>(s: seq<T>, keep: T -> bool)
    requires forall i :: 0 <= i < |s| ==> keep(s[i])
    ensures Filter(s, keep) == s
  {
    if s != [] {
      FilterKeepsAll(s[1..], keep);
    }
  }

  /** A filter that rejects exactly the element at `i` removes that one element and nothing else. */
  lemma {:induction false} FilterDropsOne<T>(s: seq<T>, keep: T -> bool, i: nat)
    requires i < |s| && !keep(s[i])
    requires forall j :: 0 <= j < |s| && j != i ==> keep(s[j])
    ensures Filter(s, keep) == s[..i] + s[i + 1..]
  {
    var tail := s[1..];
    if i == 0 {
      assert forall j :: 0 <= j < |tail| ==> keep(tail[j]) by {
        forall j | 0 <= j < |tail| ensures keep(tail[j]) { assert tail[j] == s[j + 1]; }
      }
      FilterKeepsAll(tail, keep);
    } else {
      assert forall j :: 0 <= j < |tail| && j != i - 1 ==> keep(tail[j]) by {
        forall j | 0 <= j < |tail| && j != i - 1 ensures keep(tail[j]) { assert tail[j] == s[j + 1]; }
      }
      FilterDropsOne(tail, keep, i - 1);
      SliceAroundTail(s, i);
    }
  }

  /** A sequence is what comes before position `i`, the element there, and what follows. */
  lemma SplitAt<T>(s: seq<T>, i: nat)
    requires i < |s|
    ensures s == s[..i] + [s[i]] + s[i + 1..]
    ensures (s[..i] + [s[i]])[..i] == s[..i]
  {
  }

  lemma SliceAroundTail<T>(s: seq<T>, i: nat)
    requires 0 < i < |s|
    ensures s[..i] + s[i + 1..] == [s[0]] + (s[1..][..i - 1] + s[1..][i..])
  {
  }

  /** The number of elements that satisfy `p`, counted front to back like a `forEach` counter. */
  function Count<T>(s: seq<T>, p: T -> bool): (n: nat)
    ensures n <= |s|
  {
    if s == [] then 0
    else Count(s[..|s| - 1], p) + (if p(s[|s| - 1]) then 1 else 0)
  }

  /** Counting distributes over concatenation. */
  lemma {:induction false} CountAppend<T>(a: seq<T>, b: seq<T>, p: T -> bool)
    ensures Count(a + b, p) == Count(a, p) + Count(b, p)
  {
    if b == [] {
      assert a + b == a;
    } else {
      assert (a + b)[..|a + b| - 1] == a + b[..|b| - 1];
      CountAppend(a, b[..|b| - 1], p);
    }
  }

  /** Nothing satisfies `p`, so the count is zero. */
  lemma {:induction false} CountNone<T>(s: seq<T>, p: T -> bool)
    requires forall i :: 0 <= i < |s| ==> !p(s[i])
    ensures Count(s, p) == 0
  {
    if s != [] {
      CountNone(s[..|s| - 1], p);
    }
  }

  /** The count of `p` is the length of the `p`-filter. */
  lemma {:induction false} CountIsFilterLength<T>(s: seq<T>, p: T -> bool)
    ensures Count(s, p) == |Filter(s, p)|
  {
    if s != [] {
      var init := s[..|s| - 1];
      assert s == init + [s[|s| - 1]];
      CountIsFilterLength(init, p);
      FilterAppend(init, [s[|s| - 1]], p);
    }
  }
}

/** The string operations the application relies on: `trim()` emptiness and `split(' ')[0]`. */
module Strings {

  /** The characters JavaScript's `trim()` removes: WhiteSpace and LineTerminator. */
  predicate IsJsWhitespace(c: char)
  {
    c == '\t' || c == '\n' || c == '\U{B}' || c == '\U{C}' || c == '\r' || c == ' '
    || c == '\U{A0}' || c == '\U{1680}' || ('\U{2000}' <= c <= '\U{200A}')
    || c == '\U{2028}' || c == '\U{2029}' || c == '\U{202F}' || c == '\U{205F}'
    || c == '\U{3000}' || c == '\U{FEFF}'
  }

  /** `!s.trim()`: the string is empty or made of whitespace only. */
  predicate IsBlank(s: string)
  {
    forall i :: 0 <= i < |s| ==> IsJsWhitespace(s[i])
  }

  /** `s.split(' ')[0]`: the text before the first space, or all of `s` when it has none. */
  function FirstWord(s: string): (r: string)
    ensures |r| <= |s| && r == s[..|r|]
    ensures ' ' !in r
    ensures |r| == |s| || s[|r|] == ' '
  {
    if s == [] || s[0] == ' ' then ""
    else [s[0]] + FirstWord(s[1..])
  }

  /** The three properties in FirstWord's contract single out one string. */
  lemma FirstWordUnique(s: string, w: string)
    requires |w| <= |s| && w == s[..|w|]
    requires ' ' !in w
    requires |w| == |s| || s[|w|] == ' '
    ensures w == FirstWord(s)
  {
    var r := FirstWord(s);
    assert forall k :: 0 <= k < |r| ==> s[k] != ' ' by {
      forall k | 0 <= k < |r| ensures s[k] != ' ' { assert s[k] == r[k]; }
    }
    assert forall k :: 0 <= k < |w| ==> s[k] != ' ' by {
      forall k | 0 <= k < |w| ensures s[k] != ' ' { assert s[k] == w[k]; }
    }
  }

  /** A text without a space is its own first word. */
  lemma FirstWordOfWord(w: string)
    requires forall i :: 0 <= i < |w| ==> w[i] != ' '
    ensures FirstWord(w) == w
  {
    FirstWordUnique(w, w);
  }

  /** The first word of a text whose first space is at `k` is the text before it. */
  lemma FirstWordBeforeSpace(s: string, k: nat)
    requires k < |s| && s[k] == ' '
    requires forall i :: 0 <= i < k ==> s[i] != ' '
    ensures FirstWord(s) == s[..k]
  {
    FirstWordUnique(s, s[..k]);
  }
}
