/** Selecting from sequences, and one sequence being a subsequence of another. */
module Sequences {
  import opened PullQueue

  function Select<T>(s: seq<T>, p: T -> bool): seq<T> {
    if s == [] then [] else (if p(s[0]) then [s[0]] else []) + Select(s[1..], p)
  }

  /** `a` can be got from `b` by leaving elements out. */
  predicate IsSubsequence<T(==)>(a: seq<T>, b: seq<T>) {
    || a == []
    || (b != [] && ((a[0] == b[0] && IsSubsequence(a[1..], b[1..])) || IsSubsequence(a, b[1..])))
  }

  /** `at` picks strictly increasing positions of `b` that hold the elements of `a`. */
  ghost predicate Embeds<T>(at: seq<nat>, a: seq<T>, b: seq<T>) {
    && |at| == |a|
    && (forall i :: 0 <= i < |at| ==> at[i] < |b| && b[at[i]] == a[i])
    && (forall i, j :: 0 <= i < j < |at| ==> at[i] < at[j])
  }

  /** A subsequence keeps the order and uses no position twice. */
  lemma {:induction false} SubsequenceEmbeds<T>(a: seq<T>, b: seq<T>) returns (at: seq<nat>)
    requires IsSubsequence(a, b)
    ensures Embeds(at, a, b)
  {
    if a == [] {
      at := [];
    } else if a[0] == b[0] && IsSubsequence(a[1..], b[1..]) {
      var rest := SubsequenceEmbeds(a[1..], b[1..]);
      at := [0] + seq(|rest|, i requires 0 <= i < |rest| => rest[i] + 1);
      assert forall i :: 0 <= i < |rest| ==> b[at[i + 1]] == b[1..][rest[i]] && a[i + 1] == a[1..][i];
    } else {
      var rest := SubsequenceEmbeds(a, b[1..]);
      at := seq(|rest|, i requires 0 <= i < |rest| => rest[i] + 1);
      assert forall i :: 0 <= i < |rest| ==> b[at[i]] == b[1..][rest[i]];
    }
  }

  lemma {:induction false} SubsequenceReflexive<T>(a: seq<T>)
    ensures IsSubsequence(a, a)
  {
    if a != [] {
      SubsequenceReflexive(a[1..]);
    }
  }

  lemma {:induction false} SubsequenceTransitive<T>(a: seq<T>, b: seq<T>, c: seq<T>)
    requires IsSubsequence(a, b) && IsSubsequence(b, c)
    ensures IsSubsequence(a, c)
    decreases |c|
  {
    if a != [] {
      if b[0] == c[0] && IsSubsequence(b[1..], c[1..]) {
        if a[0] == b[0] && IsSubsequence(a[1..], b[1..]) {
          SubsequenceTransitive(a[1..], b[1..], c[1..]);
        } else {
          SubsequenceTransitive(a, b[1..], c[1..]);
        }
      } else {
        SubsequenceTransitive(a, b, c[1..]);
      }
    }
  }

  lemma {:induction false} SubsequenceConcat<T>(a1: seq<T>, a2: seq<T>, b1: seq<T>, b2: seq<T>)
    requires IsSubsequence(a1, b1) && IsSubsequence(a2, b2)
    ensures IsSubsequence(a1 + a2, b1 + b2)
    decreases |b1|
  {
    if b1 == [] {
      assert a1 + a2 == a2 && b1 + b2 == b2;
    } else {
      assert (b1 + b2)[1..] == b1[1..] + b2;
      if a1 == [] {
        SubsequenceConcat([], a2, b1[1..], b2);
        assert [] + a2 == a1 + a2;
      } else if a1[0] == b1[0] && IsSubsequence(a1[1..], b1[1..]) {
        SubsequenceConcat(a1[1..], a2, b1[1..], b2);
        assert (a1 + a2)[1..] == a1[1..] + a2;
      } else {
        SubsequenceConcat(a1, a2, b1[1..], b2);
      }
    }
  }

  lemma PrefixIsSubsequence<T>(a: seq<T>, b: seq<T>)
    ensures IsSubsequence(a, a + b) && IsSubsequence(b, a + b)
  {
    SubsequenceReflexive(a);
    SubsequenceReflexive(b);
    SubsequenceConcat(a, [], a, b);
    assert a + [] == a;
    SubsequenceConcat([], b, a, b);
    assert [] + b == b;
  }

  lemma {:induction false} SelectConcat<T>(a: seq<T>, b: seq<T>, p: T -> bool)
    ensures Select(a + b, p) == Select(a, p) + Select(b, p)
  {
    if a == [] {
      assert a + b == b;
    } else {
      SelectConcat(a[1..], b, p);
      assert (a + b)[1..] == a[1..] + b;
      var first := if p(a[0]) then [a[0]] else [];
      assert first + (Select(a[1..], p) + Select(b, p)) == first + Select(a[1..], p) + Select(b, p);
    }
  }

  lemma {:induction false} SelectNone<T>(s: seq<T>, p: T -> bool)
    requires forall k :: 0 <= k < |s| ==> !p(s[k])
    ensures Select(s, p) == []
  {
    if s != [] {
      SelectNone(s[1..], p);
    }
  }

  lemma SelectBehind<T>(before: seq<T>, rest: seq<T>, p: T -> bool)
    requires forall k :: 0 <= k < |before| ==> !p(before[k])
    ensures Select(before + rest, p) == Select(rest, p)
  {
    SelectConcat(before, rest, p);
    SelectNone(before, p);
    assert [] + Select(rest, p) == Select(rest, p);
  }

  /** The first selected element is at the first index, and selecting goes on behind it. */
  lemma SelectFirst<T>(s: seq<T>, p: T -> bool)
    ensures var i := FirstIndex(s, p);
            if i == |s| then Select(s, p) == []
            else Select(s, p) == [s[i]] + Select(RemoveAt(s, i), p)
  {
    var i := FirstIndex(s, p);
    assert forall k :: 0 <= k < i ==> !p(s[k]);
    if i == |s| {
      SelectNone(s, p);
    } else {
      assert p(s[i]) && s == s[..i] + s[i..] && s[i..][1..] == s[i + 1..] && s[i..][0] == s[i];
      SelectBehind(s[..i], s[i..], p);
      SelectBehind(s[..i], s[i + 1..], p);
    }
  }

  lemma {:induction false} SelectRemoved<T>(s: seq<T>, i: nat, p: T -> bool)
    requires i < |s|
    ensures IsSubsequence(Select(RemoveAt(s, i), p), Select(s, p))
  {
    hide IsSubsequence;
    var first := if p(s[0]) then [s[0]] else [];
    if i == 0 {
      assert RemoveAt(s, 0) == s[1..];
      PrefixIsSubsequence(first, Select(s[1..], p));
    } else {
      SelectRemoved(s[1..], i - 1, p);
      var r := RemoveAt(s, i);
      assert r[0] == s[0] && r[1..] == RemoveAt(s[1..], i - 1);
      SubsequenceReflexive(first);
      SubsequenceConcat(first, Select(r[1..], p), first, Select(s[1..], p));
    }
  }

  lemma SelectLastN<T>(s: seq<T>, n: nat, p: T -> bool)
    ensures IsSubsequence(Select(LastN(s, n), p), Select(s, p))
  {
    var dropped := s[..|s| - |LastN(s, n)|];
    assert s == dropped + LastN(s, n);
    SelectConcat(dropped, LastN(s, n), p);
    PrefixIsSubsequence(Select(dropped, p), Select(LastN(s, n), p));
  }

  /** The first index in a concatenation. */
  lemma {:induction false} FirstIndexConcat<T>(a: seq<T>, b: seq<T>, p: T -> bool)
    ensures FirstIndex(a + b, p) == if FirstIndex(a, p) < |a| then FirstIndex(a, p) else |a| + FirstIndex(b, p)
  {
    if a == [] {
      assert a + b == b;
    } else {
      FirstIndexConcat(a[1..], b, p);
      assert (a + b)[1..] == a[1..] + b;
    }
  }

  lemma FirstIndexIs<T>(s: seq<T>, i: nat, p: T -> bool)
    requires i <= |s| && (i < |s| ==> p(s[i])) && forall k :: 0 <= k < i ==> !p(s[k])
    ensures FirstIndex(s, p) == i
  {
  }
}
