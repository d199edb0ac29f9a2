/**
 * Java's String.trim(), which both forms apply to every field before looking at it:
 * it removes every leading and trailing character whose code is at most U+0020.
 */
module Text {

  /** A character String.trim() removes from either end: code at most U+0020. */
  predicate IsBlank(c: char) {
    c <= ' '
  }

  predicate AllBlank(s: string) {
    forall k :: 0 <= k < |s| ==> IsBlank(s[k])
  }

  /** Number of characters String.trim() removes from the front of `s`. */
  function LeadingBlanks(s: string): (n: nat)
    ensures n <= |s|
    ensures forall k :: 0 <= k < n ==> IsBlank(s[k])
    ensures n < |s| ==> !IsBlank(s[n])
  {
    if s == [] || !IsBlank(s[0]) then 0
    else 1 + LeadingBlanks(s[1..])
  }

  /** Number of characters String.trim() removes from the back of `s`. */
  function TrailingBlanks(s: string): (n: nat)
    ensures n <= |s|
    ensures forall k :: |s| - n <= k < |s| ==> IsBlank(s[k])
    ensures n < |s| ==> !IsBlank(s[|s| - 1 - n])
  {
    if s == [] || !IsBlank(s[|s| - 1]) then 0
    else 1 + TrailingBlanks(s[..|s| - 1])
  }

  /** String.trim(): `s` without the blanks at either end; empty exactly when `s` is all blanks. */
  function Trim(s: string): (t: string)
    ensures |t| <= |s|
    ensures t == [] <==> AllBlank(s)
  {
    var front := LeadingBlanks(s);
    var rest := s[front..];
    var t := rest[..|rest| - TrailingBlanks(rest)];
    assert front < |s| ==> rest[0] == s[front];
    t
  }

  /**
   * What String.trim() promises: the result is the slice of `s` left once every
   * blank at either end is removed, so it neither starts nor ends with a blank,
   * and it is empty exactly when `s` is all blanks.
   */
  lemma TrimSpec(s: string)
    ensures var t := Trim(s);
      && (t == [] <==> AllBlank(s))
      && (t != [] ==> !IsBlank(t[0]) && !IsBlank(t[|t| - 1]))
      && LeadingBlanks(s) + |t| <= |s|
      && t == s[LeadingBlanks(s)..LeadingBlanks(s) + |t|]
      && (forall k :: 0 <= k < LeadingBlanks(s) ==> IsBlank(s[k]))
      && (forall k :: LeadingBlanks(s) + |t| <= k < |s| ==> IsBlank(s[k]))
  {
    var front := LeadingBlanks(s);
    var rest := s[front..];
    var t := Trim(s);
    assert t == s[front..front + |t|];
    assert s[front + |t|..] == rest[|rest| - TrailingBlanks(rest)..];
  }

  /** Trimming is idempotent: a trimmed field is not changed by trimming it again. */
  lemma TrimIdempotent(s: string)
    ensures Trim(Trim(s)) == Trim(s)
  {
    var t := Trim(s);
    TrimSpec(s);
    if t != [] {
      TrimOfUnpadded(t);
    }
  }

  /** A string with no blank at either end is its own trim. */
  lemma TrimOfUnpadded(s: string)
    requires s != [] ==> !IsBlank(s[0]) && !IsBlank(s[|s| - 1])
    ensures Trim(s) == s
  {
    if s != [] {
      assert LeadingBlanks(s) == 0;
      assert s[0..] == s;
      assert TrailingBlanks(s) == 0;
    }
  }

  /** Trimming only ever removes blanks: padding a string with blanks does not change its trim. */
  lemma {:induction false} TrimIgnoresPadding(s: string, pre: string, post: string)
    requires AllBlank(pre) && AllBlank(post)
    ensures Trim(pre + s + post) == Trim(s)
  {
    if LeadingBlanks(s) == |s| {
      TrimOfAllBlank(pre, s, post);
    } else {
      TrimOfPadded(s, pre, post);
    }
  }

  /** Padding around a string that is not all blanks: the front and back counts grow by the padding. */
  lemma {:induction false} TrimOfPadded(s: string, pre: string, post: string)
    requires AllBlank(pre) && AllBlank(post)
    requires LeadingBlanks(s) < |s|
    ensures Trim(pre + s + post) == Trim(s)
  {
    var padded := pre + s + post;
    var rest := s[LeadingBlanks(s)..];
    var rest' := padded[LeadingBlanks(padded)..];
    assert rest' == rest + post by {
      PaddedFront(pre, s, post);
      PaddedRest(pre, s, post, LeadingBlanks(s));
    }
    assert TrailingBlanks(rest') == TrailingBlanks(rest) + |post| by {
      TrailingPadding(rest, post);
    }
    SliceOfPadded(rest, post, |rest| - TrailingBlanks(rest));
  }

  lemma SliceOfPadded(rest: string, post: string, n: nat)
    requires n <= |rest|
    ensures (rest + post)[..n] == rest[..n]
  {
  }

  lemma PaddedFront(pre: string, s: string, post: string)
    requires AllBlank(pre)
    requires LeadingBlanks(s) < |s|
    ensures LeadingBlanks(pre + s + post) == |pre| + LeadingBlanks(s)
  {
    assert pre + s + post == pre + (s + post);
    LeadingPadding(pre, s + post);
    LeadingUnpadded(s, post);
  }

  lemma PaddedRest(pre: string, s: string, post: string, a: nat)
    requires a <= |s|
    ensures (pre + s + post)[|pre| + a..] == s[a..] + post
  {
  }

  /** A string made only of blanks, padded with blanks, trims to nothing. */
  lemma {:induction false} TrimOfAllBlank(pre: string, s: string, post: string)
    requires AllBlank(pre) && AllBlank(post)
    requires LeadingBlanks(s) == |s|
    ensures Trim(pre + s + post) == [] && Trim(s) == []
  {
    var padded := pre + s + post;
    forall k | 0 <= k < |padded| ensures IsBlank(padded[k]) {
      if k < |pre| { assert padded[k] == pre[k]; }
      else if k < |pre| + |s| { assert padded[k] == s[k - |pre|]; }
      else { assert padded[k] == post[k - |pre| - |s|]; }
    }
    LeadingOfAllBlank(padded);
  }

  /** A string of blanks loses everything at the front. */
  lemma LeadingOfAllBlank(s: string)
    requires AllBlank(s)
    ensures LeadingBlanks(s) == |s|
  {
  }

  lemma {:induction false} LeadingPadding(pre: string, s: string)
    requires AllBlank(pre)
    ensures LeadingBlanks(pre + s) == |pre| + LeadingBlanks(s)
  {
    if pre != [] {
      assert (pre + s)[0] == pre[0];
      assert (pre + s)[1..] == pre[1..] + s;
      LeadingPadding(pre[1..], s);
    } else {
      assert pre + s == s;
    }
  }

  lemma {:induction false} LeadingUnpadded(s: string, post: string)
    requires LeadingBlanks(s) < |s|
    ensures LeadingBlanks(s + post) == LeadingBlanks(s)
  {
    assert (s + post)[0] == s[0];
    if IsBlank(s[0]) {
      assert (s + post)[1..] == s[1..] + post;
      LeadingUnpadded(s[1..], post);
    }
  }

  lemma {:induction false} TrailingPadding(s: string, post: string)
    requires AllBlank(post)
    ensures TrailingBlanks(s + post) == TrailingBlanks(s) + |post|
  {
    if post != [] {
      assert (s + post)[|s + post| - 1] == post[|post| - 1];
      assert (s + post)[..|s + post| - 1] == s + post[..|post| - 1];
      TrailingPadding(s, post[..|post| - 1]);
    } else {
      assert s + post == s;
    }
  }
}
