/** What the linked-list string operations mean on the character sequence
    a list represents. Every operation of module StringNode is specified
    by one of the definitions here, and the properties the library
    promises are proved here as lemmas. */
module Text {

  /** The exceptions the Java code can raise. NullPointer is the Java
      runtime's NullPointerException, which substring as written raises
      where its documentation promises an IndexOutOfBoundsException. */
  datatype Error = IllegalArgument | IndexOutOfBounds | NullPointer

  datatype Result<T> = Ok(value: T) | Err(error: Error)

  /** A prefix one longer ends with the next element. */
  lemma PrefixSnoc<T>(s: seq<T>, i: nat)
    requires i < |s|
    ensures s[..i + 1] == s[..i] + [s[i]]
  {
    assert (s[..i] + [s[i]])[i] == s[i];
  }

  // ---------------------------------------------------------------------
  // Searching: indexOf, lastIndexOf, numOccurrences
  // ---------------------------------------------------------------------

  /** r is the smallest index holding ch, or -1 when ch does not occur. */
  ghost predicate IsFirstIndex(s: seq<char>, ch: char, r: int) {
    if ch in s then 0 <= r < |s| && s[r] == ch && ch !in s[..r] else r == -1
  }

  /** r is the largest index holding ch, or -1 when ch does not occur. */
  ghost predicate IsLastIndex(s: seq<char>, ch: char, r: int) {
    if ch in s then 0 <= r < |s| && s[r] == ch && ch !in s[r + 1..] else r == -1
  }

  /** The last index in c followed by s: a later occurrence in s wins,
      and only when there is none does c itself count. */
  lemma LastIndexCons(c: char, s: seq<char>, ch: char, r: int)
    requires IsLastIndex(s, ch, r)
    ensures IsLastIndex([c] + s, ch, if r == -1 then (if c == ch then 0 else -1) else 1 + r)
  {
    var cs := [c] + s;
    if r != -1 {
      assert cs[1 + r + 1..] == s[r + 1..];
    } else if c == ch {
      assert cs[1..] == s;
    }
  }

  /** indexOf and lastIndexOf agree exactly when ch occurs at most once. */
  lemma {:induction false} FirstIsLastIffAtMostOnce(s: seq<char>, ch: char, i: int, j: int)
    requires IsFirstIndex(s, ch, i) && IsLastIndex(s, ch, j)
    ensures i == j <==> multiset(s)[ch] <= 1
  {
    if ch in s {
      assert s == s[..i] + [ch] + s[i + 1..];
      assert multiset(s)[ch] == multiset(s[..i])[ch] + 1 + multiset(s[i + 1..])[ch];
      assert multiset(s[..i])[ch] == 0;
      if i == j {
        assert multiset(s[i + 1..])[ch] == 0;
      } else {
        assert i < j;
        assert s[i + 1..][j - (i + 1)] == ch;
        assert ch in multiset(s[i + 1..]);
      }
    } else {
      assert multiset(s)[ch] == 0;
    }
  }

  // ---------------------------------------------------------------------
  // compareAlpha: dictionary order by char value
  // ---------------------------------------------------------------------

  /** s comes strictly before t in dictionary order: at the first position
      where they differ s has the smaller char, or s is a proper prefix of t. */
  predicate LexLess(s: seq<char>, t: seq<char>) {
    if s == [] then t != []
    else if t == [] then false
    else s[0] < t[0] || (s[0] == t[0] && LexLess(s[1..], t[1..]))
  }

  /** After a common prefix of length k, the order is decided by the rest. */
  lemma {:induction false} LexLessAfterCommonPrefix(s: seq<char>, t: seq<char>, k: nat)
    requires k <= |s| && k <= |t| && s[..k] == t[..k]
    ensures LexLess(s, t) == LexLess(s[k..], t[k..])
  {
    if k > 0 {
      assert s[0] == s[..k][0] == t[..k][0] == t[0];
      assert s[1..][..k - 1] == s[1..k] == t[1..k] == t[1..][..k - 1];
      LexLessAfterCommonPrefix(s[1..], t[1..], k - 1);
      assert s[1..][k - 1..] == s[k..];
      assert t[1..][k - 1..] == t[k..];
    }
  }

  lemma {:induction false} LexLessIrreflexive(s: seq<char>)
    ensures !LexLess(s, s)
  {
    if s != [] {
      LexLessIrreflexive(s[1..]);
    }
  }

  lemma {:induction false} LexLessAsymmetric(s: seq<char>, t: seq<char>)
    requires LexLess(s, t)
    ensures !LexLess(t, s)
  {
    if s != [] && t != [] && s[0] == t[0] {
      LexLessAsymmetric(s[1..], t[1..]);
    }
  }

  lemma {:induction false} LexLessTransitive(s: seq<char>, t: seq<char>, u: seq<char>)
    requires LexLess(s, t) && LexLess(t, u)
    ensures LexLess(s, u)
  {
    if s != [] && s[0] == t[0] && t[0] == u[0] {
      LexLessTransitive(s[1..], t[1..], u[1..]);
    }
  }

  /** Any two strings are ordered one way, the other way, or equal. */
  lemma {:induction false} LexLessTotal(s: seq<char>, t: seq<char>)
    ensures LexLess(s, t) || s == t || LexLess(t, s)
  {
    if s != [] && t != [] && s[0] == t[0] {
      LexLessTotal(s[1..], t[1..]);
      if s[1..] == t[1..] {
        assert s == [s[0]] + s[1..] && t == [t[0]] + t[1..];
      }
    }
  }

  /** A proper prefix comes before the string itself ("be" before "become"). */
  lemma {:induction false} ProperPrefixComesFirst(s: seq<char>, t: seq<char>)
    requires |s| < |t| && t[..|s|] == s
    ensures LexLess(s, t)
  {
    if s != [] {
      assert t[1..][..|s| - 1] == s[1..];
      ProperPrefixComesFirst(s[1..], t[1..]);
    }
  }

  /** Equal chars at k extend a common prefix of length k by one. */
  lemma CommonPrefixExtends(s: seq<char>, t: seq<char>, k: nat)
    requires k < |s| && k < |t| && s[..k] == t[..k] && s[k] == t[k]
    ensures s[..k + 1] == t[..k + 1]
  {
    assert s[..k + 1] == s[..k] + [s[k]] && t[..k + 1] == t[..k] + [t[k]];
  }

  /** The first difference, after a common prefix of length k, decides the
      order: the string with the smaller char comes first. */
  lemma FirstDifferenceDecides(s: seq<char>, t: seq<char>, k: nat)
    requires k < |s| && k < |t| && s[..k] == t[..k] && s[k] < t[k]
    ensures LexLess(s, t) && !LexLess(t, s) && s != t
  {
    LexLessAfterCommonPrefix(s, t, k);
    LexLessAsymmetric(s, t);
  }

  /** When one string runs out after a common prefix, the shorter one comes
      first, and equal lengths mean equal strings. */
  lemma CommonPrefixExhausted(s: seq<char>, t: seq<char>, k: nat)
    requires k <= |s| && k <= |t| && (k == |s| || k == |t|) && s[..k] == t[..k]
    ensures |s| == |t| ==> s == t && !LexLess(s, t) && !LexLess(t, s)
    ensures |s| < |t| ==> LexLess(s, t) && !LexLess(t, s) && s != t
    ensures |t| < |s| ==> LexLess(t, s) && !LexLess(s, t) && s != t
  {
    if |s| == |t| {
      assert s == s[..k] && t == t[..k];
      LexLessIrreflexive(s);
    } else if |s| < |t| {
      assert s == s[..k];
      ProperPrefixComesFirst(s, t);
      LexLessAsymmetric(s, t);
    } else {
      assert t == t[..k];
      ProperPrefixComesFirst(t, s);
      LexLessAsymmetric(t, s);
    }
  }

  // ---------------------------------------------------------------------
  // numDiff: positional difference
  // ---------------------------------------------------------------------

  function Max(a: nat, b: nat): nat { if a < b then b else a }

  /** Position i counts as a difference when both strings have a char
      there and the chars differ, or when only one of them reaches i. */
  predicate DiffersAt(s: seq<char>, t: seq<char>, i: nat) {
    if i < |s| && i < |t| then s[i] != t[i] else i < |s| || i < |t|
  }

  /** The number of positions below n at which s and t differ. */
  function DiffsBelow(s: seq<char>, t: seq<char>, n: nat): nat {
    if n == 0 then 0
    else DiffsBelow(s, t, n - 1) + (if DiffersAt(s, t, n - 1) then 1 else 0)
  }

  /** Mismatches within the common length plus the excess length. */
  function PositionalDiff(s: seq<char>, t: seq<char>): nat {
    DiffsBelow(s, t, Max(|s|, |t|))
  }

  lemma {:induction false} DiffsBelowBound(s: seq<char>, t: seq<char>, n: nat)
    ensures DiffsBelow(s, t, n) <= n
  {
    if n > 0 { DiffsBelowBound(s, t, n - 1); }
  }

  /** Positions at or past both lengths never count. */
  lemma {:induction false} DiffsBelowSaturates(s: seq<char>, t: seq<char>, n: nat)
    requires n >= Max(|s|, |t|)
    ensures DiffsBelow(s, t, n) == PositionalDiff(s, t)
  {
    if n > Max(|s|, |t|) { DiffsBelowSaturates(s, t, n - 1); }
  }

  /** An empty string differs from t at each of t's positions. */
  lemma {:induction false} PositionalDiffEmpty(t: seq<char>)
    ensures PositionalDiff([], t) == |t| && PositionalDiff(t, []) == |t|
  {
    DiffsAllBelow([], t, |t|);
    DiffsAllBelow(t, [], |t|);
  }

  lemma {:induction false} DiffsAllBelow(s: seq<char>, t: seq<char>, n: nat)
    requires forall i :: 0 <= i < n ==> DiffersAt(s, t, i)
    ensures DiffsBelow(s, t, n) == n
  {
    if n > 0 { DiffsAllBelow(s, t, n - 1); }
  }

  /** Counting from the heads: the first position, then the rest. */
  lemma {:induction false} PositionalDiffCons(a: char, s: seq<char>, b: char, t: seq<char>)
    ensures PositionalDiff([a] + s, [b] + t) == (if a != b then 1 else 0) + PositionalDiff(s, t)
  {
    DiffsBelowShift(a, s, b, t, Max(|s|, |t|));
  }

  lemma {:induction false} DiffsBelowShift(a: char, s: seq<char>, b: char, t: seq<char>, n: nat)
    ensures DiffsBelow([a] + s, [b] + t, n + 1) == (if a != b then 1 else 0) + DiffsBelow(s, t, n)
  {
    if n > 0 {
      DiffsBelowShift(a, s, b, t, n - 1);
      assert DiffersAt([a] + s, [b] + t, n) == DiffersAt(s, t, n - 1);
    } else {
      assert DiffersAt([a] + s, [b] + t, 0) == (a != b);
    }
  }

  lemma {:induction false} DiffsBelowSymmetric(s: seq<char>, t: seq<char>, n: nat)
    ensures DiffsBelow(s, t, n) == DiffsBelow(t, s, n)
  {
    if n > 0 { DiffsBelowSymmetric(s, t, n - 1); }
  }

  lemma PositionalDiffSymmetric(s: seq<char>, t: seq<char>)
    ensures PositionalDiff(s, t) == PositionalDiff(t, s)
  {
    DiffsBelowSymmetric(s, t, Max(|s|, |t|));
  }

  lemma {:induction false} DiffsBelowZero(s: seq<char>, t: seq<char>, n: nat)
    ensures DiffsBelow(s, t, n) == 0 <==> forall i :: 0 <= i < n ==> !DiffersAt(s, t, i)
  {
    if n > 0 { DiffsBelowZero(s, t, n - 1); }
  }

  /** numDiff is zero exactly for equal strings. */
  lemma PositionalDiffZeroIffEqual(s: seq<char>, t: seq<char>)
    ensures PositionalDiff(s, t) == 0 <==> s == t
  {
    DiffsBelowZero(s, t, Max(|s|, |t|));
    if PositionalDiff(s, t) == 0 {
      if Max(|s|, |t|) > 0 {
        assert !DiffersAt(s, t, Max(|s|, |t|) - 1);
      }
      forall i | 0 <= i < |s| ensures s[i] == t[i] {
        assert !DiffersAt(s, t, i);
      }
    }
  }

  lemma {:induction false} DiffsBelowTriangle(s: seq<char>, t: seq<char>, u: seq<char>, n: nat)
    ensures DiffsBelow(s, u, n) <= DiffsBelow(s, t, n) + DiffsBelow(t, u, n)
  {
    if n > 0 {
      DiffsBelowTriangle(s, t, u, n - 1);
      assert DiffersAt(s, u, n - 1) ==> DiffersAt(s, t, n - 1) || DiffersAt(t, u, n - 1);
    }
  }

  /** numDiff satisfies the triangle inequality, so it is a metric. */
  lemma PositionalDiffTriangle(s: seq<char>, t: seq<char>, u: seq<char>)
    ensures PositionalDiff(s, u) <= PositionalDiff(s, t) + PositionalDiff(t, u)
  {
    var n := Max(Max(|s|, |t|), |u|);
    DiffsBelowTriangle(s, t, u, n);
    DiffsBelowSaturates(s, u, n);
    DiffsBelowSaturates(s, t, n);
    DiffsBelowSaturates(t, u, n);
  }

  /** The length difference is a lower bound, the longer length an upper one. */
  lemma PositionalDiffBounds(s: seq<char>, t: seq<char>)
    ensures |s| - |t| <= PositionalDiff(s, t) <= Max(|s|, |t|)
    ensures |t| - |s| <= PositionalDiff(s, t)
  {
    DiffsBelowBound(s, t, Max(|s|, |t|));
    DiffsBelowAtLeastTail(s, t, Max(|s|, |t|));
  }

  lemma {:induction false} DiffsBelowAtLeastTail(s: seq<char>, t: seq<char>, n: nat)
    requires n <= Max(|s|, |t|)
    ensures DiffsBelow(s, t, n) >= n - (if |s| < |t| then |s| else |t|)
  {
    if n > 0 { DiffsBelowAtLeastTail(s, t, n - 1); }
  }

  // ---------------------------------------------------------------------
  // insertChar, deleteChar, insertSorted
  // ---------------------------------------------------------------------

  function InsertAt<T>(s: seq<T>, i: nat, x: T): seq<T>
    requires i <= |s|
  {
    s[..i] + [x] + s[i..]
  }

  /** The inserted element sits at index i, and the sequence grows by one. */
  lemma InsertAtIndex<T>(s: seq<T>, i: nat, x: T)
    requires i <= |s|
    ensures |InsertAt(s, i, x)| == |s| + 1 && InsertAt(s, i, x)[i] == x
  {
  }

  function DeleteAt<T>(s: seq<T>, i: nat): seq<T>
    requires i < |s|
  {
    s[..i] + s[i + 1..]
  }

  lemma InsertAtFront<T>(s: seq<T>, x: T)
    ensures InsertAt(s, 0, x) == [x] + s
  {
    assert s[..0] == [] && s[0..] == s;
  }

  /** Inserting at i > 0 keeps element i - 1 just before the new one. */
  lemma InsertAtAfter<T>(s: seq<T>, i: nat, x: T)
    requires 0 < i <= |s|
    ensures InsertAt(s, i, x) == s[..i - 1] + [s[i - 1]] + ([x] + s[i..])
  {
    assert s[..i] == s[..i - 1] + [s[i - 1]];
  }

  /** Deleting at i > 0 joins element i - 1 to what followed element i. */
  lemma DeleteAtAfter<T>(s: seq<T>, i: nat)
    requires 0 < i < |s|
    ensures DeleteAt(s, i) == s[..i - 1] + [s[i - 1]] + s[i + 1..]
  {
    assert s[..i] == s[..i - 1] + [s[i - 1]];
  }

  lemma ConcatPrefixSnoc<T>(a: seq<T>, s: seq<T>, k: nat)
    requires k < |s|
    ensures a + s[..k + 1] == a + s[..k] + [s[k]]
  {
    assert s[..k + 1] == s[..k] + [s[k]];
  }

  lemma SplitLast<T>(s: seq<T>)
    requires s != []
    ensures s == s[..|s| - 1] + [s[|s| - 1]]
  {
  }

  /** Deleting what was just inserted gives the string back. */
  lemma DeleteAfterInsert<T>(s: seq<T>, i: nat, x: T)
    requires i <= |s|
    ensures DeleteAt(InsertAt(s, i, x), i) == s
  {
    assert InsertAt(s, i, x)[..i] == s[..i];
    assert InsertAt(s, i, x)[i + 1..] == s[i..];
  }

  predicate Sorted(s: seq<char>) {
    forall i, j :: 0 <= i < j < |s| ==> s[i] <= s[j]
  }

  /** Where insertSorted puts ch: before the first char that is not less
      than ch (so before any equal chars), or at the end. */
  function InsertionPoint(s: seq<char>, ch: char): (k: nat)
    ensures k <= |s|
    ensures forall j :: 0 <= j < k ==> s[j] < ch
    ensures k < |s| ==> ch <= s[k]
  {
    if s == [] || !(s[0] < ch) then 0 else 1 + InsertionPoint(s[1..], ch)
  }

  /** The insertion point is the only index before which every char is
      less than ch and at which (if any) the char is not. */
  lemma {:induction false} InsertionPointUnique(s: seq<char>, ch: char, k: nat)
    requires k <= |s| && forall j :: 0 <= j < k ==> s[j] < ch
    requires k < |s| ==> !(s[k] < ch)
    ensures k == InsertionPoint(s, ch)
  {
    if k > 0 {
      InsertionPointUnique(s[1..], ch, k - 1);
    }
  }

  function InsertSortedSeq(s: seq<char>, ch: char): seq<char> {
    InsertAt(s, InsertionPoint(s, ch), ch)
  }

  /** Inserting into a non-decreasing string keeps it non-decreasing. */
  lemma InsertSortedKeepsSorted(s: seq<char>, ch: char)
    requires Sorted(s)
    ensures Sorted(InsertSortedSeq(s, ch))
  {
    var k := InsertionPoint(s, ch);
    var r := InsertSortedSeq(s, ch);
    forall i, j | 0 <= i < j < |r| ensures r[i] <= r[j] {
      if j < k || i > k {
      } else if i == k {
        assert r[j] == s[j - 1] && ch <= s[k];
      } else {
        assert r[i] == s[i] < ch;
      }
    }
  }

  /** insertSorted adds exactly one ch. */
  lemma InsertSortedMultiset(s: seq<char>, ch: char)
    ensures multiset(InsertSortedSeq(s, ch)) == multiset(s) + multiset{ch}
  {
    var k := InsertionPoint(s, ch);
    assert s == s[..k] + s[k..];
  }

  /** The string built by inserting each char of cs in turn, starting
      from the empty string. */
  function InsertAllSorted(cs: seq<char>): seq<char> {
    if cs == [] then [] else InsertSortedSeq(InsertAllSorted(cs[..|cs| - 1]), cs[|cs| - 1])
  }

  /** Repeated insertSorted from the empty string is a sort: the result is
      non-decreasing and a permutation of the inserted chars. */
  lemma {:induction false} InsertAllSortedSorts(cs: seq<char>)
    ensures Sorted(InsertAllSorted(cs))
    ensures multiset(InsertAllSorted(cs)) == multiset(cs)
  {
    if cs != [] {
      var init := cs[..|cs| - 1];
      InsertAllSortedSorts(init);
      InsertSortedKeepsSorted(InsertAllSorted(init), cs[|cs| - 1]);
      InsertSortedMultiset(InsertAllSorted(init), cs[|cs| - 1]);
      assert cs == init + [cs[|cs| - 1]];
    }
  }

  // ---------------------------------------------------------------------
  // reverseInPlace
  // ---------------------------------------------------------------------

  function Reversed<T>(s: seq<T>): (r: seq<T>)
    ensures |r| == |s|
    ensures forall i :: 0 <= i < |s| ==> r[i] == s[|s| - 1 - i]
  {
    if s == [] then [] else Reversed(s[1..]) + [s[0]]
  }

  /** Reversing one more element of a prefix puts that element first. */
  lemma ReversedPrefixStep<T>(s: seq<T>, k: nat)
    requires k < |s|
    ensures Reversed(s[..k + 1]) == [s[k]] + Reversed(s[..k])
  {
    var r, q := Reversed(s[..k + 1]), [s[k]] + Reversed(s[..k]);
    forall i | 0 <= i < |r| ensures r[i] == q[i] {
      if i > 0 {
        assert q[i] == Reversed(s[..k])[i - 1];
      }
    }
  }

  /** Reversing twice gives the string back. */
  lemma ReversedTwice<T>(s: seq<T>)
    ensures Reversed(Reversed(s)) == s
  {
  }

  lemma {:induction false} ReversedMultiset<T>(s: seq<T>)
    ensures multiset(Reversed(s)) == multiset(s)
  {
    if s != [] {
      ReversedMultiset(s[1..]);
      assert s == [s[0]] + s[1..];
    }
  }

  // ---------------------------------------------------------------------
  // substring
  // ---------------------------------------------------------------------

  /** The behaviour the documentation promises, that of Java's
      String.substring: the chars at [start, end), and an exception when
      start < 0, end < start or end > the length. */
  function Substring(s: seq<char>, start: int, end: int): (r: Result<seq<char>>)
    ensures r.Ok? <==> 0 <= start <= end <= |s|
    ensures r.Ok? ==> |r.value| == end - start && s == s[..start] + r.value + s[end..]
    ensures r.Err? ==> r.error == IndexOutOfBounds
  {
    if 0 <= start <= end <= |s| then Ok(s[start..end]) else Err(IndexOutOfBounds)
  }

  /** What the code of substring does, exception by exception: the two
      explicit checks, then a null dereference once the walk runs out of
      nodes, and one char when end == start. */
  function SubstringAsWritten(s: seq<char>, start: int, end: int): Result<seq<char>> {
    if start < 0 || end < start || s == [] then Err(IndexOutOfBounds)
    else if |s| <= start || |s| < end then Err(NullPointer)
    else if start == end then Ok([s[start]])
    else Ok(s[start..end])
  }

  /** What the code copies, whatever the outcome: the chars from start on,
      at least one of them. */
  lemma SubstringAsWrittenParts(s: seq<char>, start: int, end: int)
    requires 0 <= start < |s| && start <= end <= |s|
    ensures SubstringAsWritten(s, start, end) ==
      Ok(s[start..][..if end - 1 - start <= 0 then 1 else end - 1 - start + 1])
  {
    if start == end {
      assert s[start..][..1] == [s[start]];
    } else {
      assert s[start..][..end - start] == s[start..end];
    }
  }

  lemma SubstringParts(s: seq<char>, start: int, end: int)
    requires 0 <= start < end <= |s|
    ensures Substring(s, start, end) ==
      Ok(s[start..][..if end - 1 - start <= 0 then 1 else end - 1 - start + 1])
  {
    assert s[start..][..end - start] == s[start..end];
  }

  /** The head of a sequence followed by a prefix of its tail. */
  lemma HeadAndPrefix<T>(s: seq<T>, k: nat)
    requires k < |s|
    ensures [s[0]] + s[1..][..k] == s[..k + 1]
  {
  }

  /** Inside 0 <= start < end <= length the code does what it documents. */
  lemma SubstringAsWrittenInContract(s: seq<char>, start: int, end: int)
    requires 0 <= start < end <= |s|
    ensures SubstringAsWritten(s, start, end) == Substring(s, start, end)
  {
  }

  /** An empty range within the string (0 <= start == end <= length) never
      yields the empty string as written: one char when start < length,
      IndexOutOfBounds on the empty string, and a null dereference when
      start == length of a non-empty string; documented is "" in all three. */
  lemma SubstringEmptyRangeDiffers()
    ensures SubstringAsWritten("hello", 2, 2) == Ok("l")
    ensures Substring("hello", 2, 2) == Ok("")
    ensures SubstringAsWritten("", 0, 0) == Err(IndexOutOfBounds)
    ensures Substring("", 0, 0) == Ok("")
    ensures SubstringAsWritten("hello", 5, 5) == Err(NullPointer)
    ensures Substring("hello", 5, 5) == Ok("")
  {
  }

  /** On a non-empty string, a range (start <= end) that ends past the
      length dereferences null (at the start node when start >= length,
      in the copy loop otherwise) instead of raising the documented
      IndexOutOfBoundsException. */
  lemma SubstringPastEndDiffers()
    ensures SubstringAsWritten("hello", 2, 9) == Err(NullPointer)
    ensures Substring("hello", 2, 9) == Err(IndexOutOfBounds)
    ensures SubstringAsWritten("hello", 6, 7) == Err(NullPointer)
    ensures Substring("hello", 6, 7) == Err(IndexOutOfBounds)
    ensures SubstringAsWritten("hello", 7, 7) == Err(NullPointer)
    ensures Substring("hello", 7, 7) == Err(IndexOutOfBounds)
  {
  }

  /** The code and its documentation disagree exactly on the empty ranges
      within the string and, for a non-empty string, on the ranges that end
      past the length; everywhere else they give the same result. */
  lemma SubstringDiffersExactly(s: seq<char>, start: int, end: int)
    ensures SubstringAsWritten(s, start, end) != Substring(s, start, end) <==>
      (0 <= start == end <= |s|) || (s != [] && 0 <= start <= end && |s| < end)
  {
    if 0 <= start == end <= |s| && s == [] {
      assert Substring(s, start, end) == Ok([]);
    }
  }

  // ---------------------------------------------------------------------
  // toUpperCase
  // ---------------------------------------------------------------------

  /** s with every char replaced by its image under f. */
  function MapChars(s: seq<char>, f: char -> char): (r: seq<char>)
    ensures |r| == |s| && forall i :: 0 <= i < |s| ==> r[i] == f(s[i])
  {
    if s == [] then [] else [f(s[0])] + MapChars(s[1..], f)
  }

  // ---------------------------------------------------------------------
  // Expected outputs recorded in the test driver
  // ---------------------------------------------------------------------

  lemma CompareAlphaExamples()
    ensures LexLess("be", "become") && !LexLess("become", "be")
    ensures LexLess("be", "orange")
    ensures !LexLess("orange", "orange")
  {
    ProperPrefixComesFirst("be", "become");
    LexLessAsymmetric("be", "become");
    LexLessIrreflexive("orange");
  }

  lemma NumDiffExamples()
    ensures PositionalDiff("sing", "ring") == 1
    ensures PositionalDiff("singing", "ring") == 4
    ensures PositionalDiff("", "ring") == 4
  {
    assert "sing" == ['s'] + "ing" && "ring" == ['r'] + "ing";
    PositionalDiffCons('s', "ing", 'r', "ing");
    PositionalDiffZeroIffEqual("ing", "ing");
    assert "singing" == ['s'] + "inging" && "inging" == ['i'] + "nging";
    assert "nging" == ['n'] + "ging" && "ging" == ['g'] + "ing";
    assert "ing" == ['i'] + "ng" && "ng" == ['n'] + "g" && "g" == ['g'] + "";
    PositionalDiffCons('s', "inging", 'r', "ing");
    PositionalDiffCons('i', "nging", 'i', "ng");
    PositionalDiffCons('n', "ging", 'n', "g");
    PositionalDiffCons('g', "ing", 'g', "");
    PositionalDiffEmpty("ing");
    PositionalDiffEmpty("ring");
  }
}
