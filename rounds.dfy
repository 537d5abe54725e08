/**
  The pure parts of a quiz round in `MainWindow.setup_problem`: the shuffle
  (`random.shuffle`, given here as a permutation of indices), the order of
  Python strings, and `sorted(..., key=first_last)`, a stable sort by display
  name.
*/
module Rounds {
  import opened Wrappers
  import opened Students

  // ---------------------------------------------------------------------
  // Python's `<` on `str`: lexicographic by code point.

  function Less(a: string, b: string): bool {
    if |b| == 0 then false
    else if |a| == 0 then true
    else if a[0] != b[0] then a[0] < b[0]
    else Less(a[1..], b[1..])
  }

  lemma {:induction false} LessIrreflexive(a: string)
    ensures !Less(a, a)
  {
    if |a| > 0 {
      LessIrreflexive(a[1..]);
    }
  }

  lemma {:induction false} LessTransitive(a: string, b: string, c: string)
    requires Less(a, b) && Less(b, c)
    ensures Less(a, c)
  {
    if |a| > 0 && a[0] == b[0] && b[0] == c[0] {
      LessTransitive(a[1..], b[1..], c[1..]);
    }
  }

  /** Two different strings are ordered one way or the other, never both. */
  lemma {:induction false} LessTotal(a: string, b: string)
    ensures a != b ==> Less(a, b) || Less(b, a)
    ensures !(Less(a, b) && Less(b, a))
  {
    if |a| > 0 && |b| > 0 && a[0] == b[0] {
      LessTotal(a[1..], b[1..]);
      assert a == [a[0]] + a[1..] && b == [b[0]] + b[1..];
    }
  }

  // ---------------------------------------------------------------------
  // A stable sort by a string key, as `sorted(s, key=key)` does it.

  /** Non-decreasing by key. */
  predicate SortedBy<T>(s: seq<T>, key: T -> string) {
    forall i, j {:trigger Less(key(s[j]), key(s[i]))} :: 0 <= i < j < |s| ==> !Less(key(s[j]), key(s[i]))
  }

  /** The elements of `s` whose key is `k`, in their order in `s`. */
  function Filter<T>(s: seq<T>, key: T -> string, k: string): seq<T> {
    if |s| == 0 then []
    else (if key(s[0]) == k then [s[0]] else []) + Filter(s[1..], key, k)
  }

  /** Puts `x` into sorted `t` after every element whose key is not greater
      than its own. */
  function Insert<T>(t: seq<T>, x: T, key: T -> string): (r: seq<T>)
    ensures multiset(r) == multiset(t) + multiset{x}
  {
    if |t| == 0 then [x]
    else if Less(key(x), key(t[0])) then [x] + t
    else
      assert t == [t[0]] + t[1..];
      [t[0]] + Insert(t[1..], x, key)
  }

  /** Insertion sort: ordered by key and a permutation of the input. */
  function SortBy<T>(s: seq<T>, key: T -> string): (r: seq<T>)
    ensures |r| == |s| && multiset(r) == multiset(s)
    ensures SortedBy(r, key)
  {
    if |s| == 0 then []
    else
      var init, last := s[..|s| - 1], s[|s| - 1];
      var sorted := SortBy(init, key);
      assert s == init + [last];
      assert multiset(s) == multiset(init) + multiset{last};
      InsertSorted(sorted, last, key);
      Insert(sorted, last, key)
  }

  lemma TailSorted<T>(t: seq<T>, key: T -> string)
    requires SortedBy(t, key) && |t| > 0
    ensures SortedBy(t[1..], key)
  {
    assert forall i :: 0 <= i < |t| - 1 ==> t[1..][i] == t[i + 1];
  }

  /** In a sorted sequence no element has a key below the head's. */
  lemma SortedHeadIsLeast<T>(t: seq<T>, y: T, key: T -> string)
    requires SortedBy(t, key) && |t| > 0 && y in t
    ensures !Less(key(y), key(t[0]))
  {
    var q :| 0 <= q < |t| && t[q] == y;
    if q == 0 {
      LessIrreflexive(key(y));
    }
  }

  lemma {:induction false} InsertSorted<T>(t: seq<T>, x: T, key: T -> string)
    requires SortedBy(t, key)
    ensures SortedBy(Insert(t, x, key), key)
  {
    if |t| > 0 {
      var kx, k0 := key(x), key(t[0]);
      if Less(kx, k0) {
        forall j | 0 <= j < |t| ensures !Less(key(t[j]), kx) {
          SortedHeadIsLeast(t, t[j], key);
          LessTotal(kx, k0);
          if Less(key(t[j]), kx) {
            LessTransitive(key(t[j]), kx, k0);
          }
        }
        assert forall j :: 1 <= j < |t| + 1 ==> ([x] + t)[j] == t[j - 1];
      } else {
        var rest := Insert(t[1..], x, key);
        TailSorted(t, key);
        InsertSorted(t[1..], x, key);
        forall j | 0 <= j < |rest| ensures !Less(key(rest[j]), k0) {
          assert rest[j] in multiset(t[1..]) + multiset{x};
          if rest[j] in t[1..] {
            SortedHeadIsLeast(t, rest[j], key);
          }
        }
        assert forall j :: 1 <= j < |rest| + 1 ==> ([t[0]] + rest)[j] == rest[j - 1];
      }
    }
  }

  lemma {:induction false} FilterAppend<T>(a: seq<T>, b: seq<T>, key: T -> string, k: string)
    ensures Filter(a + b, key, k) == Filter(a, key, k) + Filter(b, key, k)
  {
    if |a| == 0 {
      assert a + b == b;
    } else {
      var head := if key(a[0]) == k then [a[0]] else [];
      assert (a + b)[0] == a[0];
      assert (a + b)[1..] == a[1..] + b;
      FilterAppend(a[1..], b, key, k);
      calc {
        Filter(a + b, key, k);
        head + Filter(a[1..] + b, key, k);
        head + (Filter(a[1..], key, k) + Filter(b, key, k));
        (head + Filter(a[1..], key, k)) + Filter(b, key, k);
        Filter(a, key, k) + Filter(b, key, k);
      }
    }
  }

  /** Nothing in sorted `t` has a key below that of its head. */
  lemma {:induction false} NoneBelowHead<T>(t: seq<T>, key: T -> string, k: string)
    requires SortedBy(t, key) && |t| > 0 && Less(k, key(t[0]))
    ensures Filter(t, key, k) == []
  {
    LessIrreflexive(k);
    if |t| > 1 {
      var k1 := key(t[1]);
      LessTotal(key(t[0]), k1);
      if key(t[0]) != k1 {
        LessTransitive(k, key(t[0]), k1);
      }
      TailSorted(t, key);
      NoneBelowHead(t[1..], key, k);
    }
  }

  /** Inserting into a sorted sequence puts `x` after the elements that share
      its key. */
  lemma {:induction false} InsertFilter<T>(t: seq<T>, x: T, key: T -> string, k: string)
    requires SortedBy(t, key)
    ensures Filter(Insert(t, x, key), key, k) == Filter(t, key, k) + (if key(x) == k then [x] else [])
  {
    if |t| == 0 {
    } else if Less(key(x), key(t[0])) {
      assert ([x] + t)[1..] == t;
      if key(x) == k {
        NoneBelowHead(t, key, k);
      }
    } else {
      assert ([t[0]] + Insert(t[1..], x, key))[1..] == Insert(t[1..], x, key);
      TailSorted(t, key);
      InsertFilter(t[1..], x, key, k);
    }
  }

  /** The sort is stable: the elements sharing a key keep their relative
      order. */
  lemma {:induction false} SortByStable<T>(s: seq<T>, key: T -> string, k: string)
    ensures Filter(SortBy(s, key), key, k) == Filter(s, key, k)
  {
    if |s| > 0 {
      var init, last := s[..|s| - 1], s[|s| - 1];
      var sorted := SortBy(init, key);
      var tail := if key(last) == k then [last] else [];
      calc {
        Filter(SortBy(s, key), key, k);
        { SortByStep(s, key); }
        Filter(Insert(sorted, last, key), key, k);
        { InsertFilter(sorted, last, key, k); }
        Filter(sorted, key, k) + tail;
        { SortByStable(init, key, k); }
        Filter(init, key, k) + tail;
        { assert Filter([last], key, k) == tail; }
        Filter(init, key, k) + Filter([last], key, k);
        { FilterAppend(init, [last], key, k); assert s == init + [last]; }
        Filter(s, key, k);
      }
    }
  }

  lemma SortByStep<T>(s: seq<T>, key: T -> string)
    requires |s| > 0
    ensures SortBy(s, key) == Insert(SortBy(s[..|s| - 1], key), s[|s| - 1], key)
  {
  }

  lemma {:induction false} FilterMember<T>(s: seq<T>, key: T -> string, k: string, x: T)
    requires x in Filter(s, key, k)
    ensures x in s && key(x) == k
  {
    if |s| > 0 {
      if x in Filter(s[1..], key, k) {
        FilterMember(s[1..], key, k, x);
      }
    }
  }

  lemma SameEmptiness<T>(r: seq<T>, q: seq<T>, key: T -> string)
    requires forall k :: Filter(r, key, k) == Filter(q, key, k)
    ensures |r| > 0 ==> |q| > 0
  {
    if |r| > 0 {
      assert Filter(q, key, key(r[0])) != [];
    }
  }

  /** Two sorted sequences whose elements of each key come in the same order
      are equal. */
  lemma {:induction false} SortedFiltersDetermine<T>(r: seq<T>, q: seq<T>, key: T -> string)
    requires SortedBy(r, key) && SortedBy(q, key)
    requires forall k :: Filter(r, key, k) == Filter(q, key, k)
    ensures r == q
    decreases |r|
  {
    SameEmptiness(r, q, key);
    SameEmptiness(q, r, key);
    if |r| > 0 {
      var m, m' := key(r[0]), key(q[0]);
      assert r[0] in Filter(q, key, m);
      FilterMember(q, key, m, r[0]);
      assert q[0] in Filter(r, key, m');
      FilterMember(r, key, m', q[0]);
      SortedHeadIsLeast(q, r[0], key);
      SortedHeadIsLeast(r, q[0], key);
      LessTotal(m, m');
      assert m == m';
      assert Filter(r, key, m)[0] == Filter(q, key, m)[0];
      assert r[0] == q[0];
      forall k ensures Filter(r[1..], key, k) == Filter(q[1..], key, k) {
        assert Filter(r, key, k) == (if m == k then [r[0]] else []) + Filter(r[1..], key, k);
        assert Filter(q, key, k) == (if m == k then [q[0]] else []) + Filter(q[1..], key, k);
        assert Filter(r, key, k) == Filter(q, key, k);
        var n := if m == k then 1 else 0;
        assert Filter(r[1..], key, k) == Filter(r, key, k)[n..];
        assert Filter(q[1..], key, k) == Filter(q, key, k)[n..];
      }
      TailSorted(r, key);
      TailSorted(q, key);
      SortedFiltersDetermine(r[1..], q[1..], key);
      assert r == [r[0]] + r[1..] && q == [q[0]] + q[1..];
    }
  }

  /** Whatever algorithm sorts stably by key gives `SortBy`: being ordered and
      stable determines the result. */
  lemma StableSortUnique<T>(s: seq<T>, r: seq<T>, key: T -> string)
    requires SortedBy(r, key)
    requires forall k :: Filter(r, key, k) == Filter(s, key, k)
    ensures r == SortBy(s, key)
  {
    forall k ensures Filter(r, key, k) == Filter(SortBy(s, key), key, k) {
      SortByStable(s, key, k);
    }
    SortedFiltersDetermine(r, SortBy(s, key), key);
  }

  // ---------------------------------------------------------------------
  // The display-name key of a round.

  /** The key `first_last()` gives a student. The round computes it only after
      checking that every candidate has one; `""` stands for "no key". */
  function SortKey(st: Student): string {
    match FirstLast(st.name)
    case Some(k) => k
    case None => ""
  }

  /** `first_last()` does not raise on this student. */
  predicate WellNamed(st: Student) {
    FirstLast(st.name).Some?
  }

  predicate AllWellNamed(s: seq<Student>) {
    forall i {:trigger WellNamed(s[i])} :: 0 <= i < |s| ==> WellNamed(s[i])
  }

  /** Students drawn from a well-named collection are well named. */
  lemma AllWellNamedSub(a: seq<Student>, b: seq<Student>)
    requires AllWellNamed(a) && multiset(b) <= multiset(a)
    ensures AllWellNamed(b)
  {
    forall i | 0 <= i < |b| ensures WellNamed(b[i]) {
      assert b[i] in multiset(a);
      var j :| 0 <= j < |a| && a[j] == b[i];
    }
  }

  /** `sorted(s, key=lambda x: x.first_last())`. */
  function SortByName(s: seq<Student>): seq<Student> {
    SortBy(s, SortKey)
  }

  predicate SortedByName(s: seq<Student>) {
    SortedBy(s, SortKey)
  }

  // ---------------------------------------------------------------------
  // The shuffle.

  /** `perm` lists every index below `n` exactly once. */
  predicate IsPermutation(perm: seq<nat>, n: nat) {
    && |perm| == n
    && (forall i :: 0 <= i < n ==> perm[i] < n)
    && (forall i, j :: 0 <= i < j < n ==> perm[i] != perm[j])
    && (forall v: nat :: v < n ==> v in perm)
  }

  /** The pool after `random.shuffle`, with the random choices given as the
      permutation `perm`: position `i` receives the student at `perm[i]`. */
  function Permute<T>(s: seq<T>, perm: seq<nat>): (r: seq<T>)
    requires IsPermutation(perm, |s|)
    ensures |r| == |s|
  {
    seq(|s|, i requires 0 <= i < |s| => s[perm[i]])
  }

  /** Shuffling only reorders: the pool keeps the same students, each as many
      times as before. */
  lemma {:induction false} PermuteMultiset<T>(s: seq<T>, perm: seq<nat>)
    requires IsPermutation(perm, |s|)
    ensures multiset(Permute(s, perm)) == multiset(s)
    decreases |s|
  {
    var n := |s|;
    if n > 0 {
      assert n - 1 in perm;
      var p :| 0 <= p < n && perm[p] == n - 1;
      var perm' := perm[..p] + perm[p + 1..];
      DropLargest(perm, p);
      PermuteMultiset(s[..n - 1], perm');
      var a := Permute(s[..n - 1], perm');
      PermuteDropLargest(s, perm, p);
      MultisetInsertAt(a, p, s[n - 1]);
      assert s == s[..n - 1] + [s[n - 1]];
    }
  }

  lemma MultisetInsertAt<T>(a: seq<T>, p: nat, x: T)
    requires p <= |a|
    ensures multiset(a[..p] + [x] + a[p..]) == multiset(a) + multiset{x}
  {
    assert a == a[..p] + a[p..];
  }

  /** Removing the position of the largest index leaves a permutation of the
      smaller indices. */
  lemma DropLargest(perm: seq<nat>, p: nat)
    requires |perm| > 0 && IsPermutation(perm, |perm|)
    requires p < |perm| && perm[p] == |perm| - 1
    ensures IsPermutation(perm[..p] + perm[p + 1..], |perm| - 1)
  {
    var n := |perm|;
    var perm' := perm[..p] + perm[p + 1..];
    assert forall i :: 0 <= i < n - 1 ==> perm'[i] == if i < p then perm[i] else perm[i + 1];
    forall v: nat | v < n - 1 ensures v in perm' {
      assert v in perm;
      var q :| 0 <= q < n && perm[q] == v;
      assert perm'[if q < p then q else q - 1] == v;
    }
  }

  lemma PermuteDropLargest<T>(s: seq<T>, perm: seq<nat>, p: nat)
    requires |s| > 0 && IsPermutation(perm, |s|)
    requires p < |s| && perm[p] == |s| - 1
    requires IsPermutation(perm[..p] + perm[p + 1..], |s| - 1)
    ensures var a := Permute(s[..|s| - 1], perm[..p] + perm[p + 1..]);
            Permute(s, perm) == a[..p] + [s[|s| - 1]] + a[p..]
  {
    var n := |s|;
    var perm' := perm[..p] + perm[p + 1..];
    var a := Permute(s[..n - 1], perm');
    assert forall i :: 0 <= i < n - 1 ==> perm'[i] == if i < p then perm[i] else perm[i + 1];
    assert forall i :: 0 <= i < n - 1 ==> a[i] == s[perm'[i]];
  }

  // ---------------------------------------------------------------------
  // Distinct emails.

  /** No two students of `s` share an email. */
  predicate DistinctEmails(s: seq<Student>) {
    forall i, j :: 0 <= i < j < |s| ==> s[i].email != s[j].email
  }

  lemma {:induction false} DistinctEmailsOnce(s: seq<Student>, x: Student)
    requires DistinctEmails(s)
    ensures multiset(s)[x] <= 1
  {
    if |s| > 0 {
      var rest := s[1..];
      assert DistinctEmails(rest) by {
        assert forall i :: 0 <= i < |rest| ==> rest[i] == s[i + 1];
      }
      DistinctEmailsOnce(rest, x);
      assert s == [s[0]] + rest;
      if x == s[0] {
        forall q | 0 <= q < |rest| ensures rest[q] != x {
          assert rest[q] == s[q + 1];
        }
      }
    }
  }

  lemma TwiceCounted(s: seq<Student>, i: nat, j: nat)
    requires i < j < |s| && s[i] == s[j]
    ensures multiset(s)[s[i]] >= 2
  {
    assert s == s[..j] + [s[j]] + s[j + 1..];
    assert s[..j][i] == s[i];
  }

  /** Students drawn from a collection whose emails are distinct have
      distinct emails. */
  lemma DistinctEmailsSub(a: seq<Student>, b: seq<Student>)
    requires multiset(b) <= multiset(a) && DistinctEmails(a)
    ensures DistinctEmails(b)
  {
    forall i, j | 0 <= i < j < |b| ensures b[i].email != b[j].email {
      if b[i] == b[j] {
        TwiceCounted(b, i, j);
        DistinctEmailsOnce(a, b[i]);
      } else {
        assert b[i] in multiset(a) && b[j] in multiset(a);
        var p :| 0 <= p < |a| && a[p] == b[i];
        var q :| 0 <= q < |a| && a[q] == b[j];
        assert p != q;
      }
    }
  }

  /** Reordering keeps emails distinct. */
  lemma DistinctEmailsReordered(a: seq<Student>, b: seq<Student>)
    requires multiset(a) == multiset(b) && DistinctEmails(a)
    ensures DistinctEmails(b)
  {
    DistinctEmailsSub(a, b);
  }

  /** The round of `setup_problem` on a pool with distinct emails: the correct
      answer's email is found at exactly one button, the one holding it. */
  lemma RoundEmailsDistinct(pool: seq<Student>, perm: seq<nat>, k: nat, pick: nat)
    requires IsPermutation(perm, |pool|) && DistinctEmails(pool)
    requires pick < k && pick < |pool|
    ensures var shuffled := Permute(pool, perm);
            var n := if k < |pool| then k else |pool|;
            var choices := SortByName(shuffled[..n]);
            forall i :: 0 <= i < |choices| ==> (choices[i].email == choices[pick].email <==> i == pick)
  {
    var shuffled := Permute(pool, perm);
    var n := if k < |pool| then k else |pool|;
    assert DistinctEmails(shuffled) by {
      forall i, j | 0 <= i < j < |shuffled| ensures shuffled[i].email != shuffled[j].email {
        assert shuffled[i] == pool[perm[i]] && shuffled[j] == pool[perm[j]];
        if perm[i] > perm[j] {
          assert pool[perm[j]].email != pool[perm[i]].email;
        }
      }
    }
    DistinctEmailsReordered(shuffled[..n], SortByName(shuffled[..n]));
  }
}
