/** Sequence helpers shared by the graph and marker models. */
module Sequences {
  /** No element occurs twice. */
  predicate NoDups<T(==)>(s: seq<T>) {
    forall i, j :: 0 <= i < j < |s| ==> s[i] != s[j]
  }

  /** The first occurrence of every element, in order of first occurrence. */
  function Dedup<T(==)>(s: seq<T>): seq<T> {
    if s == [] then []
    else
      var d := Dedup(s[..|s| - 1]);
      if s[|s| - 1] in d then d else d + [s[|s| - 1]]
  }

  /** Helper: a prefix one longer. */
  lemma PrefixSnoc<T>(s: seq<T>, i: nat)
    requires i < |s|
    ensures s[..i + 1] == s[..i] + [s[i]]
  {
  }

  /** Helper: `Dedup` of a sequence with one more element. */
  lemma DedupSnoc<T>(s: seq<T>, x: T)
    ensures Dedup(s + [x]) == if x in s then Dedup(s) else Dedup(s) + [x]
  {
    assert (s + [x])[..|s|] == s;
    DedupMembers(s);
  }

  /** The index of the first occurrence of `x` in `s`. */
  function IndexOf<T(==)>(s: seq<T>, x: T): (k: nat)
    requires x in s
    ensures k < |s| && s[k] == x && x !in s[..k]
  {
    if s[0] == x then 0 else 1 + IndexOf(s[1..], x)
  }

  /** `Dedup` keeps exactly the elements of its input, once each. */
  lemma {:induction false} DedupMembers<T>(s: seq<T>)
    ensures NoDups(Dedup(s))
    ensures forall x :: x in Dedup(s) ==> x in s
    ensures forall x :: x in s ==> x in Dedup(s)
  {
    if s != [] {
      var init := s[..|s| - 1];
      DedupMembers(init);
      assert s == init + [s[|s| - 1]];
    }
  }

  /** Every element of `d` occurs in `s`, and `d` lists them in the order of their first occurrence in `s`. */
  ghost predicate InFirstOccurrenceOrder<T>(d: seq<T>, s: seq<T>) {
    && (forall i :: 0 <= i < |d| ==> d[i] in s)
    && (forall i, j :: 0 <= i < j < |d| ==> IndexOf(s, d[i]) < IndexOf(s, d[j]))
  }

  /** `Dedup` lists the elements in the order of their first occurrence. */
  lemma {:induction false} DedupFirstOccurrenceOrder<T>(s: seq<T>)
    ensures InFirstOccurrenceOrder(Dedup(s), s)
  {
    if s != [] {
      var init := s[..|s| - 1];
      DedupFirstOccurrenceOrder(init);
      assert s == init + [s[|s| - 1]];
      DedupSnoc(init, s[|s| - 1]);
      OrderSnoc(Dedup(init), init, s[|s| - 1]);
    }
  }

  /**
   * Helper: appending `x` to `s` keeps the order of `d`, and when `x` is new
   * it may be appended to `d` too.
   */
  lemma OrderSnoc<T>(d: seq<T>, s: seq<T>, x: T)
    requires InFirstOccurrenceOrder(d, s)
    ensures InFirstOccurrenceOrder(d, s + [x])
    ensures x !in s ==> InFirstOccurrenceOrder(d + [x], s + [x])
  {
    var t := s + [x];
    forall i | 0 <= i < |d|
      ensures IndexOf(t, d[i]) == IndexOf(s, d[i]) < |s|
    {
      IndexOfPrefix(s, x, d[i]);
    }
    if x !in s {
      var e := d + [x];
      IndexOfAfter(s, x);
      forall i, j | 0 <= i < j < |e|
        ensures IndexOf(t, e[i]) < IndexOf(t, e[j])
      {
        assert e[i] == d[i];
        if j < |d| {
          assert e[j] == d[j];
        }
      }
    }
  }

  /** Helper: an element new to `init` first occurs after it. */
  lemma IndexOfAfter<T>(init: seq<T>, x: T)
    requires x !in init
    ensures x in init + [x] && IndexOf(init + [x], x) == |init|
  {
    var s := init + [x];
    assert s[..|init|] == init;
  }

  /** Helper: appending does not move the first occurrence of an element already there. */
  lemma {:induction false} IndexOfPrefix<T>(init: seq<T>, x: T, y: T)
    requires y in init
    ensures y in init + [x] && IndexOf(init + [x], y) == IndexOf(init, y) < |init|
  {
    if init[0] != y {
      assert (init + [x])[1..] == init[1..] + [x];
      IndexOfPrefix(init[1..], x, y);
    }
  }

  /** Two duplicate-free sequences with no element in common concatenate to a duplicate-free one. */
  lemma NoDupsAppend<T>(a: seq<T>, b: seq<T>)
    requires NoDups(a) && NoDups(b)
    requires forall x :: x in a ==> x !in b
    ensures NoDups(a + b)
  {
    var c := a + b;
    forall i, j | 0 <= i < j < |c|
      ensures c[i] != c[j]
    {
      if j >= |a| && i < |a| {
        assert c[i] == a[i] && c[i] in a && c[j] == b[j - |a|];
      } else if j < |a| {
        assert c[i] == a[i] && c[j] == a[j];
      } else {
        assert c[i] == b[i - |a|] && c[j] == b[j - |a|];
      }
    }
  }

  /** `b` continues `p` with at least one more element. */
  ghost predicate Extends<T>(b: seq<T>, p: seq<T>) {
    |b| > |p| && b[..|p|] == p
  }

  /** Every element comes after all the elements that extend it. */
  ghost predicate PostOrder<T>(r: seq<seq<T>>) {
    forall i, j :: 0 <= i < |r| && 0 <= j < |r| && Extends(r[i], r[j]) ==> i < j
  }

  /** Concatenation keeps post-order when nothing in the second part extends something in the first. */
  lemma PostOrderAppend<T>(a: seq<seq<T>>, b: seq<seq<T>>)
    requires PostOrder(a) && PostOrder(b)
    requires forall x, y :: x in a && y in b ==> !Extends(y, x)
    ensures PostOrder(a + b)
  {
    var c := a + b;
    forall i, j | 0 <= i < |c| && 0 <= j < |c| && Extends(c[i], c[j])
      ensures i < j
    {
      if i < |a| {
        assert c[i] == a[i];
      } else {
        assert c[i] == b[i - |a|] && c[i] in b;
      }
      if j < |a| {
        assert c[j] == a[j] && c[j] in a;
      } else {
        assert c[j] == b[j - |a|];
      }
    }
  }

  /** Helper: regrouping a chain of concatenations. */
  lemma AppendRegroup<T>(p: seq<T>, d: seq<T>, a: seq<T>, b: seq<T>)
    ensures ((p + d) + a) + b == p + (d + (a + b))
  {
  }

  /** Helper: concatenation is associative. */
  lemma AppendAssoc<T>(a: seq<T>, b: seq<T>, c: seq<T>)
    ensures (a + b) + c == a + (b + c)
  {
  }
}
