/** A stable sort by an integer key. */
module Sorting {

  ghost predicate SortedBy<T>(key: T -> int, s: seq<T>) {
    forall i, j :: 0 <= i < j < |s| ==> key(s[i]) <= key(s[j])
  }

  ghost predicate NoDuplicates<T>(s: seq<T>) {
    forall i, j :: 0 <= i < j < |s| ==> s[i] != s[j]
  }

  function SortBy<T>(key: T -> int, s: seq<T>): (out: seq<T>)
    ensures SortedBy(key, out)
    ensures multiset(out) == multiset(s)
  {
    if s == [] then []
    else
      assert s == s[..|s| - 1] + [s[|s| - 1]];
      InsertBy(key, SortBy(key, s[..|s| - 1]), s[|s| - 1])
  }

  /** `v` after the elements of its key. */
  function InsertBy<T>(key: T -> int, s: seq<T>, v: T): (out: seq<T>)
    requires SortedBy(key, s)
    ensures SortedBy(key, out)
    ensures multiset(out) == multiset(s) + multiset{v}
  {
    if s == [] || key(s[|s| - 1]) <= key(v) then s + [v]
    else
      var last := s[|s| - 1];
      var front := InsertBy(key, s[..|s| - 1], v);
      InsertedBelow(key, s, v, front);
      front + [last]
  }

  lemma InsertedBelow<T>(key: T -> int, s: seq<T>, v: T, front: seq<T>)
    requires s != [] && SortedBy(key, s) && key(v) < key(s[|s| - 1])
    requires multiset(front) == multiset(s[..|s| - 1]) + multiset{v}
    ensures forall i :: 0 <= i < |front| ==> key(front[i]) <= key(s[|s| - 1])
    ensures multiset(front + [s[|s| - 1]]) == multiset(s) + multiset{v}
  {
    assert s == s[..|s| - 1] + [s[|s| - 1]];
    forall i | 0 <= i < |front|
      ensures key(front[i]) <= key(s[|s| - 1])
    {
      assert front[i] in multiset(front);
      if front[i] != v {
        var j :| 0 <= j < |s| - 1 && s[..|s| - 1][j] == front[i];
      }
    }
  }

  /** Sorting keeps what is in a sequence, and adds no repetition. */
  lemma SortKeeps<T>(key: T -> int, s: seq<T>)
    ensures forall v :: v in SortBy(key, s) <==> v in s
    ensures |SortBy(key, s)| == |s|
    ensures NoDuplicates(s) ==> NoDuplicates(SortBy(key, s))
  {
    var out := SortBy(key, s);
    forall v
      ensures v in out <==> v in s
    {
      assert v in out <==> v in multiset(out);
      assert v in s <==> v in multiset(s);
    }
    assert |multiset(out)| == |out| && |multiset(s)| == |s|;
    if NoDuplicates(s) {
      OnceEach(s);
      OnceEach(out);
    }
  }

  lemma {:induction false} OnceEach<T>(s: seq<T>)
    ensures NoDuplicates(s) <==> forall v :: multiset(s)[v] <= 1
  {
    if s != [] {
      var front, last := s[..|s| - 1], s[|s| - 1];
      assert s == front + [last];
      OnceEach(front);
      assert forall v :: multiset(s)[v] == multiset(front)[v] + (if v == last then 1 else 0);
      if NoDuplicates(s) {
        assert last !in front;
      } else if NoDuplicates(front) {
        var i, j :| 0 <= i < j < |s| && s[i] == s[j];
        assert j == |s| - 1 && front[i] == last;
        assert last in multiset(front);
      }
    }
  }

  ghost predicate StrictlyBy<T(!new)>(key: T -> int, s: seq<T>) {
    forall i, j :: 0 <= i < j < |s| ==> key(s[i]) < key(s[j])
  }

  /** Each of a sorted sequence's elements once, where the key tells them apart. */
  function Dedup<T(==,!new)>(key: T -> int, s: seq<T>): (out: seq<T>)
    requires SortedBy(key, s) && forall a, b :: a in s && b in s && key(a) == key(b) ==> a == b
    ensures (forall v :: v in out <==> v in s) && StrictlyBy(key, out) && |out| <= |s|
  {
    if s == [] then [] else
    var n := |s| - 1;
    assert s == s[..n] + [s[n]];
    var front := Dedup(key, s[..n]);
    if n > 0 && s[n - 1] == s[n] then
      assert s[..n][n - 1] == s[n];
      front
    else
      DedupBelow(key, s, front);
      front + [s[n]]
  }

  lemma DedupBelow<T(!new)>(key: T -> int, s: seq<T>, front: seq<T>)
    requires s != [] && SortedBy(key, s) && (|s| > 1 ==> s[|s| - 2] != s[|s| - 1])
    requires forall a, b :: a in s && b in s && key(a) == key(b) ==> a == b
    requires forall v :: v in front <==> v in s[..|s| - 1]
    ensures forall i :: 0 <= i < |front| ==> key(front[i]) < key(s[|s| - 1])
  {
    var n := |s| - 1;
    forall i | 0 <= i < |front| ensures key(front[i]) < key(s[n]) {
      assert front[i] in front && front[i] in s[..n];
      var j :| 0 <= j < n && s[j] == front[i];
      assert key(s[j]) <= key(s[n - 1]) && key(s[n - 1]) <= key(s[n]);
      assert s[n - 1] in s && s[n] in s;
    }
  }

  /** Numbers in order, each once. */
  function Sorted(s: seq<nat>): (out: seq<nat>)
    ensures forall b :: b in out <==> b in s
    ensures forall i, j :: 0 <= i < j < |out| ==> out[i] < out[j]
  {
    var key := (b: nat) => b as int;
    SortKeeps<nat>(key, s);
    var out := Dedup<nat>(key, SortBy<nat>(key, s));
    PlainlyAscending(key, out);
    out
  }

  lemma PlainlyAscending(key: nat -> int, s: seq<nat>)
    requires StrictlyBy<nat>(key, s) && forall b :: key(b) == b
    ensures forall i, j :: 0 <= i < j < |s| ==> s[i] < s[j]
  {
    forall i, j | 0 <= i < j < |s| ensures s[i] < s[j] {
      assert key(s[i]) < key(s[j]);
    }
  }
}
