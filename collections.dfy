/**
 The two JavaScript array primitives the Sankey transform is built from:
 `Array.from(new Set(s))`, which keeps the first occurrence of every value in
 insertion order, and `Array.prototype.indexOf`, which answers the position of
 the first occurrence of a value or -1.
 */
module Collections {

  /** No value occurs twice in `s`. */
  predicate NoDuplicates<T(==)>(s: seq<T>)
  {
    forall i, j :: 0 <= i < j < |s| ==> s[i] != s[j]
  }

  /**
   Array `indexOf`: the first position of `x` in `s`, or -1 when `x` does not
   occur in `s`.
   */
  function IndexOf<T(==)>(s: seq<T>, x: T): (r: int)
    ensures -1 <= r < |s|
    ensures r == -1 <==> x !in s
    ensures r >= 0 ==> s[r] == x && forall j :: 0 <= j < r ==> s[j] != x
  {
    if s == [] then -1
    else if s[0] == x then 0
    else
      var k := IndexOf(s[1..], x);
      if k == -1 then -1 else k + 1
  }

  /**
   A set built from `s` and read back as an array: the values of `s` are
   inserted one after the other and read back in insertion order, so a value
   already present is skipped.
   */
  function Dedup<T(==,!new)>(s: seq<T>): (r: seq<T>)
    ensures NoDuplicates(r)
    ensures forall x :: x in r <==> x in s
    ensures |r| <= |s|
  {
    if s == [] then []
    else
      var d := Dedup(s[..|s| - 1]);
      var x := s[|s| - 1];
      assert s == s[..|s| - 1] + [x];
      if x in d then d else d + [x]
  }

  /** The values of `r` appear in the order of their first occurrence in `s`. */
  predicate InFirstOccurrenceOrder<T(==)>(s: seq<T>, r: seq<T>)
  {
    forall i, j :: 0 <= i < j < |r| ==> IndexOf(s, r[i]) < IndexOf(s, r[j])
  }

  /**
   Appending `z` to `p` does not move the first occurrence of a value already
   in `p`, and puts a new `z` at position `|p|`.
   */
  lemma IndexOfAppend<T>(p: seq<T>, z: T, y: T)
    ensures y in p ==> IndexOf(p + [z], y) == IndexOf(p, y)
    ensures y !in p && y == z ==> IndexOf(p + [z], y) == |p|
  {
    var s := p + [z];
    var a, b := IndexOf(s, y), IndexOf(p, y);
    if y in p {
      assert s[b] == y;
      assert p[a] == y;
    } else if y == z {
      assert s[|p|] == y;
      assert forall j :: 0 <= j < |p| ==> s[j] == p[j];
    }
  }

  /** The result of `Dedup` lists the values of `s` in first-occurrence order. */
  lemma {:induction false} DedupFirstOccurrenceOrder<T(!new)>(s: seq<T>)
    ensures InFirstOccurrenceOrder(s, Dedup(s))
  {
    if s != [] {
      var p, z := s[..|s| - 1], s[|s| - 1];
      assert s == p + [z];
      DedupFirstOccurrenceOrder(p);
      DedupSnoc(p, z);
      var d, r := Dedup(p), Dedup(s);
      forall i, j | 0 <= i < j < |r| ensures IndexOf(s, r[i]) < IndexOf(s, r[j]) {
        assert r[i] == d[i] && d[i] in p;
        IndexOfAppend(p, z, r[i]);
        if j < |d| {
          assert r[j] == d[j] && d[j] in p;
          IndexOfAppend(p, z, r[j]);
        } else {
          assert r[j] == z && z !in d;
          assert z !in p;
          IndexOfAppend(p, z, z);
        }
      }
    }
  }

  /** In first-occurrence order the head of `r` comes before every later value of `r`. */
  lemma HeadFirst<T>(s: seq<T>, r: seq<T>, x: T)
    requires InFirstOccurrenceOrder(s, r)
    requires r != [] && x in r
    ensures IndexOf(s, r[0]) <= IndexOf(s, x)
    ensures x != r[0] ==> IndexOf(s, r[0]) < IndexOf(s, x)
  {
    var m :| 0 <= m < |r| && r[m] == x;
    if m > 0 {
      assert IndexOf(s, r[0]) < IndexOf(s, r[m]);
    }
  }

  /** The tail of a sequence in first-occurrence order is in first-occurrence order too. */
  lemma TailInOrder<T>(s: seq<T>, r: seq<T>)
    requires InFirstOccurrenceOrder(s, r) && r != []
    ensures InFirstOccurrenceOrder(s, r[1..])
  {
    var t := r[1..];
    forall i, j | 0 <= i < j < |t| ensures IndexOf(s, t[i]) < IndexOf(s, t[j]) {
      assert t[i] == r[i + 1] && t[j] == r[j + 1];
    }
  }

  /**
   First-occurrence order pins a listing down: two sequences holding the same
   values of `s`, both in first-occurrence order of `s`, are equal.
   */
  lemma {:induction false} FirstOccurrenceOrderUnique<T>(s: seq<T>, r1: seq<T>, r2: seq<T>)
    requires forall x :: x in r1 <==> x in r2
    requires forall x :: x in r1 ==> x in s
    requires InFirstOccurrenceOrder(s, r1) && InFirstOccurrenceOrder(s, r2)
    ensures r1 == r2
    decreases |r1|
  {
    if r1 == [] {
      assert forall j :: 0 <= j < |r2| ==> r2[j] !in r1;
    } else {
      assert r1[0] in r2 && r2[0] in r1;
      HeadFirst(s, r1, r2[0]);
      HeadFirst(s, r2, r1[0]);
      var i := IndexOf(s, r1[0]);
      assert i >= 0 && s[i] == r1[0] && s[i] == r2[0];
      var t1, t2 := r1[1..], r2[1..];
      forall x ensures x in t1 <==> x in t2 {
        if x in t1 {
          assert x in r1 && x in r2;
          HeadFirst(s, r1, x);
          assert x != r1[0] by { var n :| 0 <= n < |t1| && t1[n] == x; assert x == r1[n + 1]; }
          assert x == r2[0] || x in t2;
        }
        if x in t2 {
          assert x in r1 && x in r2;
          HeadFirst(s, r2, x);
          assert x != r2[0] by { var n :| 0 <= n < |t2| && t2[n] == x; assert x == r2[n + 1]; }
          assert x == r1[0] || x in t1;
        }
      }
      TailInOrder(s, r1);
      TailInOrder(s, r2);
      FirstOccurrenceOrderUnique(s, t1, t2);
      assert r1 == [r1[0]] + t1 && r2 == [r2[0]] + t2;
    }
  }

  /**
   `Dedup(s)` is the one sequence that holds exactly the values of `s`, in
   first-occurrence order (and hence without duplicates).
   */
  lemma DedupCharacterized<T(!new)>(s: seq<T>, r: seq<T>)
    requires forall x :: x in r <==> x in s
    requires InFirstOccurrenceOrder(s, r)
    ensures r == Dedup(s)
  {
    DedupFirstOccurrenceOrder(s);
    FirstOccurrenceOrderUnique(s, r, Dedup(s));
  }

  /** A sequence without duplicates comes back from `Dedup` unchanged. */
  lemma {:induction false} DedupOfDistinct<T(!new)>(s: seq<T>)
    requires NoDuplicates(s)
    ensures Dedup(s) == s
  {
    if s != [] {
      var p := s[..|s| - 1];
      assert NoDuplicates(p) by {
        forall i, j | 0 <= i < j < |p| ensures p[i] != p[j] {
          assert p[i] == s[i] && p[j] == s[j];
        }
      }
      DedupOfDistinct(p);
      assert s[|s| - 1] !in p;
      assert s == p + [s[|s| - 1]];
    }
  }

  /** Deduplicating twice gives what deduplicating once gives. */
  lemma DedupIdempotent<T(!new)>(s: seq<T>)
    ensures Dedup(Dedup(s)) == Dedup(s)
  {
    DedupOfDistinct(Dedup(s));
  }

  /** Inserting one more value into the set appends it exactly when it is new. */
  lemma DedupSnoc<T(!new)>(p: seq<T>, z: T)
    ensures Dedup(p + [z]) == if z in Dedup(p) then Dedup(p) else Dedup(p) + [z]
  {
    assert (p + [z])[..|p|] == p;
  }

  /**
   Deduplicating `a + b` first lists the values of `a` exactly as deduplicating
   `a` alone does; every value after them does not occur in `a`.
   */
  lemma {:induction false} DedupAppendPrefix<T(!new)>(a: seq<T>, b: seq<T>)
    ensures Dedup(a) <= Dedup(a + b)
    ensures forall k :: |Dedup(a)| <= k < |Dedup(a + b)| ==> Dedup(a + b)[k] !in a
    decreases |b|
  {
    if b == [] {
      assert a + b == a;
    } else {
      var b', z := b[..|b| - 1], b[|b| - 1];
      DedupAppendPrefix(a, b');
      assert a + b == (a + b') + [z];
      DedupSnoc(a + b', z);
      var da, d, r := Dedup(a), Dedup(a + b'), Dedup(a + b);
      assert r[..|d|] == d;
      forall k | |da| <= k < |r| ensures r[k] !in a {
        if k < |d| {
          assert r[k] == d[k];
        } else {
          assert r[k] == z && z !in a + b';
        }
      }
    }
  }

  /**
   In `Dedup(a + b)` a value occurring in `a` comes before every value that
   occurs only in `b`.
   */
  lemma DedupAppendOrder<T(!new)>(a: seq<T>, b: seq<T>, k: nat, l: nat)
    requires k < |Dedup(a + b)| && l < |Dedup(a + b)|
    requires Dedup(a + b)[k] in a && Dedup(a + b)[l] !in a
    ensures k < l
  {
    DedupAppendPrefix(a, b);
    var d, u := Dedup(a), Dedup(a + b);
    assert forall m :: 0 <= m < |d| ==> u[m] == d[m];
  }
}
