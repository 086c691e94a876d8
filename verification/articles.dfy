/** The article record shared by the crawler and the page, and the newest-first
    stable ordering both of them impose on a list of records.

    Python's `list.sort(key=..., reverse=True)` and ECMAScript's
    `Array.prototype.sort` with the comparator `b.timestamp - a.timestamp` are
    both stable sorts by descending timestamp. A stable sort has exactly one
    possible result (lemma StableOrderIsUnique), so the insertion sort below
    computes what either library sort computes. */
module Articles {

  /** One article as written to, and read back from, the JSON feed file. */
  datatype Article = Article(
    title: string,
    url: string,
    blogTitle: string,
    date: string,
    timestamp: int)

  /** Every record is at least as recent as every record after it. */
  ghost predicate IsNewestFirst(s: seq<Article>) {
    forall i, j :: 0 <= i < j < |s| ==> s[i].timestamp >= s[j].timestamp
  }

  /** The records of `s` stamped `t`, in the order they occur in `s`. Two
      lists agreeing on this for every `t` hold the same records, with the
      same relative order among records of equal timestamp. */
  function StampedAt(s: seq<Article>, t: int): seq<Article>
  {
    if s == [] then []
    else StampedAt(s[..|s| - 1], t) + (if s[|s| - 1].timestamp == t then [s[|s| - 1]] else [])
  }

  /** Where a right-to-left scan of `s[..j]` for `x` stops: just after the
      nearest record at least as recent as `x`, or at the front. */
  function ScanStop(s: seq<Article>, x: Article, j: nat): (p: nat)
    requires j <= |s|
    ensures p <= j
  {
    if j == 0 || s[j - 1].timestamp >= x.timestamp then j else ScanStop(s, x, j - 1)
  }

  /** The scan passes only records strictly older than `x`, and stops after
      one at least as recent, or at the front. */
  lemma {:induction false} ScanStopSpec(s: seq<Article>, x: Article, j: nat)
    requires j <= |s|
    ensures var p := ScanStop(s, x, j);
      (forall k :: p <= k < j ==> s[k].timestamp < x.timestamp)
      && (p == 0 || s[p - 1].timestamp >= x.timestamp)
  {
    if !(j == 0 || s[j - 1].timestamp >= x.timestamp) {
      ScanStopSpec(s, x, j - 1);
    }
  }

  /** Where a stable descending insertion puts `x` into `s`: behind every
      record at least as recent as `x` that the scan from the right meets. */
  function InsertionPoint(s: seq<Article>, x: Article): nat
  {
    ScanStop(s, x, |s|)
  }

  function Insert(s: seq<Article>, x: Article): seq<Article>
  {
    var p := InsertionPoint(s, x);
    s[..p] + [x] + s[p..]
  }

  /** The stable newest-first ordering of `s`: each record in turn is
      inserted behind every earlier record that is at least as recent. */
  function SortedNewestFirst(s: seq<Article>): (r: seq<Article>)
    ensures |r| == |s|
  {
    if s == [] then [] else Insert(SortedNewestFirst(s[..|s| - 1]), s[|s| - 1])
  }

  lemma {:induction false} StampedAtAppend(a: seq<Article>, b: seq<Article>, t: int)
    ensures StampedAt(a + b, t) == StampedAt(a, t) + StampedAt(b, t)
    decreases |b|
  {
    if b == [] {
      assert a + b == a;
    } else {
      var b' := b[..|b| - 1];
      assert (a + b)[..|a + b| - 1] == a + b';
      StampedAtAppend(a, b', t);
    }
  }

  lemma {:induction false} StampedAtMembers(s: seq<Article>, t: int)
    ensures forall x :: x in StampedAt(s, t) <==> x in s && x.timestamp == t
  {
    if s != [] {
      StampedAtMembers(s[..|s| - 1], t);
      assert s == s[..|s| - 1] + [s[|s| - 1]];
    }
  }

  lemma {:induction false} StampedAtNone(s: seq<Article>, t: int)
    requires forall k :: 0 <= k < |s| ==> s[k].timestamp != t
    ensures StampedAt(s, t) == []
  {
    if s != [] {
      StampedAtNone(s[..|s| - 1], t);
    }
  }

  lemma StampedAtSingle(x: Article, t: int)
    ensures StampedAt([x], t) == if x.timestamp == t then [x] else []
  {
    assert [x][..0] == [];
  }

  lemma InsertPermutes(s: seq<Article>, x: Article)
    ensures multiset(Insert(s, x)) == multiset(s) + multiset{x}
  {
    var p := InsertionPoint(s, x);
    assert s == s[..p] + s[p..];
  }

  /** Inserting `x` keeps, for every timestamp, the records of that timestamp
      in the order they would have had with `x` appended at the end. */
  lemma InsertIsStable(s: seq<Article>, x: Article, t: int)
    ensures StampedAt(Insert(s, x), t) == StampedAt(s + [x], t)
  {
    var p := InsertionPoint(s, x);
    if t == x.timestamp {
      ScanStopSpec(s, x, |s|);
      StampedAtNoneAfter(s, p, t);
    }
    StampedAtMiddle(s[..p], x, s[p..], t);
    assert s[..p] + s[p..] == s;
  }

  /** Moving `x` from the end to just before `back` keeps every timestamp's
      records in order when `back` holds none stamped like `x`. */
  lemma StampedAtMiddle(front: seq<Article>, x: Article, back: seq<Article>, t: int)
    requires t == x.timestamp ==> StampedAt(back, t) == []
    ensures StampedAt(front + [x] + back, t) == StampedAt(front + back + [x], t)
  {
    var f, b := StampedAt(front, t), StampedAt(back, t);
    StampedAtAppend(front + [x], back, t);
    StampedAtAppend(front, [x], t);
    StampedAtAppend(front + back, [x], t);
    StampedAtAppend(front, back, t);
    StampedAtSingle(x, t);
    if t == x.timestamp {
      assert b == [] && f + [x] + b == f + b + [x];
    } else {
      assert f + [] + b == f + b + [];
    }
  }

  lemma StampedAtNoneAfter(s: seq<Article>, lo: nat, t: int)
    requires lo <= |s|
    requires forall k :: lo <= k < |s| ==> s[k].timestamp < t
    ensures StampedAt(s[lo..], t) == []
  {
    var back := s[lo..];
    assert forall k :: 0 <= k < |back| ==> back[k] == s[lo + k];
    StampedAtNone(back, t);
  }

  /** The ordering holds the same records as its input, fields unchanged. */
  lemma {:induction false} SortPermutes(s: seq<Article>)
    ensures multiset(SortedNewestFirst(s)) == multiset(s)
  {
    if s != [] {
      var init, x := s[..|s| - 1], s[|s| - 1];
      SortPermutes(init);
      InsertPermutes(SortedNewestFirst(init), x);
      assert s == init + [x];
    }
  }

  lemma InsertKeepsNewestFirst(s: seq<Article>, x: Article)
    requires IsNewestFirst(s)
    ensures IsNewestFirst(Insert(s, x))
  {
    var p := InsertionPoint(s, x);
    ScanStopSpec(s, x, |s|);
    var out := Insert(s, x);
    assert out == s[..p] + [x] + s[p..];
    forall k | 0 <= k < |out|
      ensures out[k] == if k < p then s[k] else if k == p then x else s[k - 1]
    {
    }
    PlacedAmongNewestFirst(s, x, p, out);
  }

  /** `x` placed after every record at least as recent and before every
      older one keeps a newest-first list newest first. */
  lemma PlacedAmongNewestFirst(s: seq<Article>, x: Article, p: nat, out: seq<Article>)
    requires IsNewestFirst(s) && p <= |s| && |out| == |s| + 1
    requires p == 0 || s[p - 1].timestamp >= x.timestamp
    requires forall k :: p <= k < |s| ==> s[k].timestamp < x.timestamp
    requires forall k :: 0 <= k < |out| ==>
      out[k] == if k < p then s[k] else if k == p then x else s[k - 1]
    ensures IsNewestFirst(out)
  {
    forall i, j | 0 <= i < j < |out|
      ensures out[i].timestamp >= out[j].timestamp
    {
      if j < p {
        assert out[i] == s[i] && out[j] == s[j];
      } else if j == p {
        assert out[i] == s[i];
        assert s[i].timestamp >= s[p - 1].timestamp;
      } else if i == p {
        assert out[j] == s[j - 1];
      } else if i < p {
        assert out[i] == s[i] && out[j] == s[j - 1];
      } else {
        assert out[i] == s[i - 1] && out[j] == s[j - 1];
      }
    }
  }

  /** The ordering is newest first. */
  lemma {:induction false} SortIsNewestFirst(s: seq<Article>)
    ensures IsNewestFirst(SortedNewestFirst(s))
  {
    if s != [] {
      SortIsNewestFirst(s[..|s| - 1]);
      InsertKeepsNewestFirst(SortedNewestFirst(s[..|s| - 1]), s[|s| - 1]);
    }
  }

  /** The ordering is stable: records with equal timestamps keep their input order. */
  lemma {:induction false} SortIsStable(s: seq<Article>)
    ensures forall t :: StampedAt(SortedNewestFirst(s), t) == StampedAt(s, t)
  {
    if s != [] {
      var init, x := s[..|s| - 1], s[|s| - 1];
      SortIsStable(init);
      forall t ensures StampedAt(SortedNewestFirst(s), t) == StampedAt(s, t) {
        InsertIsStable(SortedNewestFirst(init), x, t);
        StampedAtAppend(SortedNewestFirst(init), [x], t);
        StampedAtAppend(init, [x], t);
        assert s == init + [x];
      }
    }
  }

  /** A list already newest first is left exactly as it is. */
  lemma {:induction false} SortKeepsNewestFirst(s: seq<Article>)
    requires IsNewestFirst(s)
    ensures SortedNewestFirst(s) == s
  {
    if s != [] {
      var init, x := s[..|s| - 1], s[|s| - 1];
      assert IsNewestFirst(init) by {
        forall i, j | 0 <= i < j < |init| ensures init[i].timestamp >= init[j].timestamp {
          assert init[i] == s[i] && init[j] == s[j];
        }
      }
      SortKeepsNewestFirst(init);
      assert InsertionPoint(init, x) == |init| by {
        if init != [] {
          assert init[|init| - 1].timestamp >= x.timestamp;
        }
      }
      assert Insert(init, x) == init + [x] by {
        assert init[..|init|] == init && init[|init|..] == [];
      }
      assert s == init + [x];
    }
  }

  /** Ordering twice is ordering once. */
  lemma SortIsIdempotent(s: seq<Article>)
    ensures SortedNewestFirst(SortedNewestFirst(s)) == SortedNewestFirst(s)
  {
    SortIsNewestFirst(s);
    SortKeepsNewestFirst(SortedNewestFirst(s));
  }

  lemma StampedAtCons(x: Article, s: seq<Article>, t: int)
    ensures StampedAt([x] + s, t) == (if x.timestamp == t then [x] else []) + StampedAt(s, t)
  {
    StampedAtAppend([x], s, t);
    assert [x][..0] == [];
  }

  /** Some record of `s` is stamped `t` exactly when StampedAt(s, t) is non-empty. */
  lemma StampedAtNonEmpty(s: seq<Article>, t: int)
    ensures StampedAt(s, t) != [] <==> exists k :: 0 <= k < |s| && s[k].timestamp == t
  {
    StampedAtMembers(s, t);
    if StampedAt(s, t) != [] {
      assert StampedAt(s, t)[0] in StampedAt(s, t);
    }
  }

  /** In a newest-first list, no record is newer than the head. */
  lemma HeadIsNewest(s: seq<Article>, t: int)
    requires IsNewestFirst(s) && StampedAt(s, t) != []
    ensures s != [] && t <= s[0].timestamp
  {
    StampedAtNonEmpty(s, t);
    var k :| 0 <= k < |s| && s[k].timestamp == t;
    if k > 0 {
      assert s[0].timestamp >= s[k].timestamp;
    }
  }

  /** A list's head leads the records stamped like it. */
  lemma StampedAtHead(s: seq<Article>)
    requires s != []
    ensures StampedAt(s, s[0].timestamp) != [] && StampedAt(s, s[0].timestamp)[0] == s[0]
  {
    assert s == [s[0]] + s[1..];
    StampedAtCons(s[0], s[1..], s[0].timestamp);
  }

  lemma HeadsAgree(a: seq<Article>, b: seq<Article>)
    requires IsNewestFirst(a) && IsNewestFirst(b) && a != [] && b != []
    requires StampedAt(a, a[0].timestamp) == StampedAt(b, a[0].timestamp)
    requires StampedAt(a, b[0].timestamp) == StampedAt(b, b[0].timestamp)
    ensures a[0] == b[0]
  {
    var ta, tb := a[0].timestamp, b[0].timestamp;
    assert ta <= tb by {
      StampedAtHead(a);
      HeadIsNewest(b, ta);
    }
    assert tb <= ta by {
      StampedAtHead(b);
      HeadIsNewest(a, tb);
    }
    StampedAtHead(a);
    StampedAtHead(b);
  }

  /** Newest-first order together with stability leaves no freedom: two
      newest-first lists that agree, timestamp by timestamp, on their records
      and the order of those records are the same list. */
  lemma {:induction false} StableOrderIsUnique(a: seq<Article>, b: seq<Article>)
    requires IsNewestFirst(a) && IsNewestFirst(b)
    requires forall t :: StampedAt(a, t) == StampedAt(b, t)
    ensures a == b
  {
    if a != [] && b == [] {
      assert a == [a[0]] + a[1..];
      StampedAtCons(a[0], a[1..], a[0].timestamp);
      HeadIsNewest(b, a[0].timestamp);
    } else if a == [] && b != [] {
      assert b == [b[0]] + b[1..];
      StampedAtCons(b[0], b[1..], b[0].timestamp);
      HeadIsNewest(a, b[0].timestamp);
    } else if a != [] {
      HeadsAgree(a, b);
      assert a == [a[0]] + a[1..] && b == [b[0]] + b[1..];
      forall t ensures StampedAt(a[1..], t) == StampedAt(b[1..], t) {
        assert StampedAt(a, t) == StampedAt(b, t);
        StampedAtCons(a[0], a[1..], t);
        StampedAtCons(b[0], b[1..], t);
        var lead := if a[0].timestamp == t then [a[0]] else [];
        assert StampedAt(a[1..], t) == (lead + StampedAt(a[1..], t))[|lead|..];
        assert StampedAt(b[1..], t) == (lead + StampedAt(b[1..], t))[|lead|..];
      }
      StableOrderIsUnique(a[1..], b[1..]);
    }
  }

  /** How many records of `s` are stamped `t` or later. */
  function CountSince(s: seq<Article>, t: int): (n: nat)
    ensures n <= |s|
  {
    if s == [] then 0
    else CountSince(s[..|s| - 1], t) + (if s[|s| - 1].timestamp >= t then 1 else 0)
  }

  lemma {:induction false} CountSinceAppend(a: seq<Article>, b: seq<Article>, t: int)
    ensures CountSince(a + b, t) == CountSince(a, t) + CountSince(b, t)
    decreases |b|
  {
    if b == [] {
      assert a + b == a;
    } else {
      var b' := b[..|b| - 1];
      assert (a + b)[..|a + b| - 1] == a + b';
      CountSinceAppend(a, b', t);
    }
  }

  /** Taking `x` out of the middle of a list removes its share of the count. */
  lemma CountSinceMiddle(front: seq<Article>, x: Article, back: seq<Article>, t: int)
    ensures CountSince(front + [x] + back, t)
      == CountSince(front + back, t) + (if x.timestamp >= t then 1 else 0)
  {
    CountSinceAppend(front + [x], back, t);
    CountSinceAppend(front, [x], t);
    CountSinceAppend(front, back, t);
    assert [x][..0] == [];
  }

  /** The count depends only on which records a list holds, not on their order. */
  lemma {:induction false} CountSinceOfPermutation(a: seq<Article>, b: seq<Article>, t: int)
    requires multiset(a) == multiset(b)
    ensures CountSince(a, t) == CountSince(b, t)
    decreases |a|
  {
    if a == [] {
      assert |b| == |multiset(b)| == 0;
    } else {
      var init, x := a[..|a| - 1], a[|a| - 1];
      assert a == init + [x];
      assert x in multiset(b);
      var k :| 0 <= k < |b| && b[k] == x;
      var front, back := b[..k], b[k + 1..];
      assert b == front + [x] + back;
      MultisetRemoveBoth(init, x, front, back);
      CountSinceOfPermutation(init, front + back, t);
      CountSinceMiddle(front, x, back, t);
      CountSinceMiddle(init, x, [], t);
      assert init + [x] + [] == a && init + [] == init;
    }
  }

  /** Taking the same record out of two lists with the same records leaves
      two lists with the same records. */
  lemma MultisetRemoveBoth(init: seq<Article>, x: Article, front: seq<Article>, back: seq<Article>)
    requires multiset(init + [x]) == multiset(front + [x] + back)
    ensures multiset(init) == multiset(front + back)
  {
    var m, n := multiset(init), multiset(front + back);
    assert multiset(front + [x] + back) == n + multiset{x};
    assert multiset(init + [x]) == m + multiset{x};
    forall y ensures m[y] == n[y] {
      assert (m + multiset{x})[y] == m[y] + multiset{x}[y];
      assert (n + multiset{x})[y] == n[y] + multiset{x}[y];
    }
  }

  lemma {:induction false} CountSinceNone(s: seq<Article>, t: int)
    requires forall k :: 0 <= k < |s| ==> s[k].timestamp < t
    ensures CountSince(s, t) == 0
  {
    if s != [] {
      CountSinceNone(s[..|s| - 1], t);
    }
  }

  /** When the first `j` records are all stamped `t` or later, at least `j`
      records are. */
  lemma {:induction false} CountSinceAtLeast(s: seq<Article>, j: nat, t: int)
    requires j <= |s| && forall k :: 0 <= k < j ==> s[k].timestamp >= t
    ensures CountSince(s, t) >= j
  {
    if s != [] {
      var init := s[..|s| - 1];
      var j' := if j == |s| then j - 1 else j;
      assert forall k :: 0 <= k < j' ==> init[k] == s[k];
      CountSinceAtLeast(init, j', t);
    }
  }

  /** When no record from index `i` on is stamped `t` or later, only the
      records before `i` can be. */
  lemma CountSinceBelowIndex(s: seq<Article>, i: nat, t: int)
    requires i <= |s| && forall k :: i <= k < |s| ==> s[k].timestamp < t
    ensures CountSince(s, t) <= i
  {
    var back := s[i..];
    assert forall k :: 0 <= k < |back| ==> back[k].timestamp < t by {
      forall k | 0 <= k < |back| ensures back[k].timestamp < t {
        assert back[k] == s[i + k];
      }
    }
    CountSinceNone(back, t);
    CountSinceAppend(s[..i], back, t);
    assert s == s[..i] + back;
  }

  /** Both sorts give the same sequence of timestamps for the same records,
      whatever order those records arrive in; only records that share a
      timestamp can come out in a different order. */
  lemma SortIsOrderIndependent(s: seq<Article>, s': seq<Article>)
    requires multiset(s) == multiset(s')
    ensures |SortedNewestFirst(s)| == |SortedNewestFirst(s')|
    ensures forall i :: 0 <= i < |SortedNewestFirst(s)| ==>
      SortedNewestFirst(s)[i].timestamp == SortedNewestFirst(s')[i].timestamp
  {
    var a, b := SortedNewestFirst(s), SortedNewestFirst(s');
    assert |s| == |multiset(s)| == |multiset(s')| == |s'|;
    SortPermutes(s);
    SortPermutes(s');
    SortIsNewestFirst(s);
    SortIsNewestFirst(s');
    forall i | 0 <= i < |a| ensures a[i].timestamp == b[i].timestamp {
      if a[i].timestamp < b[i].timestamp {
        NoOlderAtIndex(a, b, i);
      } else if b[i].timestamp < a[i].timestamp {
        NoOlderAtIndex(b, a, i);
      }
    }
  }

  /** Two newest-first lists of the same records cannot have an older record
      at the same index in one than in the other. */
  lemma NoOlderAtIndex(a: seq<Article>, b: seq<Article>, i: nat)
    requires IsNewestFirst(a) && IsNewestFirst(b) && multiset(a) == multiset(b)
    requires i < |a| && i < |b|
    ensures a[i].timestamp >= b[i].timestamp
  {
    if a[i].timestamp < b[i].timestamp {
      var t := b[i].timestamp;
      assert forall k :: 0 <= k < i + 1 ==> b[k].timestamp >= t by {
        forall k | 0 <= k < i + 1 ensures b[k].timestamp >= t {
          if k < i {
            assert b[k].timestamp >= b[i].timestamp;
          }
        }
      }
      assert forall k :: i <= k < |a| ==> a[k].timestamp < t by {
        forall k | i <= k < |a| ensures a[k].timestamp < t {
          if i < k {
            assert a[i].timestamp >= a[k].timestamp;
          }
        }
      }
      CountSinceAtLeast(b, i + 1, t);
      CountSinceBelowIndex(a, i, t);
      CountSinceOfPermutation(a, b, t);
    }
  }

  /** A list that holds `s[..j]`, then `x`, then `s[j..]`, where `j` is the
      place the right-to-left scan stops at, is Insert(s, x). */
  lemma ShiftedIsInsert(s: seq<Article>, x: Article, j: nat, out: seq<Article>)
    requires j <= |s| && |out| == |s| + 1
    requires j == 0 || s[j - 1].timestamp >= x.timestamp
    requires InsertionPoint(s, x) == ScanStop(s, x, j)
    requires forall k :: 0 <= k < j ==> out[k] == s[k]
    requires out[j] == x
    requires forall k :: j < k <= |s| ==> out[k] == s[k - 1]
    ensures out == Insert(s, x)
  {
    assert out == s[..j] + [x] + s[j..];
  }

  /** One pass of the insertion sort: the record at `i` moves left past every
      strictly older record of the prefix before it. */
  method InsertIntoPrefix(a: array<Article>, i: nat)
    requires i < a.Length
    modifies a
    ensures a[..i + 1] == Insert(old(a[..i]), old(a[i]))
    ensures a[i + 1..] == old(a[i + 1..])
  {
    ghost var sorted := a[..i];
    var x := a[i];
    var j := i;
    while j > 0 && a[j - 1].timestamp < x.timestamp
      invariant 0 <= j <= i
      invariant forall k :: 0 <= k < j ==> a[k] == sorted[k]
      invariant forall k :: j < k <= i ==> a[k] == sorted[k - 1]
      invariant forall k :: i < k < a.Length ==> a[k] == old(a[k])
      invariant InsertionPoint(sorted, x) == ScanStop(sorted, x, j)
    {
      a[j] := a[j - 1];
      j := j - 1;
    }
    a[j] := x;
    ShiftedIsInsert(sorted, x, j, a[..i + 1]);
  }

  /** Stable, newest-first sort of an array in place (insertion sort). */
  method SortNewestFirst(a: array<Article>)
    modifies a
    ensures a[..] == SortedNewestFirst(old(a[..]))
  {
    ghost var input := a[..];
    var i := 0;
    while i < a.Length
      invariant 0 <= i <= a.Length
      invariant a[..i] == SortedNewestFirst(input[..i])
      invariant a[i..] == input[i..]
    {
      InsertIntoPrefix(a, i);
      assert input[..i + 1][..i] == input[..i];
      i := i + 1;
    }
    assert a[..] == a[..a.Length];
    assert input == input[..a.Length];
  }
}
