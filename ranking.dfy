/** Ranking of one similarity row: `list(enumerate(row))` sorted by score,
    highest first, with Python's stable `sorted(..., reverse=True)`. */
module Ranking {

  /** One `(index, score)` pair of `list(enumerate(row))`. */
  datatype Scored = Scored(index: nat, score: real)

  /** `list(enumerate(row))`: entry `k` pairs position `k` with its score, so
      the indices ascend. */
  function Enumerate(row: seq<real>): (r: seq<Scored>)
    ensures |r| == |row|
    ensures forall k :: 0 <= k < |r| ==> r[k].index == k && r[k].score == row[k]
    ensures IndexIncreasing(r)
  {
    seq(|row|, i requires 0 <= i < |row| => Scored(i, row[i]))
  }

  /** Places `x` in front of the first entry of `l` whose score is not greater
      than x's score. The result holds exactly `x` and the entries of `l`. */
  function Insert(x: Scored, l: seq<Scored>): (r: seq<Scored>)
    ensures multiset(r) == multiset{x} + multiset(l)
    ensures |r| == |l| + 1
  {
    if l == [] then [x]
    else if l[0].score <= x.score then [x] + l
    else
      assert l == [l[0]] + l[1..];
      [l[0]] + Insert(x, l[1..])
  }

  /** `sorted(s, key=lambda x: x[1], reverse=True)`: an insertion sort from the
      back. Python keeps entries with equal keys in their input order even with
      `reverse=True`; inserting an entry before the equal-scored entries that
      follow it in `s` does the same. The result is a rearrangement of `s`;
      `SortRanked` states the order it is in. */
  function SortByScoreDesc(s: seq<Scored>): (r: seq<Scored>)
    ensures multiset(r) == multiset(s)
    ensures |r| == |s|
  {
    if s == [] then []
    else
      assert s == [s[0]] + s[1..];
      Insert(s[0], SortByScoreDesc(s[1..]))
  }

  /** Scores never increase along `l`, and entries with equal scores appear in
      ascending index order. */
  predicate RankedOrder(l: seq<Scored>)
  {
    forall i, j :: 0 <= i < j < |l| ==>
      l[i].score >= l[j].score && (l[i].score == l[j].score ==> l[i].index < l[j].index)
  }

  /** `x` ranks strictly ahead of `y`: a higher score, or the same score and a
      lower index. Together with equality this is a total order. */
  predicate Before(x: Scored, y: Scored)
  {
    x.score > y.score || (x.score == y.score && x.index < y.index)
  }

  predicate IndexIncreasing(l: seq<Scored>)
  {
    forall i, j :: 0 <= i < j < |l| ==> l[i].index < l[j].index
  }

  /** An entry that ranks ahead of every entry of a ranked list can head it. */
  lemma ConsRanked(x: Scored, t: seq<Scored>)
    requires RankedOrder(t)
    requires forall y | y in t :: Before(x, y)
    ensures RankedOrder([x] + t)
  {
    var r := [x] + t;
    forall i, j | 0 <= i < j < |r|
      ensures r[i].score >= r[j].score && (r[i].score == r[j].score ==> r[i].index < r[j].index)
    {
      if i == 0 {
        assert r[j] == t[j - 1] && t[j - 1] in t;
      } else {
        assert r[i] == t[i - 1] && r[j] == t[j - 1];
      }
    }
  }

  /** The head of a ranked list ranks ahead of every later entry. */
  lemma HeadBeforeRest(l: seq<Scored>, y: Scored)
    requires RankedOrder(l) && l != []
    requires y in l[1..]
    ensures Before(l[0], y)
  {
    var k :| 0 <= k < |l[1..]| && l[1..][k] == y;
    assert l[k + 1] == y;
  }

  lemma {:induction false} InsertRanked(x: Scored, l: seq<Scored>)
    requires RankedOrder(l)
    requires forall y | y in l :: x.index < y.index
    ensures RankedOrder(Insert(x, l))
  {
    if l == [] {
    } else if l[0].score <= x.score {
      forall y | y in l ensures Before(x, y) {
        if y != l[0] {
          assert l == [l[0]] + l[1..];
          HeadBeforeRest(l, y);
        }
      }
      ConsRanked(x, l);
    } else {
      InsertRanked(x, l[1..]);
      var t := Insert(x, l[1..]);
      forall y | y in t ensures Before(l[0], y) {
        assert y in multiset(t);
        if y != x {
          assert y in multiset(l[1..]);
          HeadBeforeRest(l, y);
        }
      }
      ConsRanked(l[0], t);
    }
  }

  /** Stability: sorting a list whose indices ascend yields `RankedOrder`. */
  lemma {:induction false} SortRanked(s: seq<Scored>)
    requires IndexIncreasing(s)
    ensures RankedOrder(SortByScoreDesc(s))
  {
    if s != [] {
      var t := SortByScoreDesc(s[1..]);
      SortRanked(s[1..]);
      forall y | y in t ensures s[0].index < y.index {
        assert y in multiset(s[1..]);
        var k :| 0 <= k < |s[1..]| && s[1..][k] == y;
        assert s[k + 1] == y;
      }
      InsertRanked(s[0], t);
    }
  }

  /** app.py:56-57: the row's entries paired with their indices and ranked.
      The result is a permutation of the indices `0..|row|-1`, each paired with
      its own score, in `RankedOrder`. */
  function Rank(row: seq<real>): (r: seq<Scored>)
    ensures |r| == |row|
    ensures RankedOrder(r)
    ensures forall k :: 0 <= k < |r| ==> r[k].index < |row| && r[k].score == row[r[k].index]
    ensures forall i :: 0 <= i < |row| ==> Scored(i, row[i]) in r
    ensures forall i, j :: 0 <= i < j < |r| ==> r[i].index != r[j].index
  {
    var e := Enumerate(row);
    SortRanked(e);
    RankMembers(row, SortByScoreDesc(e));
    SortByScoreDesc(e)
  }

  lemma RankMembers(row: seq<real>, r: seq<Scored>)
    requires multiset(r) == multiset(Enumerate(row))
    ensures forall k :: 0 <= k < |r| ==> r[k].index < |row| && r[k].score == row[r[k].index]
    ensures forall i :: 0 <= i < |row| ==> Scored(i, row[i]) in r
  {
    var e := Enumerate(row);
    forall k | 0 <= k < |r| ensures r[k].index < |row| && r[k].score == row[r[k].index] {
      assert r[k] in multiset(e);
    }
    forall i | 0 <= i < |row| ensures Scored(i, row[i]) in r {
      assert e[i] in multiset(r);
    }
  }

  /** Two rearrangements of the same entries that are both in `RankedOrder`
      begin with the same entry. */
  lemma HeadsAgree(a: seq<Scored>, b: seq<Scored>)
    requires multiset(a) == multiset(b) && |a| > 0
    requires RankedOrder(a) && RankedOrder(b)
    ensures |b| > 0 && a[0] == b[0]
  {
    var x, y := a[0], b[0];
    assert y in multiset(a) && x in multiset(b);
    var i :| 0 <= i < |a| && a[i] == y;
    var j :| 0 <= j < |b| && b[j] == x;
    assert !Before(y, x);
    assert !Before(x, y);
  }

  /** When two rearrangements of the same entries share their head, their
      tails are rearrangements of each other. */
  lemma TailsPermute(a: seq<Scored>, b: seq<Scored>)
    requires multiset(a) == multiset(b) && |a| > 0 && |b| > 0 && a[0] == b[0]
    ensures multiset(a[1..]) == multiset(b[1..])
  {
    assert a == [a[0]] + a[1..];
    assert b == [b[0]] + b[1..];
    assert multiset(a[1..]) == multiset(a) - multiset{a[0]};
    assert multiset(b[1..]) == multiset(b) - multiset{b[0]};
  }

  /** Two rearrangements of the same entries that are both in `RankedOrder` are
      equal: `RankedOrder` is a strict total order on distinct entries. */
  lemma {:induction false} RankedOrderUnique(a: seq<Scored>, b: seq<Scored>)
    requires multiset(a) == multiset(b)
    requires RankedOrder(a) && RankedOrder(b)
    ensures a == b
  {
    assert |a| == |multiset(a)| == |b|;
    if a != [] {
      HeadsAgree(a, b);
      TailsPermute(a, b);
      RankedOrderUnique(a[1..], b[1..]);
      assert a == [a[0]] + a[1..];
      assert b == [b[0]] + b[1..];
    }
  }

  /** Any ranking of the row's `(index, score)` pairs in `RankedOrder` is the
      ranking the stable sort produces: ties are broken by ascending index. */
  lemma RankIsDeterminedByOrder(row: seq<real>, r: seq<Scored>)
    requires multiset(r) == multiset(Enumerate(row))
    requires RankedOrder(r)
    ensures r == Rank(row)
  {
    RankedOrderUnique(r, Rank(row));
  }

  /** Row `q` has the highest score and no lower-indexed row ties with it. */
  predicate SortsFirst(row: seq<real>, q: nat)
    requires q < |row|
  {
    && (forall j :: 0 <= j < |row| ==> row[j] <= row[q])
    && (forall j :: 0 <= j < q ==> row[j] < row[q])
  }

  /** The first ranked entry is row `q` exactly when `q` has the top score and
      no row before it ties with it. */
  lemma FirstRankedIff(row: seq<real>, q: nat)
    requires q < |row|
    ensures Rank(row)[0].index == q <==> SortsFirst(row, q)
  {
    var r := Rank(row);
    assert Scored(q, row[q]) in r;
    var kq :| 0 <= kq < |r| && r[kq] == Scored(q, row[q]);
    if r[0].index == q {
      forall j | 0 <= j < |row| ensures row[j] <= row[q] && (j < q ==> row[j] < row[q]) {
        assert Scored(j, row[j]) in r;
        var k :| 0 <= k < |r| && r[k] == Scored(j, row[j]);
        if k == 0 {
          assert j == q;
        } else {
          assert r[0].score >= r[k].score;
        }
      }
    } else {
      var p := r[0].index;
      assert kq > 0 && r[0].score >= r[kq].score;
      assert row[p] >= row[q] && (row[p] == row[q] ==> p < q);
    }
  }
}
