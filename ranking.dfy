/**
 * The order in which the synthesiser reads paragraphs:
 * `sorted(paragraphs, key=lambda p: p.points, reverse=True)`, a stable sort,
 * so equal scores keep document order. It is modelled on the paragraphs'
 * positions: the result lists the indices 0 .. n-1 best first.
 */
module Ranking {

  /** Paragraph `a` comes before paragraph `b`: a higher score, or the same
      score and earlier in the document. */
  predicate RanksBefore(scores: seq<int>, a: nat, b: nat)
    requires a < |scores| && b < |scores|
  {
    scores[a] > scores[b] || (scores[a] == scores[b] && a < b)
  }

  ghost predicate InRange(scores: seq<int>, r: seq<nat>) {
    forall k :: 0 <= k < |r| ==> r[k] < |scores|
  }

  ghost predicate InRankOrder(scores: seq<int>, r: seq<nat>) {
    InRange(scores, r) && forall j, k :: 0 <= j < k < |r| ==> RanksBefore(scores, r[j], r[k])
  }

  /** Insert `i` behind every entry that scores at least as much. */
  function Insert(scores: seq<int>, r: seq<nat>, i: nat): (r': seq<nat>)
    requires i < |scores| && InRange(scores, r)
    ensures InRange(scores, r') && |r'| == |r| + 1
    ensures forall x :: x in r' <==> x in r || x == i
    decreases |r|
  {
    if r == [] then [i]
    else if scores[r[0]] >= scores[i] then [r[0]] + Insert(scores, r[1..], i)
    else [i] + r
  }

  /** Inserting a later paragraph keeps the rank order. */
  lemma {:induction false} InsertInOrder(scores: seq<int>, r: seq<nat>, i: nat)
    requires i < |scores| && InRankOrder(scores, r)
    requires forall k :: 0 <= k < |r| ==> r[k] < i
    ensures InRankOrder(scores, Insert(scores, r, i))
    decreases |r|
  {
    var r' := Insert(scores, r, i);
    if r != [] {
      if scores[r[0]] >= scores[i] {
        var rest := Insert(scores, r[1..], i);
        InsertInOrder(scores, r[1..], i);
        assert r' == [r[0]] + rest;
        forall j, k | 0 <= j < k < |r'| ensures RanksBefore(scores, r'[j], r'[k]) {
          if j > 0 {
            assert r'[j] == rest[j - 1] && r'[k] == rest[k - 1];
          } else {
            assert r'[k] == rest[k - 1];
            assert rest[k - 1] in r[1..] || rest[k - 1] == i;
            if rest[k - 1] != i {
              var q :| 0 <= q < |r[1..]| && r[1..][q] == rest[k - 1];
              assert r[q + 1] == rest[k - 1];
            }
          }
        }
      } else {
        assert r' == [i] + r;
        forall j, k | 0 <= j < k < |r'| ensures RanksBefore(scores, r'[j], r'[k]) {
          if j > 0 {
            assert r'[j] == r[j - 1] && r'[k] == r[k - 1];
          } else {
            assert r'[k] == r[k - 1];
            assert k - 1 == 0 || RanksBefore(scores, r[0], r[k - 1]);
          }
        }
      }
    }
  }

  /** The first `n` paragraphs, best first. */
  function RankFirst(scores: seq<int>, n: nat): (r: seq<nat>)
    requires n <= |scores|
    ensures |r| == n && InRange(scores, r)
  {
    if n == 0 then []
    else Insert(scores, RankFirst(scores, n - 1), n - 1)
  }

  lemma {:induction false} RankFirstCorrect(scores: seq<int>, n: nat)
    requires n <= |scores|
    ensures forall x: nat :: x in RankFirst(scores, n) <==> x < n
    ensures InRankOrder(scores, RankFirst(scores, n))
  {
    if n > 0 {
      var prev := RankFirst(scores, n - 1);
      RankFirstCorrect(scores, n - 1);
      assert forall k :: 0 <= k < |prev| ==> prev[k] in prev;
      InsertInOrder(scores, prev, n - 1);
    }
  }

  /** `sorted(range(len(scores)), key=scores.__getitem__, reverse=True)`:
      every position listed once, in rank order (see SortedByScoreCorrect). */
  function SortedByScore(scores: seq<int>): (r: seq<nat>)
    ensures |r| == |scores| && forall k :: 0 <= k < |r| ==> r[k] < |scores|
  {
    RankFirst(scores, |scores|)
  }

  /** The listing is a permutation of the positions, in rank order. */
  lemma SortedByScoreCorrect(scores: seq<int>)
    ensures forall x: nat :: x in SortedByScore(scores) <==> x < |scores|
    ensures InRankOrder(scores, SortedByScore(scores))
  {
    RankFirstCorrect(scores, |scores|);
  }

  /** Any listing in rank order with the same entries is the same listing,
      so every stable descending sort (Python's included) agrees with
      SortedByScore. */
  lemma {:induction false} RankOrderUnique(scores: seq<int>, a: seq<nat>, b: seq<nat>)
    requires InRankOrder(scores, a) && InRankOrder(scores, b)
    requires forall x :: x in a <==> x in b
    ensures a == b
    decreases |a|
  {
    if a != [] || b != [] {
      assert a != [] ==> a[0] in a && a[0] in b;
      assert b != [] ==> b[0] in b && b[0] in a;
      assert a != [] && b != [];
      assert b[0] in b;
      assert a[0] == b[0];
      forall x ensures x in a[1..] <==> x in b[1..] {
        if x in a[1..] {
          var p :| 1 <= p < |a| && a[p] == x;
          assert RanksBefore(scores, a[0], a[p]);
          assert x in b && x != b[0];
          var q :| 0 <= q < |b| && b[q] == x;
          assert x == b[1..][q - 1];
        }
        if x in b[1..] {
          var q :| 1 <= q < |b| && b[q] == x;
          assert RanksBefore(scores, b[0], b[q]);
          assert x in a && x != a[0];
          var p :| 0 <= p < |a| && a[p] == x;
          assert x == a[1..][p - 1];
        }
      }
      assert InRankOrder(scores, a[1..]);
      assert InRankOrder(scores, b[1..]);
      RankOrderUnique(scores, a[1..], b[1..]);
      assert a == [a[0]] + a[1..] && b == [b[0]] + b[1..];
    }
  }

  /** How many paragraphs rank before paragraph `i`. */
  ghost function RankOf(scores: seq<int>, i: nat): nat
    requires i < |scores|
  {
    |set j | 0 <= j < |scores| && RanksBefore(scores, j, i)|
  }

  /** Position `k` of the sorted listing holds the paragraph that exactly
      `k` paragraphs outrank. */
  lemma SortedPositionIsRank(scores: seq<int>, k: nat)
    requires k < |scores|
    ensures RankOf(scores, SortedByScore(scores)[k]) == k
  {
    var r := SortedByScore(scores);
    SortedByScoreCorrect(scores);
    var before := set j | 0 <= j < |scores| && RanksBefore(scores, j, r[k]);
    assert before == set p | 0 <= p < k :: r[p] by {
      forall j | j in before ensures exists p :: 0 <= p < k && r[p] == j {
        assert j in r;
        var p :| 0 <= p < |r| && r[p] == j;
        assert p < k;
      }
      forall p | 0 <= p < k ensures r[p] in before {
        assert RanksBefore(scores, r[p], r[k]);
      }
    }
    DistinctPrefixCard(scores, r, k);
  }

  lemma {:induction false} DistinctPrefixCard(scores: seq<int>, r: seq<nat>, k: nat)
    requires InRankOrder(scores, r) && k <= |r|
    ensures |set p | 0 <= p < k :: r[p]| == k
  {
    if k > 0 {
      DistinctPrefixCard(scores, r, k - 1);
      var smaller := set p | 0 <= p < k - 1 :: r[p];
      assert (set p | 0 <= p < k :: r[p]) == smaller + {r[k - 1]};
      assert r[k - 1] !in smaller;
    }
  }
}
