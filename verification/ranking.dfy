/**
  Ranking of the bot's candidate moves and the pick among the best few.

  The game sorts its row-major candidate list by value, descending, with a stable
  sort; equal values therefore keep row-major order. That is the same as ordering
  by the strict total order `Ahead` below: higher value first, and among equal
  values the cell that comes first in row-major order.
 */
module Ranking {

  /** A candidate move: an empty cell and its score. */
  datatype Candidate = Candidate(r: int, c: int, value: int)

  /** a is ranked strictly ahead of b. */
  predicate Ahead(a: Candidate, b: Candidate) {
    || a.value > b.value
    || (a.value == b.value && (a.r < b.r || (a.r == b.r && a.c < b.c)))
  }

  /** No element is ranked ahead of an element that precedes it. */
  predicate Ranked(s: seq<Candidate>) {
    forall i, j :: 0 <= i < j < |s| ==> !Ahead(s[j], s[i])
  }

  /** Not being ranked ahead is transitive (Ahead is a strict total order). */
  lemma NotAheadTransitive(a: Candidate, b: Candidate, c: Candidate)
    requires !Ahead(a, b) && !Ahead(b, c)
    ensures !Ahead(a, c)
  {
  }

  lemma RankedCons(h: Candidate, t: seq<Candidate>)
    requires Ranked(t)
    requires forall y :: y in t ==> !Ahead(y, h)
    ensures Ranked([h] + t)
  {
    var s := [h] + t;
    forall i, j | 0 <= i < j < |s|
      ensures !Ahead(s[j], s[i])
    {
      if i > 0 {
        assert s[i] == t[i - 1] && s[j] == t[j - 1];
      } else {
        assert s[j] in t;
      }
    }
  }

  /** Puts x into a ranked sequence in front of the first element it is not behind. */
  function Insert(x: Candidate, s: seq<Candidate>): (t: seq<Candidate>)
    requires Ranked(s)
    ensures Ranked(t)
    ensures multiset(t) == multiset(s) + multiset{x}
  {
    if |s| == 0 then [x]
    else if !Ahead(s[0], x) then
      assert forall y :: y in s ==> !Ahead(y, x) by {
        forall y | y in s
          ensures !Ahead(y, x)
        {
          var j :| 0 <= j < |s| && s[j] == y;
          assert !Ahead(s[j], s[0]) by {
            if j > 0 {
              assert 0 < j;
            }
          }
          NotAheadTransitive(y, s[0], x);
        }
      }
      RankedCons(x, s);
      [x] + s
    else
      var rest := Insert(x, s[1..]);
      assert s == [s[0]] + s[1..];
      assert forall y :: y in rest ==> !Ahead(y, s[0]) by {
        forall y | y in rest
          ensures !Ahead(y, s[0])
        {
          assert y in multiset(rest);
          if y != x {
            assert y in s[1..];
            var j :| 0 <= j < |s[1..]| && s[1..][j] == y;
            assert s[j + 1] == y;
          }
        }
      }
      RankedCons(s[0], rest);
      [s[0]] + rest
  }

  /** Sorts candidates best first. */
  function Sort(s: seq<Candidate>): (t: seq<Candidate>)
    ensures Ranked(t)
    ensures multiset(t) == multiset(s)
  {
    if |s| == 0 then []
    else
      assert s == [s[0]] + s[1..];
      Insert(s[0], Sort(s[1..]))
  }

  /** The candidates ranked ahead of x. */
  function Outranking(cands: seq<Candidate>, x: Candidate): set<Candidate> {
    set y | y in cands && Ahead(y, x)
  }

  lemma {:induction false} SetOfSeqSize(s: seq<Candidate>)
    ensures |set y | y in s| <= |s|
  {
    if |s| > 0 {
      SetOfSeqSize(s[1..]);
      assert (set y | y in s) == (set y | y in s[1..]) + {s[0]};
    }
  }

  /** In a ranked sequence, everything ranked ahead of position i sits before it. */
  lemma AheadSitsBefore(t: seq<Candidate>, i: int)
    requires Ranked(t) && 0 <= i < |t|
    ensures Outranking(t, t[i]) <= set y | y in t[..i]
    ensures |Outranking(t, t[i])| <= i
  {
    forall y | y in Outranking(t, t[i])
      ensures y in t[..i]
    {
      var j :| 0 <= j < |t| && t[j] == y;
      assert j < i;
    }
    SetOfSeqSize(t[..i]);
    var a, b := Outranking(t, t[i]), set y | y in t[..i];
    assert b == a + (b - a);
  }

  lemma NothingOutranksBest(cands: seq<Candidate>, x: Candidate)
    ensures |Outranking(cands, x)| == 0 ==> forall y :: y in cands ==> !Ahead(y, x)
  {
    if |Outranking(cands, x)| == 0 {
      forall y | y in cands
        ensures !Ahead(y, x)
      {
        assert y !in Outranking(cands, x);
      }
    }
  }

  function Min(a: int, b: int): int {
    if a <= b then a else b
  }

  /** The move taken from the best `k` of `cands`: the list is ranked, cut to its first
      min(k, n) entries, and the entry at `pick` (reduced modulo that length) is taken.
      `pick` stands for the uniform random choice among the kept entries. */
  function Choose(cands: seq<Candidate>, k: nat, pick: nat): (chosen: Candidate)
    requires |cands| > 0 && k > 0
    ensures chosen in cands
    ensures |Outranking(cands, chosen)| < Min(k, |cands|)
    ensures k == 1 ==> forall y :: y in cands ==> !Ahead(y, chosen)
  {
    var ranked := Sort(cands);
    assert |ranked| == |cands| by {
      assert |multiset(ranked)| == |multiset(cands)|;
    }
    var top := ranked[..Min(k, |ranked|)];
    var i := pick % |top|;
    var chosen := top[i];
    assert chosen in multiset(ranked);
    AheadSitsBefore(ranked, i);
    assert Outranking(cands, chosen) == Outranking(ranked, chosen) by {
      forall y ensures y in cands <==> y in ranked {
        assert y in cands <==> y in multiset(cands);
      }
    }
    NothingOutranksBest(cands, chosen);
    chosen
  }
}
