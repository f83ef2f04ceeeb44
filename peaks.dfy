/** Peak picking over one frame's magnitude vector (get_peaks).

    The strict local maxima of the vector are ranked strongest first by a
    stable sort, so equal values keep ascending position order; of the five
    strongest, those above zero and above half the strongest candidate are
    reported, in ranked order. */
module Peaks {

  /** Most peaks a frame reports. */
  const MaxPeaks: nat := 5

  /** A strict local maximum: its position and its value. */
  datatype Candidate = Candidate(index: int, value: real)

  /** Strictly greater than both neighbours; the two ends lack a neighbour and never qualify. */
  predicate IsStrictLocalMax(h: seq<real>, i: int) {
    0 < i < |h| - 1 && h[i - 1] < h[i] && h[i] > h[i + 1]
  }

  /** The strict local maxima among the first n positions, in ascending position order. */
  function CandidatesBelow(h: seq<real>, n: nat): (cs: seq<Candidate>)
    requires n <= |h|
    ensures forall c :: c in cs <==> 0 <= c.index < n && IsStrictLocalMax(h, c.index) && c.value == h[c.index]
    ensures forall x, y :: 0 <= x < y < |cs| ==> cs[x].index < cs[y].index
    decreases n
  {
    if n == 0 then []
    else
      var before := CandidatesBelow(h, n - 1);
      if IsStrictLocalMax(h, n - 1) then before + [Candidate(n - 1, h[n - 1])] else before
  }

  /** All strict local maxima of h with their values, in ascending position order. */
  function Candidates(h: seq<real>): seq<Candidate> {
    CandidatesBelow(h, |h|)
  }

  /** x ranks ahead of y in a stable descending sort of candidates listed by ascending position. */
  predicate RanksAhead(x: Candidate, y: Candidate) {
    x.value > y.value || (x.value == y.value && x.index < y.index)
  }

  predicate IsRanked(cs: seq<Candidate>) {
    forall x, y :: 0 <= x < y < |cs| ==> RanksAhead(cs[x], cs[y])
  }

  /** Inserts c in front of the first entry it is at least as strong as. */
  function Insert(c: Candidate, ranked: seq<Candidate>): (r: seq<Candidate>)
    ensures multiset(r) == multiset(ranked) + multiset{c}
    decreases |ranked|
  {
    if ranked == [] || c.value >= ranked[0].value then [c] + ranked
    else
      assert ranked == [ranked[0]] + ranked[1..];
      [ranked[0]] + Insert(c, ranked[1..])
  }

  /** Sorts by value, strongest first; an earlier entry stays ahead of a later one of equal value. */
  function Rank(cs: seq<Candidate>): (r: seq<Candidate>)
    ensures multiset(r) == multiset(cs)
    decreases |cs|
  {
    if cs == [] then []
    else
      assert cs == [cs[0]] + cs[1..];
      Insert(cs[0], Rank(cs[1..]))
  }

  lemma {:induction false} InsertKeepsRanked(c: Candidate, ranked: seq<Candidate>)
    requires IsRanked(ranked)
    requires forall y :: y in ranked ==> c.index < y.index
    ensures IsRanked(Insert(c, ranked))
    decreases |ranked|
  {
    if ranked == [] || c.value >= ranked[0].value {
      var r := [c] + ranked;
      forall x, y | 0 <= x < y < |r| ensures RanksAhead(r[x], r[y]) {
        if x == 0 {
          assert r[y] == ranked[y - 1] && r[y] in ranked;
          if y > 1 {
            assert RanksAhead(ranked[0], ranked[y - 1]);
          }
        } else {
          assert r[x] == ranked[x - 1] && r[y] == ranked[y - 1];
        }
      }
    } else {
      var rest := ranked[1..];
      forall y | y in rest ensures c.index < y.index {
        assert y in ranked;
      }
      InsertKeepsRanked(c, rest);
      var tail := Insert(c, rest);
      var r := [ranked[0]] + tail;
      forall x, y | 0 <= x < y < |r| ensures RanksAhead(r[x], r[y]) {
        if x == 0 {
          var z := r[y];
          assert z == tail[y - 1];
          assert z in multiset(tail);
          if z == c {
          } else {
            assert z in multiset(rest);
            var j :| 0 <= j < |rest| && rest[j] == z;
            assert RanksAhead(ranked[0], ranked[j + 1]);
          }
        } else {
          assert r[x] == tail[x - 1] && r[y] == tail[y - 1];
        }
      }
    }
  }

  /** Ranking a position-ordered candidate list yields the stable descending order. */
  lemma {:induction false} RankIsStableDescending(cs: seq<Candidate>)
    requires forall x, y :: 0 <= x < y < |cs| ==> cs[x].index < cs[y].index
    ensures IsRanked(Rank(cs))
    decreases |cs|
  {
    if cs != [] {
      var rest := cs[1..];
      RankIsStableDescending(rest);
      forall y | y in Rank(rest) ensures cs[0].index < y.index {
        assert y in multiset(Rank(rest));
        assert y in multiset(rest);
        var j :| 0 <= j < |rest| && rest[j] == y;
        assert cs[j + 1] == y;
      }
      InsertKeepsRanked(cs[0], Rank(rest));
    }
  }

  /** Passes the source's acceptance test against the strongest candidate's value. */
  predicate Strong(c: Candidate, top: real) {
    c.value > 0.0 && c.value > 0.5 * top
  }

  /** Positions of the entries of cs that pass Strong, in list order. */
  function KeepStrong(cs: seq<Candidate>, top: real): seq<int>
    decreases |cs|
  {
    if cs == [] then []
    else
      var last := cs[|cs| - 1];
      KeepStrong(cs[..|cs| - 1], top) + (if Strong(last, top) then [last.index] else [])
  }

  function TopValue(ranked: seq<Candidate>): real {
    if ranked == [] then 0.0 else ranked[0].value
  }

  function Min(a: int, b: int): int {
    if a < b then a else b
  }

  /** The ranked candidate list of a magnitude vector. */
  function Ranking(h: seq<real>): seq<Candidate> {
    Rank(Candidates(h))
  }

  /** Every position KeepStrong reports belongs to an entry of the list. */
  lemma {:induction false} KeepStrongSelects(cs: seq<Candidate>, top: real)
    ensures forall i :: i in KeepStrong(cs, top) ==> exists c :: c in cs && c.index == i
    decreases |cs|
  {
    if cs != [] {
      var init := cs[..|cs| - 1];
      KeepStrongSelects(init, top);
      forall i | i in KeepStrong(cs, top) ensures exists c :: c in cs && c.index == i {
        if i in KeepStrong(init, top) {
          var c :| c in init && c.index == i;
          assert c in cs;
        } else {
          assert cs[|cs| - 1] in cs;
        }
      }
    }
  }

  /** The peaks reported for h: the strong entries among the first five of the ranking.
      Each lies strictly inside h. */
  function Peaks(h: seq<real>): (r: seq<int>)
    ensures forall i :: i in r ==> IsStrictLocalMax(h, i)
  {
    var ranked := Ranking(h);
    var firstFive := ranked[..Min(MaxPeaks, |ranked|)];
    KeepStrongSelects(firstFive, TopValue(ranked));
    assert forall c :: c in firstFive ==> c in multiset(Candidates(h));
    KeepStrong(firstFive, TopValue(ranked))
  }

  /** On a list of non-increasing values the strong entries form a prefix. */
  lemma {:induction false} KeepStrongIsPrefix(cs: seq<Candidate>, top: real)
    requires forall x, y :: 0 <= x < y < |cs| ==> cs[x].value >= cs[y].value
    ensures |KeepStrong(cs, top)| <= |cs|
    ensures forall r :: 0 <= r < |KeepStrong(cs, top)| ==> KeepStrong(cs, top)[r] == cs[r].index
    ensures forall r :: 0 <= r < |cs| ==> (r < |KeepStrong(cs, top)| <==> Strong(cs[r], top))
    decreases |cs|
  {
    if cs != [] {
      var init := cs[..|cs| - 1];
      var last := cs[|cs| - 1];
      KeepStrongIsPrefix(init, top);
      if Strong(last, top) {
        forall r | 0 <= r < |init| ensures Strong(init[r], top) {
          assert cs[r].value >= last.value;
        }
      }
    }
  }

  /** What the source computes, step by step: local maxima, stable descending sort, then a
      filtering loop over the first five. */
  method GetPeaks(histogram: seq<real>) returns (result: seq<int>)
    ensures result == Peaks(histogram)
    ensures |result| <= MaxPeaks
    ensures forall i :: i in result ==> IsStrictLocalMax(histogram, i)
  {
    var peaks := Rank(Candidates(histogram));
    var firstFive := peaks[..Min(MaxPeaks, |peaks|)];
    result := [];
    for k := 0 to |firstFive|
      invariant result == KeepStrong(firstFive[..k], TopValue(peaks))
    {
      var peak := firstFive[k];
      assert firstFive[..k + 1][..k] == firstFive[..k];
      if peak.value > 0.0 && peak.value > 0.5 * peaks[0].value {
        result := result + [peak.index];
      }
    }
    assert firstFive[..|firstFive|] == firstFive;
    PeaksAreLocalMaxima(histogram);
  }

  /** The reported peaks are the strong entries of the ranking's first five, and they come
      first: the result is a prefix of the ranking, cut where the first weak entry appears. */
  lemma PeaksArePrefixOfRanking(h: seq<real>)
    ensures IsRanked(Ranking(h)) && multiset(Ranking(h)) == multiset(Candidates(h))
    ensures |Peaks(h)| <= Min(MaxPeaks, |Ranking(h)|)
    ensures forall r :: 0 <= r < |Peaks(h)| ==> Peaks(h)[r] == Ranking(h)[r].index
    ensures forall r :: 0 <= r < Min(MaxPeaks, |Ranking(h)|) ==>
              (r < |Peaks(h)| <==> Strong(Ranking(h)[r], Ranking(h)[0].value))
  {
    var ranked := Ranking(h);
    RankIsStableDescending(Candidates(h));
    var n := Min(MaxPeaks, |ranked|);
    var firstFive := ranked[..n];
    var top := TopValue(ranked);
    assert Peaks(h) == KeepStrong(firstFive, top);
    forall x, y | 0 <= x < y < |firstFive| ensures firstFive[x].value >= firstFive[y].value {
      assert RanksAhead(ranked[x], ranked[y]);
    }
    KeepStrongIsPrefix(firstFive, top);
    assert forall r :: 0 <= r < n ==> firstFive[r] == ranked[r];
  }

  /** A ranked entry is a strict local maximum carrying its own value. */
  lemma RankedEntryIsLocalMax(h: seq<real>, r: int)
    requires 0 <= r < |Ranking(h)|
    ensures IsStrictLocalMax(h, Ranking(h)[r].index) && Ranking(h)[r].value == h[Ranking(h)[r].index]
  {
    var c := Ranking(h)[r];
    assert c in multiset(Ranking(h));
    assert c in multiset(Candidates(h));
  }

  /** At most five peaks, each a strict local maximum (never the first or last position). */
  lemma PeaksAreLocalMaxima(h: seq<real>)
    ensures |Peaks(h)| <= MaxPeaks
    ensures forall i :: i in Peaks(h) ==> IsStrictLocalMax(h, i) && 0 < i < |h| - 1
  {
    PeaksArePrefixOfRanking(h);
    forall i | i in Peaks(h) ensures IsStrictLocalMax(h, i) {
      var r :| 0 <= r < |Peaks(h)| && Peaks(h)[r] == i;
      RankedEntryIsLocalMax(h, r);
    }
  }

  /** Every peak is positive and more than half of every strict local maximum; with no strict
      local maximum there is no peak. */
  lemma PeaksAreStrong(h: seq<real>)
    ensures forall i, j :: i in Peaks(h) && IsStrictLocalMax(h, j) ==> h[i] > 0.0 && h[i] > 0.5 * h[j]
    ensures (forall j :: 0 <= j < |h| ==> !IsStrictLocalMax(h, j)) ==> Peaks(h) == []
  {
    var ranked := Ranking(h);
    PeaksArePrefixOfRanking(h);
    forall i, j | i in Peaks(h) && IsStrictLocalMax(h, j) ensures h[i] > 0.0 && h[i] > 0.5 * h[j] {
      var r :| 0 <= r < |Peaks(h)| && Peaks(h)[r] == i;
      RankedEntryIsLocalMax(h, r);
      var cj := Candidate(j, h[j]);
      assert cj in Candidates(h);
      assert cj in multiset(ranked);
      var q :| 0 <= q < |ranked| && ranked[q] == cj;
      if q > 0 {
        assert RanksAhead(ranked[0], ranked[q]);
      }
    }
    if Peaks(h) != [] {
      RankedEntryIsLocalMax(h, 0);
    }
  }

  /** The peaks come strongest first; of two equal peaks the lower position comes first. */
  lemma PeaksAreOrdered(h: seq<real>)
    ensures forall x :: 0 <= x < |Peaks(h)| ==> 0 < Peaks(h)[x] < |h| - 1
    ensures forall x, y :: 0 <= x < y < |Peaks(h)| ==>
              h[Peaks(h)[x]] > h[Peaks(h)[y]] || (h[Peaks(h)[x]] == h[Peaks(h)[y]] && Peaks(h)[x] < Peaks(h)[y])
  {
    PeaksArePrefixOfRanking(h);
    assert forall x :: 0 <= x < |Peaks(h)| ==> Peaks(h)[x] in Peaks(h);
    forall x, y | 0 <= x < y < |Peaks(h)|
      ensures h[Peaks(h)[x]] > h[Peaks(h)[y]] || (h[Peaks(h)[x]] == h[Peaks(h)[y]] && Peaks(h)[x] < Peaks(h)[y])
    {
      RankedEntryIsLocalMax(h, x);
      RankedEntryIsLocalMax(h, y);
      assert RanksAhead(Ranking(h)[x], Ranking(h)[y]);
    }
  }
}
