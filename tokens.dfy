/** Token generation by the anchor-point method (get_tokens).

    Every peak of every frame serves as an anchor. The frames one to four steps
    after the anchor's frame (and before the end of the series) are searched, and
    every peak there within eight bins of the anchor becomes the target of one
    token. A token carries the key (anchor, target, frame distance), the anchor
    frame's start time in seconds, and the name of the source recording.

    The tokens are specified through Pairing: the four positions (anchor frame,
    rank of the anchor among that frame's peaks, search frame, rank of the
    target among the search frame's peaks) that the source's four nested loops
    visit. Pairings lists every qualifying pairing once, in the loops' order,
    and the tokens are the pairings' tokens in that order. */
module Tokens {
  import P = Peaks
  import S = Spectrogram
  import F = Suppression

  /** The search starts this many frames after the anchor frame. */
  const LeftOffset: nat := 1
  /** Number of frames searched after the anchor frame. */
  const Width: nat := 4
  /** Height of the search band in bins; a target lies within Height / 2 bins of its anchor. */
  const Height: nat := 16

  /** Defaults of the source's entry point. */
  const DefaultWindowSize: nat := 1024
  const DefaultBinSize: nat := 2

  /** The hash key of a token: anchor bin, target bin, and frame distance. */
  datatype Key = Key(anchor: int, target: int, delta: int)

  /** A token: the key, the anchor frame's start time in seconds, and the recording's name. */
  datatype Token = Token(key: Key, time: real, source: string)

  /** Positions visited by the nested loops: anchor frame, anchor rank, search frame, target rank. */
  datatype Pairing = Pairing(frame: nat, anchorRank: nat, search: nat, targetRank: nat)

  /** The target bin m lies in the band around the anchor bin a. */
  predicate InBand(a: int, m: int) {
    a - Height / 2 <= m <= a + Height / 2
  }

  /** One past the last frame searched for anchors of frame f. */
  function SearchEnd(fps: seq<F.Fingerprint>, f: nat): int
    requires f < |fps|
  {
    P.Min(fps[f].time + LeftOffset + Width, |fps|)
  }

  /** The pairing names an anchor peak, a search frame in the window after the anchor's
      frame, and a target peak there inside the anchor's band. */
  predicate Qualifies(fps: seq<F.Fingerprint>, p: Pairing) {
    && p.frame < |fps|
    && p.anchorRank < |fps[p.frame].peaks|
    && fps[p.frame].time + LeftOffset <= p.search < SearchEnd(fps, p.frame)
    && p.targetRank < |fps[p.search].peaks|
    && InBand(fps[p.frame].peaks[p.anchorRank], fps[p.search].peaks[p.targetRank])
  }

  /** The loops' visiting order: lexicographic on the four positions. */
  predicate LexLess(p: Pairing, q: Pairing) {
    || p.frame < q.frame
    || (p.frame == q.frame && p.anchorRank < q.anchorRank)
    || (p.frame == q.frame && p.anchorRank == q.anchorRank && p.search < q.search)
    || (p.frame == q.frame && p.anchorRank == q.anchorRank && p.search == q.search && p.targetRank < q.targetRank)
  }

  predicate LexSorted(ps: seq<Pairing>) {
    forall i, j :: 0 <= i < j < |ps| ==> LexLess(ps[i], ps[j])
  }

  lemma SortedConcat(a: seq<Pairing>, b: seq<Pairing>)
    requires LexSorted(a) && LexSorted(b)
    requires forall x, y :: x in a && y in b ==> LexLess(x, y)
    ensures LexSorted(a + b)
  {
    forall i, j | 0 <= i < j < |a + b| ensures LexLess((a + b)[i], (a + b)[j]) {
      if j < |a| {
      } else if i >= |a| {
        assert (a + b)[i] == b[i - |a|] && (a + b)[j] == b[j - |a|];
      } else {
        assert (a + b)[i] in a && (a + b)[j] in b;
      }
    }
  }

  /** Innermost loop: the targets of ranks below n in search frame s for anchor (f, a). */
  function TargetPairings(fps: seq<F.Fingerprint>, f: nat, a: nat, s: nat, n: nat): seq<Pairing>
    requires f < |fps| && a < |fps[f].peaks| && s < |fps| && n <= |fps[s].peaks|
  {
    if n == 0 then []
    else
      var init := TargetPairings(fps, f, a, s, n - 1);
      if InBand(fps[f].peaks[a], fps[s].peaks[n - 1]) then init + [Pairing(f, a, s, n - 1)] else init
  }

  /** Third loop: the pairings of anchor (f, a) whose search frame is below hi. */
  function SearchPairings(fps: seq<F.Fingerprint>, f: nat, a: nat, hi: int): seq<Pairing>
    requires f < |fps| && a < |fps[f].peaks| && hi <= |fps|
    decreases hi
  {
    if hi <= fps[f].time + LeftOffset then []
    else SearchPairings(fps, f, a, hi - 1) + TargetPairings(fps, f, a, hi - 1, |fps[hi - 1].peaks|)
  }

  /** Second loop: the pairings of frame f whose anchor rank is below n. */
  function AnchorPairings(fps: seq<F.Fingerprint>, f: nat, n: nat): seq<Pairing>
    requires f < |fps| && n <= |fps[f].peaks|
  {
    if n == 0 then []
    else AnchorPairings(fps, f, n - 1) + SearchPairings(fps, f, n - 1, SearchEnd(fps, f))
  }

  /** Outer loop: the pairings whose anchor frame is below n. */
  function FramePairings(fps: seq<F.Fingerprint>, n: nat): seq<Pairing>
    requires n <= |fps|
  {
    if n == 0 then []
    else FramePairings(fps, n - 1) + AnchorPairings(fps, n - 1, |fps[n - 1].peaks|)
  }

  /** Every qualifying pairing, in the loops' order. */
  function Pairings(fps: seq<F.Fingerprint>): seq<Pairing> {
    FramePairings(fps, |fps|)
  }

  lemma {:induction false} TargetPairingsSpec(fps: seq<F.Fingerprint>, f: nat, a: nat, s: nat, n: nat)
    requires f < |fps| && a < |fps[f].peaks|
    requires fps[f].time + LeftOffset <= s < SearchEnd(fps, f) && n <= |fps[s].peaks|
    ensures forall p :: p in TargetPairings(fps, f, a, s, n) <==>
              Qualifies(fps, p) && p.frame == f && p.anchorRank == a && p.search == s && p.targetRank < n
    ensures LexSorted(TargetPairings(fps, f, a, s, n))
  {
    if n > 0 {
      var j := n - 1;
      var init := TargetPairings(fps, f, a, s, j);
      TargetPairingsSpec(fps, f, a, s, j);
      if InBand(fps[f].peaks[a], fps[s].peaks[j]) {
        assert TargetPairings(fps, f, a, s, n) == init + [Pairing(f, a, s, j)];
        SortedConcat(init, [Pairing(f, a, s, j)]);
      } else {
        assert TargetPairings(fps, f, a, s, n) == init;
      }
    }
  }

  lemma {:induction false} SearchPairingsSpec(fps: seq<F.Fingerprint>, f: nat, a: nat, hi: int)
    requires f < |fps| && a < |fps[f].peaks| && hi <= SearchEnd(fps, f)
    ensures forall p :: p in SearchPairings(fps, f, a, hi) <==>
              Qualifies(fps, p) && p.frame == f && p.anchorRank == a && p.search < hi
    ensures LexSorted(SearchPairings(fps, f, a, hi))
    decreases hi
  {
    if hi > fps[f].time + LeftOffset {
      var s := hi - 1;
      var init := SearchPairings(fps, f, a, s);
      var last := TargetPairings(fps, f, a, s, |fps[s].peaks|);
      assert SearchPairings(fps, f, a, hi) == init + last;
      SearchPairingsSpec(fps, f, a, s);
      TargetPairingsSpec(fps, f, a, s, |fps[s].peaks|);
      SortedConcat(init, last);
    }
  }

  lemma {:induction false} AnchorPairingsSpec(fps: seq<F.Fingerprint>, f: nat, n: nat)
    requires f < |fps| && n <= |fps[f].peaks|
    ensures forall p :: p in AnchorPairings(fps, f, n) <==> Qualifies(fps, p) && p.frame == f && p.anchorRank < n
    ensures LexSorted(AnchorPairings(fps, f, n))
  {
    if n > 0 {
      var a := n - 1;
      var init := AnchorPairings(fps, f, a);
      var last := SearchPairings(fps, f, a, SearchEnd(fps, f));
      assert AnchorPairings(fps, f, n) == init + last;
      AnchorPairingsSpec(fps, f, a);
      SearchPairingsSpec(fps, f, a, SearchEnd(fps, f));
      SortedConcat(init, last);
    }
  }

  lemma {:induction false} FramePairingsSpec(fps: seq<F.Fingerprint>, n: nat)
    requires n <= |fps|
    ensures forall p :: p in FramePairings(fps, n) <==> Qualifies(fps, p) && p.frame < n
    ensures LexSorted(FramePairings(fps, n))
  {
    if n > 0 {
      var f := n - 1;
      var init := FramePairings(fps, f);
      var last := AnchorPairings(fps, f, |fps[f].peaks|);
      assert FramePairings(fps, n) == init + last;
      FramePairingsSpec(fps, f);
      AnchorPairingsSpec(fps, f, |fps[f].peaks|);
      SortedConcat(init, last);
    }
  }

  /** Pairings holds exactly the qualifying pairings, in strictly increasing lexicographic
      order: the order in which the nested loops visit them. */
  lemma PairingsSpec(fps: seq<F.Fingerprint>)
    ensures forall p :: p in Pairings(fps) <==> Qualifies(fps, p)
    ensures LexSorted(Pairings(fps))
  {
    FramePairingsSpec(fps, |fps|);
  }

  /** Start time in seconds of a frame: time * window size / sample rate. */
  function RealTime(time: nat, windowSize: nat, sampleRate: nat): real
    requires sampleRate > 0
  {
    (time as real) * (windowSize as real) / (sampleRate as real)
  }

  /** The token a qualifying pairing produces. */
  function TokenOf(fps: seq<F.Fingerprint>, p: Pairing, windowSize: nat, sampleRate: nat, source: string): Token
    requires Qualifies(fps, p) && sampleRate > 0
  {
    Token(Key(fps[p.frame].peaks[p.anchorRank], fps[p.search].peaks[p.targetRank], p.search - fps[p.frame].time),
          RealTime(fps[p.frame].time, windowSize, sampleRate), source)
  }

  /** tokens are the tokens of the qualifying pairings ps, position by position. */
  predicate Tokenizes(tokens: seq<Token>, fps: seq<F.Fingerprint>, ps: seq<Pairing>,
                      windowSize: nat, sampleRate: nat, source: string)
    requires sampleRate > 0
  {
    && |tokens| == |ps|
    && forall i :: 0 <= i < |ps| ==> Qualifies(fps, ps[i]) && tokens[i] == TokenOf(fps, ps[i], windowSize, sampleRate, source)
  }

  /** The tokens of a fingerprint series: one per qualifying pairing, in the loops' order. */
  function TokensOf(fps: seq<F.Fingerprint>, windowSize: nat, sampleRate: nat, source: string): (tokens: seq<Token>)
    requires sampleRate > 0
    ensures Tokenizes(tokens, fps, Pairings(fps), windowSize, sampleRate, source)
  {
    var ps := Pairings(fps);
    PairingsSpec(fps);
    assert forall i :: 0 <= i < |ps| ==> ps[i] in ps;
    seq(|ps|, i requires 0 <= i < |ps| => TokenOf(fps, ps[i], windowSize, sampleRate, source))
  }

  lemma TokenizesSnoc(tokens: seq<Token>, fps: seq<F.Fingerprint>, ps: seq<Pairing>, p: Pairing,
                      windowSize: nat, sampleRate: nat, source: string)
    requires sampleRate > 0 && Tokenizes(tokens, fps, ps, windowSize, sampleRate, source) && Qualifies(fps, p)
    ensures Tokenizes(tokens + [TokenOf(fps, p, windowSize, sampleRate, source)], fps, ps + [p],
                      windowSize, sampleRate, source)
  {
    var tokens' := tokens + [TokenOf(fps, p, windowSize, sampleRate, source)];
    forall i | 0 <= i < |ps + [p]|
      ensures Qualifies(fps, (ps + [p])[i]) && tokens'[i] == TokenOf(fps, (ps + [p])[i], windowSize, sampleRate, source)
    {
      if i < |ps| {
        assert (ps + [p])[i] == ps[i];
      }
    }
  }

  lemma TokenizesConcat(t1: seq<Token>, t2: seq<Token>, fps: seq<F.Fingerprint>, p1: seq<Pairing>, p2: seq<Pairing>,
                        windowSize: nat, sampleRate: nat, source: string)
    requires sampleRate > 0
    requires Tokenizes(t1, fps, p1, windowSize, sampleRate, source)
    requires Tokenizes(t2, fps, p2, windowSize, sampleRate, source)
    ensures Tokenizes(t1 + t2, fps, p1 + p2, windowSize, sampleRate, source)
  {
    forall i | 0 <= i < |p1 + p2|
      ensures Qualifies(fps, (p1 + p2)[i]) && (t1 + t2)[i] == TokenOf(fps, (p1 + p2)[i], windowSize, sampleRate, source)
    {
      if i < |p1| {
        assert (p1 + p2)[i] == p1[i] && (t1 + t2)[i] == t1[i];
      } else {
        assert (p1 + p2)[i] == p2[i - |p1|] && (t1 + t2)[i] == t2[i - |t1|];
      }
    }
  }

  /** Innermost loop: the tokens of anchor rank a of frame f against the peaks of search frame s. */
  method MatchTokens(fps: seq<F.Fingerprint>, f: nat, a: nat, s: nat, minFreq: int, maxFreq: int, realtime: real,
                     windowSize: nat, sampleRate: nat, source: string)
    returns (chunk: seq<Token>)
    requires f < |fps| && a < |fps[f].peaks| && fps[f].time + LeftOffset <= s < SearchEnd(fps, f)
    requires sampleRate > 0 && realtime == RealTime(fps[f].time, windowSize, sampleRate)
    requires minFreq == fps[f].peaks[a] - Height / 2 && maxFreq == fps[f].peaks[a] + Height / 2
    ensures Tokenizes(chunk, fps, TargetPairings(fps, f, a, s, |fps[s].peaks|), windowSize, sampleRate, source)
  {
    chunk := [];
    var matches := fps[s].peaks;
    for j := 0 to |matches|
      invariant Tokenizes(chunk, fps, TargetPairings(fps, f, a, s, j), windowSize, sampleRate, source)
    {
      var matchpoint := matches[j];
      if minFreq <= matchpoint <= maxFreq {
        var p := Pairing(f, a, s, j);
        TokenizesSnoc(chunk, fps, TargetPairings(fps, f, a, s, j), p, windowSize, sampleRate, source);
        chunk := chunk + [Token(Key(fps[f].peaks[a], matchpoint, s - fps[f].time), realtime, source)];
      }
    }
  }

  /** Third loop: the tokens of anchor rank a of frame f against every frame of its search window. */
  method SearchTokens(fps: seq<F.Fingerprint>, f: nat, a: nat, realtime: real,
                      windowSize: nat, sampleRate: nat, source: string)
    returns (chunk: seq<Token>)
    requires f < |fps| && a < |fps[f].peaks|
    requires sampleRate > 0 && realtime == RealTime(fps[f].time, windowSize, sampleRate)
    ensures Tokenizes(chunk, fps, SearchPairings(fps, f, a, SearchEnd(fps, f)), windowSize, sampleRate, source)
  {
    var time := fps[f].time;
    var anchor := fps[f].peaks[a];
    var minFreq := anchor - Height / 2;
    var maxFreq := anchor + Height / 2;
    var lo := time + LeftOffset;
    var hi := P.Min(time + LeftOffset + Width, |fps|);
    chunk := [];
    var s := lo;
    while s < hi
      invariant lo <= s && (s <= hi || s == lo)
      invariant Tokenizes(chunk, fps, SearchPairings(fps, f, a, P.Min(s, hi)), windowSize, sampleRate, source)
      decreases hi - s
    {
      var found := MatchTokens(fps, f, a, s, minFreq, maxFreq, realtime, windowSize, sampleRate, source);
      TokenizesConcat(chunk, found, fps, SearchPairings(fps, f, a, s), TargetPairings(fps, f, a, s, |fps[s].peaks|),
                      windowSize, sampleRate, source);
      chunk := chunk + found;
      s := s + 1;
    }
  }

  /** Second loop: the tokens anchored in frame f. */
  method FrameTokens(fps: seq<F.Fingerprint>, f: nat, windowSize: nat, sampleRate: nat, source: string)
    returns (chunk: seq<Token>)
    requires f < |fps| && sampleRate > 0
    ensures Tokenizes(chunk, fps, AnchorPairings(fps, f, |fps[f].peaks|), windowSize, sampleRate, source)
  {
    var realtime := RealTime(fps[f].time, windowSize, sampleRate);
    var peaks := fps[f].peaks;
    chunk := [];
    for a := 0 to |peaks|
      invariant Tokenizes(chunk, fps, AnchorPairings(fps, f, a), windowSize, sampleRate, source)
    {
      var found := SearchTokens(fps, f, a, realtime, windowSize, sampleRate, source);
      TokenizesConcat(chunk, found, fps, AnchorPairings(fps, f, a), SearchPairings(fps, f, a, SearchEnd(fps, f)),
                      windowSize, sampleRate, source);
      chunk := chunk + found;
    }
  }

  /** Outer loop: the tokens of a whole fingerprint series. */
  method PairTokens(fingerprints: seq<F.Fingerprint>, windowSize: nat, sampleRate: nat, source: string)
    returns (tokens: seq<Token>)
    requires sampleRate > 0
    ensures tokens == TokensOf(fingerprints, windowSize, sampleRate, source)
  {
    tokens := [];
    for f := 0 to |fingerprints|
      invariant Tokenizes(tokens, fingerprints, FramePairings(fingerprints, f), windowSize, sampleRate, source)
    {
      var found := FrameTokens(fingerprints, f, windowSize, sampleRate, source);
      TokenizesConcat(tokens, found, fingerprints, FramePairings(fingerprints, f),
                      AnchorPairings(fingerprints, f, |fingerprints[f].peaks|), windowSize, sampleRate, source);
      tokens := tokens + found;
    }
    assert tokens == TokensOf(fingerprints, windowSize, sampleRate, source);
  }

  /** The series of fingerprints the source computes for a recording. */
  function Series(samples: seq<real>, windowSize: nat, binSize: nat,
                  fftMag: seq<real> -> seq<real>, smooth: seq<real> -> seq<real>): seq<F.Fingerprint>
    requires windowSize > 0 && binSize > 0 && S.IsRfftMagnitude(fftMag) && F.PreservesLength(smooth)
  {
    F.FingerprintSeries(S.SpectrogramRows(samples, windowSize, binSize, fftMag),
                        S.Bands(windowSize, binSize), P.Peaks, smooth)
  }

  /** The source's entry point: fingerprints a recording, then pairs its peaks into tokens. */
  method GetTokens(samples: seq<real>, windowSize: nat, binSize: nat, sampleRate: nat, source: string,
                   fftMag: seq<real> -> seq<real>, smooth: seq<real> -> seq<real>)
    returns (tokens: seq<Token>)
    requires windowSize > 0 && binSize > 0 && sampleRate > 0
    requires S.IsRfftMagnitude(fftMag) && F.PreservesLength(smooth)
    ensures tokens == TokensOf(Series(samples, windowSize, binSize, fftMag, smooth), windowSize, sampleRate, source)
  {
    var fingerprints := F.GetFingerprints(samples, windowSize, binSize, fftMag, smooth);
    tokens := PairTokens(fingerprints, windowSize, sampleRate, source);
  }

  /** Lexicographic order is a strict order: never both ways. */
  lemma LexLessAsymmetric(p: Pairing, q: Pairing)
    ensures !(LexLess(p, q) && LexLess(q, p))
  {
  }

  /** Two strictly ordered lists with the same members are the same list. */
  lemma {:induction false} LexSortedUnique(xs: seq<Pairing>, ys: seq<Pairing>)
    requires LexSorted(xs) && LexSorted(ys)
    requires forall p :: p in xs <==> p in ys
    ensures xs == ys
    decreases |xs|
  {
    assert ys == [] || ys[0] in xs;
    if xs != [] {
      assert xs[0] in ys && ys[0] in xs;
      assert xs[0] == ys[0];
      assert xs == [xs[0]] + xs[1..] && ys == [ys[0]] + ys[1..];
      forall p ensures p in xs[1..] <==> p in ys[1..] {
        if p in xs[1..] {
          var i :| 0 <= i < |xs[1..]| && xs[1..][i] == p;
          assert LexLess(xs[0], xs[i + 1]);
          LexLessAsymmetric(xs[0], p);
          assert p in ys && p != ys[0];
        }
        if p in ys[1..] {
          var j :| 0 <= j < |ys[1..]| && ys[1..][j] == p;
          assert LexLess(ys[0], ys[j + 1]);
          LexLessAsymmetric(ys[0], p);
          assert p in xs && p != xs[0];
        }
      }
      LexSortedUnique(xs[1..], ys[1..]);
    }
  }

  /** The tokens follow the one canonical enumeration of qualifying pairings: any strictly
      ordered list holding exactly the qualifying pairings is Pairings, so the tokens are one
      per qualifying pairing, in the loops' order, with no repeats. */
  lemma TokensFollowQualifyingPairings(fps: seq<F.Fingerprint>, ps: seq<Pairing>,
                                       windowSize: nat, sampleRate: nat, source: string)
    requires sampleRate > 0
    requires LexSorted(ps) && forall p :: p in ps <==> Qualifies(fps, p)
    ensures Tokenizes(TokensOf(fps, windowSize, sampleRate, source), fps, ps, windowSize, sampleRate, source)
    ensures forall i, j :: 0 <= i < j < |ps| ==> ps[i] != ps[j]
  {
    PairingsSpec(fps);
    LexSortedUnique(ps, Pairings(fps));
    forall i, j | 0 <= i < j < |ps| ensures ps[i] != ps[j] {
      LexLessAsymmetric(ps[i], ps[j]);
    }
  }

  /** Every token links an anchor peak of its frame to a target peak of a frame one to four
      frames later that exists in the series, at most Height / 2 bins away, and is stamped
      with the anchor frame's start time. */
  lemma TokensAreBounded(fps: seq<F.Fingerprint>, windowSize: nat, sampleRate: nat, source: string)
    requires sampleRate > 0
    ensures forall i :: 0 <= i < |TokensOf(fps, windowSize, sampleRate, source)| ==>
              var tok := TokensOf(fps, windowSize, sampleRate, source)[i];
              var p := Pairings(fps)[i];
              && LeftOffset <= tok.key.delta <= Width
              && tok.key.anchor - 8 <= tok.key.target <= tok.key.anchor + 8
              && p.search < |fps|
              && tok.key.anchor in fps[p.frame].peaks
              && tok.key.target in fps[p.search].peaks
              && tok.key.delta == p.search - fps[p.frame].time
              && tok.time == RealTime(fps[p.frame].time, windowSize, sampleRate)
  {
    var tokens := TokensOf(fps, windowSize, sampleRate, source);
    var ps := Pairings(fps);
    forall i | 0 <= i < |tokens|
      ensures LeftOffset <= tokens[i].key.delta <= Width
    {
      assert Qualifies(fps, ps[i]);
    }
  }

  /** A series without peaks yields no token. */
  lemma NoPeaksNoTokens(fps: seq<F.Fingerprint>, windowSize: nat, sampleRate: nat, source: string)
    requires sampleRate > 0
    requires forall f :: 0 <= f < |fps| ==> fps[f].peaks == []
    ensures TokensOf(fps, windowSize, sampleRate, source) == []
  {
    var ps := Pairings(fps);
    PairingsSpec(fps);
    assert ps == [] || ps[0] in ps;
  }

  /** A series is timed when entry t carries time stamp t, as the suppression pass produces. */
  predicate IsTimed(fps: seq<F.Fingerprint>) {
    forall t :: 0 <= t < |fps| ==> fps[t].time == t
  }

  /** On a timed series, the target frame is 1 to 4 frames after the anchor frame and inside
      the series, delta is that gap, and the time stamp is the anchor frame's start in seconds. */
  lemma TimedTokens(fps: seq<F.Fingerprint>, windowSize: nat, sampleRate: nat, source: string)
    requires IsTimed(fps) && sampleRate > 0
    ensures forall i :: 0 <= i < |TokensOf(fps, windowSize, sampleRate, source)| ==>
              var tok := TokensOf(fps, windowSize, sampleRate, source)[i];
              var p := Pairings(fps)[i];
              && p.frame + LeftOffset <= p.search <= p.frame + Width
              && p.search < |fps|
              && tok.key.delta == p.search - p.frame
              && tok.time == RealTime(p.frame, windowSize, sampleRate)
              && tok.key.anchor in fps[p.frame].peaks
              && tok.key.target in fps[p.search].peaks
  {
    var tokens := TokensOf(fps, windowSize, sampleRate, source);
    var ps := Pairings(fps);
    TokensAreBounded(fps, windowSize, sampleRate, source);
    forall i | 0 <= i < |tokens|
      ensures && ps[i].frame + LeftOffset <= ps[i].search <= ps[i].frame + Width
              && ps[i].search < |fps|
              && tokens[i].key.delta == ps[i].search - ps[i].frame
              && tokens[i].time == RealTime(ps[i].frame, windowSize, sampleRate)
              && tokens[i].key.anchor in fps[ps[i].frame].peaks
              && tokens[i].key.target in fps[ps[i].search].peaks
    {
      var p := ps[i];
      assert Qualifies(fps, p);
      assert fps[p.frame].time == p.frame;
    }
  }

  /** The series the suppression pass computes is timed, and its entry t holds the peaks of frame t. */
  lemma SeriesIsTimed(rows: seq<seq<real>>, width: nat, pick: seq<real> -> seq<int>, smooth: seq<real> -> seq<real>)
    requires F.IsGrid(rows, width) && F.PreservesLength(smooth)
    ensures var fps := F.FingerprintSeries(rows, width, pick, smooth);
            && IsTimed(fps) && |fps| == |rows|
            && forall t :: 0 <= t < |fps| ==> fps[t].peaks == F.PeaksAt(rows, width, pick, smooth, t)
  {
  }

  /** Every frame reports at most MaxPeaks peaks, as Peaks guarantees. */
  predicate FewPeaks(fps: seq<F.Fingerprint>) {
    forall f :: 0 <= f < |fps| ==> |fps[f].peaks| <= P.MaxPeaks
  }

  lemma {:induction false} TargetPairingsCount(fps: seq<F.Fingerprint>, f: nat, a: nat, s: nat, n: nat)
    requires f < |fps| && a < |fps[f].peaks|
    requires fps[f].time + LeftOffset <= s < SearchEnd(fps, f) && n <= |fps[s].peaks|
    ensures |TargetPairings(fps, f, a, s, n)| <= n
  {
    if n > 0 {
      var j := n - 1;
      TargetPairingsCount(fps, f, a, s, j);
      assert |TargetPairings(fps, f, a, s, n)| <= |TargetPairings(fps, f, a, s, j)| + 1;
    }
  }

  lemma {:induction false} SearchPairingsCount(fps: seq<F.Fingerprint>, f: nat, a: nat, hi: int)
    requires f < |fps| && a < |fps[f].peaks| && hi <= SearchEnd(fps, f) && FewPeaks(fps)
    ensures hi <= fps[f].time + LeftOffset ==> SearchPairings(fps, f, a, hi) == []
    ensures hi > fps[f].time + LeftOffset ==> |SearchPairings(fps, f, a, hi)| <= 5 * (hi - fps[f].time - LeftOffset)
    decreases hi
  {
    var lo := fps[f].time + LeftOffset;
    if hi > lo {
      var s := hi - 1;
      var matches := |fps[s].peaks|;
      SearchPairingsCount(fps, f, a, s);
      TargetPairingsCount(fps, f, a, s, matches);
      assert SearchPairings(fps, f, a, hi) == SearchPairings(fps, f, a, s) + TargetPairings(fps, f, a, s, matches);
      assert matches <= 5;
    }
  }

  lemma {:induction false} AnchorPairingsCount(fps: seq<F.Fingerprint>, f: nat, n: nat)
    requires f < |fps| && n <= |fps[f].peaks| && FewPeaks(fps)
    ensures |AnchorPairings(fps, f, n)| <= 20 * n
  {
    if n > 0 {
      var a := n - 1;
      var hi := SearchEnd(fps, f);
      AnchorPairingsCount(fps, f, a);
      SearchPairingsCount(fps, f, a, hi);
      assert AnchorPairings(fps, f, n) == AnchorPairings(fps, f, a) + SearchPairings(fps, f, a, hi);
      assert hi <= fps[f].time + LeftOffset + Width;
    }
  }

  lemma {:induction false} FramePairingsCount(fps: seq<F.Fingerprint>, n: nat)
    requires n <= |fps| && FewPeaks(fps)
    ensures |FramePairings(fps, n)| <= 100 * n
  {
    if n > 0 {
      var f := n - 1;
      var anchors := |fps[f].peaks|;
      FramePairingsCount(fps, f);
      AnchorPairingsCount(fps, f, anchors);
      assert FramePairings(fps, n) == FramePairings(fps, f) + AnchorPairings(fps, f, anchors);
      assert anchors <= 5;
    }
  }

  /** With at most five peaks per frame, each anchor pairs with at most five peaks in each
      of four frames, so a series yields at most 100 tokens per frame. */
  lemma TokenCountIsBounded(fps: seq<F.Fingerprint>, windowSize: nat, sampleRate: nat, source: string)
    requires sampleRate > 0 && FewPeaks(fps)
    ensures |TokensOf(fps, windowSize, sampleRate, source)| <= 100 * |fps|
  {
    FramePairingsCount(fps, |fps|);
  }

  /** The series of a recording has at most five peaks per frame. */
  lemma SeriesHasFewPeaks(samples: seq<real>, windowSize: nat, binSize: nat,
                          fftMag: seq<real> -> seq<real>, smooth: seq<real> -> seq<real>)
    requires windowSize > 0 && binSize > 0 && S.IsRfftMagnitude(fftMag) && F.PreservesLength(smooth)
    ensures FewPeaks(Series(samples, windowSize, binSize, fftMag, smooth))
  {
    var rows := S.SpectrogramRows(samples, windowSize, binSize, fftMag);
    var width := S.Bands(windowSize, binSize);
    var fps := Series(samples, windowSize, binSize, fftMag, smooth);
    forall f | 0 <= f < |fps| ensures |fps[f].peaks| <= P.MaxPeaks {
      P.PeaksAreLocalMaxima(F.Biased(rows[f], F.MaskAt(rows, width, P.Peaks, smooth, f)));
    }
  }
}
