/** The draw order of a room: the full sequence in which the balls 1..75 will be called,
    generated once when the room is created by rejection sampling from a random source. */
module DrawOrder {

  /** The highest ball; the source writes the width of the range as `76 - 1`. */
  const MaxBall: int := 75

  /** The balls 1..MaxBall as a set. */
  function BallSet(): set<int> {
    Interval(1, MaxBall + 1)
  }

  /** The integers lo, lo + 1, ..., hi - 1. */
  function Interval(lo: int, hi: int): (r: set<int>)
    decreases hi - lo
    ensures forall v :: v in r <==> lo <= v < hi
    ensures |r| == if lo <= hi then hi - lo else 0
  {
    if hi <= lo then {} else Interval(lo, hi - 1) + {hi - 1}
  }

  predicate InRange(s: seq<int>) {
    forall k :: 0 <= k < |s| ==> 1 <= s[k] <= MaxBall
  }

  predicate Distinct(s: seq<int>) {
    forall i, j :: 0 <= i < j < |s| ==> s[i] != s[j]
  }

  /** What a room's drawn numbers must be: 75 balls, each in range, none repeated. */
  predicate IsDrawOrder(s: seq<int>) {
    |s| == MaxBall && InRange(s) && Distinct(s)
  }

  function Elements(s: seq<int>): set<int> {
    set x | x in s
  }

  // ---------------------------------------------------------------------------------------------
  // The random source

  /** A value of the random source in [0, 1) is written as sample / resolution with
      sample < resolution. */
  predicate ValidSamples(samples: seq<nat>, resolution: nat) {
    forall k :: 0 <= k < |samples| ==> samples[k] < resolution
  }

  /** One ball drawn from one random value x = sample / resolution: floor(x * (76 - 1)) + 1.
      The result is the b in 1..75 whose slice [(b - 1) / 75, b / 75) of [0, 1) holds x. */
  function Ball(sample: nat, resolution: nat): (b: int)
    requires sample < resolution
    ensures 1 <= b <= MaxBall
    ensures (b - 1) * resolution <= sample * MaxBall < b * resolution
  {
    var q := sample * MaxBall / resolution;
    FloorDivision(sample * MaxBall, resolution);
    assert sample * MaxBall < resolution * MaxBall;
    q + 1
  }

  /** Euclidean division brackets its dividend. */
  lemma FloorDivision(x: nat, d: nat)
    requires d > 0
    ensures (x / d) * d <= x < (x / d + 1) * d
  {
  }

  /** The balls produced by a run of random values, one per value. */
  function Balls(samples: seq<nat>, resolution: nat): (bs: seq<int>)
    requires ValidSamples(samples, resolution)
    ensures |bs| == |samples|
    ensures forall k :: 0 <= k < |bs| ==> bs[k] == Ball(samples[k], resolution)
  {
    seq(|samples|, k requires 0 <= k < |samples| => Ball(samples[k], resolution))
  }

  /** The source's loop ends only on runs in which every ball comes up at least once. */
  predicate CoversAllBalls(samples: seq<nat>, resolution: nat)
    requires ValidSamples(samples, resolution)
  {
    forall v :: 1 <= v <= MaxBall ==> v in Balls(samples, resolution)
  }

  // ---------------------------------------------------------------------------------------------
  // The reference definition: which draws are kept, and in which order

  /** The list the generator holds after a run of draws: a draw is appended when it is not
      already in the list, and ignored otherwise. The list is never longer than the run, and the
      first draw is always the first ball called. */
  function Recorded(draws: seq<int>): (r: seq<int>)
    ensures |r| <= |draws|
    ensures draws != [] ==> r != [] && r[0] == draws[0]
  {
    if draws == [] then []
    else
      var before := Recorded(draws[..|draws| - 1]);
      var d := draws[|draws| - 1];
      if d in before then before else before + [d]
  }

  /** After the first n draws the list still has room, so the loop goes on drawing. */
  predicate NotYetFull(draws: seq<int>, n: nat)
    requires n <= |draws|
  {
    |Recorded(draws[..n])| < MaxBall
  }

  /** The list only grows, so while it has room after n draws it had room after fewer. */
  lemma EarlierNotFull(draws: seq<int>, n: nat)
    requires n <= |draws| && NotYetFull(draws, n)
    ensures forall j :: 0 <= j <= n ==> NotYetFull(draws, j)
  {
    forall j | 0 <= j <= n ensures NotYetFull(draws, j) {
      RecordedExtends(draws[..j], draws[j..n]);
      assert draws[..j] + draws[j..n] == draws[..n];
    }
  }

  /** The list never holds a number twice, and holds exactly the numbers drawn so far. */
  lemma {:induction false} RecordedDistinct(draws: seq<int>)
    ensures Distinct(Recorded(draws))
    ensures forall v :: v in Recorded(draws) <==> v in draws
  {
    if draws != [] {
      var init := draws[..|draws| - 1];
      RecordedDistinct(init);
      assert draws == init + [draws[|draws| - 1]];
    }
  }

  /** Later draws never alter or reorder what the list already holds: they only append. */
  lemma {:induction false} RecordedExtends(draws: seq<int>, more: seq<int>)
    ensures Recorded(draws) <= Recorded(draws + more)
    decreases |more|
  {
    if more == [] {
      assert draws + more == draws;
    } else {
      var init := more[..|more| - 1];
      RecordedExtends(draws, init);
      assert (draws + more)[..|draws + more| - 1] == draws + init;
    }
  }

  /** One more draw: the list either stays as it is or gains that draw at its end. This is the
      definition of `Recorded` unfolded at a prefix of the run, the bridge the loop's invariant
      needs from one iteration to the next. */
  lemma RecordedStep(draws: seq<int>, i: nat)
    requires i < |draws|
    ensures Recorded(draws[..i + 1])
         == if draws[i] in Recorded(draws[..i]) then Recorded(draws[..i]) else Recorded(draws[..i]) + [draws[i]]
  {
    assert draws[..i + 1][..i] == draws[..i];
  }

  /** Once the first n draws of balls fill the list, the rest of the run changes nothing: every
      later ball is already in it. So the list the loop returns is the recorded list of the
      whole run. */
  lemma FullListSettles(draws: seq<int>, n: nat)
    requires n <= |draws| && InRange(draws) && |Recorded(draws[..n])| == MaxBall
    ensures Recorded(draws) == Recorded(draws[..n])
  {
    assert draws[..n] + draws[n..] == draws;
    RecordedExtends(draws[..n], draws[n..]);
    RecordedDistinct(draws);
    var all := Recorded(draws);
    forall k | 0 <= k < |all| ensures 1 <= all[k] <= MaxBall {
      assert all[k] in draws;
    }
    DistinctBallsBound(all);
  }

  // ---------------------------------------------------------------------------------------------
  // Counting: 75 distinct values in a 75-wide range are the whole range

  lemma {:induction false} DistinctElements(s: seq<int>)
    requires Distinct(s)
    ensures |Elements(s)| == |s|
  {
    if s != [] {
      var init := s[..|s| - 1];
      DistinctElements(init);
      assert Elements(s) == Elements(init) + {s[|s| - 1]};
    }
  }

  lemma SubsetSize(a: set<int>, b: set<int>)
    requires a <= b
    ensures |a| <= |b|
    ensures |a| == |b| ==> a == b
  {
    assert b == a + (b - a);
    assert a * (b - a) == {};
  }

  /** A repetition-free list of balls never grows past 75 entries. */
  lemma DistinctBallsBound(s: seq<int>)
    requires InRange(s) && Distinct(s)
    ensures |s| <= MaxBall
  {
    DistinctElements(s);
    SubsetSize(Elements(s), BallSet());
  }

  /** A repetition-free list that holds every ball has at least 75 entries. */
  lemma AllBallsFillList(s: seq<int>)
    requires Distinct(s)
    requires forall v :: 1 <= v <= MaxBall ==> v in s
    ensures |s| >= MaxBall
  {
    DistinctElements(s);
    SubsetSize(BallSet(), Elements(s));
  }

  /** A repetition-free list shorter than 75 misses some ball. */
  lemma ShortListMissesABall(s: seq<int>) returns (v: int)
    requires Distinct(s) && |s| < MaxBall
    ensures 1 <= v <= MaxBall && v !in s
  {
    if forall w :: 1 <= w <= MaxBall ==> w in s {
      AllBallsFillList(s);
      assert false;
    }
    v :| 1 <= v <= MaxBall && v !in s;
  }

  /** While the list is short, a run in which every ball comes up has draws left: the missing
      ball comes up later. */
  lemma DrawsRemain(draws: seq<int>, n: nat)
    requires n <= |draws| && NotYetFull(draws, n)
    requires forall v :: 1 <= v <= MaxBall ==> v in draws
    ensures n < |draws|
  {
    RecordedDistinct(draws[..n]);
    var v := ShortListMissesABall(Recorded(draws[..n]));
    assert v in draws;
    assert v !in draws[..n];
  }

  /** A draw order holds every ball. */
  lemma DrawOrderHasEveryBall(s: seq<int>)
    requires IsDrawOrder(s)
    ensures forall v :: 1 <= v <= MaxBall ==> v in s
  {
    DistinctElements(s);
    SubsetSize(Elements(s), BallSet());
    forall v | 1 <= v <= MaxBall ensures v in s {
      assert v in BallSet();
    }
  }

  /** Appending a ball the list does not hold keeps it a repetition-free list of balls. */
  lemma AppendFresh(s: seq<int>, x: int)
    requires InRange(s) && Distinct(s) && 1 <= x <= MaxBall && x !in s
    ensures InRange(s + [x]) && Distinct(s + [x])
  {
  }

  lemma {:induction false} DistinctCount(s: seq<int>, x: int)
    requires Distinct(s)
    ensures multiset(s)[x] <= 1
  {
    if s != [] {
      var init := s[..|s| - 1];
      DistinctCount(init, x);
      assert s == init + [s[|s| - 1]];
    }
  }

  lemma RepeatCount(s: seq<int>, i: int, j: int)
    requires 0 <= i < j < |s| && s[i] == s[j]
    ensures multiset(s)[s[i]] >= 2
  {
    assert s == s[..j] + [s[j]] + s[j + 1..];
    assert s[i] in multiset(s[..j]);
  }

  /** Being a draw order is being a permutation of the balls 1..75: every ball exactly once. */
  lemma DrawOrderIsPermutation(s: seq<int>)
    ensures IsDrawOrder(s) <==> multiset(s) == multiset(BallSet())
  {
    var full := multiset(BallSet());
    if IsDrawOrder(s) {
      DrawOrderHasEveryBall(s);
      forall x ensures multiset(s)[x] == full[x] {
        DistinctCount(s, x);
        if 1 <= x <= MaxBall {
          assert x in s && x in BallSet();
        } else {
          assert x !in s;
        }
      }
    }
    if multiset(s) == full {
      assert |s| == |multiset(s)| == |BallSet()|;
      forall k | 0 <= k < |s| ensures 1 <= s[k] <= MaxBall {
        assert s[k] in multiset(s);
      }
      forall i, j | 0 <= i < j < |s| ensures s[i] != s[j] {
        if s[i] == s[j] {
          RepeatCount(s, i, j);
        }
      }
    }
  }

  // ---------------------------------------------------------------------------------------------
  // The generator

  /** Draws random balls until the list holds 75 of them, appending a ball only when it is not
      already in the list. `samples` is the run of random values the loop consumes, in order;
      `used` is how many of them it consumed. */
  method CreateAllNumbersDrawn(samples: seq<nat>, resolution: nat) returns (drawn: seq<int>, ghost used: nat)
    requires ValidSamples(samples, resolution)
    requires CoversAllBalls(samples, resolution)
    ensures IsDrawOrder(drawn)
    ensures multiset(drawn) == multiset(BallSet())
    ensures used <= |samples| && drawn == Recorded(Balls(samples, resolution)[..used])
    ensures drawn == Recorded(Balls(samples, resolution))
    ensures forall j :: 0 <= j < used ==> NotYetFull(Balls(samples, resolution), j)
  {
    ghost var balls := Balls(samples, resolution);
    drawn := [];
    var i := 0;
    while |drawn| < MaxBall
      invariant 0 <= i <= |samples|
      invariant drawn == Recorded(balls[..i])
      invariant InRange(drawn) && Distinct(drawn)
      invariant i > 0 ==> NotYetFull(balls, i - 1)
      decreases |samples| - i
    {
      DrawsRemain(balls, i);
      var ball := Ball(samples[i], resolution);
      RecordedStep(balls, i);
      assert ball == balls[i];
      if ball !in drawn {
        AppendFresh(drawn, ball);
        drawn := drawn + [ball];
      }
      i := i + 1;
    }
    DistinctBallsBound(drawn);
    DrawOrderIsPermutation(drawn);
    EarlierNotFull(balls, i - 1);
    FullListSettles(balls, i);
    used := i;
  }
}
