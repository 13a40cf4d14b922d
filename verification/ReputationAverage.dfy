/** The exponentially weighted moving average behind agent reputation, in basis points and with the
    division rounding down. */
module ReputationAverage {
  import opened Bytes

  const BPS_DENOM: nat := 10_000

  datatype Result = Ok(value: u16) | OutOfRange

  function Blend(prior: int, sample: int, alpha: int): int {
    (alpha * sample + (BPS_DENOM - alpha) * prior) / BPS_DENOM
  }

  /** One average: refused only for a weight above 100%, otherwise between its two inputs. */
  function Ewma(prior: u16, sample: u16, alpha: u16): (r: Result)
    ensures r.Ok? <==> alpha <= BPS_DENOM
    ensures r.Ok? && prior <= sample ==> prior <= r.value <= sample
    ensures r.Ok? && sample <= prior ==> sample <= r.value <= prior
  {
    if alpha > BPS_DENOM then OutOfRange
    else
      BlendMoves(prior, sample, alpha);
      Ok(Blend(prior, sample, alpha))
  }

  lemma QuotientBounds(n: int, lo: int, hi: int)
    requires lo * BPS_DENOM <= n < hi * BPS_DENOM
    ensures lo <= n / BPS_DENOM < hi
  {
  }

  lemma BlendGap(prior: int, sample: int, alpha: int)
    ensures alpha * sample + (BPS_DENOM - alpha) * prior == BPS_DENOM * prior + alpha * (sample - prior)
  {
  }

  lemma Between(a: int, k: int, b: int)
    requires 0 <= k <= b && a >= 0
    ensures 0 <= k * a <= b * a
  {
  }

  /** One step, exactly: it never overshoots, falls strictly from above, and from below it rises
      strictly unless the weighted gap is under one unit. */
  lemma BlendMoves(prior: int, sample: int, alpha: int)
    requires 0 <= alpha <= BPS_DENOM
    ensures prior <= sample ==> prior <= Blend(prior, sample, alpha) <= sample
    ensures sample <= prior ==> sample <= Blend(prior, sample, alpha) <= prior
    ensures sample < prior && alpha > 0 ==> Blend(prior, sample, alpha) < prior
    ensures prior <= sample ==> (Blend(prior, sample, alpha) == prior <==> alpha * (sample - prior) < BPS_DENOM)
  {
    BlendGap(prior, sample, alpha);
    var n := BPS_DENOM * prior + alpha * (sample - prior);
    if prior <= sample {
      Between(sample - prior, alpha, BPS_DENOM);
      QuotientBounds(n, prior, sample + 1);
      if alpha * (sample - prior) < BPS_DENOM {
        QuotientBounds(n, prior, prior + 1);
      } else {
        QuotientBounds(n, prior + 1, sample + 1);
      }
    } else {
      Between(prior - sample, alpha, BPS_DENOM);
      NegatedGap(prior, sample, alpha);
      QuotientBounds(n, sample, prior + 1);
      if alpha > 0 {
        Between(prior - sample, 1, alpha);
        QuotientBounds(n, sample, prior);
      }
    }
  }

  /** The size of a step: the part of the gap that is left is the weight of the prior, up to less than
      one unit that the rounding adds. */
  lemma GapLeft(prior: int, sample: int, alpha: int)
    ensures
      var left, kept := sample - Blend(prior, sample, alpha), (BPS_DENOM - alpha) * (sample - prior);
      kept <= BPS_DENOM * left < kept + BPS_DENOM
  {
    BlendGap(prior, sample, alpha);
    assert (BPS_DENOM - alpha) * (sample - prior) == BPS_DENOM * (sample - prior) - alpha * (sample - prior);
  }

  function Power(base: nat, n: nat): nat {
    if n == 0 then 1 else base * Power(base, n - 1)
  }

  /** From below the gap shrinks no faster than geometrically: after n averages at least the n-th power
      of the prior's weight is left of it. */
  lemma {:induction false} GapShrinksGeometrically(score: int, sample: int, alpha: int, n: nat)
    requires 0 <= alpha <= BPS_DENOM
    ensures Power(BPS_DENOM - alpha, n) * (sample - score) <=
      Power(BPS_DENOM, n) * (sample - Settle(score, sample, alpha, n))
    decreases n
  {
    if n > 0 {
      var next, w := Blend(score, sample, alpha), BPS_DENOM - alpha;
      var p, q := Power(w, n - 1), Power(BPS_DENOM, n - 1);
      GapShrinksGeometrically(next, sample, alpha, n - 1);
      GapLeft(score, sample, alpha);
      Chain(p, q, w, sample - score, sample - next, sample - Settle(score, sample, alpha, n));
    }
  }

  lemma Chain(p: nat, q: nat, w: nat, gap: int, next: int, last: int)
    requires w * gap <= BPS_DENOM * next && p * next <= q * last
    ensures (w * p) * gap <= (BPS_DENOM * q) * last
  {
    assert (w * p) * gap == p * (w * gap);
    assert p * (w * gap) <= p * (BPS_DENOM * next);
    assert p * (BPS_DENOM * next) == BPS_DENOM * (p * next);
    assert BPS_DENOM * (p * next) <= BPS_DENOM * (q * last);
  }

  lemma NegatedGap(prior: int, sample: int, alpha: int)
    ensures alpha * (sample - prior) == -(alpha * (prior - sample))
  {
  }

  /** The score after n averages with one and the same sample. */
  function Settle(score: int, sample: int, alpha: int, n: nat): int
    decreases n
  {
    if n == 0 then score else Settle(Blend(score, sample, alpha), sample, alpha, n - 1)
  }

  /** Averages with the sample leave this score where it is. */
  ghost predicate Rest(v: int, sample: int, alpha: int) {
    v <= sample && alpha * (sample - v) < BPS_DENOM
  }

  function Gap(a: int, b: int): nat {
    if a < b then b - a else a - b
  }

  /** The resting scores are exactly the fixed points. */
  lemma RestIsFixed(v: int, sample: int, alpha: int)
    requires 0 < alpha <= BPS_DENOM
    ensures Blend(v, sample, alpha) == v <==> Rest(v, sample, alpha)
  {
    BlendMoves(v, sample, alpha);
  }

  lemma {:induction false} StaysAtRest(v: int, sample: int, alpha: int, n: nat)
    requires 0 < alpha <= BPS_DENOM && Rest(v, sample, alpha)
    ensures Settle(v, sample, alpha, n) == v
    decreases n
  {
    if n > 0 {
      RestIsFixed(v, sample, alpha);
      StaysAtRest(v, sample, alpha, n - 1);
    }
  }

  /** With a constant sample the score comes to rest after at most as many steps as it was away,
      and stays: within one weighted unit below the sample, and on the sample itself when it
      started at or above it. */
  lemma {:induction false} ScoreSettles(score: int, sample: int, alpha: int, n: nat)
    requires 0 < alpha <= BPS_DENOM && n >= Gap(score, sample)
    ensures Rest(Settle(score, sample, alpha, n), sample, alpha)
    ensures Settle(score, sample, alpha, n) == Settle(score, sample, alpha, Gap(score, sample))
    ensures score >= sample ==> Settle(score, sample, alpha, n) == sample
    decreases Gap(score, sample)
  {
    BlendMoves(score, sample, alpha);
    if Rest(score, sample, alpha) {
      StaysAtRest(score, sample, alpha, n);
      StaysAtRest(score, sample, alpha, Gap(score, sample));
    } else {
      var next := Blend(score, sample, alpha);
      assert Gap(next, sample) < Gap(score, sample);
      ScoreSettles(next, sample, alpha, n - 1);
      ScoreSettles(next, sample, alpha, Gap(score, sample) - 1);
    }
  }

  /** From above the score falls at every step until it has reached the sample. */
  lemma {:induction false} FallsStrictly(score: int, sample: int, alpha: int, n: nat)
    requires 0 < alpha <= BPS_DENOM && score >= sample
    ensures Settle(score, sample, alpha, n) >= sample
    ensures Settle(score, sample, alpha, n) > sample ==>
      Settle(score, sample, alpha, n + 1) < Settle(score, sample, alpha, n)
    decreases n
  {
    BlendMoves(score, sample, alpha);
    if n > 0 {
      FallsStrictly(Blend(score, sample, alpha), sample, alpha, n - 1);
    } else {
      assert Settle(score, sample, alpha, 1) == Settle(Blend(score, sample, alpha), sample, alpha, 0);
    }
  }
}
