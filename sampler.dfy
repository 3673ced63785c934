/** The coprime base sampler (`generate_random_coprime`): draw a residue,
    lift draws 0 and 1 to 2 and 3, and draw again until the base is coprime
    to the candidate. */
module Sampler {
  import opened Numbers

  /** The random generator's output: draw(j, n) is the j-th value it yields,
      when that value is asked for below n (`mpz_urandomm`). */
  type Draws = (nat, nat) -> nat

  /** What the generator promises: a value asked for below n is below n. */
  ghost predicate DrawsBelow(draw: Draws, n: nat)
  {
    forall j :: draw(j, n) < n
  }

  /** The base made from the draw r for candidate n (main.c:58-59). */
  function Normalize(r: nat, n: nat): nat
    requires n >= 1
  {
    if r < 2 then r + 2 else if r >= n then r % n else r
  }

  /** The loop stops at draw r when the base made from it is coprime to n. */
  predicate Accepts(r: nat, n: nat)
    requires n >= 1
  {
    Gcd(Normalize(r, n), n) == 1
  }

  /** Some draw at or after position pos is accepted, so a sampler started
      there stops. */
  ghost predicate AcceptableFrom(draw: Draws, n: nat, pos: nat)
    requires n >= 1
  {
    exists j :: pos <= j && Accepts(draw(j, n), n)
  }

  /** The bases the sampler hands out while consuming draws lo .. hi-1:
      one per accepted draw, in drawing order. */
  ghost function BasesDrawn(draw: Draws, n: nat, lo: nat, hi: nat): seq<nat>
    requires n >= 1
    decreases hi - lo
  {
    if hi <= lo then []
    else
      var r := draw(hi - 1, n);
      BasesDrawn(draw, n, lo, hi - 1) + (if Accepts(r, n) then [Normalize(r, n)] else [])
  }

  /** Consuming draws in two stretches hands out the bases of each, in order. */
  lemma {:induction false} BasesDrawnSplit(draw: Draws, n: nat, lo: nat, mid: nat, hi: nat)
    requires n >= 1 && lo <= mid <= hi
    ensures BasesDrawn(draw, n, lo, hi) == BasesDrawn(draw, n, lo, mid) + BasesDrawn(draw, n, mid, hi)
    decreases hi - mid
  {
    if mid < hi {
      BasesDrawnSplit(draw, n, lo, mid, hi - 1);
    }
  }

  /** A draw below n never takes the reducing branch: draws 0 and 1 become
      2 and 3 and every other draw is kept, so for n >= 4 the base lies in
      [2, n-1]. */
  lemma NormalizeBelow(r: nat, n: nat)
    requires 1 <= n && r < n
    ensures Normalize(r, n) == if r < 2 then r + 2 else r
    ensures 2 <= Normalize(r, n) && (n >= 4 ==> Normalize(r, n) <= n - 1)
  {
  }

  /** Draws one base coprime to n, starting at generator position pos; next is
      the position after the accepted draw. A draw at or above n, which the
      generator never yields, is reduced modulo n as the source does. */
  method GenerateRandomCoprime(n: nat, draw: Draws, pos: nat) returns (base: nat, next: nat)
    requires n >= 1
    requires AcceptableFrom(draw, n, pos)
    ensures pos < next
    ensures Gcd(base, n) == 1
    ensures forall j :: pos <= j < next - 1 ==> !Accepts(draw(j, n), n)
    ensures Accepts(draw(next - 1, n), n) && base == Normalize(draw(next - 1, n), n)
    ensures BasesDrawn(draw, n, pos, next) == [base]
    ensures var r := draw(next - 1, n);
      r < n ==> base == (if r < 2 then r + 2 else r) && 2 <= base && (n >= 4 ==> base <= n - 1)
  {
    ghost var stop :| pos <= stop && Accepts(draw(stop, n), n);
    var i := pos;
    while true
      invariant pos <= i <= stop
      invariant forall j :: pos <= j < i ==> !Accepts(draw(j, n), n)
      invariant BasesDrawn(draw, n, pos, i) == []
      decreases stop - i
    {
      base := draw(i, n);
      if base < 2 {
        base := base + 2;
      } else if base >= n {
        base := base % n;
      }
      assert base == Normalize(draw(i, n), n);
      var g := Gcd(base, n);
      i := i + 1;
      if g == 1 {
        next := i;
        assert BasesDrawn(draw, n, pos, next) == BasesDrawn(draw, n, pos, i - 1) + [base];
        return;
      }
    }
  }

  /** The draw n-1 is kept as it is and accepted, so the sampler can return
      n-1: its bases range over [2, n-1], not [2, n-2]. */
  lemma PredecessorAccepted(n: nat)
    requires n >= 3
    ensures Normalize(n - 1, n) == n - 1 && Accepts(n - 1, n)
  {
    PredCoprime(n);
  }

  /** A generator that always yields n-1 lets every sampler run stop. */
  lemma {:induction false} PredecessorDrawsAcceptable(draw: Draws, n: nat, pos: nat)
    requires n >= 1 && forall j :: draw(j, n) == n - 1
    ensures DrawsBelow(draw, n) && AcceptableFrom(draw, n, pos)
  {
    if n >= 3 {
      PredecessorAccepted(n);
    } else if n == 2 {
      assert Gcd(3, 2) == Gcd(2, 1) == Gcd(1, 0) == 1;
    }
    assert Accepts(draw(pos, n), n);
  }
}
