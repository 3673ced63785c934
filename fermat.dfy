/** The k-round Fermat test (`fermat_test_gmp`): each round samples a fresh
    base coprime to n and checks a^(n-1) mod n == 1; the first base that
    fails is returned as the witness and no further round runs. */
module Fermat {
  import opened Numbers
  import opened Sampler

  /** The round with base a passes: a^(n-1) mod n == 1. */
  predicate Passes(a: nat, n: nat)
    requires n >= 1
  {
    ModPow(a, n - 1, n) == 1
  }

  /** Every sampler run on this generator stops, wherever it starts. */
  ghost predicate EndlessDraws(draw: Draws, n: nat)
    requires n >= 1
  {
    forall p :: AcceptableFrom(draw, n, p)
  }

  /** Runs up to k rounds from generator position pos. Returns 1 with witness
      0 when every round passed, and 0 with the failing base as witness
      otherwise; bases are the bases of the rounds that ran, in order, and
      next is the generator position afterwards. */
  method FermatTest(n: nat, k: int, draw: Draws, pos: nat)
    returns (isPrime: int, witnessBase: nat, next: nat, ghost bases: seq<nat>)
    requires n >= 1
    requires EndlessDraws(draw, n)
    ensures pos <= next && bases == BasesDrawn(draw, n, pos, next)
    ensures bases == [] ==> next == pos
    ensures bases != [] ==> Accepts(draw(next - 1, n), n) && bases[|bases| - 1] == Normalize(draw(next - 1, n), n)
    ensures forall i :: 0 <= i < |bases| ==> Gcd(bases[i], n) == 1
    ensures forall i :: 0 <= i < |bases| - 1 ==> Passes(bases[i], n)
    ensures isPrime == 0 || isPrime == 1
    ensures isPrime == 1 <==> |bases| == (if k < 0 then 0 else k) && forall i :: 0 <= i < |bases| ==> Passes(bases[i], n)
    ensures isPrime == 1 ==> witnessBase == 0
    ensures isPrime == 0 ==> 0 < |bases| <= k && witnessBase == bases[|bases| - 1]
    ensures isPrime == 0 ==> !Passes(witnessBase, n) && Gcd(witnessBase, n) == 1
  {
    var nMinusOne := n - 1;
    next := pos;
    bases := [];
    var i := 0;
    while i < k
      invariant 0 <= i <= (if k < 0 then 0 else k)
      invariant pos <= next && bases == BasesDrawn(draw, n, pos, next)
      invariant |bases| == i
      invariant i == 0 ==> next == pos
      invariant bases != [] ==> Accepts(draw(next - 1, n), n) && bases[|bases| - 1] == Normalize(draw(next - 1, n), n)
      invariant forall j :: 0 <= j < |bases| ==> Gcd(bases[j], n) == 1 && Passes(bases[j], n)
    {
      var a, after := GenerateRandomCoprime(n, draw, next);
      BasesDrawnSplit(draw, n, pos, next, after);
      next := after;
      bases := bases + [a];
      var t := ModPow(a, nMinusOne, n);
      if t != 1 {
        witnessBase := a;
        isPrime := 0;
        assert !Passes(bases[|bases| - 1], n);
        return;
      }
      i := i + 1;
    }
    witnessBase := 0;
    isPrime := 1;
  }
}
