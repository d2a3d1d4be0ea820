/** The random helpers of the game, as an injected source of draws. Only the
    range and predicate contracts are modelled, never the distribution. */
module RandomOracle {

  /** The source of randomness. `draws` holds the raw values the engine will
      yield, in order; every draw consumes one. The source's engine never runs
      dry; this finite sequence stands for the draws a terminating run makes. */
  class Rng {
    var draws: seq<nat>

    constructor (draws: seq<nat>)
      ensures this.draws == draws
    {
      this.draws := draws;
    }

    predicate Exhausted()
      reads this
    {
      draws == []
    }

    /** `random(lower, upper)`: a value in [lower, upper). */
    method Random(lower: int, upper: int) returns (r: int)
      requires lower < upper
      modifies this
      ensures lower <= r < upper
      ensures draws == if old(draws) == [] then [] else old(draws)[1..]
    {
      if draws == [] {
        r := lower;
      } else {
        r := lower + draws[0] % (upper - lower);
        draws := draws[1..];
      }
    }

    /** `random_if(lower, upper, pred)`: redraws until the value satisfies
        `pred`. While draws remain every rejected value is drawn again; once
        they run out, the least accepted value is taken. */
    method RandomIf(lower: int, upper: int, pred: int -> bool) returns (r: int)
      requires exists x :: lower <= x < upper && pred(x)
      modifies this
      ensures lower <= r < upper && pred(r)
      ensures |draws| <= |old(draws)|
      ensures old(draws) != [] ==> |draws| < |old(draws)|
    {
      r := Random(lower, upper);
      while !pred(r) && draws != []
        invariant lower <= r < upper
        invariant |draws| <= |old(draws)|
        decreases |draws|
      {
        r := Random(lower, upper);
      }
      if !pred(r) {
        r := lower;
        while !pred(r)
          invariant lower <= r < upper
          invariant forall y :: lower <= y < r ==> !pred(y)
          decreases upper - r
        {
          r := r + 1;
        }
      }
    }

    /** `random(lower, upper, excludes)`: a value in [lower, upper) that is
        not one of `excludes`. */
    method RandomExcluding(lower: int, upper: int, excludes: seq<int>) returns (r: int)
      requires exists x :: lower <= x < upper && x !in excludes
      modifies this
      ensures lower <= r < upper && r !in excludes
      ensures |draws| <= |old(draws)|
    {
      var notExcluded := x => x !in excludes;
      ghost var w :| lower <= w < upper && w !in excludes;
      assert notExcluded(w);
      r := RandomIf(lower, upper, notExcluded);
    }
  }

  /** Fewer exclusions than values in the range leave a value free, so
      `RandomExcluding` can always be called in that case. */
  lemma {:induction false} RoomLeft(excludes: seq<int>, lower: int, upper: int)
    requires |excludes| < upper - lower
    ensures exists x :: lower <= x < upper && x !in excludes
    decreases upper - lower
  {
    if lower !in excludes {
      assert lower <= lower < upper && lower !in excludes;
    } else {
      var rest := Without(excludes, lower);
      RoomLeft(rest, lower + 1, upper);
      var x :| lower + 1 <= x < upper && x !in rest;
      assert x !in excludes;
    }
  }

  /** `s` with every occurrence of `v` removed. */
  function Without(s: seq<int>, v: int): (r: seq<int>)
    ensures forall x :: x in r <==> x in s && x != v
    ensures v in s ==> |r| < |s|
    ensures |r| <= |s|
  {
    if s == [] then []
    else if s[0] == v then Without(s[1..], v)
    else [s[0]] + Without(s[1..], v)
  }
}
