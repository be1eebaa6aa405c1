/**
 * The random stream of the forest, as an oracle.
 *
 * The forest owns one generator and threads it through every draw of a fit
 * (forest.rs:12, forest.rs:44, forest.rs:65, node.rs:85, node.rs:105). The
 * model promises nothing about the values it produces except that they lie
 * in the requested range; every draw is appended to the ghost `trace`, so
 * that contracts can say which draws an operation consumed and in what order.
 */
module Random {

  /** One value taken from the stream: an index from a half-open integer
      range, or a threshold from a closed real interval. */
  datatype Draw = Index(index: nat) | Value(value: real)

  /** Modulus of the stand-in generator's state. */
  const StateSpace: nat := 0x1_0000_0000_0000_0000

  class Rng {
    /** Stand-in generator state; only the contracts below are relied upon. */
    var state: nat
    /** Every value drawn so far, oldest first. */
    ghost var trace: seq<Draw>

    /** Seeds the stream (StdRng::seed_from_u64, or an entropy value). */
    constructor (seed: nat)
      ensures trace == []
    {
      state := seed % StateSpace;
      trace := [];
    }

    /** A value in the half-open range [lo, hi) (random_range(lo..hi)). */
    method RandomRange(lo: nat, hi: nat) returns (r: nat)
      requires lo < hi
      modifies this
      ensures lo <= r < hi
      ensures trace == old(trace) + [Index(r)]
    {
      r := lo + state % (hi - lo);
      Advance();
      trace := trace + [Index(r)];
    }

    /** A value in the closed interval [lo, hi] (random_range(lo..=hi)). */
    method RandomReal(lo: real, hi: real) returns (r: real)
      requires lo <= hi
      modifies this
      ensures lo <= r <= hi
      ensures trace == old(trace) + [Value(r)]
    {
      var k := state % 1024;
      var fraction := k as real / 1023.0;
      assert 0.0 <= fraction <= 1.0;
      assert (hi - lo) * fraction <= hi - lo by {
        assert (hi - lo) * fraction <= (hi - lo) * 1.0;
      }
      r := lo + (hi - lo) * fraction;
      Advance();
      trace := trace + [Value(r)];
    }

    /** One step of the stand-in linear congruential generator. */
    method Advance()
      modifies this`state
    {
      state := (state * 6364136223846793005 + 1442695040888963407) % StateSpace;
    }
  }
}
