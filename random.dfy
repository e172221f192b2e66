/** The random-number generator, modelled as an oracle: `stream` holds, in order,
    the values the generator will still produce. */
module Random {

  class RandGen {
    const lower: int
    const upper: int
    var stream: seq<int>

    /** Every value still to come lies in [lower, upper]. */
    ghost predicate Valid()
      reads this
    {
      lower <= upper && forall k :: 0 <= k < |stream| ==> lower <= stream[k] <= upper
    }

    constructor (lower: int, upper: int, stream: seq<int>)
      requires lower <= upper
      requires forall k :: 0 <= k < |stream| ==> lower <= stream[k] <= upper
      ensures Valid()
      ensures this.lower == lower && this.upper == upper && this.stream == stream
    {
      this.lower := lower;
      this.upper := upper;
      this.stream := stream;
    }

    /** Produces the next value of the oracle, which lies in [lower, upper]. */
    method GetRandomInt() returns (r: int)
      requires Valid() && stream != []
      modifies this
      ensures Valid()
      ensures lower <= r <= upper
      ensures r == old(stream)[0] && stream == old(stream)[1..]
    {
      r := stream[0];
      stream := stream[1..];
    }
  }
}
