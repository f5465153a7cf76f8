/**
 * Counting a stream's segments without an index: the server can only be
 * asked whether one id exists.  A galloping phase doubles an upper limit
 * until it passes the last segment, then a binary search on the upper
 * midpoint closes in on the last id that exists.  Segments are numbered
 * 1, 2, ..., so the last id is also the count.
 */
module Discovery {
  import opened Remote

  function Pow2(k: nat): (p: nat)
    ensures 1 <= p
  {
    if k == 0 then 1 else 2 * Pow2(k - 1)
  }

  /** The floor of the base-2 logarithm. */
  function Log2(n: nat): nat
    requires 1 <= n
  {
    if n == 1 then 0 else 1 + Log2(n / 2)
  }

  /** A number between two consecutive powers of two has the lower one's exponent as its logarithm. */
  lemma {:induction false} Log2Bracket(n: nat, k: nat)
    requires Pow2(k) <= n < Pow2(k + 1)
    ensures Log2(n) == k
  {
    if k > 0 {
      Log2Bracket(n / 2, k - 1);
    }
  }

  /**
   * The galloping phase: probes 2, 4, 8, ... while they exist, then doubles
   * once more.  The limit it returns is a power of two whose half exists and
   * which itself does not, so the last segment lies between the two.
   * `probes` counts the requests made: one per doubling and the one that failed.
   */
  method FindUpperLimit(web: Web, baseUrl: string, ghost n: nat)
      returns (upperLimit: nat, ghost k: nat, ghost probes: nat)
    requires 1 <= n && HasSegments(web, baseUrl, n)
    ensures upperLimit == Pow2(k + 1) && k == Log2(n)
    ensures DoesVideoSegmentExist(web, baseUrl, upperLimit / 2)
    ensures !DoesVideoSegmentExist(web, baseUrl, upperLimit)
    ensures upperLimit / 2 <= n < upperLimit
    ensures probes == k + 1
  {
    upperLimit := 1;
    k := 0;
    probes := 1;
    while DoesVideoSegmentExist(web, baseUrl, 2 * upperLimit)
      invariant upperLimit == Pow2(k) && 1 <= upperLimit <= n
      invariant probes == k + 1
      decreases n - upperLimit
    {
      upperLimit := upperLimit * 2;
      k := k + 1;
      probes := probes + 1;
    }
    Log2Bracket(n, k);
    upperLimit := upperLimit * 2;
  }

  /**
   * The binary search: `lowerLimit` always exists and nothing above
   * `upperLimit` does.  Each probe of the upper midpoint either raises the
   * lower limit to it or drops the upper limit below it, at least halving
   * the gap, so a gap below 2^budget takes at most `budget` probes.
   */
  method SearchLastSegment(web: Web, baseUrl: string, ghost n: nat,
                           lowerStart: nat, upperStart: nat, ghost budget: nat)
      returns (num: nat, ghost probes: nat)
    requires HasSegments(web, baseUrl, n)
    requires 1 <= lowerStart <= n <= upperStart
    requires upperStart - lowerStart < Pow2(budget)
    ensures num == n
    ensures probes <= budget
  {
    var lowerLimit, upperLimit := lowerStart, upperStart;
    ghost var left := budget;
    probes := 0;
    while lowerLimit < upperLimit
      invariant 1 <= lowerLimit <= n <= upperLimit
      invariant DoesVideoSegmentExist(web, baseUrl, lowerLimit)
      invariant upperLimit - lowerLimit < Pow2(left)
      invariant probes + left == budget
      decreases upperLimit - lowerLimit
    {
      var mid := lowerLimit + (upperLimit - lowerLimit + 1) / 2;
      assert lowerLimit < mid <= upperLimit;
      if DoesVideoSegmentExist(web, baseUrl, mid) {
        lowerLimit := mid;
      } else {
        upperLimit := mid - 1;
      }
      left := left - 1;
      probes := probes + 1;
    }
    num := lowerLimit;
  }

  /**
   * `get_num_video_segments`: the exact number of segments of a stream that
   * has segments 1 through n, found with at most 2 * floor(log2 n) + 2 requests.
   */
  method GetNumVideoSegments(web: Web, baseUrl: string, ghost n: nat)
      returns (num: nat, ghost probes: nat)
    requires 1 <= n && HasSegments(web, baseUrl, n)
    ensures num == n
    ensures probes <= 2 * Log2(n) + 2
  {
    var lowerLimit := 1;
    var upperLimit: nat;
    ghost var k: nat, gallopProbes: nat, searchProbes: nat;
    upperLimit, k, gallopProbes := FindUpperLimit(web, baseUrl, n);
    num, searchProbes := SearchLastSegment(web, baseUrl, n, lowerLimit, upperLimit, k + 1);
    probes := gallopProbes + searchProbes;
  }
}
