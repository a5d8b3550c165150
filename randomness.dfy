/** Unity's global random number generator (UnityEngine.Random), as a value.
    The generator's state is threaded through the calls that draw from it. The
    stream `draws` is an oracle: every sequence of results that the real
    generator could produce is produced by some choice of `draws`. */
module Randomness {

  datatype RandomState = RandomState(draws: nat -> nat, next: nat)

  /** Random.Range(lo, hi) for integers: a value in [lo, hi), drawn from the
      next element of the stream. */
  function Range(rs: RandomState, lo: int, hi: int): (res: (int, RandomState))
    requires lo < hi
    ensures lo <= res.0 < hi
    ensures res.1.next == rs.next + 1
  {
    (lo + rs.draws(rs.next) % (hi - lo), rs.(next := rs.next + 1))
  }
}
