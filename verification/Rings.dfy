/** Rings: queues that occupy `num` slots of a sequence from `head` on, going round at its end. */
module Rings {
  /** An index past the end goes on at the beginning: the remainder, for one lap. */
  function Wrap(x: int, size: int): (i: int) {
    if x < size then x else x - size
  }

  /** The ring read from its head. */
  function Ring(data: seq<int>, head: int, num: int): (r: seq<int>)
    requires 0 <= head < |data| && 0 <= num <= |data|
    ensures |r| == num && forall i | 0 <= i < num :: r[i] == data[Wrap(head + i, |data|)]
  {
    seq(num, i requires 0 <= i < num => data[Wrap(head + i, |data|)])
  }
}
