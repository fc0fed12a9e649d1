/** The Internet checksum of RFC 1071, section 1, stated as a specification over
    bytes rather than as any particular (lwIP) implementation.

    The data is read as big-endian 16-bit words; an odd trailing octet is padded
    on the right with a zero octet. The words are added in one's-complement
    arithmetic (end-around carry) and the checksum is the one's complement of
    that sum. Because the sum is independent of byte order, the two checksum
    octets computed over network-order words are exactly the octets a
    little-endian host stores when it writes its own result into the field. */
module InternetChecksum {
  import opened BoundedInts

  /** 0xFFFF: the modulus of one's-complement arithmetic, and the value of "all ones". */
  const ALL_ONES: int := 0xFFFF

  /** The 16-bit word formed by the first two octets of `p` (the second one taken as
      zero when `p` has only one octet left). */
  function FirstWord(p: seq<uint8>): (w: uint16)
    requires |p| > 0
    ensures w / TWO_TO_THE_8 == p[0]
    ensures |p| > 1 ==> w % TWO_TO_THE_8 == p[1]
    ensures |p| == 1 ==> w % TWO_TO_THE_8 == 0
  {
    if |p| == 1 then p[0] * TWO_TO_THE_8 else p[0] * TWO_TO_THE_8 + p[1]
  }

  /** Plain (unbounded) sum of the 16-bit words of `p`. */
  function WordSum(p: seq<uint8>): nat
    decreases |p|
  {
    if |p| == 0 then 0
    else if |p| == 1 then FirstWord(p)
    else FirstWord(p) + WordSum(p[2..])
  }

  /** One's-complement addition of two 16-bit words: add, then fold the carry back in. */
  function OnesAdd(a: uint16, b: uint16): (r: uint16)
    ensures (a + b == 0) == (r == 0)
    ensures (r - (a + b)) % ALL_ONES == 0
  {
    if a + b > ALL_ONES then a + b - ALL_ONES else a + b
  }

  /** The one's-complement sum of the words of `p`, word by word, as RFC 1071 adds them. */
  function OnesSum(p: seq<uint8>): uint16
    decreases |p|
  {
    if |p| == 0 then 0
    else if |p| == 1 then FirstWord(p)
    else OnesAdd(FirstWord(p), OnesSum(p[2..]))
  }

  /** The Internet checksum of `p`: the 16-bit one's complement of its one's-complement sum. */
  function Checksum(p: seq<uint8>): uint16
  {
    ALL_ONES - OnesSum(p)
  }

  /** A receiver's check: the one's-complement sum over the data, checksum field included,
      is all ones (equivalently, the checksum recomputed over the whole data is zero). */
  predicate Verifies(p: seq<uint8>)
  {
    OnesSum(p) == ALL_ONES
  }

  /** Reference definition of a one's-complement sum from the plain sum of the words:
      zero only for zero, otherwise the value in [1, 0xFFFF] congruent to `n` modulo 0xFFFF. */
  function Fold(n: nat): (r: uint16)
    ensures n == 0 <==> r == 0
    ensures n > 0 ==> 1 <= r <= ALL_ONES && (n - r) % ALL_ONES == 0
  {
    if n == 0 then 0 else (n - 1) % ALL_ONES + 1
  }

  /** Folding after adding one more word equals one's-complement adding that word to the fold. */
  lemma OnesAddFold(w: uint16, n: nat)
    ensures OnesAdd(w, Fold(n)) == Fold(w + n)
  {
  }

  /** The word-by-word one's-complement sum agrees with the reference fold of the plain sum:
      the order of the additions and the carries in between do not matter. */
  lemma {:induction false} OnesSumIsFold(p: seq<uint8>)
    ensures OnesSum(p) == Fold(WordSum(p))
    decreases |p|
  {
    if |p| > 1 {
      OnesSumIsFold(p[2..]);
      OnesAddFold(FirstWord(p), WordSum(p[2..]));
    }
  }

  /** Word sums split at an even offset. */
  lemma {:induction false} WordSumAppend(a: seq<uint8>, b: seq<uint8>)
    requires |a| % 2 == 0
    ensures WordSum(a + b) == WordSum(a) + WordSum(b)
    decreases |a|
  {
    if |a| == 0 {
      assert a + b == b;
    } else {
      assert (a + b)[2..] == a[2..] + b;
      assert FirstWord(a + b) == FirstWord(a);
      WordSumAppend(a[2..], b);
    }
  }

  /** Adding the complement of the fold of `n` to `n` always gives a sum that folds to all ones. */
  lemma ComplementCompletes(n: nat)
    ensures Fold(n + (ALL_ONES - Fold(n))) == ALL_ONES
  {
  }

  /** The two octets of a 16-bit value in network (big-endian) order. */
  function NetworkOrder(w: uint16): (b: seq<uint8>)
    ensures |b| == 2 && b[0] * TWO_TO_THE_8 + b[1] == w
  {
    [w / TWO_TO_THE_8, w % TWO_TO_THE_8]
  }

  /** Filling a zeroed, word-aligned 16-bit field with the checksum of the data makes the
      data self-verifying (RFC 1071, section 1, steps (2) and (3)). */
  lemma {:induction false} FilledChecksumVerifies(head: seq<uint8>, tail: seq<uint8>)
    requires |head| % 2 == 0
    ensures Verifies(head + NetworkOrder(Checksum(head + [0, 0] + tail)) + tail)
  {
    var zeroed := head + [0, 0] + tail;
    var c := Checksum(zeroed);
    var filled := head + NetworkOrder(c) + tail;
    assert zeroed == head + ([0, 0] + tail);
    assert filled == head + (NetworkOrder(c) + tail);
    WordSumAppend(head, [0, 0] + tail);
    WordSumAppend(head, NetworkOrder(c) + tail);
    WordSumAppend([0, 0], tail);
    WordSumAppend(NetworkOrder(c), tail);
    assert WordSum([0, 0]) == 0;
    assert WordSum(NetworkOrder(c)) == c;
    assert WordSum(filled) == WordSum(zeroed) + c;
    OnesSumIsFold(zeroed);
    OnesSumIsFold(filled);
    ComplementCompletes(WordSum(zeroed));
  }
}
