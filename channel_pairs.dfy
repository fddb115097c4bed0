/**
 * The fixed numbering of the 28 unordered pairs of distinct channels 0..7,
 * and its inverse.
 */
module ChannelPairs {
  import opened Common

  /** Number of unordered pairs of distinct channels, C(8, 2); also the "no pair" result. */
  const PAIRS: nat := 28

  /**
   * The index of an unordered channel pair; pairs are numbered in lexicographic
   * order of (smaller, larger). Equal channels or a channel above 7 give 28.
   */
  function CoincidenceChannelsToIndex(channels: (u8, u8)): (r: nat)
    ensures r <= PAIRS
    ensures r < PAIRS <==> channels.0 < 8 && channels.1 < 8 && channels.0 != channels.1
  {
    match channels
    case (0, 1) | (1, 0) => 0
    case (0, 2) | (2, 0) => 1
    case (0, 3) | (3, 0) => 2
    case (0, 4) | (4, 0) => 3
    case (0, 5) | (5, 0) => 4
    case (0, 6) | (6, 0) => 5
    case (0, 7) | (7, 0) => 6
    case (1, 2) | (2, 1) => 7
    case (1, 3) | (3, 1) => 8
    case (1, 4) | (4, 1) => 9
    case (1, 5) | (5, 1) => 10
    case (1, 6) | (6, 1) => 11
    case (1, 7) | (7, 1) => 12
    case (2, 3) | (3, 2) => 13
    case (2, 4) | (4, 2) => 14
    case (2, 5) | (5, 2) => 15
    case (2, 6) | (6, 2) => 16
    case (2, 7) | (7, 2) => 17
    case (3, 4) | (4, 3) => 18
    case (3, 5) | (5, 3) => 19
    case (3, 6) | (6, 3) => 20
    case (3, 7) | (7, 3) => 21
    case (4, 5) | (5, 4) => 22
    case (4, 6) | (6, 4) => 23
    case (4, 7) | (7, 4) => 24
    case (5, 6) | (6, 5) => 25
    case (5, 7) | (7, 5) => 26
    case (6, 7) | (7, 6) => 27
    case _ => 28
  }

  /** The channel pair with a given index, smaller channel first; (255, 255) for an index above 27. */
  function IndexToCoincidenceChannels(index: nat): (r: (u8, u8))
    ensures index < PAIRS ==> r.0 < r.1 < 8
    ensures index >= PAIRS ==> r == (255, 255)
  {
    match index
    case 0 => (0, 1)
    case 1 => (0, 2)
    case 2 => (0, 3)
    case 3 => (0, 4)
    case 4 => (0, 5)
    case 5 => (0, 6)
    case 6 => (0, 7)
    case 7 => (1, 2)
    case 8 => (1, 3)
    case 9 => (1, 4)
    case 10 => (1, 5)
    case 11 => (1, 6)
    case 12 => (1, 7)
    case 13 => (2, 3)
    case 14 => (2, 4)
    case 15 => (2, 5)
    case 16 => (2, 6)
    case 17 => (2, 7)
    case 18 => (3, 4)
    case 19 => (3, 5)
    case 20 => (3, 6)
    case 21 => (3, 7)
    case 22 => (4, 5)
    case 23 => (4, 6)
    case 24 => (4, 7)
    case 25 => (5, 6)
    case 26 => (5, 7)
    case 27 => (6, 7)
    case _ => (255, 255)
  }

  /** Triangular numbering: the pairs (x, y), x < y < 8, that come before (a, b) lexicographically. */
  function TriangularIndex(a: nat, b: nat): nat
    requires a < b < 8
  {
    a * (15 - a) / 2 + b - a - 1
  }

  /** The index does not depend on the order of the two channels. */
  lemma Symmetric(a: u8, b: u8)
    ensures CoincidenceChannelsToIndex((a, b)) == CoincidenceChannelsToIndex((b, a))
  {
  }

  /** The table agrees with the closed triangular formula. */
  lemma ClosedForm(a: u8, b: u8)
    requires a < b < 8
    ensures CoincidenceChannelsToIndex((a, b)) == TriangularIndex(a as nat, b as nat)
  {
  }

  /** Pairs are numbered in lexicographic order, so distinct pairs get distinct indices. */
  lemma LexicographicOrder(a: u8, b: u8, c: u8, d: u8)
    requires a < b < 8 && c < d < 8
    requires a < c || (a == c && b < d)
    ensures CoincidenceChannelsToIndex((a, b)) < CoincidenceChannelsToIndex((c, d))
  {
    ClosedForm(a, b);
    ClosedForm(c, d);
  }

  /** Decoding an index and encoding the pair gives the index back. */
  lemma IndexRoundTrip(index: nat)
    requires index < PAIRS
    ensures CoincidenceChannelsToIndex(IndexToCoincidenceChannels(index)) == index
  {
  }

  /** Encoding a valid pair and decoding the index gives the pair back, smaller channel first. */
  lemma PairRoundTrip(a: u8, b: u8)
    requires a < 8 && b < 8 && a != b
    ensures IndexToCoincidenceChannels(CoincidenceChannelsToIndex((a, b)))
            == if a < b then (a, b) else (b, a)
  {
  }
}
