/**
 * The RTP header of toxav/rtp.h: the two bit-packed control words, the
 * fixed header fields, the CSRC table and the optional extension header,
 * laid out as in section 5.1 of RFC 3550, plus the 16-bit sequence number
 * arithmetic used when sending.
 */
module RtpHeader {
  import opened Wrappers

  /** Protocol version carried in every header. */
  const RTP_VERSION: nat := 2
  /** Largest sequence number; the next one after it is 0. */
  const MAX_SEQU_NUM: nat := 65535
  /** Capacity of a message's data buffer. */
  const MAX_RTP_SIZE: nat := 65535
  /** Number of distinct values of a 16-bit and of a 32-bit header field. */
  const WORD16: nat := 0x1_0000
  const WORD32: nat := 0x1_0000_0000
  /** Octets of the fixed header before the CSRC table, and octets per CSRC entry. */
  const FIXED_HEADER_SIZE: nat := 12
  const CSRC_ENTRY_SIZE: nat := 4

  // ---------------------------------------------------------------------
  // The `flags` control word: Version(2) Padding(1) Ext(1) CC(4), most
  // significant bits first.
  // ---------------------------------------------------------------------

  datatype Flags = Flags(version: nat, padding: nat, ext: nat, cc: nat) {
    /** Every field fits its bit width. */
    predicate Valid() {
      version < 4 && padding < 2 && ext < 2 && cc < 16
    }
  }

  function PackFlags(f: Flags): (w: nat)
    requires f.Valid()
    ensures w < 256
    ensures UnpackFlags(w) == f
    ensures f.version == RTP_VERSION ==> 128 <= w < 192
  {
    FlagsFieldPositions(f.version, f.padding, f.ext, f.cc);
    f.version * 64 + f.padding * 32 + f.ext * 16 + f.cc
  }

  function UnpackFlags(w: nat): (f: Flags)
    ensures f.Valid()
  {
    Flags(w / 64 % 4, w / 32 % 2, w / 16 % 2, w % 16)
  }

  /** Each field of a packed `flags` word is recovered by shifting and masking. */
  lemma FlagsFieldPositions(v: nat, p: nat, e: nat, c: nat)
    requires v < 4 && p < 2 && e < 2 && c < 16
    ensures (v * 64 + p * 32 + e * 16 + c) / 64 == v
    ensures (v * 64 + p * 32 + e * 16 + c) / 32 == 2 * v + p
    ensures (v * 64 + p * 32 + e * 16 + c) / 16 == 4 * v + 2 * p + e
    ensures (v * 64 + p * 32 + e * 16 + c) % 16 == c
  {
    var w := v * 64 + p * 32 + e * 16 + c;
    assert 16 * (4 * v + 2 * p + e) <= w < 16 * (4 * v + 2 * p + e) + 16;
    assert 32 * (2 * v + p) <= w < 32 * (2 * v + p) + 32;
    assert 64 * v <= w < 64 * v + 64;
  }

  /** Every 8-bit `flags` word is the packing of its unpacked fields. */
  lemma FlagsUnpackRoundTrip(w: nat)
    requires w < 256
    ensures PackFlags(UnpackFlags(w)) == w
  {
    SplitFlagsByte(w);
  }

  /** An 8-bit word is the sum of its 2-, 1-, 1- and 4-bit fields at their positions. */
  lemma SplitFlagsByte(w: nat)
    requires w < 256
    ensures w == (w / 64 % 4) * 64 + (w / 32 % 2) * 32 + (w / 16 % 2) * 16 + w % 16
  {
    var q64, q32, q16 := w / 64, w / 32, w / 16;
    assert q64 < 4;
    assert q32 == 2 * q64 + q32 % 2 by {
      assert 2 * q64 <= q32 < 2 * q64 + 2;
    }
    assert q16 == 2 * q32 + q16 % 2 by {
      assert 2 * q32 <= q16 < 2 * q32 + 2;
    }
    assert w == 16 * q16 + w % 16;
  }

  // ---------------------------------------------------------------------
  // The `marker_payloadt` control word: Marker(1) PayloadType(7).
  // ---------------------------------------------------------------------

  datatype MarkerPayload = MarkerPayload(marker: nat, payloadType: nat) {
    predicate Valid() {
      marker < 2 && payloadType < 128
    }
  }

  function PackMarkerPayload(m: MarkerPayload): (w: nat)
    requires m.Valid()
    ensures w < 256
    ensures UnpackMarkerPayload(w) == m
    ensures (w >= 128) == (m.marker == 1)
  {
    MarkerFieldPositions(m.marker, m.payloadType);
    m.marker * 128 + m.payloadType
  }

  function UnpackMarkerPayload(w: nat): (m: MarkerPayload)
    ensures m.Valid()
  {
    MarkerPayload(w / 128 % 2, w % 128)
  }

  /** Every 8-bit `marker_payloadt` word is the packing of its unpacked fields. */
  lemma MarkerPayloadUnpackRoundTrip(w: nat)
    requires w < 256
    ensures PackMarkerPayload(UnpackMarkerPayload(w)) == w
  {
    var q := w / 128;
    assert 128 * q <= w < 128 * q + 128;
    assert q < 2 && q % 2 == q;
    assert w == 128 * q + w % 128;
  }

  /** Marker and payload type are recovered from a packed `marker_payloadt` word. */
  lemma MarkerFieldPositions(mk: nat, pt: nat)
    requires mk < 2 && pt < 128
    ensures (mk * 128 + pt) / 128 == mk
    ensures (mk * 128 + pt) % 128 == pt
  {
    assert 128 * mk <= mk * 128 + pt < 128 * mk + 128;
  }

  // ---------------------------------------------------------------------
  // Header and extension header.
  // ---------------------------------------------------------------------

  /** An RTP header as stored in memory: the control words stay packed. */
  datatype Header = Header(
    flags: nat,
    markerPayloadt: nat,
    sequnum: nat,
    timestamp: nat,
    ssrc: nat,
    csrc: seq<nat>,
    length: nat)

  /** The optional extension header: profile, entry count and the entries. */
  datatype ExtHeader = ExtHeader(profile: nat, length: nat, table: seq<nat>)

  /** Octets the header occupies in the packet: the fixed part and `cc` CSRC entries. */
  function HeaderSize(cc: nat): (n: nat)
    requires cc < 16
    ensures FIXED_HEADER_SIZE <= n <= FIXED_HEADER_SIZE + 15 * CSRC_ENTRY_SIZE
    ensures (n - FIXED_HEADER_SIZE) % CSRC_ENTRY_SIZE == 0
    ensures (n - FIXED_HEADER_SIZE) / CSRC_ENTRY_SIZE == cc
  {
    FIXED_HEADER_SIZE + cc * CSRC_ENTRY_SIZE
  }

  predicate AllWords32(s: seq<nat>) {
    forall i :: 0 <= i < |s| ==> s[i] < WORD32
  }

  /**
   * A header this module sends or accepts: both control words are 8 bits
   * wide, the version is RTP_VERSION, the CSRC table has exactly CC
   * entries, every other field fits its width and `length` is the size of
   * the header in the packet.
   */
  predicate WellFormed(h: Header) {
    && h.flags < 256
    && h.markerPayloadt < 256
    && UnpackFlags(h.flags).version == RTP_VERSION
    && |h.csrc| == UnpackFlags(h.flags).cc
    && h.sequnum <= MAX_SEQU_NUM
    && h.timestamp < WORD32
    && h.ssrc < WORD32
    && AllWords32(h.csrc)
    && h.length == HeaderSize(|h.csrc|)
  }

  /** An extension header whose table has exactly `length` entries. */
  predicate WellFormedExt(e: ExtHeader) {
    && e.profile < WORD16
    && e.length < WORD16
    && |e.table| == e.length
    && AllWords32(e.table)
  }

  /** The Ext bit of the header says whether an extension header goes with it. */
  predicate ExtMatches(h: Header, e: Option<ExtHeader>) {
    && (UnpackFlags(h.flags).ext == 1) == e.Some?
    && (e.Some? ==> WellFormedExt(e.value))
  }

  /** Builds a header from unpacked fields, packing the two control words. */
  function MakeHeader(f: Flags, m: MarkerPayload, sequnum: nat, timestamp: nat, ssrc: nat, csrc: seq<nat>): (h: Header)
    requires f.Valid() && m.Valid() && |csrc| == f.cc
    ensures UnpackFlags(h.flags) == f
    ensures UnpackMarkerPayload(h.markerPayloadt) == m
    ensures |h.csrc| == UnpackFlags(h.flags).cc
    ensures h.sequnum == sequnum && h.timestamp == timestamp && h.ssrc == ssrc && h.csrc == csrc
    ensures h.length == HeaderSize(f.cc)
    ensures (&& f.version == RTP_VERSION && sequnum <= MAX_SEQU_NUM && timestamp < WORD32
             && ssrc < WORD32 && AllWords32(csrc))
            ==> WellFormed(h)
  {
    Header(PackFlags(f), PackMarkerPayload(m), sequnum, timestamp, ssrc, csrc, HeaderSize(f.cc))
  }

  // ---------------------------------------------------------------------
  // Sequence numbers.
  // ---------------------------------------------------------------------

  /** The sequence number after `s`: one more, wrapping from MAX_SEQU_NUM to 0. */
  function NextSequ(s: nat): (r: nat)
    requires s <= MAX_SEQU_NUM
    ensures r <= MAX_SEQU_NUM
    ensures r == (s + 1) % (MAX_SEQU_NUM + 1)
  {
    if s == MAX_SEQU_NUM then 0 else s + 1
  }

  /** The sequence number after `n` sends starting from `s`. */
  function AdvanceSequ(s: nat, n: nat): (r: nat)
    requires s <= MAX_SEQU_NUM
    ensures r <= MAX_SEQU_NUM
  {
    if n == 0 then s else NextSequ(AdvanceSequ(s, n - 1))
  }

  /** Sending `n` messages moves the sequence number `n` steps modulo 65536. */
  lemma {:induction false} AdvanceSequModular(s: nat, n: nat)
    requires s <= MAX_SEQU_NUM
    ensures AdvanceSequ(s, n) == (s + n) % (MAX_SEQU_NUM + 1)
  {
    if n > 0 {
      AdvanceSequModular(s, n - 1);
      SuccessorModulus(s + n - 1);
    }
  }

  /** Adding one to x moves x modulo 65536 one step, wrapping from 65535 to 0. */
  lemma SuccessorModulus(x: nat)
    ensures (x + 1) % (MAX_SEQU_NUM + 1)
            == if x % (MAX_SEQU_NUM + 1) == MAX_SEQU_NUM then 0 else x % (MAX_SEQU_NUM + 1) + 1
  {
    var q, r := x / (MAX_SEQU_NUM + 1), x % (MAX_SEQU_NUM + 1);
    assert x == q * (MAX_SEQU_NUM + 1) + r;
    if r == MAX_SEQU_NUM {
      ModulusOf(x + 1, q + 1, 0);
    } else {
      ModulusOf(x + 1, q, r + 1);
    }
  }

  /** The remainder modulo 65536 is the `r` of any decomposition x = k * 65536 + r. */
  lemma ModulusOf(x: nat, k: int, r: nat)
    requires r <= MAX_SEQU_NUM && x == k * (MAX_SEQU_NUM + 1) + r
    ensures x % (MAX_SEQU_NUM + 1) == r
  {
    var q := x / (MAX_SEQU_NUM + 1);
    assert x == q * (MAX_SEQU_NUM + 1) + x % (MAX_SEQU_NUM + 1);
    assert q == k by {
      assert (q - k) * (MAX_SEQU_NUM + 1) == r - x % (MAX_SEQU_NUM + 1);
    }
  }

  /** After 65536 sends the sequence number is back where it started. */
  lemma SequWrapsAfterFullCycle(s: nat)
    requires s <= MAX_SEQU_NUM
    ensures AdvanceSequ(s, MAX_SEQU_NUM + 1) == s
  {
    AdvanceSequModular(s, MAX_SEQU_NUM + 1);
    ModulusOf(s + MAX_SEQU_NUM + 1, 1, s);
  }

  /**
   * Within any window of 65536 consecutive sends the sequence numbers are
   * pairwise distinct: the i-th and j-th differ whenever 0 < j - i < 65536.
   */
  lemma SequDistinctWithinCycle(s: nat, i: nat, j: nat)
    requires s <= MAX_SEQU_NUM && i < j <= i + MAX_SEQU_NUM
    ensures AdvanceSequ(s, i) != AdvanceSequ(s, j)
  {
    AdvanceSequModular(s, i);
    AdvanceSequModular(s, j);
    var q, r := (s + i) / (MAX_SEQU_NUM + 1), (s + i) % (MAX_SEQU_NUM + 1);
    assert s + i == q * (MAX_SEQU_NUM + 1) + r;
    var d := j - i;
    if r + d <= MAX_SEQU_NUM {
      ModulusOf(s + j, q, r + d);
    } else {
      ModulusOf(s + j, q + 1, r + d - (MAX_SEQU_NUM + 1));
    }
  }

}
