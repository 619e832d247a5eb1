# RTP header and session model (toxav)

A Dafny model of the RTP layer that the Tox audio/video module declares in
`toxav/rtp.h`. The header declares the data layout and the operations but
contains no function bodies, so the model states what the declarations and
their doc comments promise. It has three parts.

- `RtpHeader` (rtp_header.dfy) is pure. It models the two bit-packed control
  words of `RTPHeader`. `flags` holds Version(2), Padding(1), Ext(1) and
  CC(4). `marker_payloadt` holds Marker(1) and Payload Type(7). Both are
  packed most significant bit first, as in section 5.1 of RFC 3550. The
  module also defines the header and extension-header records, what makes
  them well formed, and the 16-bit sequence-number arithmetic:
  `RTP_VERSION` = 2, and `MAX_SEQU_NUM` = 65535 wraps around to 0.
  A header is well formed when:
  - both control words fit in 8 bits;
  - the version is 2;
  - the CSRC table has exactly CC entries;
  - the 32-bit fields fit in 32 bits;
  - `length` is the header's size in the packet, 12 + 4·CC octets (RFC 3550, section 5.1).

  An extension header is well formed when its table has exactly `length`
  entries.
- `RtpSession` (rtp_session.dfy) is imperative. `Message` is a class whose
  `next` link is the only field that changes. `Session` is a class holding
  the header template, the send counter `sequnum`, the receive counter
  `rsequnum` and the receive queue. The queue is the linked list from
  `oldestMsg` (head) to `lastMsg` (tail). Its ghost view `queue` lists the
  messages oldest first. `QueueValid()` ties the pointers to that view:
  - head and tail are both null exactly when the queue is empty;
  - the links follow the sequence and the tail links to null;
  - no message appears twice;
  - each payload fits the `MAX_RTP_SIZE` (65535) buffer.

  `TemplateValid()` says what the header template must satisfy:
  - the version is 2;
  - padding, extension and marker are 0 or 1, CC is below 16 and the payload type below 128;
  - the CSRC table has CC entries, each below 2^32, and the SSRC is below 2^32;
  - both counters stay within 0..65535;
  - an attached extension header is well formed.

  `Valid()` is the two together. The queue operations require and keep only
  `QueueValid()`, and `SendMsg` only `TemplateValid()`; each leaves the
  other half as it found it.
- The C functions take an `RTPSession *` that may be NULL. The methods of
  the same names take a `Session?` and return -1 or null when it is null.

Calls into code outside the header are parameters:
- `resourcesOk` says whether `rtp_init_session` could allocate and register with the messenger.
- `delivered` says whether the messenger accepted a sent packet.
- `unregistered` says whether unregistering at termination worked.
- `now` is the clock reading for the timestamp.
- `ssrc` is the session's synchronization source identifier. `rtp_init_session`
  takes no such argument; how it picks one is not part of this model.

The header does not declare the receive path that fills the queue. It is
modelled as `StoreMsg`, following the structure's description: append at
the tail and record the received sequence number in `rsequnum`. A message
with an oversized payload or a malformed header is dropped.

## Model

| member | source | states |
|---|---|---|
| RtpHeader.PackFlags | toxav/rtp.h:45 | the packed `flags` word fits 8 bits and unpacks to the same version, padding, ext and cc (each within its width); with version 2 its top two bits are `10` |
| RtpHeader.UnpackFlags | toxav/rtp.h:45 | unpacking any word yields fields within their widths (2, 1, 1, 4 bits) |
| RtpHeader.FlagsUnpackRoundTrip | toxav/rtp.h:45 | every 8-bit `flags` word is the packing of its unpacked fields (the layout is a bijection) |
| RtpHeader.PackMarkerPayload | toxav/rtp.h:46 | the packed `marker_payloadt` word fits 8 bits, unpacks to the same marker and payload type (marker < 2, payload type < 128), and its top bit is set exactly when the marker is 1 |
| RtpHeader.UnpackMarkerPayload | toxav/rtp.h:46 | unpacking any word yields a 1-bit marker and a 7-bit payload type |
| RtpHeader.MarkerPayloadUnpackRoundTrip | toxav/rtp.h:46 | every 8-bit `marker_payloadt` word is the packing of its unpacked fields |
| RtpHeader.HeaderSize | toxav/rtp.h:50-51 | the header's length in the packet is 12 octets plus 4 per CSRC entry, between 12 and 72, and the CSRC count is recovered from it as (length - 12) / 4 |
| RtpHeader.MakeHeader | toxav/rtp.h:44-53 | a header built from fields unpacks to those fields, carries the given sequence number, timestamp, SSRC and CSRC table (with CC entries), records its own size in `length`, and is well formed when the version is RTP_VERSION and every field fits |
| RtpHeader.NextSequ | toxav/rtp.h:36 | the next sequence number stays within 0..MAX_SEQU_NUM and is the previous one plus 1 modulo 65536, so 65535 goes to 0 |
| RtpHeader.AdvanceSequ | toxav/rtp.h:99 | the sequence number after any number of sends stays within 0..MAX_SEQU_NUM |
| RtpHeader.AdvanceSequModular | toxav/rtp.h:47 | after n sends from s the sequence number is (s + n) mod 65536 |
| RtpHeader.SequWrapsAfterFullCycle | toxav/rtp.h:36 | 65536 sends bring the sequence number back to where it started |
| RtpHeader.SequDistinctWithinCycle | toxav/rtp.h:99 | the i-th and j-th sends carry different sequence numbers whenever 0 < j - i < 65536, so any 65536 consecutive sends carry pairwise distinct numbers |
| RtpSession.Message.constructor | toxav/rtp.h:72-81 | a new message holds the given header, extension header and data, `length` is the data's length, and it is not linked |
| RtpSession.Session.constructor | toxav/rtp.h:92-136 | a new session is valid: version RTP_VERSION, zero counters, the given payload type, no extension header, empty queue (head and tail null) |
| RtpSession.InitSession | toxav/rtp.h:183-203 | returns null exactly when allocation or registration fails, otherwise a fresh valid session with an empty queue |
| RtpSession.StoreMsg | toxav/rtp.h:127-128 | a message with a payload of at most MAX_RTP_SIZE and well-formed headers is appended at the tail, behind the earlier messages in order, and its sequence number is recorded; any other message is dropped with the session unchanged |
| RtpSession.Append | toxav/rtp.h:127-128 | links a new message behind the tail (through the old tail's `next`, or as head and tail of an empty queue), keeping the list valid and the earlier messages in order |
| RtpSession.RecvMsg | toxav/rtp.h:150-157 | returns the oldest message and removes it, the rest stay in order; the message returned is valid, so its payload is at most MAX_RTP_SIZE; returns null and changes nothing when the session is null or the queue is empty |
| RtpSession.ReleaseAll | toxav/rtp.h:127-128 | releases every queued message and leaves head and tail null, the queue empty and the session's other fields unchanged |
| RtpSession.UnlinkChain | toxav/rtp.h:139-147 | walking a `next`-linked chain from its first message to NULL visits every message, and each one ends up unlinked |
| RtpSession.ReleaseSessionRecv | toxav/rtp.h:139-147 | -1 exactly for a null session; otherwise 0, every held message released, and the queue empty, also when it was empty already |
| RtpSession.SendMsg | toxav/rtp.h:160-170 | -1 for a null session, a payload over MAX_RTP_SIZE or a failed delivery; otherwise what is handed over is addressed to the session's destination and holds a well-formed header carrying version 2, the session's template, CC CSRC entries and the current sequence number, together with the session's extension header (which the session attaches to every message it sends, the header's Ext bit being set exactly when there is one) and the given payload; only a delivered send advances the sequence number, wrapping at 65535 |
| RtpSession.TerminateSession | toxav/rtp.h:206-215 | 0 exactly when the session is not null and unregistering succeeds, -1 otherwise; the queue of a non-null session is always released |

## Left out

- The mutex (`pthread_mutex_t`) and all locking. The queue is modelled single-threaded.
- Encryption and decryption keys, nonces and the nonce cycle. They call into
  crypto code that is not part of this model. The session only borrows the keys.
- `IP_Port from`, `prefix`, `resolution` and `framerate`. They are routing
  metadata with no stated behaviour.
- Sending bytes through the messenger, and registering or unregistering the
  packet handler. Each is replaced by a boolean outcome parameter.
- Reading the clock. The timestamp is the parameter `now`, truncated to 32
  bits. The session's own `timestamp` field is carried but never updated,
  because the header does not say how it is used.
- Serialising a whole packet to bytes, decryption, and parsing received
  bytes. The header declares no codec, so `StoreMsg` receives an
  already-parsed header.
- `rtp_free_msg` and freeing in general. Dafny's heap is garbage-collected,
  so releasing a message is modelled as unlinking it (`next` set to null).
- The `data[MAX_RTP_SIZE]` buffer of a message is a sequence whose length is
  at most MAX_RTP_SIZE, not a fixed-size array. No operation here writes
  into it after creation.
- InitSession: the payload type must be in 0..127. The header does not say
  what happens to a `ptrdiff_t payload_type` outside the 7-bit field, so
  those values are excluded instead of modelled.
- Session.constructor: the same 0..127 restriction on the payload type, for
  the same reason.
- RecvMsg: the returned message keeps its `next` link. The header does not
  say whether `rtp_recv_msg` clears it. The caller owns the message all the
  same, because it is no longer part of the queue.
- StoreMsg: `rsequnum` ("Check when recving msg") is only recorded. The
  header does not say what check is made against it, so no received message
  is rejected for its sequence number.
- MakeHeader: `length` counts the fixed header and the CSRC table. The
  extension header's own size is not added, because the header attaches the
  extension separately.
- SendMsg: the Ext bit of a sent header follows whether the session has an
  extension header attached, not the session's `extension` field, which is
  carried but does not decide what is sent.
- SendMsg: whether the sequence number advances after a failed delivery is
  not stated by the header. The model advances it only after a delivery.
