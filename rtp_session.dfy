/**
 * The RTP session of toxav/rtp.h: the header template and sequence
 * counters a session keeps, and its receive queue, a singly linked list of
 * messages from `oldestMsg` (head) to `lastMsg` (tail) through `next`.
 * The C functions take an `RTPSession *` that may be NULL; so do the
 * methods here.
 */
module RtpSession {
  import opened Wrappers
  import opened RtpHeader

  /** One received message; only its `next` link changes after creation. */
  class Message {
    const header: Header
    const extHeader: Option<ExtHeader>
    const data: seq<nat>
    const length: nat
    var next: Message?

    /** The payload fits the MAX_RTP_SIZE buffer and the headers are well formed. */
    ghost predicate Valid() {
      && length == |data|
      && length <= MAX_RTP_SIZE
      && WellFormed(header)
      && ExtMatches(header, extHeader)
    }

    constructor (header: Header, extHeader: Option<ExtHeader>, data: seq<nat>)
      ensures this.header == header && this.extHeader == extHeader && this.data == data
      ensures length == |data| && next == null
    {
      this.header := header;
      this.extHeader := extHeader;
      this.data := data;
      this.length := |data|;
      this.next := null;
    }
  }

  /** What a send hands to the messenger: destination, header, extension header and payload. */
  datatype Outgoing = Outgoing(dest: int, header: Header, extHeader: Option<ExtHeader>, data: seq<nat>)

  /** Every session field other than the receive queue. */
  datatype SessionFields = SessionFields(
    version: nat, padding: nat, extension: nat, cc: nat, marker: nat, payloadType: nat,
    sequnum: nat, rsequnum: nat, timestamp: nat, ssrc: nat, csrc: seq<nat>,
    extHeader: Option<ExtHeader>, dest: int)

  class Session {
    var version: nat
    var padding: nat
    var extension: nat
    var cc: nat
    var marker: nat
    var payloadType: nat
    /** Sequence number of the next message sent. */
    var sequnum: nat
    /** Sequence number of the last message received. */
    var rsequnum: nat
    var timestamp: nat
    var ssrc: nat
    var csrc: seq<nat>
    /** When present, attached to every message sent. */
    var extHeader: Option<ExtHeader>
    const dest: int

    var oldestMsg: Message?
    var lastMsg: Message?
    /** The messages of the receive queue, oldest first. */
    ghost var queue: seq<Message>

    ghost function Fields(): SessionFields
      reads this
    {
      SessionFields(version, padding, extension, cc, marker, payloadType,
                    sequnum, rsequnum, timestamp, ssrc, csrc, extHeader, dest)
    }

    /**
     * The header template fits the bit widths of the header it is copied
     * into, the version is RTP_VERSION, the CSRC table has CC entries, the
     * attached extension header, if any, is well formed,
     * and both sequence numbers are within 0..MAX_SEQU_NUM.
     */
    ghost predicate TemplateValid()
      reads this
    {
      && version == RTP_VERSION
      && padding < 2 && extension < 2 && cc < 16 && marker < 2 && payloadType < 128
      && |csrc| == cc && AllWords32(csrc) && ssrc < WORD32
      && sequnum <= MAX_SEQU_NUM && rsequnum <= MAX_SEQU_NUM
      && (extHeader.Some? ==> WellFormedExt(extHeader.value))
    }

    /**
     * The linked list from `oldestMsg` is exactly `queue`: head and tail are
     * both null when it is empty, otherwise they are its first and last
     * message; each message links to the next, the last one to null; no
     * message appears twice; every message is valid.
     */
    ghost predicate QueueValid()
      reads this, queue
    {
      && (queue == [] ==> oldestMsg == null && lastMsg == null)
      && (queue != [] ==> oldestMsg == queue[0] && lastMsg == queue[|queue| - 1]
                          && queue[|queue| - 1].next == null)
      && (forall i :: 0 <= i < |queue| - 1 ==> queue[i].next == queue[i + 1])
      && (forall i, j :: 0 <= i < j < |queue| ==> queue[i] != queue[j])
      && (forall i :: 0 <= i < |queue| ==> queue[i].Valid())
    }

    ghost predicate Valid()
      reads this, queue
    {
      TemplateValid() && QueueValid()
    }

    /** A session with zeroed counters, no extension header and an empty queue. */
    constructor (payloadType: nat, dest: int, ssrc: nat)
      requires payloadType < 128 && ssrc < WORD32
      ensures Valid() && queue == []
      ensures Fields() == SessionFields(RTP_VERSION, 0, 0, 0, 0, payloadType,
                                        0, 0, 0, ssrc, [], None, dest)
    {
      version := RTP_VERSION;
      padding, extension, cc, marker := 0, 0, 0, 0;
      this.payloadType := payloadType;
      sequnum, rsequnum, timestamp := 0, 0, 0;
      this.ssrc := ssrc;
      csrc := [];
      extHeader := None;
      this.dest := dest;
      oldestMsg, lastMsg := null, null;
      queue := [];
    }
  }

  /**
   * Creates a session. `resourcesOk` stands for the allocations and the
   * registration with the messenger, which are outside this model; when
   * they fail the result is null.
   */
  method InitSession(payloadType: nat, dest: int, ssrc: nat, resourcesOk: bool) returns (s: Session?)
    requires payloadType < 128 && ssrc < WORD32
    ensures (s != null) == resourcesOk
    ensures s != null ==> fresh(s) && s.Valid() && s.queue == []
    ensures s != null ==> s.Fields() == SessionFields(RTP_VERSION, 0, 0, 0, 0, payloadType,
                                                      0, 0, 0, ssrc, [], None, dest)
  {
    if !resourcesOk {
      return null;
    }
    s := new Session(payloadType, dest, ssrc);
  }

  /**
   * Appends a received message to the tail of the queue and records its
   * sequence number. A payload larger than the MAX_RTP_SIZE buffer or a
   * malformed header is dropped and leaves the session as it was.
   */
  method StoreMsg(session: Session, header: Header, extHeader: Option<ExtHeader>, data: seq<nat>)
      returns (accepted: bool)
    requires session.QueueValid()
    modifies session, session.lastMsg
    ensures session.QueueValid()
    ensures old(session.TemplateValid()) ==> session.TemplateValid()
    ensures accepted == (|data| <= MAX_RTP_SIZE && WellFormed(header) && ExtMatches(header, extHeader))
    ensures !accepted ==> session.queue == old(session.queue) && session.Fields() == old(session.Fields())
    ensures accepted ==>
      && |session.queue| == |old(session.queue)| + 1
      && session.queue[..|old(session.queue)|] == old(session.queue)
      && fresh(session.queue[|old(session.queue)|])
      && session.queue[|old(session.queue)|].header == header
      && session.queue[|old(session.queue)|].extHeader == extHeader
      && session.queue[|old(session.queue)|].data == data
      && session.Fields() == old(session.Fields()).(rsequnum := header.sequnum)
  {
    if !(|data| <= MAX_RTP_SIZE && WellFormed(header) && ExtMatches(header, extHeader)) {
      return false;
    }
    var m := new Message(header, extHeader, data);
    session.rsequnum := header.sequnum;
    Append(session, m);
    accepted := true;
  }

  /** Links an unlinked valid message behind the tail of the queue. */
  method Append(session: Session, m: Message)
    requires session.QueueValid() && m.Valid() && m.next == null && m !in session.queue
    modifies session, session.lastMsg
    ensures session.QueueValid() && session.queue == old(session.queue) + [m]
    ensures session.Fields() == old(session.Fields())
  {
    if session.lastMsg == null {
      session.oldestMsg := m;
    } else {
      session.lastMsg.next := m;
    }
    session.lastMsg := m;
    session.queue := session.queue + [m];
  }

  /**
   * Removes and returns the oldest message; null when the session is null
   * or its queue is empty, and then nothing changes.
   */
  method RecvMsg(session: Session?) returns (m: Message?)
    requires session != null ==> session.QueueValid()
    modifies session
    ensures session == null ==> m == null
    ensures session != null ==> session.QueueValid() && session.Fields() == old(session.Fields())
    ensures session != null && old(session.queue) == [] ==> m == null && session.queue == []
    ensures session != null && old(session.queue) != [] ==>
              m == old(session.queue[0]) && session.queue == old(session.queue[1..])
    ensures m != null ==> m.Valid() && m.length <= MAX_RTP_SIZE
  {
    if session == null || session.oldestMsg == null {
      return null;
    }
    m := session.oldestMsg;
    session.oldestMsg := m.next;
    if session.oldestMsg == null {
      session.lastMsg := null;
    }
    session.queue := session.queue[1..];
  }

  /** Unlinks every queued message, oldest first, and empties the queue. */
  method ReleaseAll(session: Session)
    requires session.QueueValid()
    modifies session, session.queue
    ensures session.QueueValid() && session.queue == []
    ensures session.Fields() == old(session.Fields())
    ensures forall m :: m in old(session.queue) ==> m.next == null
  {
    UnlinkChain(session.oldestMsg, session.queue);
    session.oldestMsg, session.lastMsg := null, null;
    session.queue := [];
  }

  /** Walks the chain `q` from its first message `first`, setting every `next` link to null. */
  method UnlinkChain(first: Message?, ghost q: seq<Message>)
    requires first == if q == [] then null else q[0]
    requires forall j :: 0 <= j < |q| - 1 ==> q[j].next == q[j + 1]
    requires q != [] ==> q[|q| - 1].next == null
    requires forall a, b :: 0 <= a < b < |q| ==> q[a] != q[b]
    modifies q
    ensures forall j :: 0 <= j < |q| ==> q[j].next == null
  {
    ghost var i := 0;
    var cur := first;
    while cur != null
      invariant 0 <= i <= |q|
      invariant cur == if i < |q| then q[i] else null
      invariant forall j :: 0 <= j < i ==> q[j].next == null
      invariant forall j :: i <= j < |q| - 1 ==> q[j].next == q[j + 1]
      invariant q != [] ==> q[|q| - 1].next == null
      decreases |q| - i
    {
      var following := cur.next;
      cur.next := null;
      cur := following;
      i := i + 1;
    }
  }

  /**
   * Releases every message the session holds: -1 for a null session,
   * otherwise 0 with the queue empty, also when it already was.
   */
  method ReleaseSessionRecv(session: Session?) returns (r: int)
    requires session != null ==> session.QueueValid()
    modifies session, if session != null then session.queue else []
    ensures (r == -1) == (session == null)
    ensures session != null ==> r == 0 && session.QueueValid() && session.queue == []
    ensures session != null ==> session.Fields() == old(session.Fields())
    ensures session != null ==> forall m :: m in old(session.queue) ==> m.next == null
  {
    if session == null {
      return -1;
    }
    ReleaseAll(session);
    r := 0;
  }

  /**
   * Sends `data` to the session's destination. The header is built from
   * the session template, the current sequence number and the clock reading
   * `now` (truncated to 32 bits); the session's extension header, when it
   * has one, goes with it and the header's Ext bit says so. All of it is
   * handed to the messenger, whose verdict is `delivered`. Only a delivered message advances the sequence
   * number. -1 for a null session, a payload larger than MAX_RTP_SIZE or
   * a failed delivery; 0 otherwise.
   */
  method SendMsg(session: Session?, data: seq<nat>, now: nat, delivered: bool)
      returns (r: int, sent: Option<Outgoing>)
    requires session != null ==> session.TemplateValid()
    modifies session
    ensures session == null ==> r == -1 && sent == None
    ensures session != null ==> session.TemplateValid()
    ensures session != null ==> && session.queue == old(session.queue)
                                && session.oldestMsg == old(session.oldestMsg)
                                && session.lastMsg == old(session.lastMsg)
    ensures session != null && old(session.QueueValid()) ==> session.QueueValid()
    ensures session != null && |data| > MAX_RTP_SIZE ==>
              r == -1 && sent == None && session.Fields() == old(session.Fields())
    ensures session != null && |data| <= MAX_RTP_SIZE ==>
              && sent.Some?
              && WellFormed(sent.value.header)
              && ExtMatches(sent.value.header, sent.value.extHeader)
              && sent.value.dest == session.dest
              && sent.value.extHeader == old(session.extHeader)
              && sent.value.data == data
              && UnpackFlags(sent.value.header.flags)
                   == Flags(RTP_VERSION, old(session.padding),
                            if old(session.extHeader).Some? then 1 else 0, old(session.cc))
              && UnpackMarkerPayload(sent.value.header.markerPayloadt)
                   == MarkerPayload(old(session.marker), old(session.payloadType))
              && sent.value.header.sequnum == old(session.sequnum)
              && sent.value.header.timestamp == now % WORD32
              && sent.value.header.ssrc == old(session.ssrc)
              && sent.value.header.csrc == old(session.csrc)
              && (r == 0) == delivered && (r == -1) == !delivered
              && session.Fields() == if delivered
                                     then old(session.Fields()).(sequnum := NextSequ(old(session.sequnum)))
                                     else old(session.Fields())
  {
    if session == null {
      return -1, None;
    }
    if |data| > MAX_RTP_SIZE {
      return -1, None;
    }
    var ext := if session.extHeader.Some? then 1 else 0;
    var h := MakeHeader(Flags(session.version, session.padding, ext, session.cc),
                        MarkerPayload(session.marker, session.payloadType),
                        session.sequnum, now % WORD32, session.ssrc, session.csrc);
    sent := Some(Outgoing(session.dest, h, session.extHeader, data));
    if !delivered {
      return -1, sent;
    }
    session.sequnum := NextSequ(session.sequnum);
    r := 0;
  }

  /**
   * Ends a session: the queue is always released; -1 for a null session or
   * when unregistering from the messenger (`unregistered`, outside this
   * model) fails, 0 otherwise.
   */
  method TerminateSession(session: Session?, unregistered: bool) returns (r: int)
    requires session != null ==> session.QueueValid()
    modifies session, if session != null then session.queue else []
    ensures (r == 0) == (session != null && unregistered)
    ensures r == 0 || r == -1
    ensures session != null ==> session.QueueValid() && session.queue == []
    ensures session != null ==> session.Fields() == old(session.Fields())
    ensures session != null ==> forall m :: m in old(session.queue) ==> m.next == null
  {
    if session == null {
      return -1;
    }
    ReleaseAll(session);
    r := if unregistered then 0 else -1;
  }
}
