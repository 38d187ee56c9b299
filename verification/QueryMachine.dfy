/** A query to one name server, dns_query.c: a state machine that is driven by the events on its
    socket, may restart itself with less demanding settings, and owns a socket, a message and a
    receive buffer. What the network, the server and the allocator do is an input. */
module QueryMachine {
  datatype State = QS_INITIAL | QS_TCPINITIAL | QS_TCPWRITE | QS_TCPREAD | QS_UDPINITIAL | QS_UDPRECEIVE
    | QS_CANCELED | QS_DONE

  /** The protocols to use: one only, or one and then the other. */
  datatype Method = TCP_ONLY | UDP_ONLY | TCP_UDP | UDP_TCP

  /** What the state machine answers: wait for the socket, or a return code. */
  datatype Answer = AGAIN | CODE(rc: nat)

  datatype Verdict = TAKE | DISCARD | RESEND

  const RC_OK: nat := 0
  const RC_FORMAT: nat := 1
  const RC_SERVFAIL: nat := 2
  const RC_NAMEERR: nat := 3
  const RC_NOTSUPP: nat := 4
  const RC_REFUSED: nat := 5
  const RC_FATALERR: nat := 0xffff

  /** sizeof(dns_hdr_t), the two bytes of length before it in a TCP message, and the least size of
      a buffer for UDP. */
  const HDRSIZE: nat := 12
  const LENSIZE: nat := 2
  const UDP_BUFSIZE: nat := 512

  // ---------- the state ----------

  /** A pointer to a block: null, to a block that is allocated, or to one that has been freed. */
  datatype Ptr = NULL | HELD | FREED

  /** What does not change: the method at the start, whether the server is trusted with recursion,
      and whether realloc to zero bytes frees the block and returns null on this platform. */
  datatype Setup = Setup(first: Method, trusted: bool, frees0: bool)

  /** What is asked for: with EDNS; with the recursion desired bit, with an OPT record, and in a
      message of this length. */
  datatype Want = Want(edns: bool, rd: bool, opt: bool, transl: nat)

  /** The transfer: iolen and recvl, and what has really gone over the present connection: the
      bytes sent and received, and whether it is a TCP one; and whether the last datagram received
      has the id of the query. */
  datatype Wire = Wire(iolen: nat, recvl: nat, sent: nat, got: nat, stream: bool, ours: bool)

  /** What has happened so far: how often the query has been sent anew; whether a block was freed
      that was not allocated, or a block or an open socket forgotten or a closed socket closed;
      whether a length of zero was read over TCP while a buffer was held; and whether a reply was
      looked at that was not all there or, over UDP, not one to this query. */
  datatype Log = Log(restarts: nat, twice: bool, lost: bool, zero: bool, partial: bool)

  /** The fields of query_stat_t that matter here. sock: the socket is open. */
  datatype Q = Q(c: Setup, state: State, qm: Method, want: Want, tc: bool, failed: nat, sock: bool, msg: Ptr,
    recvbuf: Ptr, wire: Wire, log: Log)

  predicate Waiting(s: State) {
    s == QS_TCPWRITE || s == QS_TCPREAD || s == QS_UDPRECEIVE
  }

  predicate InQuery(s: State) {
    Waiting(s) || s == QS_TCPINITIAL || s == QS_UDPINITIAL
  }

  predicate OverUdp(s: State) {
    s == QS_UDPINITIAL || s == QS_UDPRECEIVE
  }

  /** USE_UDP: the protocol a method starts with. */
  predicate UseUdp(qm: Method) {
    qm == UDP_ONLY || qm == UDP_TCP
  }

  /** What a method can turn into when its first protocol is given up. */
  predicate Becomes(first: Method, qm: Method) {
    qm == first || (first == TCP_UDP && qm == UDP_ONLY) || (first == UDP_TCP && qm == TCP_ONLY)
  }

  /** init_qserv and add_qserv: a query about to start. */
  function NewQuery(qm: Method, edns: bool, trusted: bool, frees0: bool): Q {
    Q(Setup(qm, trusted, frees0), QS_INITIAL, qm, Want(edns, false, false, 0), false, 0, false, NULL, NULL,
      Wire(0, 0, 0, 0, false, false), Log(0, false, false, false, false))
  }

  // ---------- the resources ----------

  function Opened(q: Q): Q {
    q.(sock := true, log := q.log.(lost := q.log.lost || q.sock))
  }

  function Closed(q: Q): Q {
    q.(sock := false, log := q.log.(lost := q.log.lost || !q.sock))
  }

  /** The pointer after free, which leaves a null pointer alone. */
  function Freed(p: Ptr): Ptr {
    if p == NULL then NULL else FREED
  }

  function MsgFreed(q: Q): Q {
    q.(msg := Freed(q.msg), log := q.log.(twice := q.log.twice || q.msg == FREED))
  }

  function BufFreed(q: Q): Q {
    q.(recvbuf := Freed(q.recvbuf), log := q.log.(twice := q.log.twice || q.recvbuf == FREED))
  }

  /** realloc: whether it returns a block, and whether the old one is gone. */
  function Realloc(q: Q, size: nat, mem: bool): (bool, bool) {
    if size == 0 && q.c.frees0 && q.recvbuf != NULL then (false, true) else (mem, mem)
  }

  /** st->recvbuf=realloc_or_cleanup(st->recvbuf,size): when null is returned, the old block is
      freed, even if realloc has done so. */
  function BufResized(q: Q, size: nat, mem: bool): Q {
    var (ok, gone) := Realloc(q, size, mem);
    var p := if gone then Freed(q.recvbuf) else q.recvbuf;
    var again := q.recvbuf == FREED || (!ok && p == FREED);
    q.(recvbuf := if ok then HELD else NULL, log := q.log.(twice := q.log.twice || again))
  }

  // ---------- p_query_sm ----------

  datatype Conn = CONNECTED | IN_PROGRESS | CONN_REFUSED | CONN_FAILED
  datatype Wrote = WROTE(n: nat) | WRITE_BLOCKS | WRITE_FAILED(refused: bool)
  datatype Length = LENGTH(len: nat) | LENGTH_BLOCKS | LENGTH_FAILED
  datatype Got = GOT(n: nat) | READ_BLOCKS | READ_FAILED
  datatype Datagram = DATAGRAM(n: nat, ours: bool) | RECV_FAILED

  /** The results of the system calls that one call of p_query_sm may make. ready: binding a TCP
      socket and making it non-blocking. udpSent: binding, connecting and sending over UDP. */
  datatype Net = Net(tcpSocket: bool, ready: bool, conn: Conn, wrote: Wrote, length: Length, mem: bool, got: Got,
    udpSocket: bool, udpSent: bool, datagram: Datagram)

  function Min(a: nat, b: nat): nat {
    if a <= b then a else b
  }

  function Failed(q: Q, code: nat): (Q, Answer) {
    (q.(state := QS_DONE), CODE(code))
  }

  /** switch_to_udp. */
  function ToUdp(q: Q): Q {
    q.(qm := UDP_ONLY, state := QS_UDPINITIAL, log := q.log.(restarts := q.log.restarts + 1))
  }

  function SmTcpFailed(q: Q, n: Net): (Q, Answer) {
    if q.qm == TCP_UDP then SmUdpInitial(ToUdp(q), n) else Failed(q, RC_SERVFAIL)
  }

  function SmUdpInitial(q: Q, n: Net): (Q, Answer) {
    var q0 := q.(wire := q.wire.(stream := false));
    if !n.udpSocket then Failed(q0, RC_SERVFAIL)
    else if !n.udpSent then Failed(Closed(Opened(q0)), RC_SERVFAIL)
    else (Opened(q0).(state := QS_UDPRECEIVE), AGAIN)
  }

  function SmUdpReceive(q: Q, n: Net): (Q, Answer) {
    var q0 := BufResized(q, UDP_BUFSIZE, n.mem);
    if q0.recvbuf != HELD then Failed(Closed(q0), RC_FATALERR)
    else
      match n.datagram
      case RECV_FAILED => Failed(Closed(q0), RC_SERVFAIL)
      case DATAGRAM(k, ours) =>
        var q1 := q0.(wire := q0.wire.(recvl := k, ours := ours));
        if k < HDRSIZE || !ours then (q1, AGAIN) else (Closed(q1).(state := QS_DONE), CODE(RC_OK))
  }

  function Connecting(q: Q): Q {
    Opened(q).(wire := q.wire.(iolen := 0, sent := 0, got := 0, stream := true))
  }

  function SmTcpInitial(q: Q, n: Net): (Q, Answer) {
    if !n.tcpSocket then Failed(q, RC_SERVFAIL)
    else if !n.ready then Failed(Closed(Opened(q)), RC_SERVFAIL)
    else
      var q1 := Connecting(q);
      match n.conn
      case CONNECTED => SmTcpWrite(q1.(state := QS_TCPWRITE), n)
      case IN_PROGRESS => (q1.(state := QS_TCPWRITE), AGAIN)
      case CONN_REFUSED => SmTcpFailed(Closed(q1), n)
      case CONN_FAILED => Failed(Closed(q1), RC_SERVFAIL)
  }

  function SmTcpWrite(q: Q, n: Net): (Q, Answer) {
    if LENSIZE + q.want.transl <= q.wire.iolen then ToRead(q, n)
    else
      match n.wrote
      case WRITE_BLOCKS => (q, AGAIN)
      case WRITE_FAILED(refused) =>
        if q.wire.iolen == 0 && refused then SmTcpFailed(Closed(q), n) else Failed(Closed(q), RC_SERVFAIL)
      case WROTE(k) =>
        var q0 := Written(q, Min(k, LENSIZE + q.want.transl - q.wire.iolen));
        if q0.wire.iolen < LENSIZE + q.want.transl then (q0, AGAIN) else ToRead(q0, n)
  }

  function Written(q: Q, rv: nat): Q {
    q.(wire := q.wire.(iolen := q.wire.iolen + rv, sent := q.wire.sent + rv))
  }

  /** The query has been sent. */
  function ToRead(q: Q, n: Net): (Q, Answer) {
    SmTcpRead(Reading(q), n)
  }

  function Reading(q: Q): Q {
    q.(state := QS_TCPREAD, wire := q.wire.(iolen := 0))
  }

  function SmTcpRead(q: Q, n: Net): (Q, Answer) {
    if q.wire.iolen != 0 then SmTcpReadRest(q, n)
    else
      match n.length
      case LENGTH_BLOCKS => (q, AGAIN)
      case LENGTH_FAILED => SmTcpFailed(Closed(q), n)
      case LENGTH(len) =>
        var q1 := BufResized(Announced(q, len), len, n.mem);
        if q1.recvbuf != HELD then Failed(Closed(q1), RC_FATALERR) else SmTcpReadRest(q1, n)
  }

  function Announced(q: Q, len: nat): Q {
    q.(wire := q.wire.(iolen := LENSIZE, recvl := len, got := LENSIZE),
       log := q.log.(zero := q.log.zero || (len == 0 && q.recvbuf == HELD)))
  }

  /** Once the length is known and the buffer allocated. */
  function SmTcpReadRest(q: Q, n: Net): (Q, Answer) {
    if LENSIZE + q.wire.recvl <= q.wire.iolen then Received(q)
    else
      match n.got
      case READ_BLOCKS => (q, AGAIN)
      case READ_FAILED => SmTcpFailed(Closed(q), n)
      case GOT(k) =>
        if k == 0 then SmTcpFailed(Closed(q), n)
        else
          var q0 := Gotten(q, Min(k, LENSIZE + q.wire.recvl - q.wire.iolen));
          if q0.wire.iolen < LENSIZE + q.wire.recvl then (q0, AGAIN) else Received(q0)
  }

  function Gotten(q: Q, rv: nat): Q {
    q.(wire := q.wire.(iolen := q.wire.iolen + rv, got := q.wire.got + rv))
  }

  function Received(q: Q): (Q, Answer) {
    (Closed(q).(state := QS_DONE), CODE(RC_OK))
  }

  function Sm(q: Q, n: Net): (Q, Answer) {
    match q.state
    case QS_TCPINITIAL => SmTcpInitial(q, n)
    case QS_TCPWRITE => SmTcpWrite(q, n)
    case QS_TCPREAD => SmTcpRead(q, n)
    case QS_UDPINITIAL => SmUdpInitial(q, n)
    case QS_UDPRECEIVE => SmUdpReceive(q, n)
    case _ => Failed(q, RC_SERVFAIL)
  }

  // ---------- p_exec_query ----------

  /** What the message received amounts to. wellFormed: it passes the checks on its header.
      removed: the OPT record could be taken out of the query. code: what reading the records
      returns. */
  datatype Reply = Reply(rcode: nat, wellFormed: bool, ra: bool, hasAnswer: bool, authServ2: bool, removed: bool,
    transl: nat, tc: bool, code: nat)

  /** The server has refused what it was asked. */
  predicate Refusal(rcode: nat) {
    rcode == RC_SERVFAIL || rcode == RC_NOTSUPP || rcode == RC_REFUSED
  }

  /** The server seems not to do recursion for us. */
  predicate WantsNoRecursion(q: Q, r: Reply) {
    Refusal(r.rcode) && q.want.rd && !r.ra
  }

  /** The server seems not to understand the OPT record. */
  predicate WantsNoEdns(q: Q, r: Reply) {
    && (r.rcode == RC_FORMAT || (Refusal(r.rcode) && r.rcode != RC_SERVFAIL))
    && q.want.edns && q.want.opt && !WantsNoRecursion(q, r)
  }

  /** The reply is well-formed and at least a header long. */
  predicate Sound(q: Q, r: Reply) {
    r.wellFormed && q.wire.recvl >= HDRSIZE
  }

  /** The reply is taken as it is: an answer, or the best there is from a server further down. */
  predicate Usable(q: Q, r: Reply, hasEnt: bool) {
    && Sound(q, r)
    && (r.rcode == RC_OK || r.rcode == RC_NAMEERR
        || (hasEnt && Refusal(r.rcode) && !WantsNoRecursion(q, r) && !WantsNoEdns(q, r)
            && r.hasAnswer && r.authServ2))
  }

  /** resetstate_tryagain. */
  function Restarted(q: Q): Q {
    q.(state := if UseUdp(q.qm) then QS_UDPINITIAL else QS_TCPINITIAL, log := q.log.(restarts := q.log.restarts + 1))
  }

  /** What to do with a reply: take it, ask again for less, or throw it away. */
  function Judged(q: Q, r: Reply, hasEnt: bool): (Q, Verdict) {
    if Usable(q, r, hasEnt) then
      (if r.rcode == RC_OK || r.rcode == RC_NAMEERR then q else q.(failed := 3), TAKE)
    else if Sound(q, r) && hasEnt && WantsNoRecursion(q, r) then (Restarted(q.(want := q.want.(rd := false))), RESEND)
    else if Sound(q, r) && hasEnt && WantsNoEdns(q, r) && r.removed then
      (Restarted(q.(want := q.want.(opt := false, edns := false, transl := r.transl))), RESEND)
    else (q, DISCARD)
  }

  datatype Turned = Turned(q: Q, answer: Answer, again: bool)

  /** From tryagain on, once. */
  function TurnOf(q: Q, n: Net, r: Reply, hasEnt: bool): Turned {
    var (q0, a) := Sm(q, n);
    if a.AGAIN? then Turned(q0, a, false)
    else if a.rc != RC_OK then Turned(Finished(q0), a, false)
    else Concluded(Seen(q0), r, hasEnt)
  }

  /** A reply that is not all there, or not one to the query, is noted. */
  function Seen(q: Q): Q {
    q.(log := q.log.(partial := q.log.partial || !Complete(q)))
  }

  /** Once there is a reply. */
  function Concluded(q0: Q, r: Reply, hasEnt: bool): Turned {
    var (q1, v) := Judged(q0, r, hasEnt);
    match v
    case TAKE => Turned(BufFreed(MsgFreed(q1).(tc := r.tc)), CODE(if hasEnt then r.code else r.rcode), false)
    case RESEND => Turned(q1, CODE(RC_OK), true)
    case DISCARD =>
      Turned(Finished(q1), CODE(if Sound(q1, r) && r.rcode != RC_OK then r.rcode else RC_SERVFAIL), false)
  }

  /** Both blocks are freed: the end of every failure. */
  function Finished(q: Q): Q {
    BufFreed(MsgFreed(q)).(state := QS_DONE)
  }

  /** The inputs of one call of p_exec_query: whether there is memory for the message, what
      becomes of it, and for every turn the results of the system calls and the reply. */
  datatype Inputs = Inputs(mem: bool, transl: nat, opt: bool, net: nat -> Net, reply: nat -> Reply)

  function Turns(q: Q, e: Inputs, i: nat, hasEnt: bool): (Q, Answer)
    decreases q.want.edns, q.want.rd
  {
    TurnRestarts(q, e.net(i), e.reply(i), hasEnt);
    var t := TurnOf(q, e.net(i), e.reply(i), hasEnt);
    if t.again then Turns(t.q, e, i + 1, hasEnt) else (t.q, t.answer)
  }

  /** The case QS_INITIAL with memory: the message is built. */
  function Started(q: Q, e: Inputs, hasName: bool): Q {
    q.(msg := HELD, recvbuf := NULL, state := if UseUdp(q.qm) then QS_UDPINITIAL else QS_TCPINITIAL,
       want := Asked(q.want.edns, q.c.trusted, e, hasName), log := Overwritten(q.log, q.msg, q.recvbuf))
  }

  /** What is asked for in a new message. */
  function Asked(edns: bool, trusted: bool, e: Inputs, hasName: bool): Want {
    Want(edns, hasName && trusted, e.opt && hasName && edns, e.transl)
  }

  /** Two pointers are overwritten: a block still held is forgotten. */
  function Overwritten(g: Log, p: Ptr, p': Ptr): Log {
    g.(lost := g.lost || p == HELD || p' == HELD)
  }

  function Exec(q: Q, e: Inputs, hasName: bool, hasEnt: bool): (Q, Answer) {
    if q.state == QS_INITIAL then
      if !e.mem then Failed(q.(msg := NULL), RC_FATALERR) else Turns(Started(q, e, hasName), e, 0, hasEnt)
    else if InQuery(q.state) then Turns(q, e, 0, hasEnt)
    else Failed(q, RC_SERVFAIL)
  }

  // ---------- the caller's side ----------

  /** p_cancel_query. */
  function Cancelled(q: Q): Q {
    var q0 := if Waiting(q.state) then Closed(q) else q;
    var q1 := if InQuery(q.state) then MsgFreed(BufFreed(q0)) else q0;
    if q.state != QS_INITIAL && q.state != QS_DONE then q1.(state := QS_CANCELED) else q1
  }

  /** tentative_tcp_query. */
  predicate Tentative(q: Q) {
    q.qm == TCP_UDP && (q.state == QS_TCPWRITE || (q.state == QS_TCPREAD && q.wire.iolen == 0))
  }

  /** A TCP connection that does not come about in time is given up for UDP. */
  function GivenUp(q: Q): Q {
    if Tentative(q) then ToUdp(Closed(q)) else q
  }

  /** switch_to_tcp, after a truncated reply over UDP. */
  function ToTcp(q: Q): Q {
    if q.state == QS_DONE && q.qm == UDP_TCP && q.tc then
      q.(qm := TCP_ONLY, state := QS_INITIAL, failed := 0, log := q.log.(restarts := q.log.restarts + 1))
    else q
  }

  /** What p_recursive_query may do with a query. */
  datatype Event = EXEC(e: Inputs) | TIMEOUT | TO_TCP | CANCEL

  function Do(q: Q, ev: Event, hasName: bool, hasEnt: bool): Q {
    match ev
    case EXEC(e) => Exec(q, e, hasName, hasEnt).0
    case TIMEOUT => GivenUp(q)
    case TO_TCP => ToTcp(q)
    case CANCEL => Cancelled(q)
  }

  function Run(q: Q, evs: seq<Event>, hasName: bool, hasEnt: bool): Q {
    if evs == [] then q
    else Do(Run(q, evs[..|evs| - 1], hasName, hasEnt), evs[|evs| - 1], hasName, hasEnt)
  }

  // ---------- what every step keeps ----------

  function One(b: bool): nat {
    if b then 1 else 0
  }

  /** How many restarts there can still be. */
  function Left(q: Q): nat {
    One(q.want.edns) + (if q.qm == TCP_UDP || q.qm == UDP_TCP then 1 + One(q.c.trusted) else 0)
    + (if q.state == QS_INITIAL then One(q.c.trusted) else if q.msg == HELD then One(q.want.rd) else 0)
  }

  function Budget(q: Q): nat {
    q.log.restarts + Left(q)
  }

  /** No block or socket was ever forgotten, no closed socket closed; and a block was freed again
      just if the platform frees at a realloc to zero bytes and that happened. */
  predicate Careful(c: Setup, g: Log) {
    !g.lost && !g.partial && (g.twice <==> c.frees0 && g.zero)
  }

  /** The protocol is one the method allows. */
  predicate Proper(q: Q) {
    Becomes(q.c.first, q.qm) && (InQuery(q.state) ==> (OverUdp(q.state) <==> UseUdp(q.qm)))
  }

  /** What has been transferred fits. */
  predicate Fits(q: Q) {
    && (q.state == QS_TCPWRITE || q.state == QS_TCPREAD <==> q.sock && q.wire.stream)
    && (q.state == QS_TCPWRITE ==> q.wire.sent == q.wire.iolen <= LENSIZE + q.want.transl && q.wire.got == 0)
    && (q.state == QS_TCPREAD ==> q.wire.sent == LENSIZE + q.want.transl && q.wire.got == q.wire.iolen)
    && (q.state == QS_TCPREAD && q.wire.iolen > 0 ==>
          q.recvbuf == HELD && LENSIZE <= q.wire.iolen <= LENSIZE + q.wire.recvl)
  }

  /** Between calls: the socket is open just while waiting for it, the message lives as long as
      the query, the receive buffer no longer. */
  predicate Tidy(q: Q) {
    && q.sock == Waiting(q.state) && (q.msg == HELD <==> InQuery(q.state))
    && (InQuery(q.state) ==> q.recvbuf != FREED) && (q.recvbuf == HELD ==> InQuery(q.state))
    && Fits(q) && Proper(q) && Careful(q.c, q.log)
  }

  /** Inside p_query_sm, with the socket closed. */
  predicate Inside(q: Q) {
    !q.sock && q.msg == HELD && q.recvbuf != FREED && Proper(q) && Careful(q.c, q.log)
  }

  /** p_query_sm is done: the memory is the caller's to free. */
  predicate Answered(q: Q) {
    q.state == QS_DONE && Inside(q)
  }

  /** The reply is all there: over TCP, the query was sent in full and as many bytes arrived as
      announced; over UDP, at least a header, with the id of the query. */
  predicate Complete(q: Q) {
    && q.recvbuf == HELD
    && if q.wire.stream then q.wire.sent == LENSIZE + q.want.transl && q.wire.got == LENSIZE + q.wire.recvl
       else q.wire.ours && q.wire.recvl >= 12
  }

  /** What a call of p_query_sm leaves behind. */
  predicate SmOutcome(q: Q, a: Answer) {
    if a.AGAIN? then Tidy(q) && Waiting(q.state) else Answered(q) && (a.rc == RC_OK ==> Complete(q))
  }

  predicate SmKept(q: Q, r: (Q, Answer)) {
    SmOutcome(r.0, r.1) && r.0.want == q.want && r.0.c == q.c && Budget(r.0) <= Budget(q)
  }

  lemma UdpInitialKeeps(q: Q, n: Net)
    requires Inside(q) && q.state == QS_UDPINITIAL
    ensures SmKept(q, SmUdpInitial(q, n))
  {
  }

  lemma TcpFailedKeeps(q: Q, n: Net)
    requires Inside(q) && InQuery(q.state)
    ensures SmKept(q, SmTcpFailed(q, n))
  {
    hide SmUdpInitial;
    if q.qm == TCP_UDP {
      UdpInitialKeeps(ToUdp(q), n);
    }
  }

  /** The buffer after realloc_or_cleanup: it is freed again just in the case of a size of zero. */
  lemma ResizeKeeps(q: Q, size: nat, mem: bool)
    requires q.recvbuf != FREED
    ensures var q' := BufResized(q, size, mem);
            q' == q.(recvbuf := q'.recvbuf, log := q'.log) && q'.recvbuf != FREED
            && q'.log == q.log.(twice := q.log.twice || (size == 0 && q.c.frees0 && q.recvbuf == HELD))
  {
  }

  lemma UdpReceiveKeeps(q: Q, n: Net)
    requires Tidy(q) && q.state == QS_UDPRECEIVE
    ensures SmKept(q, SmUdpReceive(q, n))
  {
    hide BufResized, Becomes, UseUdp, Left;
    ResizeKeeps(q, UDP_BUFSIZE, n.mem);
    var q0 := BufResized(q, UDP_BUFSIZE, n.mem);
    LeftSame(q, q0);
    LeftSame(q, Closed(q0).(state := QS_DONE));
    if n.datagram.DATAGRAM? {
      var q1 := q0.(wire := q0.wire.(recvl := n.datagram.n, ours := n.datagram.ours));
      LeftSame(q, q1);
      LeftSame(q, Closed(q1).(state := QS_DONE));
    }
  }

  lemma LeftSame(q: Q, q': Q)
    requires q'.want == q.want && q'.qm == q.qm && q'.c == q.c && q'.msg == q.msg
    requires q.state != QS_INITIAL && q'.state != QS_INITIAL
    ensures Left(q') == Left(q)
  {
  }

  lemma TcpReadRestKeeps(q: Q, n: Net)
    requires Tidy(q) && q.state == QS_TCPREAD && q.wire.iolen > 0
    ensures SmKept(q, SmTcpReadRest(q, n))
  {
    hide SmTcpFailed, Left, Becomes;
    TcpFailedKeeps(Closed(q), n);
    LeftSame(q, Closed(q));
    LeftSame(q, Received(q).0);
    if n.got.GOT? && q.wire.iolen < LENSIZE + q.wire.recvl {
      var q0 := Gotten(q, Min(n.got.n, LENSIZE + q.wire.recvl - q.wire.iolen));
      LeftSame(q, q0);
      LeftSame(q, Received(q0).0);
    }
  }

  lemma TcpReadKeeps(q: Q, n: Net)
    requires Tidy(q) && q.state == QS_TCPREAD
    ensures SmKept(q, SmTcpRead(q, n))
  {
    hide SmTcpFailed, SmTcpReadRest, BufResized, Left, Becomes;
    LeftSame(q, Closed(q));
    TcpFailedKeeps(Closed(q), n);
    if q.wire.iolen != 0 {
      TcpReadRestKeeps(q, n);
    } else if n.length.LENGTH? {
      var q0 := Announced(q, n.length.len);
      ResizeKeeps(q0, n.length.len, n.mem);
      var q1 := BufResized(q0, n.length.len, n.mem);
      LeftSame(q, q1);
      LeftSame(q, Failed(Closed(q1), RC_FATALERR).0);
      if q1.recvbuf == HELD {
        TcpReadRestKeeps(q1, n);
      }
    }
  }

  lemma ToReadKeeps(q: Q, n: Net)
    requires Tidy(q) && q.state == QS_TCPWRITE && q.wire.iolen == LENSIZE + q.want.transl
    ensures SmKept(q, ToRead(q, n))
  {
    hide SmTcpRead;
    TcpReadKeeps(Reading(q), n);
  }

  lemma TcpWriteKeeps(q: Q, n: Net)
    requires Tidy(q) && q.state == QS_TCPWRITE
    ensures SmKept(q, SmTcpWrite(q, n))
  {
    hide SmTcpFailed, ToRead;
    TcpFailedKeeps(Closed(q), n);
    if LENSIZE + q.want.transl <= q.wire.iolen {
      ToReadKeeps(q, n);
    } else if n.wrote.WROTE? {
      var q0 := Written(q, Min(n.wrote.n, LENSIZE + q.want.transl - q.wire.iolen));
      if q0.wire.iolen == LENSIZE + q.want.transl {
        ToReadKeeps(q0, n);
      }
    }
  }

  lemma TcpInitialKeeps(q: Q, n: Net)
    requires Inside(q) && q.state == QS_TCPINITIAL
    ensures SmKept(q, SmTcpInitial(q, n))
  {
    hide SmTcpFailed, SmTcpWrite, Left, Becomes, Careful;
    LeftSame(q, Failed(q, RC_SERVFAIL).0);
    LeftSame(q, Failed(Closed(Opened(q)), RC_SERVFAIL).0);
    if n.tcpSocket && n.ready {
      ConnectingKeeps(q, n);
    }
  }

  lemma ConnectingKeeps(q: Q, n: Net)
    requires Inside(q) && q.state == QS_TCPINITIAL && n.tcpSocket && n.ready
    ensures SmKept(q, SmTcpInitial(q, n))
  {
    hide SmTcpFailed, SmTcpWrite, Left, Becomes, Careful;
    var q1 := Connecting(q);
    LeftSame(q, q1.(state := QS_TCPWRITE));
    LeftSame(q, Closed(q1));
    LeftSame(q, Failed(Closed(q1), RC_SERVFAIL).0);
    TcpFailedKeeps(Closed(q1), n);
    TcpWriteKeeps(q1.(state := QS_TCPWRITE), n);
  }

  /** Whatever the system calls return, p_query_sm either waits, with the socket open and the
      blocks in place, or is done, with the socket closed; RC_OK means a complete reply; and a
      change of protocol uses up a restart that was left. */
  lemma SmKeeps(q: Q, n: Net)
    requires Tidy(q) && InQuery(q.state)
    ensures SmKept(q, Sm(q, n))
  {
    hide SmTcpInitial, SmTcpWrite, SmTcpRead, SmUdpInitial, SmUdpReceive, SmKept;
    match q.state
    case QS_TCPINITIAL => TcpInitialKeeps(q, n);
    case QS_TCPWRITE => TcpWriteKeeps(q, n);
    case QS_TCPREAD => TcpReadKeeps(q, n);
    case QS_UDPINITIAL => UdpInitialKeeps(q, n);
    case QS_UDPRECEIVE => UdpReceiveKeeps(q, n);
  }

  // ---------- which answers ----------

  /** The reply that ends the wait over UDP: one with the id of the query and a header at least. */
  predicate ReplyIn(n: Net) {
    n.mem && n.datagram.DATAGRAM? && n.datagram.ours && n.datagram.n >= 12
  }

  /** Over UDP a reply is what has the id of the query and a header at least; any other datagram
      leaves everything as it was, waiting; and just a failure ends the query. */
  lemma UdpAnswers(q: Q, n: Net)
    requires q.state == QS_UDPRECEIVE
    ensures var (q', a) := Sm(q, n);
      && (a == CODE(RC_OK) <==> ReplyIn(n))
      && (a == CODE(RC_FATALERR) <==> !n.mem) && (a == CODE(RC_SERVFAIL) <==> n.mem && n.datagram.RECV_FAILED?)
      && (a == AGAIN <==> n.mem && n.datagram.DATAGRAM? && !ReplyIn(n))
      && (a == AGAIN ==> q'.sock == q.sock && q'.state == q.state && q'.qm == q.qm && q'.recvbuf == HELD)
      && (a == CODE(RC_OK) ==> q'.wire.recvl == n.datagram.n && q'.recvbuf == HELD)
  {
    hide SmTcpInitial, SmTcpWrite, SmTcpRead, SmUdpInitial;
  }

  /** The query, or what is left of it, goes out in this call. */
  predicate AllSent(q: Q, n: Net) {
    match q.state
    case QS_TCPREAD => true
    case QS_TCPWRITE =>
      q.wire.iolen >= 2 + q.want.transl || (n.wrote.WROTE? && n.wrote.n >= 2 + q.want.transl - q.wire.iolen)
    case QS_TCPINITIAL =>
      n.tcpSocket && n.ready && n.conn == CONNECTED && n.wrote.WROTE? && n.wrote.n >= 2 + q.want.transl
    case _ => false
  }

  /** The length is still to be read. */
  predicate NoLength(q: Q) {
    q.state != QS_TCPREAD || q.wire.iolen == 0
  }

  /** The length comes in this call, and there is a buffer for it. */
  predicate BufferFor(q: Q, n: Net) {
    && n.length.LENGTH?
    && if n.length.len == 0 && q.c.frees0 && q.recvbuf != NULL then false else n.mem
  }

  /** As many bytes come in this call as are missing. */
  predicate RestComes(missing: int, n: Net) {
    missing <= 0 || (n.got.GOT? && n.got.n > 0 && n.got.n >= missing)
  }

  predicate AllComes(q: Q, n: Net) {
    if NoLength(q) then BufferFor(q, n) && RestComes(n.length.len, n)
    else RestComes(2 + q.wire.recvl - q.wire.iolen, n)
  }

  /** Over TCP the reply is there in a call if and only if the rest of the query goes out in it,
      and then the length, unless it is known, and all bytes that are missing come in. */
  lemma TcpAnswers(q: Q, n: Net)
    requires q.state == QS_TCPINITIAL || q.state == QS_TCPWRITE || q.state == QS_TCPREAD
    ensures Sm(q, n).1 == CODE(RC_OK) <==> AllSent(q, n) && AllComes(q, n)
  {
    hide SmTcpRead, SmTcpFailed, SmUdpReceive;
    NotOverUdp(q, n);
    TcpReadAnswers(q, n);
    TcpReadAnswers(Reading(q), n);
    var q0 := Connecting(q).(state := QS_TCPWRITE);
    if n.wrote.WROTE? {
      TcpReadAnswers(Reading(Written(q0, Min(n.wrote.n, LENSIZE + q.want.transl))), n);
      if q.wire.iolen < LENSIZE + q.want.transl {
        TcpReadAnswers(Reading(Written(q, Min(n.wrote.n, LENSIZE + q.want.transl - q.wire.iolen))), n);
      }
    }
  }

  /** The connection breaks while the reply is read. */
  predicate ReadBreaks(q: Q, n: Net) {
    if NoLength(q) then
      n.length == LENGTH_FAILED
      || (BufferFor(q, n) && n.length.len > 0 && (n.got == READ_FAILED || n.got == GOT(0)))
    else 2 + q.wire.recvl > q.wire.iolen && (n.got == READ_FAILED || n.got == GOT(0))
  }

  /** The connection is refused, or breaks once the query has been sent. */
  predicate Breaks(q: Q, n: Net) {
    match q.state
    case QS_TCPREAD => ReadBreaks(q, n)
    case QS_TCPWRITE =>
      (q.wire.iolen == 0 && n.wrote == WRITE_FAILED(true)) || (AllSent(q, n) && ReadBreaks(q, n))
    case QS_TCPINITIAL =>
      && n.tcpSocket && n.ready
      && (n.conn == CONN_REFUSED
          || (n.conn == CONNECTED && n.wrote == WRITE_FAILED(true)) || (AllSent(q, n) && ReadBreaks(q, n)))
    case _ => false
  }

  /** UDP is tried instead if and only if the method allows it and that happens. */
  lemma TcpFallsBack(q: Q, n: Net)
    requires q.state == QS_TCPINITIAL || q.state == QS_TCPWRITE || q.state == QS_TCPREAD
    ensures Sm(q, n).0.qm == if q.qm == TCP_UDP && Breaks(q, n) then UDP_ONLY else q.qm
  {
    hide SmTcpRead, SmTcpWrite, SmUdpReceive, SmUdpInitial, SmTcpFailed, ReadBreaks, AllSent;
    match q.state
    case QS_TCPREAD => TcpReadFallsBack(q, n);
    case QS_TCPWRITE => TcpWriteFallsBack(q, n);
    case QS_TCPINITIAL => TcpInitialFallsBack(q, n);
  }

  lemma TcpInitialFallsBack(q: Q, n: Net)
    requires q.state == QS_TCPINITIAL
    ensures SmTcpInitial(q, n).0.qm == if q.qm == TCP_UDP && Breaks(q, n) then UDP_ONLY else q.qm
  {
    hide SmTcpWrite, SmTcpFailed;
    FallsBack(n);
    TcpWriteFallsBack(Connecting(q).(state := QS_TCPWRITE), n);
  }

  lemma TcpWriteFallsBack(q: Q, n: Net)
    requires q.state == QS_TCPWRITE
    ensures SmTcpWrite(q, n).0.qm == if q.qm == TCP_UDP && Breaks(q, n) then UDP_ONLY else q.qm
  {
    hide SmTcpRead, SmTcpFailed;
    FallsBack(n);
    TcpReadFallsBack(Reading(q), n);
    if n.wrote.WROTE? && q.wire.iolen < LENSIZE + q.want.transl {
      TcpReadFallsBack(Reading(Written(q, Min(n.wrote.n, LENSIZE + q.want.transl - q.wire.iolen))), n);
    }
  }

  lemma FallsBack(n: Net)
    ensures forall q: Q :: SmTcpFailed(q, n).0.qm == if q.qm == TCP_UDP then UDP_ONLY else q.qm
  {
  }

  lemma TcpReadFallsBack(q: Q, n: Net)
    ensures SmTcpRead(q, n).0.qm == if q.qm == TCP_UDP && ReadBreaks(q.(state := QS_TCPREAD), n) then UDP_ONLY else q.qm
  {
    hide SmTcpFailed, SmTcpReadRest;
    FallsBack(n);
    RestFallsBack(q, n);
    if n.length.LENGTH? {
      RestFallsBack(BufResized(Announced(q, n.length.len), n.length.len, n.mem), n);
    }
  }

  lemma RestFallsBack(q: Q, n: Net)
    ensures SmTcpReadRest(q, n).0.qm ==
      if q.qm == TCP_UDP && LENSIZE + q.wire.recvl > q.wire.iolen && (n.got == READ_FAILED || n.got == GOT(0))
      then UDP_ONLY else q.qm
  {
    hide SmTcpFailed;
    FallsBack(n);
  }

  /** Over UDP the query goes out in this call. */
  predicate UdpGoesOut(n: Net) {
    n.udpSocket && n.udpSent
  }

  lemma UdpSends(q: Q, n: Net)
    requires q.state == QS_UDPINITIAL
    ensures var (q', a) := Sm(q, n);
      && a == (if UdpGoesOut(n) then AGAIN else CODE(RC_SERVFAIL)) && q'.qm == q.qm
      && q'.state == (if UdpGoesOut(n) then QS_UDPRECEIVE else QS_DONE)
      && (UdpGoesOut(n) ==> q'.sock)
  {
    hide SmTcpInitial, SmTcpWrite, SmTcpRead, SmUdpReceive;
  }

  /** Part of what is missing has gone out, or nothing could go out now. */
  predicate WriteWaits(missing: int, n: Net) {
    missing > 0 && (n.wrote == WRITE_BLOCKS || (n.wrote.WROTE? && n.wrote.n < missing))
  }

  predicate RestWaits(missing: int, n: Net) {
    missing > 0 && (n.got == READ_BLOCKS || (n.got.GOT? && 0 < n.got.n < missing))
  }

  predicate ReadWaits(q: Q, n: Net) {
    if NoLength(q) then n.length == LENGTH_BLOCKS || (BufferFor(q, n) && RestWaits(n.length.len, n))
    else RestWaits(2 + q.wire.recvl - q.wire.iolen, n)
  }

  /** The connection is not there yet, or the query not all out, or the reply not all in, and
      nothing has failed. */
  predicate TcpWaits(q: Q, n: Net) {
    match q.state
    case QS_TCPREAD => ReadWaits(q, n)
    case QS_TCPWRITE => WriteWaits(2 + q.want.transl - q.wire.iolen, n) || (AllSent(q, n) && ReadWaits(q, n))
    case QS_TCPINITIAL =>
      && n.tcpSocket && n.ready
      && (n.conn == IN_PROGRESS
          || (n.conn == CONNECTED && (WriteWaits(2 + q.want.transl, n) || (AllSent(q, n) && ReadWaits(q, n)))))
    case _ => false
  }

  /** The length has come, but there is no memory for so much. */
  predicate NoBuffer(q: Q, n: Net) {
    NoLength(q) && n.length.LENGTH? && !BufferFor(q, n)
  }

  /** The query has to wait if and only if that is so, or it has fallen back to UDP and gone out;
      it fails for good just for want of memory. */
  lemma TcpMustWait(q: Q, n: Net)
    requires q.state == QS_TCPINITIAL || q.state == QS_TCPWRITE || q.state == QS_TCPREAD
    ensures Sm(q, n).1 == AGAIN <==> TcpWaits(q, n) || (q.qm == TCP_UDP && Breaks(q, n) && UdpGoesOut(n))
    ensures Sm(q, n).1 == CODE(RC_FATALERR) <==> AllSent(q, n) && NoBuffer(q, n)
  {
    hide SmTcpRead, SmTcpWrite, SmTcpFailed, ReadBreaks, NoBuffer, ReadWaits, WriteWaits, UdpGoesOut;
    match q.state
    case QS_TCPREAD => ReadMustWait(q, n);
    case QS_TCPWRITE => WriteMustWait(q, n);
    case QS_TCPINITIAL =>
      FailedGoesOut(n);
      var w := Connecting(q).(state := QS_TCPWRITE);
      WriteMustWait(w, n);
      NothingRead(q, w, n);
  }

  /** While nothing of the reply has been read, what is to come depends on the buffer only. */
  lemma NothingRead(q: Q, w: Q, n: Net)
    requires NoLength(q) && NoLength(w) && w.c == q.c && w.recvbuf == q.recvbuf
    ensures ReadWaits(w, n) == ReadWaits(q, n) && NoBuffer(w, n) == NoBuffer(q, n) && ReadBreaks(w, n) == ReadBreaks(q, n)
  {
  }

  lemma WriteMustWait(q: Q, n: Net)
    requires q.state == QS_TCPWRITE
    ensures SmTcpWrite(q, n).1 == AGAIN <==> TcpWaits(q, n) || (q.qm == TCP_UDP && Breaks(q, n) && UdpGoesOut(n))
    ensures SmTcpWrite(q, n).1 == CODE(RC_FATALERR) <==> AllSent(q, n) && NoBuffer(q, n)
  {
    hide SmTcpRead, SmTcpFailed, UdpGoesOut, ReadWaits, ReadBreaks, NoBuffer;
    FailedGoesOut(n);
    ReadMustWait(Reading(q), n);
    NothingRead(q, Reading(q), n);
    if n.wrote.WROTE? && q.wire.iolen < LENSIZE + q.want.transl {
      var w := Reading(Written(q, Min(n.wrote.n, LENSIZE + q.want.transl - q.wire.iolen)));
      ReadMustWait(w, n);
      NothingRead(q, w, n);
    }
  }

  lemma FailedGoesOut(n: Net)
    ensures forall q: Q :: SmTcpFailed(q, n).1 == AGAIN <==> q.qm == TCP_UDP && UdpGoesOut(n)
    ensures forall q: Q :: SmTcpFailed(q, n).1 != CODE(RC_FATALERR)
  {
  }

  lemma ReadMustWait(q: Q, n: Net)
    requires q.state == QS_TCPREAD
    ensures SmTcpRead(q, n).1 == AGAIN <==> ReadWaits(q, n) || (q.qm == TCP_UDP && ReadBreaks(q, n) && UdpGoesOut(n))
    ensures SmTcpRead(q, n).1 == CODE(RC_FATALERR) <==> NoBuffer(q, n)
  {
    hide SmTcpFailed, UdpGoesOut;
    FailedGoesOut(n);
  }

  /** Which replies are taken, and what is given up when the query is sent anew: recursion, if the
      server refuses and does not offer it; the OPT record, if the server does not understand the
      query or refuses it for another reason. */
  lemma JudgeMeans(q: Q, r: Reply, hasEnt: bool)
    ensures var (q', v) := Judged(q, r, hasEnt);
      var sound := r.wellFormed && q.wire.recvl >= 12;
      var noRecursion := r.rcode in {2, 4, 5} && q.want.rd && !r.ra;
      var noEdns := (r.rcode == 1 || (r.rcode in {4, 5} && !noRecursion)) && q.want.edns && q.want.opt;
      var tentative := hasEnt && r.rcode in {2, 4, 5} && !noRecursion && !noEdns && r.hasAnswer && r.authServ2;
      && (v == TAKE <==> sound && (r.rcode in {0, 3} || tentative))
      && (v == RESEND <==> sound && hasEnt && (noRecursion || (noEdns && r.removed)))
      && (v == RESEND ==>
            q'.want == if noRecursion then q.want.(rd := false)
                       else q.want.(opt := false, edns := false, transl := r.transl))
      && (v == RESEND ==> q'.state == if q.qm in {UDP_ONLY, UDP_TCP} then QS_UDPINITIAL else QS_TCPINITIAL)
      && q'.log.restarts == q.log.restarts + (if v == RESEND then 1 else 0)
      && (v == TAKE ==> q' == q.(failed := if r.rcode in {0, 3} then q.failed else 3))
      && (v == DISCARD ==> q' == q)
  {
  }

  /** A query that starts asks for recursion just if there is a name to ask for and the server is
      trusted, and has an OPT record only if there is a name. */
  lemma StartedMeans(q: Q, e: Inputs, hasName: bool)
    ensures var q' := Started(q, e, hasName);
      && q'.state == (if q.qm in {UDP_ONLY, UDP_TCP} then QS_UDPINITIAL else QS_TCPINITIAL)
      && q'.qm == q.qm && q'.msg == HELD && q'.recvbuf == NULL && q'.want.transl == e.transl
      && (q'.want.rd <==> hasName && q.c.trusted)
      && (q'.want.opt ==> hasName && q.want.edns) && (hasName && q.want.edns && e.opt ==> q'.want.opt)
  {
  }

  /** What the caller gets for a reply: the code of reading its records, or its own where nothing
      is asked for; for one that is thrown away its own code, if it can be believed and tells of a
      failure, and that of a failing server otherwise. */
  lemma ConcludedMeans(q: Q, r: Reply, hasEnt: bool)
    ensures var (t, v) := (Concluded(q, r, hasEnt), Judged(q, r, hasEnt).1);
      && (t.again <==> v == RESEND)
      && (v == TAKE ==> t.answer == CODE(if hasEnt then r.code else r.rcode) && t.q.tc == r.tc)
      && (v == DISCARD ==>
            t.answer == CODE(if r.wellFormed && q.wire.recvl >= 12 && r.rcode > 0 then r.rcode else 2))
  {
  }

  /** A query changes to TCP just when UDP has given a truncated reply and both may be used. */
  lemma SwitchMeans(q: Q)
    ensures ToTcp(q) != q <==> q.state == QS_DONE && q.qm == UDP_TCP && q.tc
    ensures ToTcp(q) != q ==>
      ToTcp(q).state == QS_INITIAL && ToTcp(q).qm == TCP_ONLY && ToTcp(q).log.restarts == q.log.restarts + 1
  {
  }

  /** A time-out gives up a TCP query just while nothing of the reply has come, and UDP may still
      be tried. */
  lemma GivenUpMeans(q: Q)
    requires Tidy(q)
    ensures GivenUp(q) != q <==> q.qm == TCP_UDP && q.sock && q.wire.stream && q.wire.got == 0
    ensures GivenUp(q) != q ==> GivenUp(q).state == QS_UDPINITIAL && GivenUp(q).qm == UDP_ONLY && !GivenUp(q).sock
    ensures GivenUp(q) != q ==> GivenUp(q).log.restarts == q.log.restarts + 1
  {
  }

  /** Falling back to UDP is never an answer yet. */
  lemma NotOverUdp(q: Q, n: Net)
    ensures forall q: Q :: SmTcpFailed(q, n).1 != CODE(RC_OK)
  {
  }

  lemma TcpReadAnswers(q: Q, n: Net)
    ensures SmTcpRead(q, n).1 == CODE(RC_OK) <==> AllComes(q.(state := QS_TCPREAD), n)
  {
    hide SmTcpFailed;
    NotOverUdp(q, n);
  }

  predicate SameWant(q: Q, r: (Q, Answer)) {
    r.0.want == q.want && r.0.c == q.c
  }

  lemma TcpFailedSame(q: Q, n: Net)
    ensures SameWant(q, SmTcpFailed(q, n)) && SameWant(q, SmUdpInitial(q, n))
  {
  }

  lemma TcpReadSame(q: Q, n: Net)
    ensures SameWant(q, SmTcpRead(q, n))
  {
    hide SmTcpFailed, SmTcpReadRest;
    TcpFailedSame(Closed(q), n);
    TcpReadRestSame(q, n);
    if n.length.LENGTH? {
      TcpReadRestSame(BufResized(Announced(q, n.length.len), n.length.len, n.mem), n);
    }
  }

  lemma TcpReadRestSame(q: Q, n: Net)
    ensures SameWant(q, SmTcpReadRest(q, n))
  {
    hide SmTcpFailed;
    TcpFailedSame(Closed(q), n);
  }

  lemma TcpWriteSame(q: Q, n: Net)
    ensures SameWant(q, SmTcpWrite(q, n))
  {
    hide SmTcpFailed, SmTcpRead;
    TcpFailedSame(Closed(q), n);
    TcpReadSame(Reading(q), n);
    if n.wrote.WROTE? && q.wire.iolen <= LENSIZE + q.want.transl {
      TcpReadSame(Reading(Written(q, Min(n.wrote.n, LENSIZE + q.want.transl - q.wire.iolen))), n);
    }
  }

  lemma TcpInitialSame(q: Q, n: Net)
    ensures SameWant(q, SmTcpInitial(q, n))
  {
    hide SmTcpFailed, SmTcpWrite;
    TcpFailedSame(Closed(Connecting(q)), n);
    TcpWriteSame(Connecting(q).(state := QS_TCPWRITE), n);
  }

  /** Of what is asked for p_query_sm changes nothing. */
  lemma SmSame(q: Q, n: Net)
    ensures SameWant(q, Sm(q, n))
  {
    hide SmTcpInitial, SmTcpWrite, SmTcpRead, SmUdpInitial;
    TcpFailedSame(q, n);
    TcpReadSame(q, n);
    TcpWriteSame(q, n);
    TcpInitialSame(q, n);
  }

  /** A query is sent anew only for less: without recursion, or without the OPT record. */
  lemma TurnRestarts(q: Q, n: Net, r: Reply, hasEnt: bool)
    ensures var t := TurnOf(q, n, r, hasEnt);
            t.again ==>
              || (q.want.rd && !t.q.want.rd && t.q.want.edns == q.want.edns)
              || (q.want.edns && !t.q.want.edns && t.q.want.rd == q.want.rd)
  {
    hide Sm;
    SmSame(q, n);
  }

  // ---------- runs ----------

  lemma JudgeKeeps(q: Q, r: Reply, hasEnt: bool)
    requires Answered(q) && Complete(q)
    ensures var (q', v) := Judged(q, r, hasEnt);
            && q'.c == q.c && Budget(q') <= Budget(q) && q'.msg == q.msg && q'.recvbuf == q.recvbuf
            && q'.log.zero == q.log.zero
            && if v == RESEND then Tidy(q') && InQuery(q'.state) && !Waiting(q'.state) else Answered(q')
  {
    hide Usable, Becomes, Careful, Tidy, Restarted;
    RestartKeeps(q, q.(want := q.want.(rd := false)));
    RestartKeeps(q, q.(want := q.want.(opt := false, edns := false, transl := r.transl)));
  }

  /** Going back to the start, once something has been given up. */
  lemma RestartKeeps(q: Q, q1: Q)
    requires Answered(q) && q1 == q.(want := q1.want)
    ensures var q' := Restarted(q1);
      && q'.c == q.c && q'.msg == q.msg && q'.recvbuf == q.recvbuf && q'.log.zero == q.log.zero
      && Tidy(q') && InQuery(q'.state) && !Waiting(q'.state)
      && (Left(q1) < Left(q) ==> Budget(q') <= Budget(q))
  {
    hide Becomes;
  }

  lemma FinishKeeps(q: Q)
    requires Answered(q)
    ensures var q' := Finished(q); Tidy(q') && q'.c == q.c && q'.state == QS_DONE && Budget(q') <= Budget(q)
  {
  }

  lemma TurnKeeps(q: Q, n: Net, r: Reply, hasEnt: bool)
    requires Tidy(q) && InQuery(q.state)
    ensures var t := TurnOf(q, n, r, hasEnt);
            && Tidy(t.q) && Budget(t.q) <= Budget(q) && t.q.c == q.c
            && (if t.again then InQuery(t.q.state) else t.answer.AGAIN? <==> Waiting(t.q.state))
            && (!t.again && t.answer.CODE? ==> t.q.state == QS_DONE)
  {
    hide Sm, Judged, Becomes, Usable, Sound;
    SmKeeps(q, n);
    var (q0, a) := Sm(q, n);
    if a.CODE? {
      if a.rc != RC_OK {
        FinishKeeps(q0);
      } else {
        assert Seen(q0) == q0;
        JudgeKeeps(q0, r, hasEnt);
        var (q1, v) := Judged(q0, r, hasEnt);
        if v != RESEND {
          FinishKeeps(q1);
        }
      }
    }
  }

  /** p_exec_query: either the query waits for its socket, with everything it needs, or it is over
      and holds nothing. */
  predicate ExecKept(q: Q, r: (Q, Answer)) {
    && Tidy(r.0) && r.0.c == q.c && Budget(r.0) <= Budget(q) && (r.1.AGAIN? <==> Waiting(r.0.state))
    && (r.1.CODE? ==> r.0.state == QS_DONE && !r.0.sock && r.0.msg != HELD && r.0.recvbuf != HELD)
  }

  lemma {:induction false} TurnsKeep(q: Q, e: Inputs, i: nat, hasEnt: bool)
    requires Tidy(q) && InQuery(q.state)
    ensures ExecKept(q, Turns(q, e, i, hasEnt))
    decreases q.want.edns, q.want.rd
  {
    hide TurnOf;
    TurnRestarts(q, e.net(i), e.reply(i), hasEnt);
    TurnKeeps(q, e.net(i), e.reply(i), hasEnt);
    var t := TurnOf(q, e.net(i), e.reply(i), hasEnt);
    if t.again {
      TurnsKeep(t.q, e, i + 1, hasEnt);
    }
  }

  lemma StartKeeps(q: Q, e: Inputs, hasName: bool)
    requires Tidy(q) && q.state == QS_INITIAL
    ensures var q' := Started(q, e, hasName); Tidy(q') && q'.c == q.c && InQuery(q'.state) && Budget(q') <= Budget(q)
  {
  }

  lemma ExecKeeps(q: Q, e: Inputs, hasName: bool, hasEnt: bool)
    requires Tidy(q)
    requires Waiting(q.state) || q.state == QS_INITIAL || q.state == QS_UDPINITIAL || !InQuery(q.state)
    ensures ExecKept(q, Exec(q, e, hasName, hasEnt))
  {
    hide Turns;
    if q.state == QS_INITIAL {
      if e.mem {
        StartKeeps(q, e, hasName);
        TurnsKeep(Started(q, e, hasName), e, 0, hasEnt);
      }
    } else if InQuery(q.state) {
      TurnsKeep(q, e, 0, hasEnt);
    }
  }

  lemma CancelKeeps(q: Q)
    requires Tidy(q)
    ensures var q' := Cancelled(q);
            Tidy(q') && Budget(q') <= Budget(q) && !q'.sock && q'.msg != HELD && q'.recvbuf != HELD
            && q'.log == q.log && q'.c == q.c && !InQuery(q'.state)
  {
  }

  /** Every step of every run keeps the query in order, and the restarts within the budget. */
  lemma DoKeeps(q: Q, ev: Event, hasName: bool, hasEnt: bool)
    requires Tidy(q) && q.state != QS_TCPINITIAL
    ensures var q' := Do(q, ev, hasName, hasEnt);
            Tidy(q') && q'.state != QS_TCPINITIAL && Budget(q') <= Budget(q)
            && q'.c == q.c
  {
    match ev
    case EXEC(e) =>
      hide Exec;
      ExecKeeps(q, e, hasName, hasEnt);
    case TIMEOUT =>
    case TO_TCP =>
    case CANCEL =>
      hide Cancelled;
      CancelKeeps(q);
  }

  lemma {:induction false} RunKeeps(q: Q, evs: seq<Event>, hasName: bool, hasEnt: bool)
    requires Tidy(q) && q.state != QS_TCPINITIAL
    ensures var q' := Run(q, evs, hasName, hasEnt);
            Tidy(q') && q'.state != QS_TCPINITIAL && Budget(q') <= Budget(q)
            && q'.c == q.c
    decreases |evs|
  {
    hide Do;
    if evs != [] {
      var pre := evs[..|evs| - 1];
      RunKeeps(q, pre, hasName, hasEnt);
      DoKeeps(Run(q, pre, hasName, hasEnt), evs[|evs| - 1], hasName, hasEnt);
    }
  }

  lemma NewIsTidy(qm: Method, edns: bool, trusted: bool, frees0: bool)
    ensures var q := NewQuery(qm, edns, trusted, frees0); Tidy(q) && Budget(q) <= 4
  {
  }

  /** Any run, whatever the network, the servers, the allocator and the caller do, and in whatever
      order: the query is sent anew at most four times; the socket is open just in the waiting
      states; no block is ever forgotten; and no block is ever freed again, if and only if this is
      not a platform where realloc to zero bytes frees, or no length of zero was read over TCP
      while a buffer was held. Cancelled at that moment, the query holds nothing any more, and
      cancelling frees nothing twice. */
  lemma AnyRun(qm: Method, edns: bool, trusted: bool, frees0: bool, evs: seq<Event>, hasName: bool, hasEnt: bool)
    ensures var q := Run(NewQuery(qm, edns, trusted, frees0), evs, hasName, hasEnt);
            && q.log.restarts <= 4 && q.sock == Waiting(q.state) && !q.log.lost && !q.log.partial
            && (!q.log.twice <==> !frees0 || !q.log.zero)
            && var c := Cancelled(q);
               !c.sock && c.msg != HELD && c.recvbuf != HELD && c.log == q.log
  {
    hide Run, Becomes, Cancelled, Fits;
    NewIsTidy(qm, edns, trusted, frees0);
    RunKeeps(NewQuery(qm, edns, trusted, frees0), evs, hasName, hasEnt);
    CancelKeeps(Run(NewQuery(qm, edns, trusted, frees0), evs, hasName, hasEnt));
  }

  /** The protocols used are those of the method the query was started with, and a switch happens
      in one direction only. */
  lemma ProtocolAllowed(qm: Method, edns: bool, trusted: bool, frees0: bool, evs: seq<Event>, hasName: bool,
      hasEnt: bool)
    ensures var q := Run(NewQuery(qm, edns, trusted, frees0), evs, hasName, hasEnt);
            InQuery(q.state) ==>
              if OverUdp(q.state) then qm != TCP_ONLY && (qm == TCP_UDP ==> q.qm == UDP_ONLY)
              else qm != UDP_ONLY && (qm == UDP_TCP ==> q.qm == TCP_ONLY)
  {
    hide Run, Fits;
    NewIsTidy(qm, edns, trusted, frees0);
    RunKeeps(NewQuery(qm, edns, trusted, frees0), evs, hasName, hasEnt);
  }

  // ---------- a buffer freed twice ----------

  /** A connection over which the query goes out at once and the reply has the given length. */
  function Prompt(len: nat): Net {
    Net(true, true, CONNECTED, WROTE(42), LENGTH(len), true, GOT(12), false, false, RECV_FAILED)
  }

  /** A reply with an error code from a server that does not do recursion. */
  function NoRecursion(): Reply {
    Reply(RC_SERVFAIL, true, false, false, false, false, 0, false, RC_OK)
  }

  function TwoAnswers(): Inputs {
    Inputs(true, 40, false, (i: nat) => Prompt(if i == 0 then 12 else 0), (i: nat) => NoRecursion())
  }

  /** The query after the first reply: it is to be sent anew, and the buffer is still held. */
  function AfterRefusal(): Q {
    Q(Setup(TCP_ONLY, true, true), QS_TCPINITIAL, TCP_ONLY, Want(false, false, false, 40), false, 0, false, HELD, HELD,
      Wire(14, 12, 42, 14, true, false), Log(1, false, false, false, false))
  }

  /** The preset method TCP_ONLY, on a platform that frees at a realloc to zero bytes: the first
      reply makes the query give up recursion, the second announces a length of zero, and the
      buffer of the first is freed twice. */
  lemma FreedTwice()
    ensures Run(NewQuery(TCP_ONLY, false, true, true), [EXEC(TwoAnswers())], true, true).log.twice
  {
    var q := NewQuery(TCP_ONLY, false, true, true);
    var e := TwoAnswers();
    var ev := EXEC(e);
    FirstAnswer(e);
    SecondAnswer();
    TurnsTwice(Started(q, e, true), e);
    assert [ev][..0] == [] && Run(q, [], true, true) == q;
    assert Run(q, [ev], true, true) == Exec(q, e, true, true).0;
  }

  /** The query on its first connection, up to the answer. */
  function Early(state: State, sock: bool, recvbuf: Ptr, wire: Wire): Q {
    Q(Setup(TCP_ONLY, true, true), state, TCP_ONLY, Want(false, true, false, 40), false, 0, sock, HELD, recvbuf, wire,
      Log(0, false, false, false, false))
  }

  lemma FirstRead()
    ensures SmTcpRead(Early(QS_TCPREAD, true, NULL, Wire(0, 0, 42, 0, true, false)), Prompt(12))
            == (Early(QS_DONE, false, HELD, Wire(14, 12, 42, 14, true, false)), CODE(RC_OK))
  {
    hide SmTcpFailed, SmTcpReadRest;
    var q := Early(QS_TCPREAD, true, HELD, Wire(2, 12, 42, 2, true, false));
    assert BufResized(Announced(Early(QS_TCPREAD, true, NULL, Wire(0, 0, 42, 0, true, false)), 12), 12, true) == q;
    FirstReadRest(q);
  }

  lemma FirstReadRest(q: Q)
    requires q == Early(QS_TCPREAD, true, HELD, Wire(2, 12, 42, 2, true, false))
    ensures SmTcpReadRest(q, Prompt(12)) == (Early(QS_DONE, false, HELD, Wire(14, 12, 42, 14, true, false)), CODE(RC_OK))
  {
    hide SmTcpFailed;
  }

  lemma FirstWrite()
    ensures SmTcpInitial(Early(QS_TCPINITIAL, false, NULL, Wire(0, 0, 0, 0, false, false)), Prompt(12))
            == (Early(QS_DONE, false, HELD, Wire(14, 12, 42, 14, true, false)), CODE(RC_OK))
  {
    hide SmTcpFailed, SmTcpRead;
    FirstRead();
  }

  lemma FirstAnswer(e: Inputs)
    requires e == TwoAnswers()
    ensures TurnOf(Started(NewQuery(TCP_ONLY, false, true, true), e, true), Prompt(12), NoRecursion(), true)
            == Turned(AfterRefusal(), CODE(RC_OK), true)
  {
    hide SmTcpInitial, SmTcpWrite, SmTcpRead, Prompt;
    FirstWrite();
    assert Started(NewQuery(TCP_ONLY, false, true, true), e, true)
        == Early(QS_TCPINITIAL, false, NULL, Wire(0, 0, 0, 0, false, false));
  }

  lemma SecondAnswer()
    ensures var t := TurnOf(AfterRefusal(), Prompt(0), NoRecursion(), true); !t.again && t.q.log.twice
  {
    hide Sm, Judged, AfterRefusal, Prompt, NoRecursion;
    SecondSm();
  }

  lemma SecondSm()
    ensures var (q, a) := Sm(AfterRefusal(), Prompt(0)); q.log.twice && a == CODE(RC_FATALERR)
  {
    hide SmUdpInitial, SmUdpReceive, SmTcpFailed, SmTcpRead, Failed;
    var q := AfterRefusal();
    var w := Written(Connecting(q).(state := QS_TCPWRITE), LENSIZE + 40);
    ZeroLength(Reading(w), Prompt(0));
  }

  /** A length of zero while a buffer is held, where realloc frees it. */
  lemma ZeroLength(q: Q, n: Net)
    requires n.length == LENGTH(0) && q.wire.iolen == 0 && q.c.frees0 && q.recvbuf == HELD
    ensures var (q', a) := SmTcpRead(q, n); q'.log.twice && a == CODE(RC_FATALERR)
  {
    hide SmTcpFailed, SmTcpReadRest;
  }

  lemma TurnsTwice(q: Q, e: Inputs)
    requires e == TwoAnswers()
    requires TurnOf(q, Prompt(12), NoRecursion(), true) == Turned(AfterRefusal(), CODE(RC_OK), true)
    requires var t := TurnOf(AfterRefusal(), Prompt(0), NoRecursion(), true); !t.again && t.q.log.twice
    ensures Turns(q, e, 0, true).0.log.twice
  {
    hide TurnOf, Prompt, NoRecursion, AfterRefusal;
    assert e.net(0) == Prompt(12) && e.net(1) == Prompt(0) && e.reply(0) == NoRecursion() == e.reply(1);
    assert Turns(q, e, 0, true) == Turns(AfterRefusal(), e, 1, true);
  }

  // ---------- the code ----------

  /** query_stat_t. Each method does to the fields what the function of the same purpose says. */
  class Query {
    var state: State
    var qm: Method
    var edns: bool
    const trusted: bool
    var tc: bool
    var failed: nat
    var sock: bool
    var msg: Ptr
    var recvbuf: Ptr
    var rd: bool
    var opt: bool
    var transl: nat
    var recvl: nat
    var iolen: nat
    /** What realloc to zero bytes does here. */
    const frees0: bool
    ghost const first: Method
    ghost var log: Log
    ghost var sent: nat
    ghost var got: nat
    ghost var stream: bool
    ghost var ours: bool

    ghost function Now(): Q
      reads this
    {
      Q(Setup(first, trusted, frees0), state, qm, Want(edns, rd, opt, transl), tc, failed, sock, msg, recvbuf,
        Wire(iolen, recvl, sent, got, stream, ours), log)
    }

    constructor (qm: Method, edns: bool, trusted: bool, frees0: bool)
      ensures Now() == NewQuery(qm, edns, trusted, frees0)
    {
      first := qm;
      this.qm, this.edns, this.trusted, this.frees0 := qm, edns, trusted, frees0;
      state, tc, failed, sock, msg, recvbuf, rd, opt := QS_INITIAL, false, 0, false, NULL, NULL, false, false;
      transl, recvl, iolen := 0, 0, 0;
      log, sent, got, stream, ours := Log(0, false, false, false, false), 0, 0, false, false;
    }

    /** socket(). */
    method Open(result: bool) returns (ok: bool)
      modifies `sock, `log
      ensures ok == result && Now() == if ok then Opened(old(Now())) else old(Now())
    {
      if result {
        log := log.(lost := log.lost || sock);
        sock := true;
      }
      ok := result;
    }

    method Close()
      modifies `sock, `log
      ensures Now() == Closed(old(Now()))
    {
      log := log.(lost := log.lost || !sock);
      sock := false;
    }

    method FreeMsg()
      modifies `msg, `log
      ensures Now() == MsgFreed(old(Now()))
    {
      if msg != NULL {
        log := log.(twice := log.twice || msg == FREED);
        msg := FREED;
      }
    }

    method FreeBuf()
      modifies `recvbuf, `log
      ensures Now() == BufFreed(old(Now()))
    {
      if recvbuf != NULL {
        log := log.(twice := log.twice || recvbuf == FREED);
        recvbuf := FREED;
      }
    }

    /** realloc_or_cleanup on the receive buffer. */
    method ReallocBuf(size: nat, mem: bool) returns (ok: bool)
      modifies `recvbuf, `log
      ensures Now() == BufResized(old(Now()), size, mem) && ok == (recvbuf == HELD)
    {
      if !mem && !(size == 0 && frees0) {
        FreeBuf();
        recvbuf := NULL;
        return false;
      }
      if size == 0 && frees0 && recvbuf != NULL {
        FreeBuf();  // by realloc
        FreeBuf();  // by realloc_or_cleanup
        recvbuf := NULL;
        return false;
      }
      if !mem {
        return false;
      }
      log := log.(twice := log.twice || recvbuf == FREED);
      recvbuf := HELD;
      ok := true;
    }

    /** The end of p_query_sm after a failure. */
    method Fail(code: nat) returns (r: Answer)
      modifies `state
      ensures (Now(), r) == Failed(old(Now()), code)
    {
      state := QS_DONE;
      r := CODE(code);
    }

    /** switch_to_udp. */
    method SwitchToUdp()
      modifies `qm, `state, `log
      ensures Now() == ToUdp(old(Now()))
    {
      qm, state := UDP_ONLY, QS_UDPINITIAL;
      log := log.(restarts := log.restarts + 1);
    }

    /** tcp_failed: try again with UDP, if that is allowed. */
    method TcpFailed(n: Net) returns (r: Answer)
      modifies this
      ensures (Now(), r) == SmTcpFailed(old(Now()), n)
    {
      if qm == TCP_UDP {
        SwitchToUdp();
        r := UdpInitial(n);
      } else {
        r := Fail(RC_SERVFAIL);
      }
    }

    method UdpInitial(n: Net) returns (r: Answer)
      modifies this
      ensures (Now(), r) == SmUdpInitial(old(Now()), n)
    {
      stream := false;
      var ok := Open(n.udpSocket);
      if !ok {
        r := Fail(RC_SERVFAIL);
        return;
      }
      if !n.udpSent {
        Close();
        r := Fail(RC_SERVFAIL);
        return;
      }
      state := QS_UDPRECEIVE;
      r := AGAIN;
    }

    method UdpReceive(n: Net) returns (r: Answer)
      modifies this
      ensures (Now(), r) == SmUdpReceive(old(Now()), n)
    {
      var ok := ReallocBuf(UDP_BUFSIZE, n.mem);
      if !ok {
        Close();
        r := Fail(RC_FATALERR);
        return;
      }
      if n.datagram.RECV_FAILED? {
        Close();
        r := Fail(RC_SERVFAIL);
        return;
      }
      recvl, ours := n.datagram.n, n.datagram.ours;
      if recvl < HDRSIZE || !n.datagram.ours {
        return AGAIN;
      }
      Close();
      state := QS_DONE;
      r := CODE(RC_OK);
    }

    method TcpInitial(n: Net) returns (r: Answer)
      modifies this
      ensures (Now(), r) == SmTcpInitial(old(Now()), n)
    {
      hide SmTcpFailed, SmTcpWrite;
      var ok := Open(n.tcpSocket);
      if !ok {
        r := Fail(RC_SERVFAIL);
        return;
      }
      if !n.ready {
        Close();
        r := Fail(RC_SERVFAIL);
        return;
      }
      Connect();
      match n.conn {
        case CONNECTED =>
          state := QS_TCPWRITE;
          r := TcpWrite(n);
        case IN_PROGRESS =>
          state := QS_TCPWRITE;
          r := AGAIN;
        case CONN_REFUSED =>
          Close();
          r := TcpFailed(n);
        case CONN_FAILED =>
          Close();
          r := Fail(RC_SERVFAIL);
      }
    }

    /** iolen is reset; a connection is about to be made. */
    method Connect()
      modifies `iolen, `sent, `got, `stream
      ensures Now() == old(Now()).(wire := old(Now()).wire.(iolen := 0, sent := 0, got := 0, stream := true))
    {
      iolen, sent, got, stream := 0, 0, 0, true;
    }

    method TcpWrite(n: Net) returns (r: Answer)
      modifies this
      ensures (Now(), r) == SmTcpWrite(old(Now()), n)
    {
      hide SmTcpFailed, SmTcpRead;
      var rem := LENSIZE + transl - iolen;
      if rem > 0 {
        match n.wrote {
          case WRITE_BLOCKS =>
            return AGAIN;
          case WRITE_FAILED(refused) =>
            Close();
            if iolen == 0 && refused {
              r := TcpFailed(n);
            } else {
              r := Fail(RC_SERVFAIL);
            }
            return;
          case WROTE(k) =>
            var rv := Min(k, rem);
            iolen, sent := iolen + rv, sent + rv;
            if rv < rem {
              return AGAIN;
            }
        }
      }
      state, iolen := QS_TCPREAD, 0;
      r := TcpRead(n);
    }

    method TcpRead(n: Net) returns (r: Answer)
      modifies this
      ensures (Now(), r) == SmTcpRead(old(Now()), n)
    {
      hide SmTcpFailed, SmTcpReadRest, BufResized, Announced;
      if iolen == 0 {
        match n.length {
          case LENGTH_BLOCKS =>
            return AGAIN;
          case LENGTH_FAILED =>
            Close();
            r := TcpFailed(n);
            return;
          case LENGTH(len) =>
            Announce(len);
            var ok := ReallocBuf(recvl, n.mem);
            if !ok {
              Close();
              r := Fail(RC_FATALERR);
              return;
            }
        }
      }
      r := TcpReadRest(n);
    }

    /** The length of the reply has been read. */
    method Announce(len: nat)
      modifies `iolen, `recvl, `got, `log
      ensures Now() == Announced(old(Now()), len) && recvl == len
    {
      iolen, recvl, got := LENSIZE, len, LENSIZE;
      log := log.(zero := log.zero || (len == 0 && recvbuf == HELD));
    }

    method TcpReadRest(n: Net) returns (r: Answer)
      modifies this
      ensures (Now(), r) == SmTcpReadRest(old(Now()), n)
    {
      hide SmTcpFailed;
      var rem := LENSIZE + recvl - iolen;
      if rem > 0 {
        match n.got {
          case READ_BLOCKS =>
            return AGAIN;
          case READ_FAILED =>
            Close();
            r := TcpFailed(n);
            return;
          case GOT(k) =>
            if k == 0 {
              Close();
              r := TcpFailed(n);
              return;
            }
            var rv := Min(k, rem);
            iolen, got := iolen + rv, got + rv;
            if rv < rem {
              return AGAIN;
            }
        }
      }
      Close();
      state := QS_DONE;
      r := CODE(RC_OK);
    }

    /** p_query_sm. */
    method QuerySm(n: Net) returns (r: Answer)
      modifies this
      ensures (Now(), r) == Sm(old(Now()), n)
    {
      hide SmTcpInitial, SmTcpWrite, SmTcpRead, SmUdpInitial, SmUdpReceive;
      match state {
        case QS_TCPINITIAL => r := TcpInitial(n);
        case QS_TCPWRITE => r := TcpWrite(n);
        case QS_TCPREAD => r := TcpRead(n);
        case QS_UDPINITIAL => r := UdpInitial(n);
        case QS_UDPRECEIVE => r := UdpReceive(n);
        case _ => r := Fail(RC_SERVFAIL);
      }
    }

    /** What to do with a reply. */
    method Judge(r: Reply, hasEnt: bool) returns (v: Verdict)
      modifies `state, `rd, `edns, `opt, `transl, `failed, `log
      ensures (Now(), v) == Judged(old(Now()), r, hasEnt)
    {
      v := DISCARD;
      if !r.wellFormed || recvl < HDRSIZE {
        return;
      }
      if r.rcode == RC_OK || r.rcode == RC_NAMEERR {
        return TAKE;
      }
      if !hasEnt {
        return;
      }
      if Refusal(r.rcode) {
        if rd && !r.ra {
          rd := false;
          Reset();
          return RESEND;
        } else if r.rcode != RC_SERVFAIL && edns && opt {
          v := WithoutEdns(r);
          return;
        } else if r.hasAnswer && r.authServ2 {
          failed := 3;
          return TAKE;
        }
      } else if r.rcode == RC_FORMAT && edns && opt {
        v := WithoutEdns(r);
        return;
      }
    }

    /** try_withoutedns: the OPT record is removed from the message. */
    method WithoutEdns(r: Reply) returns (v: Verdict)
      modifies `state, `edns, `opt, `transl, `log
      ensures Now() == if r.removed
                       then Restarted(old(Now()).(want := old(Now()).want.(opt := false, edns := false, transl := r.transl)))
                       else old(Now())
      ensures v == if r.removed then RESEND else DISCARD
    {
      if !r.removed {
        return DISCARD;
      }
      opt, transl, edns := false, r.transl, false;
      Reset();
      v := RESEND;
    }

    /** resetstate_tryagain. */
    method Reset()
      modifies `state, `log
      ensures Now() == Restarted(old(Now()))
    {
      state := if UseUdp(qm) then QS_UDPINITIAL else QS_TCPINITIAL;
      log := log.(restarts := log.restarts + 1);
    }

    /** p_exec_query. */
    method ExecQuery(e: Inputs, hasName: bool, hasEnt: bool) returns (r: Answer)
      modifies this
      ensures (Now(), r) == Exec(old(Now()), e, hasName, hasEnt)
    {
      hide Turns, TurnOf;
      if state == QS_INITIAL {
        if !e.mem {
          msg := NULL;
          r := Fail(RC_FATALERR);
          return;
        }
        Start(e, hasName);
      } else if !InQuery(state) {
        r := Fail(RC_SERVFAIL);
        return;
      }
      ghost var goal := Turns(Now(), e, 0, hasEnt);
      var i: nat, again := 0, true;
      r := AGAIN;
      while again
        invariant goal == if again then Turns(Now(), e, i, hasEnt) else (Now(), r)
        decreases again, edns, rd
      {
        TurnRestarts(Now(), e.net(i), e.reply(i), hasEnt);
        TurnsNext(Now(), e, i, hasEnt);
        r, again := Turn(e.net(i), e.reply(i), hasEnt);
        i := i + 1;
      }
    }

    /** The case QS_INITIAL, once there is memory: the message is built. */
    method Start(e: Inputs, hasName: bool)
      modifies `msg, `rd, `transl, `opt, `recvbuf, `state, `log
      ensures Now() == Started(old(Now()), e, hasName)
    {
      hide Asked, Overwritten, UseUdp;
      Allocate();
      Ask(e, hasName);
      recvbuf := NULL;
      state := if UseUdp(qm) then QS_UDPINITIAL else QS_TCPINITIAL;
    }

    /** A new message. */
    method Allocate()
      modifies `msg, `log
      ensures Now() == old(Now()).(msg := HELD, log := Overwritten(old(log), old(msg), old(recvbuf)))
    {
      hide Overwritten;
      log := Overwritten(log, msg, recvbuf);
      msg := HELD;
    }

    method Ask(e: Inputs, hasName: bool)
      modifies `rd, `transl, `opt
      ensures Now() == old(Now()).(want := Asked(edns, trusted, e, hasName))
    {
      rd := hasName && trusted;
      transl := e.transl;
      opt := e.opt && hasName && edns;
    }

    /** Both blocks are freed: the end of every failure. */
    method Finish()
      modifies `msg, `recvbuf, `state, `log
      ensures Now() == Finished(old(Now()))
    {
      hide MsgFreed, BufFreed;
      FreeMsg();
      FreeBuf();
      state := QS_DONE;
    }

    /** From tryagain on, once. */
    method Turn(n: Net, m: Reply, hasEnt: bool) returns (r: Answer, again: bool)
      modifies this
      ensures Turned(Now(), r, again) == TurnOf(old(Now()), n, m, hasEnt)
    {
      hide Sm, Finished, Concluded, Complete;
      again := false;
      r := QuerySm(n);
      if r.AGAIN? {
        return;
      }
      if r.rc != RC_OK {
        Finish();
        return;
      }
      log := Seen(Now()).log;
      r, again := Conclude(m, hasEnt);
    }

    /** What follows once there is a reply. */
    method Conclude(m: Reply, hasEnt: bool) returns (r: Answer, again: bool)
      modifies this
      ensures Turned(Now(), r, again) == Concluded(old(Now()), m, hasEnt)
    {
      hide Judged, Finished, MsgFreed, BufFreed;
      r, again := CODE(RC_OK), false;
      var v := Judge(m, hasEnt);
      match v {
        case TAKE =>
          FreeMsg();
          tc := m.tc;
          FreeBuf();
          r := CODE(if hasEnt then m.code else m.rcode);
        case RESEND =>
          again := true;
        case DISCARD =>
          Finish();
          r := CODE(if m.wellFormed && recvl >= HDRSIZE && m.rcode != RC_OK then m.rcode else RC_SERVFAIL);
      }
    }

    /** p_cancel_query. */
    method CancelQuery()
      modifies `sock, `msg, `recvbuf, `state, `log
      ensures Now() == Cancelled(old(Now()))
    {
      if Waiting(state) {
        Close();
      }
      if InQuery(state) {
        FreeBuf();
        FreeMsg();
      }
      if state != QS_INITIAL && state != QS_DONE {
        state := QS_CANCELED;
      }
    }

    /** The part of p_recursive_query for connections that do not come about in time. */
    method TimedOut()
      modifies `sock, `qm, `state, `log
      ensures Now() == GivenUp(old(Now()))
    {
      if qm == TCP_UDP && (state == QS_TCPWRITE || (state == QS_TCPREAD && iolen == 0)) {
        Close();
        SwitchToUdp();
      }
    }

    /** switch_to_tcp, where p_recursive_query calls it. */
    method SwitchToTcp()
      modifies `qm, `state, `failed, `log
      ensures Now() == ToTcp(old(Now()))
    {
      if state == QS_DONE && qm == UDP_TCP && tc {
        qm, state, failed := TCP_ONLY, QS_INITIAL, 0;
        log := log.(restarts := log.restarts + 1);
      }
    }
  }

  lemma TurnsNext(q: Q, e: Inputs, i: nat, hasEnt: bool)
    ensures var t := TurnOf(q, e.net(i), e.reply(i), hasEnt);
            Turns(q, e, i, hasEnt) == if t.again then Turns(t.q, e, i + 1, hasEnt) else (t.q, t.answer)
  {
  }
}
