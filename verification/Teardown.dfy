/** Connection teardown: three handles that close asynchronously, a counter of callbacks still to come, one release. */
module Teardown {
  /** What the event loop knows of a handle; both Closing and Closed count as closing for uv_is_closing. */
  datatype Handle = Open | Closing | Closed

  datatype HandleId = IdleHandle | TimerHandle | TcpHandle

  /** The connection's states; Shut is UVHTTP_CONN_STATE_CLOSING. */
  datatype State = New | TlsHandshake | HttpReading | HttpProcessing | Shut

  /** What embedder code may do to the connection from inside a callback. */
  datatype Action = CallClose | CallFree | CallWebSocketClose

  /** The server's connection counter is a 64-bit size_t. */
  const SIZE_RANGE := 0x1_0000_0000_0000_0000

  class Server {
    var active: int

    constructor (n: int)
      requires 0 <= n < SIZE_RANGE
      ensures active == n
    {
      active := n;
    }
  }

  function Pending(h: Handle): nat {
    if h == Closing then 1 else 0
  }

  class Connection {
    const server: Server
    var state: State
    var closePending: int
    var freed: bool
    var idle: Handle
    var timer: Handle
    var tcp: Handle
    var idleActive: bool
    var timerActive: bool
    var reading: bool
    /** How often the resources were released, the server's counter lowered, reading restarted. */
    ghost var releases: nat
    ghost var decrements: nat
    ghost var restarts: nat

    /** A new connection: handles initialised, nothing started. */
    constructor (s: Server)
      ensures Valid() && server == s && state == New && !freed
    {
      server, state, closePending, freed := s, New, 0, false;
      idle, timer, tcp := Open, Open, Open;
      idleActive, timerActive, reading := false, false, false;
      releases, decrements, restarts := 0, 0, 0;
    }

    /** The counter is the number of close callbacks that have not been delivered. */
    ghost predicate Counted()
      reads this
    {
      && closePending == Pending(idle) + Pending(timer) + Pending(tcp)
      && (state != Shut ==> idle == Open && timer == Open && tcp == Open)
      && (state == Shut ==> idle != Open && timer != Open && tcp != Open && !idleActive && !timerActive && !reading)
    }

    /** Between callbacks: released exactly when all three handles have closed, and then exactly once. */
    ghost predicate Valid()
      reads this
    {
      && Counted()
      && (freed <==> state == Shut && closePending == 0)
      && releases == decrements == if freed then 1 else 0
    }

    /** uvhttp_connection_close. The branch that would release at once is dead: every handle is counted or closing. */
    method Close()
      requires Counted() && !freed
      modifies this
      ensures Counted() && !freed && state == Shut && unchanged(`releases, `decrements, `restarts)
      ensures old(state) != Shut ==> closePending == 3
      ensures old(state) == Shut ==> unchanged(this)
    {
      if state == Shut && closePending > 0 {
        return;
      }
      state := Shut;
      closePending := 0;
      var alreadyClosing := 0;
      if idle == Open {
        idleActive := false;
        idle := Closing;
        closePending := closePending + 1;
      } else {
        alreadyClosing := alreadyClosing + 1;
      }
      if timer == Open {
        timerActive := false;
        timer := Closing;
        closePending := closePending + 1;
      } else {
        alreadyClosing := alreadyClosing + 1;
      }
      if tcp == Open {
        reading := false;
        tcp := Closing;
        closePending := closePending + 1;
      } else {
        alreadyClosing := alreadyClosing + 1;
      }
      assert closePending + alreadyClosing == 3;
    }

    /** uvhttp_connection_free: never releases by itself. */
    method Free()
      requires Counted()
      modifies this
      ensures Counted() && freed == old(freed) && unchanged(`releases, `decrements, `restarts)
      ensures old(state) == Shut || freed ==> unchanged(this)
      ensures !freed ==> state == Shut && (old(state) != Shut ==> closePending == 3)
    {
      if freed {
        return;
      }
      if closePending > 0 {
        return;
      }
      Close();
    }

    /** Embedder code run from a callback: any closes and frees, in any order. */
    method Reenter(acts: seq<Action>)
      requires Counted() && !freed
      modifies this
      ensures Counted() && !freed && unchanged(`releases, `decrements, `restarts)
      ensures old(state) == Shut ==> unchanged(this)
      ensures acts == [] ==> unchanged(this)
      ensures acts != [] ==> state == Shut && (old(state) != Shut ==> closePending == 3)
    {
      for i := 0 to |acts|
        invariant Counted() && !freed && unchanged(`releases, `decrements, `restarts)
        invariant old(state) == Shut || i == 0 ==> unchanged(this)
        invariant i > 0 ==> state == Shut && (old(state) != Shut ==> closePending == 3)
      {
        match acts[i] {
          case CallClose => Close();
          case CallFree => Free();
          case CallWebSocketClose => Close();
        }
      }
    }

    /** uvhttp_connection_free_resources, with what the embedder does from on_destroy. */
    method FreeResources(acts: seq<Action>)
      requires Counted() && state == Shut && closePending == 0 && !freed
      modifies this
      ensures Counted() && freed && state == Shut && closePending == 0 && unchanged(`idle, `timer, `tcp, `restarts)
      ensures releases == old(releases) + 1 && decrements == old(decrements)
    {
      if freed {
        return;
      }
      Reenter(acts);
      freed := true;
      releases := releases + 1;
    }

    /** on_handle_close: the last callback lowers the server's counter and releases the connection. */
    method OnHandleClose(acts: seq<Action>)
      requires state == Shut && closePending == Pending(idle) + Pending(timer) + Pending(tcp) + 1
      requires idle != Open && timer != Open && tcp != Open && !idleActive && !timerActive && !reading
      requires !freed && releases == decrements == 0
      modifies this, server
      ensures Valid() && state == Shut && closePending == old(closePending) - 1 &&
          unchanged(`idle, `timer, `tcp, `restarts)
      ensures server.active == if freed then (old(server.active) - 1) % SIZE_RANGE else old(server.active)
    {
      closePending := closePending - 1;
      if closePending == 0 {
        server.active := (server.active - 1) % SIZE_RANGE;
        decrements := decrements + 1;
        FreeResources(acts);
      }
    }

    /** The event loop delivers the close callback of a handle. */
    method Deliver(h: HandleId, acts: seq<Action>)
      requires Valid() && Of(h) == Closing
      modifies this, server
      ensures Valid() && state == Shut && Of(h) == Closed && closePending == old(closePending) - 1 &&
          unchanged(`restarts)
      ensures server.active == if freed then (old(server.active) - 1) % SIZE_RANGE else old(server.active)
    {
      match h {
        case IdleHandle => idle := Closed;
        case TimerHandle => timer := Closed;
        case TcpHandle => tcp := Closed;
      }
      OnHandleClose(acts);
    }

    function Of(h: HandleId): Handle
      reads this
    {
      match h
      case IdleHandle => idle
      case TimerHandle => timer
      case TcpHandle => tcp
    }

    /** uvhttp_connection_restart_read: refuses while closing. */
    method RestartRead(readOk: bool) returns (ok: bool)
      requires Valid() && !freed
      modifies this
      ensures Valid() && !freed && idleActive == old(idleActive) && (old(state) == Shut ==> !ok && unchanged(this))
      ensures state == Shut <==> old(state) == Shut
    {
      if state == Shut {
        return false;
      }
      reading := false;
      restarts := restarts + 1;
      state := HttpReading;
      if readOk {
        reading := true;
      }
      ok := readOk;
    }

    /** on_idle_restart_read. */
    method IdleFires(readOk: bool)
      requires Valid() && idleActive
      modifies this
      ensures Valid() && !freed && !idleActive && (state == Shut ==> closePending == 3)
    {
      idleActive := false;
      if state == Shut {
        return;
      }
      var ok := RestartRead(readOk);
      if !ok {
        Close();
      }
    }

    /** uvhttp_connection_schedule_restart_read: starts nothing on a closing connection. */
    method ScheduleRestart(startOk: bool) returns (ok: bool)
      requires Valid() && !freed
      modifies this
      ensures Valid() && !freed && state == old(state) && (old(state) == Shut ==> unchanged(this))
    {
      if state == Shut {
        return true;
      }
      if !startOk {
        return false;
      }
      idleActive := true;
      ok := true;
    }

    /** uvhttp_connection_switch_to_websocket. */
    method SwitchToWebSocket(readOk: bool)
      requires Valid() && !freed
      modifies this
      ensures Valid() && !freed && (old(state) == Shut ==> unchanged(this))
      ensures old(state) != Shut && state == Shut ==> closePending == 3
    {
      if state == Shut {
        return;
      }
      reading := false;
      state := HttpProcessing;
      if !readOk {
        Close();
        return;
      }
      reading := true;
    }

    /** uvhttp_connection_websocket_close, with what the embedder does from on_close. */
    method WebSocketClose(acts: seq<Action>)
      requires Valid() && !freed
      modifies this
      ensures Valid() && !freed && state == Shut && (old(state) != Shut ==> closePending == 3)
      ensures old(state) == Shut ==> unchanged(this)
    {
      Reenter(acts);
      Close();
    }

    /** connection_timeout_cb, with what the embedder does from the timeout callback. */
    method TimerFires(acts: seq<Action>)
      requires Valid() && timerActive
      modifies this
      ensures Valid() && !freed && state == Shut && closePending == 3
    {
      timerActive := false;
      Reenter(acts);
      Close();
    }

    /** uvhttp_connection_start: what is read first, then the handshake if there is one. */
    method Start(readOk: bool, tls: bool, handshakeOk: bool, handshakeWaits: bool) returns (ok: bool)
      requires Valid() && state == New
      modifies this
      ensures Valid() && !freed && (!ok ==> state == Shut && closePending == 3)
    {
      if !readOk {
        Close();
        return false;
      }
      reading := true;
      if tls {
        state := TlsHandshake;
        if handshakeWaits {
          return true;
        } else if !handshakeOk {
          Close();
          return false;
        }
      }
      state := HttpReading;
      ok := true;
    }

    /** on_read, with what the embedder does while a request is parsed. Failures are those of the read, the buffer, the
        handshake and the decryption; a handshake that waits for more data leaves everything as it is. */
    method OnRead(failed: bool, handshakeWaits: bool, acts: seq<Action>, parseOk: bool)
      requires Valid() && reading
      modifies this
      ensures Valid() && !freed && (state == Shut ==> closePending == 3) && unchanged(`restarts)
      ensures failed || acts != [] || !parseOk ==>
          state == Shut || (!failed && old(state) == TlsHandshake && handshakeWaits)
      ensures !failed && old(state) == TlsHandshake && handshakeWaits ==> unchanged(this)
    {
      if failed {
        Close();
        return;
      }
      if state == TlsHandshake {
        if handshakeWaits {
          return;
        }
        state := HttpReading;
      }
      Reenter(acts);
      if !parseOk {
        Close();
      }
    }

    /** uvhttp_connection_start_timeout. */
    method StartTimeout()
      requires Valid() && !freed
      modifies this
      ensures Valid() && !freed && (old(state) == Shut ==> unchanged(this))
    {
      if timer == Open {
        timerActive := true;
      }
    }
  }

  /** Anything that can happen to a connection. Calls come from its owner, the rest from the event loop. */
  datatype Event =
    | CloseCall | FreeCall | WebSocketCloseCall(acts: seq<Action>) | SwitchCall(readOk: bool)
    | ScheduleCall(startOk: bool) | IdleEvent(readOk: bool) | TimerEvent(acts: seq<Action>)
    | ReadEvent(failed: bool, waits: bool, acts: seq<Action>, parseOk: bool)
    | CloseCallback(h: HandleId, acts: seq<Action>)

  /** The owner does not use a released connection; the loop runs active handles and pending close callbacks only. */
  predicate Enabled(c: Connection, e: Event)
    reads c
  {
    match e
    case IdleEvent(_) => c.idleActive
    case TimerEvent(_) => c.timerActive
    case ReadEvent(_, _, _, _) => c.reading
    case CloseCallback(h, _) => c.Of(h) == Closing
    case _ => !c.freed
  }

  /** One event, and how the closing state, the release and the server's counter move. */
  method Happen(c: Connection, e: Event)
    requires c.Valid() && Enabled(c, e)
    modifies c, c.server
    ensures c.Valid() && (old(c.state) == Shut ==> c.state == Shut && c.restarts == old(c.restarts))
    ensures c.server.active == if c.freed &&
        !old(c.freed) then (old(c.server.active) - 1) % SIZE_RANGE else old(c.server.active)
    ensures c.freed ==> e.CloseCallback?
    ensures old(c.state) == Shut ==> c.closePending == old(c.closePending) - (if e.CloseCallback? then 1 else 0)
    ensures old(c.state) != Shut && c.state == Shut ==> c.closePending == 3
  {
    match e {
      case CloseCall => c.Close();
      case FreeCall => c.Free();
      case WebSocketCloseCall(acts) => c.WebSocketClose(acts);
      case SwitchCall(ok) => c.SwitchToWebSocket(ok);
      case ScheduleCall(ok) => var r := c.ScheduleRestart(ok);
      case IdleEvent(ok) => c.IdleFires(ok);
      case TimerEvent(acts) => c.TimerFires(acts);
      case ReadEvent(failed, waits, acts, parseOk) => c.OnRead(failed, waits, acts, parseOk);
      case CloseCallback(h, acts) => c.Deliver(h, acts);
    }
  }

  /** Any run, its disabled events skipped: what holds at the end whatever the interleaving. */
  method Run(c: Connection, events: seq<Event>) returns (delivered: nat)
    requires c.Valid() && c.state != Shut
    modifies c, c.server
    ensures c.Valid() && delivered <= 3
    ensures c.freed <==> delivered == 3
    ensures c.state == Shut ==> c.closePending == 3 - delivered
    ensures c.state != Shut ==> delivered == 0
    ensures c.server.active == if c.freed then (old(c.server.active) - 1) % SIZE_RANGE else old(c.server.active)
  {
    delivered := 0;
    for i := 0 to |events|
      invariant c.Valid() && delivered <= 3
      invariant if c.state == Shut then c.closePending == 3 - delivered else delivered == 0
      invariant c.server.active == if c.freed then (old(c.server.active) - 1) % SIZE_RANGE else old(c.server.active)
    {
      if Enabled(c, events[i]) {
        Happen(c, events[i]);
        delivered := delivered + (if events[i].CloseCallback? then 1 else 0);
      }
    }
  }

  /** Once closing, the callbacks still to come release the connection, in whatever order the loop delivers them. */
  method Drain(c: Connection, tcpFirst: bool)
    requires c.Valid() && c.state == Shut
    modifies c, c.server
    ensures c.Valid() && c.freed
    ensures c.server.active == if old(c.freed) then old(c.server.active) else (old(c.server.active) - 1) % SIZE_RANGE
  {
    while !c.freed
      invariant c.Valid() && c.state == Shut
      invariant c.server.active == if c.freed &&
          !old(c.freed) then (old(c.server.active) - 1) % SIZE_RANGE else old(c.server.active)
      decreases c.closePending
    {
      var h := if c.tcp == Closing && (tcpFirst || (c.idle != Closing && c.timer != Closing)) then TcpHandle
               else if c.idle == Closing then IdleHandle else TimerHandle;
      c.Deliver(h, []);
    }
  }

  /** How starting a connection turns out: whether reading starts, whether it is a TLS connection, and how its
      handshake begins. */
  datatype Opening = Opening(readOk: bool, tls: bool, handshakeOk: bool, handshakeWaits: bool)

  /** The accept callback of the server: a connection whose accept fails is freed without ever having been counted. */
  method Accept(s: Server, acceptOk: bool, o: Opening) returns (c: Connection)
    requires 0 <= s.active < SIZE_RANGE
    modifies s
    ensures fresh(c) && c.Valid() && !c.freed && c.server == s
    ensures s.active == if acceptOk then (old(s.active) + 1) % SIZE_RANGE else old(s.active)
    ensures !acceptOk ==> c.state == Shut
  {
    c := new Connection(s);
    if !acceptOk {
      c.Free();
      return;
    }
    s.active := (s.active + 1) % SIZE_RANGE;
    var ok := c.Start(o.readOk, o.tls, o.handshakeOk, o.handshakeWaits);
    if ok {
      c.StartTimeout();
    } else {
      c.Close();
    }
  }

  /** Over a connection's whole life the counter comes back to where it was exactly when the accept had succeeded. */
  method WholeLife(s: Server, acceptOk: bool, o: Opening, events: seq<Event>, tcpFirst: bool)
    requires 0 <= s.active < SIZE_RANGE
    modifies s
    ensures s.active == old(s.active) <==> acceptOk
    ensures !acceptOk && old(s.active) == 0 ==> s.active == SIZE_RANGE - 1
  {
    var c := Accept(s, acceptOk, o);
    if c.state != Shut {
      var n := Run(c, events);
    }
    if !c.freed {
      c.Close();
    }
    Drain(c, tcpFirst);
  }
}
