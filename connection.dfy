/**
  Per-connection decision logic of the proxy (src/main.rs): what `handler`
  does after authentication, how `handle_tcp_connect` maps the outcome of the
  outbound connection to a SOCKS5 reply, and what it forwards of the first
  read, and the reply mapping of `handle_udp_associate`.

  The SOCKS5 library, the sockets and the clock are replaced by a script of
  abstract outcomes, one per awaited call; a run records the effects the
  handler attempts, in order, and the value it finally returns.
 */
module Connection {
  import opened Wrappers
  import opened Bytes
  import opened Http

  /** Size of the buffer the first client bytes are read into. */
  const BufferSize: nat := 4096

  /** An `io::Error`; only the timed-out kind is told apart. */
  datatype IoError = TimedOut | IoFailure(code: nat)

  /** The SOCKS5 library's error: an I/O error or one of its protocol errors. */
  datatype Error = Io(io: IoError) | Protocol(code: nat)

  /** Result of one awaited call that yields nothing else (`Result<(), io::Error>`). */
  datatype Step = Done | Fail(err: IoError)

  /** How a connection task ends: `Ok(())`, `Err(error)`, or a panic. */
  datatype Outcome = Finished | Failed(error: Error) | Panicked

  datatype ReplyCode = Succeeded | HostUnreachable | TtlExpired | CommandNotSupported

  datatype Side = Client | Target

  /** An action the handler attempts; attempts are recorded whether or not they succeed. */
  datatype Effect =
    | Authenticate
    | WaitCommand
    | SendReply(code: ReplyCode)     // always with the unspecified address
    | Shutdown(side: Side)
    | CloseClient
    | Dial                           // TCP connect with the 30 s timeout
    | SetNoDelay
    | ReadInitial
    | Write(bytes: seq<byte>)        // `write_all` to the target
    | Flush
    | Relay                          // `copy_bidirectional_with_sizes`
    | BindUdp
    | EchoDatagrams                  // the UDP receive-and-send-back loop

  /** The effects of a run, in order, and how it ended. */
  datatype Run = Run(effects: seq<Effect>, outcome: Outcome)

  /** Outcome of a connect or bind raced against the 30-second timeout. */
  datatype Attempt = Established | AttemptFailed(err: IoError) | AttemptTimedOut

  datatype ReadOutcome = Received(data: seq<byte>) | ReadFailed(err: IoError)

  /** The awaited outcomes `handle_tcp_connect` meets, in the order it meets them. */
  datatype ConnectScript = ConnectScript(
    dial: Attempt,
    noDelay: Step,
    reply: Step,
    read: ReadOutcome,
    write: Step,
    flush: Step,
    relay: Step,
    clientShutdown: Step,
    targetShutdown: Step)

  /** The awaited outcomes of `handle_udp_associate`; the echo loop only ever ends with an error. */
  datatype AssociateScript = AssociateScript(bind: Attempt, reply: Step, pumpError: IoError)

  datatype AuthOutcome = Authenticated | AuthFailed(err: Error)

  datatype Command = Bind | Connect | Associate

  datatype WaitOutcome = CommandReceived(cmd: Command) | WaitFailed(err: Error)

  /** Everything the environment decides for one accepted connection. */
  datatype Script = Script(
    auth: AuthOutcome,
    wait: WaitOutcome,
    bindReply: Step,
    bindClose: Step,
    clientShutdown: Step,
    tcp: ConnectScript,
    udp: AssociateScript)

  /** A read never returns more bytes than the buffer it reads into holds. */
  predicate ReadFits(s: ConnectScript) {
    s.read.Received? ==> |s.read.data| <= BufferSize
  }

  /* ---------------------------------------------------------------------- */
  /* Specification of a run                                                  */
  /* ---------------------------------------------------------------------- */

  /** Reply code for the outcome of the outbound connect (or UDP bind). */
  function ReplyFor(a: Attempt): ReplyCode {
    match a
    case Established => Succeeded
    case AttemptFailed(_) => HostUnreachable
    case AttemptTimedOut => TtlExpired
  }

  /** Error surfaced for a failed or timed-out attempt. */
  function AttemptError(a: Attempt): Error
    requires !a.Established?
  {
    match a
    case AttemptFailed(e) => Io(e)
    case AttemptTimedOut => Io(TimedOut)
  }

  function Prepend(effects: seq<Effect>, r: Run): Run {
    Run(effects + r.effects, r.outcome)
  }

  lemma PrependAssociative(a: seq<Effect>, b: seq<Effect>, r: Run)
    ensures Prepend(a, Prepend(b, r)) == Prepend(a + b, r)
  {
    assert a + (b + r.effects) == (a + b) + r.effects;
  }

  /** `side.shutdown().await?` followed by `rest`: a failed shutdown returns its error at once. */
  function ThenShutdown(side: Side, step: Step, rest: Run): Run {
    if step.Fail? then Run([Shutdown(side)], Failed(Io(step.err)))
    else Prepend([Shutdown(side)], rest)
  }

  /** Shut down the client, then the target, then return `Ok(())`. */
  function ShutdownBoth(s: ConnectScript): Run {
    ThenShutdown(Client, s.clientShutdown, ThenShutdown(Target, s.targetShutdown, Run([], Finished)))
  }

  /** The zero-filled buffer after the first read put `data` at its front. */
  function InitialBuffer(data: seq<byte>): seq<byte>
    requires |data| <= BufferSize
  {
    data + Zeros(BufferSize - |data|)
  }

  /** The whole buffer after the sniff: rewritten only for an HTTP request line with a UA configured. */
  function SniffedBuffer(data: seq<byte>, ua: Option<seq<byte>>): seq<byte>
    requires |data| <= BufferSize
  {
    var buf := InitialBuffer(data);
    if IsHttpRequest(buf[..|data|]) && ua.Some? then Rewrite(buf, ua.value) else buf
  }

  /** What is sent to the target after the first read: `buf[..initial_read]`, or a panic if that slice is out of range. */
  datatype Forward = Forward(bytes: seq<byte>) | SliceOutOfRange

  function InitialForward(data: seq<byte>, ua: Option<seq<byte>>): Forward
    requires |data| <= BufferSize
  {
    var buf := SniffedBuffer(data, ua);
    if |data| <= |buf| then Forward(buf[..|data|]) else SliceOutOfRange
  }

  /** `handle_tcp_connect` from the first read on. */
  function AfterRead(s: ConnectScript, ua: Option<seq<byte>>): Run
    requires ReadFits(s)
  {
    match s.read
    case ReadFailed(e) => Run([], Failed(Io(e)))
    case Received(data) =>
      if |data| == 0 then ShutdownBoth(s)
      else match InitialForward(data, ua)
        case SliceOutOfRange => Run([], Panicked)
        case Forward(bytes) =>
          // write and flush failures are only logged
          Prepend([Write(bytes), Flush, Relay],
            if s.relay.Fail? then Run([], Failed(Io(s.relay.err))) else ShutdownBoth(s))
  }

  /** `handle_tcp_connect`. */
  function TcpConnectRun(s: ConnectScript, ua: Option<seq<byte>>): Run
    requires ReadFits(s)
  {
    Prepend([Dial],
      if !s.dial.Established? then
        Prepend([SendReply(ReplyFor(s.dial))],
          if s.reply.Done? then ThenShutdown(Client, s.clientShutdown, Run([], Failed(AttemptError(s.dial))))
          else Run([], Failed(AttemptError(s.dial))))
      else
        // a `set_nodelay` failure is only logged
        Prepend([SetNoDelay, SendReply(Succeeded)],
          if s.reply.Fail? then ThenShutdown(Client, s.clientShutdown, Run([], Failed(Io(s.reply.err))))
          else Prepend([ReadInitial], AfterRead(s, ua))))
  }

  /** `handle_udp_associate`, with the echo loop as one effect that ends in its error. */
  function AssociateRun(u: AssociateScript): Run {
    Prepend([BindUdp],
      if !u.bind.Established? then
        // the outcome of this reply is ignored
        Run([SendReply(ReplyFor(u.bind))], Failed(AttemptError(u.bind)))
      else if u.reply.Fail? then Run([SendReply(Succeeded)], Failed(Io(u.reply.err)))
      else Run([SendReply(Succeeded), EchoDatagrams], Failed(Io(u.pumpError))))
  }

  /** `handler` once a command has arrived: Bind is refused, Connect and Associate are delegated. */
  function CommandRun(s: Script, cmd: Command, ua: Option<seq<byte>>): Run
    requires ReadFits(s.tcp)
  {
    match cmd
    case Bind =>
      Prepend([SendReply(CommandNotSupported)],
        if s.bindReply.Fail? then Run([], Finished)
        else if s.bindClose.Fail? then Run([CloseClient], Failed(Io(s.bindClose.err)))
        else Run([CloseClient], Finished))
    case Connect => TcpConnectRun(s.tcp, ua)
    case Associate => AssociateRun(s.udp)
  }

  /** `handler`. */
  function HandlerRun(s: Script, ua: Option<seq<byte>>): Run
    requires ReadFits(s.tcp)
  {
    Prepend([Authenticate],
      match s.auth
      case AuthFailed(e) => ThenShutdown(Client, s.clientShutdown, Run([], Failed(e)))
      case Authenticated =>
        Prepend([WaitCommand],
          match s.wait
          case WaitFailed(e) => ThenShutdown(Client, s.clientShutdown, Run([], Failed(e)))
          case CommandReceived(cmd) => CommandRun(s, cmd, ua)))
  }

  /* ---------------------------------------------------------------------- */
  /* The handlers, step by step                                              */
  /* ---------------------------------------------------------------------- */

  /** Shuts down the client stream, then the target stream, stopping at the first failure. */
  method ShutdownStreams(s: ConnectScript, effects: seq<Effect>) returns (run: Run)
    ensures run == Prepend(effects, ShutdownBoth(s))
  {
    var trace := effects + [Shutdown(Client)];
    if s.clientShutdown.Fail? {
      return Run(trace, Failed(Io(s.clientShutdown.err)));
    }
    trace := trace + [Shutdown(Target)];
    if s.targetShutdown.Fail? {
      return Run(trace, Failed(Io(s.targetShutdown.err)));
    }
    return Run(trace, Finished);
  }

  /**
    `handle_tcp_connect`: connects, replies, reads the first bytes into a
    4096-byte zeroed buffer, rewrites the User-Agent of an HTTP request in
    that whole buffer, forwards its first `initial_read` bytes and relays.
   */
  method HandleTcpConnect(s: ConnectScript, ua: Option<seq<byte>>) returns (run: Run)
    requires ReadFits(s)
    ensures run == TcpConnectRun(s, ua)
  {
    var effects := [Dial];
    if !s.dial.Established? {
      effects := effects + [SendReply(ReplyFor(s.dial))];
      if s.reply.Done? {
        effects := effects + [Shutdown(Client)];
        if s.clientShutdown.Fail? {
          return Run(effects, Failed(Io(s.clientShutdown.err)));
        }
      }
      return Run(effects, Failed(AttemptError(s.dial)));
    }
    // a failure of set_nodelay is only logged
    effects := effects + [SetNoDelay, SendReply(Succeeded)];
    if s.reply.Fail? {
      effects := effects + [Shutdown(Client)];
      if s.clientShutdown.Fail? {
        return Run(effects, Failed(Io(s.clientShutdown.err)));
      }
      return Run(effects, Failed(Io(s.reply.err)));
    }

    run := ReadAndForward(s, ua, effects + [ReadInitial]);
  }

  /**
    The first read of `handle_tcp_connect` and what follows it: the bytes go
    into a 4096-byte zeroed buffer, an HTTP request has its User-Agent
    rewritten in that whole buffer, and the first `initial_read` bytes of the
    result are forwarded before the relay starts.
   */
  method ReadAndForward(s: ConnectScript, ua: Option<seq<byte>>, effects: seq<Effect>) returns (run: Run)
    requires ReadFits(s)
    ensures run == Prepend(effects, AfterRead(s, ua))
  {
    var buf := new ByteBuffer.Zeroed(BufferSize);
    if s.read.ReadFailed? {
      return Run(effects, Failed(Io(s.read.err)));
    }
    buf.ReadInto(s.read.data);
    var initialRead := |s.read.data|;
    assert buf.data == InitialBuffer(s.read.data);
    if initialRead == 0 {
      run := ShutdownStreams(s, effects);
      return;
    }

    if IsHttpRequest(buf.data[..initialRead]) {
      if ua.Some? {
        ModifyUserAgent(buf, ua.value);
      }
    }
    assert buf.data == SniffedBuffer(s.read.data, ua);

    if initialRead > |buf.data| {
      // `&buf[..initial_read]` is out of range: the connection task panics
      return Run(effects, Panicked);
    }
    // write and flush failures are only logged
    var trace := effects + [Write(buf.data[..initialRead]), Flush, Relay];
    if s.relay.Fail? {
      return Run(trace, Failed(Io(s.relay.err)));
    }
    run := ShutdownStreams(s, trace);
  }

  /** `handle_udp_associate`, up to the echo loop. */
  method HandleUdpAssociate(u: AssociateScript) returns (run: Run)
    ensures run == AssociateRun(u)
  {
    var effects := [BindUdp];
    if !u.bind.Established? {
      // the outcome of this reply is ignored
      effects := effects + [SendReply(ReplyFor(u.bind))];
      return Run(effects, Failed(AttemptError(u.bind)));
    }
    effects := effects + [SendReply(Succeeded)];
    if u.reply.Fail? {
      return Run(effects, Failed(Io(u.reply.err)));
    }
    effects := effects + [EchoDatagrams];
    return Run(effects, Failed(Io(u.pumpError)));
  }

  /** The routing `match` of `handler` for a command that has arrived. */
  method Route(s: Script, cmd: Command, ua: Option<seq<byte>>, effects: seq<Effect>) returns (run: Run)
    requires ReadFits(s.tcp)
    ensures run == Prepend(effects, CommandRun(s, cmd, ua))
  {
    match cmd
    case Bind =>
      var trace := effects + [SendReply(CommandNotSupported)];
      if s.bindReply.Done? {
        trace := trace + [CloseClient];
        if s.bindClose.Fail? {
          return Run(trace, Failed(Io(s.bindClose.err)));
        }
      }
      return Run(trace, Finished);
    case Connect =>
      var tcp := HandleTcpConnect(s.tcp, ua);
      return Prepend(effects, tcp);
    case Associate =>
      var udp := HandleUdpAssociate(s.udp);
      return Prepend(effects, udp);
  }

  /** `handler`: authenticates, waits for the command and routes it. */
  method Handler(s: Script, ua: Option<seq<byte>>) returns (run: Run)
    requires ReadFits(s.tcp)
    ensures run == HandlerRun(s, ua)
  {
    var effects := [Authenticate];
    if s.auth.AuthFailed? {
      effects := effects + [Shutdown(Client)];
      if s.clientShutdown.Fail? {
        return Run(effects, Failed(Io(s.clientShutdown.err)));
      }
      return Run(effects, Failed(s.auth.err));
    }
    effects := effects + [WaitCommand];
    if s.wait.WaitFailed? {
      effects := effects + [Shutdown(Client)];
      if s.clientShutdown.Fail? {
        return Run(effects, Failed(Io(s.clientShutdown.err)));
      }
      return Run(effects, Failed(s.wait.err));
    }
    run := Route(s, s.wait.cmd, ua, effects);
    PrependAssociative([Authenticate], [WaitCommand], CommandRun(s, s.wait.cmd, ua));
  }

  /* ---------------------------------------------------------------------- */
  /* What a run shows                                                        */
  /* ---------------------------------------------------------------------- */

  /** The reply codes sent to the client, in order. */
  function Replies(effects: seq<Effect>): seq<ReplyCode> {
    if effects == [] then []
    else (if effects[0].SendReply? then [effects[0].code] else []) + Replies(effects[1..])
  }

  /** The byte strings written to the target, in order. */
  function Writes(effects: seq<Effect>): seq<seq<byte>> {
    if effects == [] then []
    else (if effects[0].Write? then [effects[0].bytes] else []) + Writes(effects[1..])
  }

  lemma {:induction false} RepliesAppend(a: seq<Effect>, b: seq<Effect>)
    ensures Replies(a + b) == Replies(a) + Replies(b)
  {
    if a == [] {
      assert a + b == b;
    } else {
      assert (a + b)[0] == a[0];
      assert (a + b)[1..] == a[1..] + b;
      RepliesAppend(a[1..], b);
      var h := if a[0].SendReply? then [a[0].code] else [];
      calc {
        Replies(a + b);
        h + Replies(a[1..] + b);
        h + (Replies(a[1..]) + Replies(b));
        (h + Replies(a[1..])) + Replies(b);
      }
    }
  }

  lemma {:induction false} WritesAppend(a: seq<Effect>, b: seq<Effect>)
    ensures Writes(a + b) == Writes(a) + Writes(b)
  {
    if a == [] {
      assert a + b == b;
    } else {
      assert (a + b)[0] == a[0];
      assert (a + b)[1..] == a[1..] + b;
      WritesAppend(a[1..], b);
      var h := if a[0].Write? then [a[0].bytes] else [];
      calc {
        Writes(a + b);
        h + Writes(a[1..] + b);
        h + (Writes(a[1..]) + Writes(b));
        (h + Writes(a[1..])) + Writes(b);
      }
    }
  }

  /** Effects without replies show no reply; effects without writes show no write. */
  lemma {:induction false} QuietEffects(e: seq<Effect>)
    ensures (forall i :: 0 <= i < |e| ==> !e[i].SendReply?) ==> Replies(e) == []
    ensures (forall i :: 0 <= i < |e| ==> !e[i].Write?) ==> Writes(e) == []
  {
    if e != [] {
      QuietEffects(e[1..]);
    }
  }

  /** Shutting the streams down sends no reply and writes nothing. */
  lemma ShutdownBothQuiet(s: ConnectScript)
    ensures Replies(ShutdownBoth(s).effects) == [] && Writes(ShutdownBoth(s).effects) == []
    ensures ShutdownBoth(s).outcome != Panicked
  {
    QuietEffects(ShutdownBoth(s).effects);
  }

  /** After the first read nothing more is replied, and at most the one initial write happens. */
  lemma AfterReadReplies(s: ConnectScript, ua: Option<seq<byte>>)
    requires ReadFits(s)
    ensures Replies(AfterRead(s, ua).effects) == []
    ensures Writes(AfterRead(s, ua).effects) ==
      if s.read.Received? && |s.read.data| > 0 && InitialForward(s.read.data, ua).Forward?
      then [InitialForward(s.read.data, ua).bytes] else []
  {
    ShutdownBothQuiet(s);
    if s.read.Received? && |s.read.data| > 0 && InitialForward(s.read.data, ua).Forward? {
      var head := [Write(InitialForward(s.read.data, ua).bytes), Flush, Relay];
      var tail := if s.relay.Fail? then Run([], Failed(Io(s.relay.err))) else ShutdownBoth(s);
      QuietEffects([Flush, Relay]);
      assert Replies(head) == [] && Writes(head) == [InitialForward(s.read.data, ua).bytes];
      RepliesAppend(head, tail.effects);
      WritesAppend(head, tail.effects);
    }
  }

  /**
    `handle_tcp_connect` sends exactly one reply: `Succeeded` after a
    connect, `HostUnreachable` after a connect error and `TtlExpired` after
    the timeout.
   */
  lemma ConnectReplyMatchesAttempt(s: ConnectScript, ua: Option<seq<byte>>)
    requires ReadFits(s)
    ensures Replies(TcpConnectRun(s, ua).effects) == [ReplyFor(s.dial)]
  {
    if !s.dial.Established? {
      RefusedReplies(s, ua);
    } else {
      EstablishedReplies(s, ua);
    }
  }

  /** A failed or timed-out connect: the one reply is its error code. */
  lemma RefusedReplies(s: ConnectScript, ua: Option<seq<byte>>)
    requires ReadFits(s) && !s.dial.Established?
    ensures Replies(TcpConnectRun(s, ua).effects) == [ReplyFor(s.dial)]
  {
    var rest := if s.reply.Done? then ThenShutdown(Client, s.clientShutdown, Run([], Failed(AttemptError(s.dial))))
                else Run([], Failed(AttemptError(s.dial)));
    assert Replies(rest.effects) == [];
    RepliesAppend([Dial, SendReply(ReplyFor(s.dial))], rest.effects);
    assert TcpConnectRun(s, ua).effects == [Dial, SendReply(ReplyFor(s.dial))] + rest.effects;
  }

  /** An established connection: the one reply is `Succeeded`. */
  lemma EstablishedReplies(s: ConnectScript, ua: Option<seq<byte>>)
    requires ReadFits(s) && s.dial.Established?
    ensures Replies(TcpConnectRun(s, ua).effects) == [Succeeded]
  {
    var head := [Dial, SetNoDelay, SendReply(Succeeded)];
    if s.reply.Fail? {
      SucceededReplyFailure(s, ua);
      RepliesAfterSucceeded([Shutdown(Client)]);
      QuietEffects([Shutdown(Client)]);
      assert head + [Shutdown(Client)] == TcpConnectRun(s, ua).effects;
    } else {
      var e := AfterRead(s, ua).effects;
      ConnectedRun(s, ua);
      AfterReadReplies(s, ua);
      RepliesAppend([ReadInitial], e);
      QuietEffects([ReadInitial]);
      RepliesAfterSucceeded([ReadInitial] + e);
      assert head + ([ReadInitial] + e) == [Dial, SetNoDelay, SendReply(Succeeded), ReadInitial] + e;
    }
  }

  /** The replies of the connected handshake followed by `rest`. */
  lemma RepliesAfterSucceeded(rest: seq<Effect>)
    ensures Replies([Dial, SetNoDelay, SendReply(Succeeded)] + rest) == [Succeeded] + Replies(rest)
  {
    QuietEffects([Dial, SetNoDelay]);
    assert [SendReply(Succeeded)][1..] == [];
    RepliesAppend([Dial, SetNoDelay], [SendReply(Succeeded)]);
    RepliesAppend([Dial, SetNoDelay, SendReply(Succeeded)], rest);
    assert [Dial, SetNoDelay] + [SendReply(Succeeded)] == [Dial, SetNoDelay, SendReply(Succeeded)];
  }

  /**
    A connect error or timeout ends the run with that error (or with the
    error of the shutdown that follows a delivered reply); nothing is read
    or forwarded.
   */
  lemma ConnectFailureReturnsError(s: ConnectScript, ua: Option<seq<byte>>)
    requires ReadFits(s) && !s.dial.Established?
    ensures TcpConnectRun(s, ua).outcome ==
      Failed(if s.reply.Done? && s.clientShutdown.Fail? then Io(s.clientShutdown.err) else AttemptError(s.dial))
    ensures ReadInitial !in TcpConnectRun(s, ua).effects
    ensures (Shutdown(Client) in TcpConnectRun(s, ua).effects) <==> s.reply.Done?
  {
  }

  /** When the `Succeeded` reply fails the client is shut down and nothing is read. */
  lemma SucceededReplyFailure(s: ConnectScript, ua: Option<seq<byte>>)
    requires ReadFits(s) && s.dial.Established? && s.reply.Fail?
    ensures TcpConnectRun(s, ua).effects == [Dial, SetNoDelay, SendReply(Succeeded), Shutdown(Client)]
    ensures TcpConnectRun(s, ua).outcome ==
      Failed(Io(if s.clientShutdown.Fail? then s.clientShutdown.err else s.reply.err))
  {
  }

  /** After a delivered `Succeeded` reply the run is the handshake effects followed by the read phase. */
  lemma ConnectedRun(s: ConnectScript, ua: Option<seq<byte>>)
    requires ReadFits(s) && s.dial.Established? && s.reply.Done?
    ensures TcpConnectRun(s, ua) == Prepend([Dial, SetNoDelay, SendReply(Succeeded), ReadInitial], AfterRead(s, ua))
  {
    var e := AfterRead(s, ua).effects;
    assert [Dial] + ([SetNoDelay, SendReply(Succeeded)] + ([ReadInitial] + e)) ==
      [Dial, SetNoDelay, SendReply(Succeeded), ReadInitial] + e;
  }

  /** A read of zero bytes shuts down the client and then the target stream, and forwards nothing. */
  lemma ZeroReadClosesBoth(s: ConnectScript, ua: Option<seq<byte>>)
    requires ReadFits(s) && s.dial.Established? && s.reply.Done? && s.read == Received([])
    ensures TcpConnectRun(s, ua).effects ==
      [Dial, SetNoDelay, SendReply(Succeeded), ReadInitial, Shutdown(Client)] +
      (if s.clientShutdown.Done? then [Shutdown(Target)] else [])
    ensures Writes(TcpConnectRun(s, ua).effects) == []
    ensures TcpConnectRun(s, ua).outcome ==
      if s.clientShutdown.Fail? then Failed(Io(s.clientShutdown.err))
      else if s.targetShutdown.Fail? then Failed(Io(s.targetShutdown.err))
      else Finished
  {
    ConnectedRun(s, ua);
    assert AfterRead(s, ua) == ShutdownBoth(s);
    QuietEffects(TcpConnectRun(s, ua).effects);
  }

  /**
    After a non-empty first read exactly one write of `initial_read` bytes
    of the sniffed buffer is attempted, unless slicing that buffer panics.
   */
  lemma ForwardsFirstRead(s: ConnectScript, ua: Option<seq<byte>>)
    requires ReadFits(s) && s.dial.Established? && s.reply.Done?
    requires s.read.Received? && |s.read.data| > 0
    ensures TcpConnectRun(s, ua).outcome == Panicked <==> InitialForward(s.read.data, ua).SliceOutOfRange?
    ensures InitialForward(s.read.data, ua).Forward? ==>
      Writes(TcpConnectRun(s, ua).effects) == [InitialForward(s.read.data, ua).bytes] &&
      |InitialForward(s.read.data, ua).bytes| == |s.read.data|
  {
    ConnectedRun(s, ua);
    AfterReadReplies(s, ua);
    QuietEffects([Dial, SetNoDelay, SendReply(Succeeded), ReadInitial]);
    WritesAppend([Dial, SetNoDelay, SendReply(Succeeded), ReadInitial], AfterRead(s, ua).effects);
    ShutdownBothQuiet(s);
  }

  /** Failures of `set_nodelay`, of the initial write and of its flush are only logged. */
  lemma LoggedFailuresIgnored(s: ConnectScript, ua: Option<seq<byte>>, noDelay: Step, write: Step, flush: Step)
    requires ReadFits(s)
    ensures TcpConnectRun(s.(noDelay := noDelay, write := write, flush := flush), ua) == TcpConnectRun(s, ua)
  {
  }

  /** The UDP associate path sends one reply chosen as for TCP connect, and always ends in an error. */
  lemma AssociateReplyMatchesAttempt(u: AssociateScript)
    ensures Replies(AssociateRun(u).effects) == [ReplyFor(u.bind)]
    ensures AssociateRun(u).outcome.Failed?
    ensures EchoDatagrams in AssociateRun(u).effects <==> u.bind.Established? && u.reply.Done?
  {
    var rest := if !u.bind.Established? then [SendReply(ReplyFor(u.bind))]
                else if u.reply.Fail? then [SendReply(Succeeded)] else [SendReply(Succeeded), EchoDatagrams];
    RepliesAppend([BindUdp], rest);
    if u.bind.Established? && u.reply.Done? {
      RepliesAppend([SendReply(Succeeded)], [EchoDatagrams]);
    }
  }

  /** Failed authentication shuts the client down and returns its error; no command is read. */
  lemma AuthFailureShutsDown(s: Script, ua: Option<seq<byte>>)
    requires ReadFits(s.tcp) && s.auth.AuthFailed?
    ensures HandlerRun(s, ua).effects == [Authenticate, Shutdown(Client)]
    ensures HandlerRun(s, ua).outcome ==
      Failed(if s.clientShutdown.Fail? then Io(s.clientShutdown.err) else s.auth.err)
  {
  }

  /** A failed wait for the command shuts the client down and returns its error. */
  lemma WaitFailureShutsDown(s: Script, ua: Option<seq<byte>>)
    requires ReadFits(s.tcp) && s.auth.Authenticated? && s.wait.WaitFailed?
    ensures HandlerRun(s, ua).effects == [Authenticate, WaitCommand, Shutdown(Client)]
    ensures HandlerRun(s, ua).outcome ==
      Failed(if s.clientShutdown.Fail? then Io(s.clientShutdown.err) else s.wait.err)
  {
  }

  /** Bind is always refused with `CommandNotSupported`; the client is closed only after that reply went out. */
  lemma BindRefused(s: Script, ua: Option<seq<byte>>)
    requires ReadFits(s.tcp) && s.auth.Authenticated? && s.wait == CommandReceived(Bind)
    ensures Replies(HandlerRun(s, ua).effects) == [CommandNotSupported]
    ensures CloseClient in HandlerRun(s, ua).effects <==> s.bindReply.Done?
    ensures HandlerRun(s, ua).outcome.Failed? <==> s.bindReply.Done? && s.bindClose.Fail?
    ensures Writes(HandlerRun(s, ua).effects) == []
  {
    var tail := if s.bindReply.Fail? then [] else [CloseClient];
    var effects := [Authenticate, WaitCommand, SendReply(CommandNotSupported)] + tail;
    assert HandlerRun(s, ua).effects == effects;
    RepliesAppend([Authenticate, WaitCommand, SendReply(CommandNotSupported)], tail);
    WritesAppend([Authenticate, WaitCommand, SendReply(CommandNotSupported)], tail);
  }

  /** A connect command runs `handle_tcp_connect` after the handshake, and what it returns is returned. */
  lemma ConnectDelegated(s: Script, ua: Option<seq<byte>>)
    requires ReadFits(s.tcp) && s.auth.Authenticated? && s.wait == CommandReceived(Connect)
    ensures HandlerRun(s, ua).effects == [Authenticate, WaitCommand] + TcpConnectRun(s.tcp, ua).effects
    ensures HandlerRun(s, ua).outcome == TcpConnectRun(s.tcp, ua).outcome
    ensures Replies(HandlerRun(s, ua).effects) == [ReplyFor(s.tcp.dial)]
  {
    PrependAssociative([Authenticate], [WaitCommand], TcpConnectRun(s.tcp, ua));
    ConnectReplyMatchesAttempt(s.tcp, ua);
    RepliesAppend([Authenticate, WaitCommand], TcpConnectRun(s.tcp, ua).effects);
  }

  /* ---------------------------------------------------------------------- */
  /* The first forward                                                       */
  /* ---------------------------------------------------------------------- */

  /** Without an HTTP request line, or without a configured UA, the bytes read are forwarded unchanged. */
  lemma ForwardUnchangedUnlessHttp(data: seq<byte>, ua: Option<seq<byte>>)
    requires |data| <= BufferSize
    requires !IsHttpRequest(data) || ua.None?
    ensures InitialForward(data, ua) == Forward(data)
  {
    assert InitialBuffer(data)[..|data|] == data;
  }

  /** The header ends in a space, so no occurrence of it can reach into zero padding. */
  lemma HeaderOccursPadded(data: seq<byte>, k: nat, q: nat)
    ensures OccursAt(data + Zeros(k), UserAgentHeader, q) <==> OccursAt(data, UserAgentHeader, q)
  {
    var p, n := data + Zeros(k), |UserAgentHeader|;
    if q + n <= |data| {
      assert p[q..q + n] == data[q..q + n];
    } else if q + n <= |p| {
      assert p[q + n - 1] == 0 && UserAgentHeader[n - 1] == Space;
      assert p[q..q + n][n - 1] == p[q + n - 1];
    }
  }

  /** Zero padding does not move the first header occurrence. */
  lemma FindHeaderPadded(data: seq<byte>, k: nat)
    ensures Find(data + Zeros(k), UserAgentHeader) == Find(data, UserAgentHeader)
  {
    var p := data + Zeros(k);
    forall q: nat ensures OccursAt(p, UserAgentHeader, q) <==> OccursAt(data, UserAgentHeader, q) {
      HeaderOccursPadded(data, k, q);
    }
  }

  /** Zero padding does not move the first occurrence of a non-zero byte. */
  lemma FindBytePadded(x: seq<byte>, k: nat, b: byte)
    requires b != 0
    ensures FindByte(x + Zeros(k), b) == FindByte(x, b)
  {
    var p := x + Zeros(k);
    forall j | 0 <= j < |x| ensures p[j] == x[j] {
    }
    forall j | |x| <= j < |p| ensures p[j] != b {
      assert p[j] == 0;
    }
  }

  /** Two buffers that agree on the header position, the terminator and the value agree on the verdict. */
  lemma LocateAgrees(a: seq<byte>, b: seq<byte>, start: nat, offset: nat)
    requires Find(a, UserAgentHeader) == Find(b, UserAgentHeader)
    requires Find(a, UserAgentHeader).Some? ==> Find(a, UserAgentHeader).value + |UserAgentHeader| == start
    requires start <= |a| && start <= |b|
    requires FindByte(a[start..], CR) == FindByte(b[start..], CR)
    requires FindByte(a[start..], CR).Some? ==> FindByte(a[start..], CR).value == offset
    requires start + offset <= |a| && start + offset <= |b|
    requires a[start..start + offset] == b[start..start + offset]
    ensures Locate(a) == Locate(b)
  {
  }

  /** The value span found in a buffer is the one found after zero bytes are appended to it. */
  lemma LocatePadded(data: seq<byte>, k: nat)
    ensures Locate(data + Zeros(k)) == Locate(data)
  {
    var p := data + Zeros(k);
    FindHeaderPadded(data, k);
    var found := Find(data, UserAgentHeader);
    if found.Some? {
      var start := found.value + |UserAgentHeader|;
      assert p[start..] == data[start..] + Zeros(k);
      FindBytePadded(data[start..], k, CR);
      var terminator := FindByte(data[start..], CR);
      var offset := if terminator.Some? then terminator.value else 0;
      assert p[start..start + offset] == data[start..start + offset];
      LocateAgrees(p, data, start, offset);
    }
  }

  /** The read bytes have a header value that the rewrite replaces. */
  predicate Rewrites(data: seq<byte>, ua: Option<seq<byte>>) {
    |data| <= BufferSize && IsHttpRequest(data) && ua.Some? && Locate(data).Replace?
  }

  /**
    The corrected forward: the rewrite applied to exactly the bytes read, and
    all of its result sent. The client's bytes arrive with only the
    User-Agent value replaced, and unchanged when no rewrite applies.
   */
  function IntendedForward(data: seq<byte>, ua: Option<seq<byte>>): (r: seq<byte>)
    ensures Rewrites(data, ua) ==> r == data[..Locate(data).start] + ua.value + data[Locate(data).end..]
    ensures Rewrites(data, ua) ==> |r| == |data| - (Locate(data).end - Locate(data).start) + |ua.value|
    ensures |data| <= BufferSize && !Rewrites(data, ua) ==> r == data
  {
    if IsHttpRequest(data) && ua.Some? then Rewrite(data, ua.value) else data
  }

  /** The corrected forward is an HTTP request exactly when the bytes read were. */
  lemma IntendedForwardKeepsHttp(data: seq<byte>, ua: Option<seq<byte>>)
    ensures IsHttpRequest(IntendedForward(data, ua)) == IsHttpRequest(data)
  {
    if IsHttpRequest(data) && ua.Some? {
      RewriteKeepsHttpVerdict(data, ua.value);
    }
  }

  /** Zero padding passes through the rewrite untouched. */
  lemma RewritePadded(data: seq<byte>, k: nat, ua: seq<byte>)
    ensures Rewrite(data + Zeros(k), ua) == Rewrite(data, ua) + Zeros(k)
  {
    LocatePadded(data, k);
    LocateValueSpan(data);
    var v := Locate(data);
    if v.Replace? {
      SplicePadded(data, Zeros(k), v.start, v.end, ua);
    }
  }

  /** A splice inside `data` commutes with appending bytes after it. */
  lemma SplicePadded(data: seq<byte>, z: seq<byte>, start: nat, end: nat, ua: seq<byte>)
    requires start <= end <= |data|
    ensures (data + z)[..start] + ua + (data + z)[end..] == data[..start] + ua + data[end..] + z
  {
    assert (data + z)[..start] == data[..start];
    assert (data + z)[end..] == data[end..] + z;
  }

  /**
    What the code as written forwards, in terms of the corrected forward:
    the first `initial_read` bytes of the corrected bytes followed by the
    buffer's zero padding, or a panic when that is shorter than the read.
   */
  lemma ForwardAsWritten(data: seq<byte>, ua: Option<seq<byte>>)
    requires |data| <= BufferSize
    ensures var padded := IntendedForward(data, ua) + Zeros(BufferSize - |data|);
      InitialForward(data, ua) == if |data| <= |padded| then Forward(padded[..|data|]) else SliceOutOfRange
  {
    var k := BufferSize - |data|;
    assert InitialBuffer(data)[..|data|] == data;
    if IsHttpRequest(data) && ua.Some? {
      RewritePadded(data, k, ua.value);
    }
    assert SniffedBuffer(data, ua) == IntendedForward(data, ua) + Zeros(k);
  }

  /** A replacement longer than the old value: the last bytes of the rewritten request are never sent. */
  lemma ForwardDropsRewrittenTail(data: seq<byte>, ua: Option<seq<byte>>)
    requires Rewrites(data, ua) && |ua.value| > Locate(data).end - Locate(data).start
    ensures |IntendedForward(data, ua)| > |data|
    ensures InitialForward(data, ua) == Forward(IntendedForward(data, ua)[..|data|])
  {
    ForwardAsWritten(data, ua);
    var i := IntendedForward(data, ua);
    assert (i + Zeros(BufferSize - |data|))[..|data|] == i[..|data|];
  }

  /** A shorter replacement that still fits: zero bytes the client never sent are appended. */
  lemma ForwardAppendsZeros(data: seq<byte>, ua: Option<seq<byte>>)
    requires Rewrites(data, ua) && |ua.value| < Locate(data).end - Locate(data).start
    requires |data| <= BufferSize - (Locate(data).end - Locate(data).start) + |ua.value|
    ensures |IntendedForward(data, ua)| < |data|
    ensures InitialForward(data, ua) ==
      Forward(IntendedForward(data, ua) + Zeros(|data| - |IntendedForward(data, ua)|))
  {
    ForwardAsWritten(data, ua);
    PaddedPrefix(IntendedForward(data, ua), BufferSize - |data|, |data|);
  }

  /** Cutting a zero-padded sequence inside its padding keeps the sequence and part of the zeros. */
  lemma PaddedPrefix(i: seq<byte>, k: nat, n: nat)
    requires |i| <= n <= |i| + k
    ensures (i + Zeros(k))[..n] == i + Zeros(n - |i|)
  {
    assert (i + Zeros(k))[..n] == i + Zeros(k)[..n - |i|];
  }

  /** A shorter replacement with a long first read: `buf[..initial_read]` is out of range and the connection task panics. */
  lemma ForwardPanics(data: seq<byte>, ua: Option<seq<byte>>)
    requires Rewrites(data, ua)
    requires |data| > BufferSize - (Locate(data).end - Locate(data).start) + |ua.value|
    ensures InitialForward(data, ua) == SliceOutOfRange
  {
    ForwardAsWritten(data, ua);
  }

  /** When a rewrite happens, the code as written forwards the rewritten request exactly when the lengths of old and new value agree. */
  lemma ForwardCorrectIffSameLength(data: seq<byte>, ua: Option<seq<byte>>)
    requires Rewrites(data, ua)
    ensures InitialForward(data, ua) == Forward(IntendedForward(data, ua)) <==>
      |ua.value| == Locate(data).end - Locate(data).start
  {
    ForwardAsWritten(data, ua);
    var i, k := IntendedForward(data, ua), BufferSize - |data|;
    if |i| == |data| {
      assert (i + Zeros(k))[..|data|] == i;
    } else if |data| <= |i| + k {
      assert |(i + Zeros(k))[..|data|]| != |i|;
    }
  }
}
