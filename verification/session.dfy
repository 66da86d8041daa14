/**
  The server's control plane (Projeto_serv.c): the active configuration
  `configuracao_ativa` and the client registry as one explicit state, and
  process_client as functions over what each read on the client's
  connection returned. Every write on the connection, every registration and
  every multicast of the configuration is an Effect, in the order the code
  performs them.
*/
module Session {
  import opened Common
  import Clients

  /** sizeof(struct RegisterMessage): a 64-byte `psk` buffer. */
  const RegisterSize: nat := 64
  /** The index process_client overwrites with NUL before comparing. */
  const PskLast: nat := RegisterSize - 1
  /** "my_secret_key" in ASCII. */
  const ValidPsk: Bytes := [0x6d, 0x79, 0x5f, 0x73, 0x65, 0x63, 0x72, 0x65, 0x74, 0x5f, 0x6b, 0x65, 0x79]
  /** The 3-byte replies "ACK" and "NAK", written without a terminator. */
  const AckText: Bytes := [0x41, 0x43, 0x4b]
  const NakText: Bytes := [0x4e, 0x41, 0x4b]

  /** struct ConfigMessage, field by field; `base_timeout` is held in network order. */
  datatype ConfigMessage = ConfigMessage(
    enableRetransmission: u8,
    enableBackoff: u8,
    enableSequence: u8,
    baseTimeout: NetU16,
    maxRetries: u8)

  /** The static initializer of configuracao_ativa, before main runs. */
  const StaticConfig: ConfigMessage := ConfigMessage(1, 1, 1, NetU16(0, 0), 5)

  /** `configuracao_ativa` together with `clientes`/`num_clientes`. */
  datatype ServerState = ServerState(config: ConfigMessage, registry: Clients.Registry)

  /** What a read of one fixed-size record on the connection returned. */
  datatype ReadResult<T> =
    | EndOfStream  // read returned 0
    | WrongSize    // read returned -1 or a count other than 0 and the record size
    | Complete(record: T)

  /** What process_client does, in order. */
  datatype Effect =
    | Reply(text: Bytes)                 // write on the client connection
    | RegisterClient(ip: Clients.IpAddr) // adicionar_cliente call
    | Broadcast(config: ConfigMessage)    // enviar_config_multicast: the config as it is at the call

  datatype CloseReason = RegistrationReadFailed | PskRejected | PeerClosed | MalformedUpdate

  /** Authenticated: the update loop is still reading. */
  datatype Phase = Authenticated | Closed(reason: CloseReason)

  datatype SessionResult = SessionResult(state: ServerState, effects: seq<Effect>, phase: Phase)

  /**
    main's setup before accepting: base_timeout := htons(200), the other
    fields as statically initialized, no client registered.
  */
  function Startup(): (s: ServerState)
    ensures s.config.enableRetransmission == 1 && s.config.enableBackoff == 1 && s.config.enableSequence == 1
    ensures s.config.maxRetries == 5
    ensures Ntohs(s.config.baseTimeout) == 200 && s.config.baseTimeout == NetU16(0x00, 0xc8)
    ensures Clients.Valid(s.registry) && |s.registry.clients| == 0
  {
    ServerState(StaticConfig.(baseTimeout := Htons(200)), Clients.Empty())
  }

  /** strcmp of the `psk` buffer, byte 63 forced to NUL, against "my_secret_key". */
  predicate PskAccepted(psk: Bytes)
    requires |psk| == RegisterSize
  {
    CStr(psk[PskLast := 0]) == ValidPsk
  }

  /**
    The key is accepted exactly when the buffer starts with the 13 bytes of
    "my_secret_key" followed by a NUL; byte 63 and every byte after that NUL
    are ignored.
  */
  lemma LemmaPskAcceptedIff(psk: Bytes)
    requires |psk| == RegisterSize
    ensures PskAccepted(psk) <==> psk[..|ValidPsk|] == ValidPsk && psk[|ValidPsk|] == 0
  {
    var b := psk[PskLast := 0];
    var n := |ValidPsk|;
    assert b[..n] == psk[..n] && b[n] == psk[n];
    assert 0 !in ValidPsk;
    if psk[..n] == ValidPsk && psk[n] == 0 {
      LemmaCStrAt(b, n);
    }
  }

  /**
    The registration phase: a read of other than 64 bytes closes the
    connection with no reply; a rejected key gets "NAK" and closes; an
    accepted one gets "ACK", then the address is registered, then the
    current configuration is broadcast. The configuration is never changed.
  */
  function Register(s: ServerState, addr: Clients.IpAddr, read: ReadResult<Bytes>): (r: SessionResult)
    requires read.Complete? ==> |read.record| == RegisterSize
    ensures !read.Complete? ==> r == SessionResult(s, [], Closed(RegistrationReadFailed))
    ensures read.Complete? ==>
      (r.phase == Authenticated <==> read.record[..|ValidPsk|] == ValidPsk && read.record[|ValidPsk|] == 0)
    ensures read.Complete? && r.phase != Authenticated ==> r == SessionResult(s, [Reply(NakText)], Closed(PskRejected))
    ensures r.phase == Authenticated ==>
      && r.effects == [Reply(AckText), RegisterClient(addr), Broadcast(r.state.config)]
      && r.state.config == s.config
      && r.state.registry == Clients.Add(s.registry, addr)
  {
    match read
    case Complete(psk) =>
      LemmaPskAcceptedIff(psk);
      if !PskAccepted(psk) then SessionResult(s, [Reply(NakText)], Closed(PskRejected))
      else
        var s' := s.(registry := Clients.Add(s.registry, addr));
        SessionResult(s', [Reply(AckText), RegisterClient(addr), Broadcast(s'.config)], Authenticated)
    case _ => SessionResult(s, [], Closed(RegistrationReadFailed))
  }

  /**
    One iteration of the update loop: a 0-byte read ends the session
    normally, any other size than the record's ends it as malformed, and a
    full record overwrites the five fields and is broadcast as written.
    The registry never changes here.
  */
  function ApplyUpdate(s: ServerState, read: ReadResult<ConfigMessage>): (r: SessionResult)
    ensures r.state.registry == s.registry
    ensures read.EndOfStream? ==> r == SessionResult(s, [], Closed(PeerClosed))
    ensures read.WrongSize? ==> r == SessionResult(s, [], Closed(MalformedUpdate))
    ensures read.Complete? ==>
      && r.state.config == read.record
      && r.effects == [Broadcast(r.state.config)]
      && r.phase == Authenticated
  {
    match read
    case EndOfStream => SessionResult(s, [], Closed(PeerClosed))
    case WrongSize => SessionResult(s, [], Closed(MalformedUpdate))
    case Complete(req) =>
      var config := s.config.(
        enableRetransmission := req.enableRetransmission,
        enableBackoff := req.enableBackoff,
        enableSequence := req.enableSequence,
        baseTimeout := req.baseTimeout,
        maxRetries := req.maxRetries);
      SessionResult(s.(config := config), [Broadcast(config)], Authenticated)
  }

  /**
    The update loop over the reads that follow an accepted registration. It
    applies the leading full records in order, broadcasting each one right
    after writing it, and stops at the first read that is not a full record;
    when every read was a full record the session is still open.
  */
  function UpdateLoop(s: ServerState, updates: seq<ReadResult<ConfigMessage>>): (r: SessionResult)
    decreases |updates|
    ensures r.state.registry == s.registry
    ensures |r.effects| <= |updates|
    ensures forall i :: 0 <= i < |r.effects| ==> updates[i].Complete? && r.effects[i] == Broadcast(updates[i].record)
    ensures r.state.config == if |r.effects| == 0 then s.config else updates[|r.effects| - 1].record
    ensures |r.effects| == |updates| ==> r.phase == Authenticated
    ensures |r.effects| < |updates| ==>
      && !updates[|r.effects|].Complete?
      && r.phase == Closed(if updates[|r.effects|].EndOfStream? then PeerClosed else MalformedUpdate)
  {
    if |updates| == 0 then SessionResult(s, [], Authenticated)
    else
      var step := ApplyUpdate(s, updates[0]);
      if step.phase != Authenticated then step
      else
        var rest := UpdateLoop(step.state, updates[1..]);
        SessionResult(rest.state, step.effects + rest.effects, rest.phase)
  }

  /**
    process_client: registration, then the update loop when the key was
    accepted. A refused or failed registration leaves the whole server state
    as it was; the registry only ever changes through the one adicionar_cliente
    call, so it stays within three distinct entries.
  */
  function ProcessClient(s: ServerState, addr: Clients.IpAddr, regRead: ReadResult<Bytes>,
                         updates: seq<ReadResult<ConfigMessage>>): (r: SessionResult)
    requires regRead.Complete? ==> |regRead.record| == RegisterSize
    ensures Clients.Valid(s.registry) ==> Clients.Valid(r.state.registry)
    ensures !regRead.Complete? ==> r == SessionResult(s, [], Closed(RegistrationReadFailed))
    ensures regRead.Complete? && !PskAccepted(regRead.record) ==>
      r == SessionResult(s, [Reply(NakText)], Closed(PskRejected))
    ensures regRead.Complete? && PskAccepted(regRead.record) ==>
      && 3 <= |r.effects| <= 3 + |updates|
      && r.effects[..3] == [Reply(AckText), RegisterClient(addr), Broadcast(s.config)]
      && r.state.registry == Clients.Add(s.registry, addr)
      && (forall i :: 3 <= i < |r.effects| ==>
            updates[i - 3].Complete? && r.effects[i] == Broadcast(updates[i - 3].record))
      && (|r.effects| == 3 ==> r.state.config == s.config)
      && (|r.effects| > 3 ==>
            updates[|r.effects| - 4].Complete? && r.state.config == updates[|r.effects| - 4].record)
      && r.effects[|r.effects| - 1] == Broadcast(r.state.config)
      && (|r.effects| == 3 + |updates| ==> r.phase == Authenticated)
      && (|r.effects| < 3 + |updates| ==>
            && !updates[|r.effects| - 3].Complete?
            && r.phase == Closed(if updates[|r.effects| - 3].EndOfStream? then PeerClosed else MalformedUpdate))
  {
    var reg := Register(s, addr, regRead);
    if reg.phase != Authenticated then reg
    else
      var loop := UpdateLoop(reg.state, updates);
      var effects := reg.effects + loop.effects;
      assert forall i :: 3 <= i < |effects| ==> effects[i] == loop.effects[i - 3];
      SessionResult(loop.state, effects, loop.phase)
  }

  /**
    The first half of a whole exchange (register, get "ACK", send packet 0,
    send packet 0 again, get a NAK), on the control channel: a client
    registering with the right key on a fresh server gets "ACK", is the one
    registered client, and sees the default configuration (1, 1, 1, 200 ms,
    5) broadcast.
  */
  lemma LemmaFirstRegistration(addr: Clients.IpAddr, tail: Bytes)
    requires |tail| == RegisterSize - |ValidPsk| && tail[0] == 0
    ensures var r := ProcessClient(Startup(), addr, Complete(ValidPsk + tail), [EndOfStream]);
      && r.effects == [Reply(AckText), RegisterClient(addr), Broadcast(Startup().config)]
      && r.state.registry.clients == [addr]
      && r.state.config == Startup().config
      && r.phase == Closed(PeerClosed)
  {
    var psk := ValidPsk + tail;
    assert psk[..|ValidPsk|] == ValidPsk && psk[|ValidPsk|] == 0;
    LemmaPskAcceptedIff(psk);
  }
}
