/**
 * The communication engine (`Comm`): a 260-byte buffer shared by the
 * received command and the outgoing answer, its `rx`/`tx` cursors, the
 * button state and the optional CLA filter, together with the transport
 * state it shares with the system (`G_io_app`) and an abstract record of
 * what was sent.
 */
module Io {
  import opened Bytes
  import opened Wrappers
  import opened Status
  import opened Apdu
  import opened Dispatch

  /** Size of one packet from the secure-element proxy (`spi_buffer`). */
  const SpiSize: nat := 128

  /** `G_io_app.apdu_state`: idle, or the transport that delivered the command in flight. */
  datatype ApduState = Idle | UsbHid | Raw | UsbCcid | Ble | OtherState

  /** The states for which `apdu_send` has a send primitive. */
  predicate Sends(s: ApduState)
  {
    s.UsbHid? || s.Raw? || s.UsbCcid? || s.Ble?
  }

  /** One answer handed to a transport. */
  datatype Transmission = Transmission(medium: ApduState, bytes: seq<u8>)

  /** What `apdu_send` hands to the transport selected by `state`. */
  function Transmit(state: ApduState, bytes: seq<u8>): seq<Transmission>
  {
    if Sends(state) then [Transmission(state, bytes)] else []
  }

  /** The kinds of packet `decode_event` tells apart by their tag byte (`seph::Events`). */
  datatype SephEvent =
    | ButtonPush
    | UsbEvent
    | UsbXferEvent
    | CapduEvent
    | BleReceive
    | TickerEvent
    | OtherEvent

  /** What `next_event` hands back. */
  datatype Event<T, E> = Command(cmd: T) | Button(button: E) | Ticker

  /**
   * How one call of `decode_event` ends: it returns (with or without an
   * event), it leaves the application (`exit_app`), or a bounds check panics.
   */
  datatype Step<T, E> = Returned(event: Option<Event<T, E>>) | Exited | Panicked

  /** The two registry entries the built-in app-info command reads. */
  datatype RegistryTag = AppName | AppVersion

  /** The buffer contents and the transport state: what a seph handler leaves behind. */
  datatype Received = Received(buffer: seq<u8>, state: ApduState, length: nat)

  /** The big-endian length field of a packet, bytes 1 and 2. */
  function PacketLength(spi: seq<u8>): u16
    requires |spi| >= 3
  {
    FromBigEndian(spi[1], spi[2])
  }

  /** The handlers that are given the shared buffer. */
  predicate HandlerWritesBuffer(ev: SephEvent, len: u16)
  {
    (ev == UsbXferEvent && len >= 3) || ev == CapduEvent || ev == BleReceive
  }

  /** The handlers that run at all (a USB event only with a one-byte payload). */
  predicate HandlerRuns(ev: SephEvent, len: u16)
  {
    (ev == UsbEvent && len == 1) || HandlerWritesBuffer(ev, len)
  }

  /**
   * The state after the packet's handler: `effect` where that handler runs,
   * with the old buffer kept when it is not given the buffer.
   */
  function AfterHandler(ev: SephEvent, len: u16, before: Received, effect: Received): Received
  {
    if HandlerWritesBuffer(ev, len) then effect
    else if HandlerRuns(ev, len) then Received(before.buffer, effect.state, effect.length)
    else before
  }

  /** The registry copies at most as many bytes as it is given room for. */
  ghost predicate RegistryFits(registry: (RegistryTag, nat) -> seq<u8>)
  {
    forall tag, room :: |registry(tag, room)| <= room
  }

  /** The buffer with the status word `sw` written big-endian at `tx`. */
  function Answered(buf: seq<u8>, tx: nat, sw: u16): (r: seq<u8>)
    requires tx + 2 <= |buf|
    ensures |r| == |buf| && r[..tx] == buf[..tx] && r[tx + 2..] == buf[tx + 2..]
    ensures r[tx..tx + 2] == [High(sw), Low(sw)]
  {
    buf[tx := High(sw)][tx + 1 := Low(sw)]
  }

  /** The two bytes written by `Answered` read back, big-endian, as the status word. */
  lemma AnsweredReadsBack(buf: seq<u8>, tx: nat, sw: u16)
    requires tx + 2 <= |buf|
    ensures FromBigEndian(Answered(buf, tx, sw)[tx], Answered(buf, tx, sw)[tx + 1]) == sw
  {
    BigEndianRoundTrip(sw);
  }

  /**
   * The built-in app-info answer before its status word: marker 0x01 at
   * byte 0, `tx` advanced by one, then name and version each as a length
   * byte (`len as u8`) followed by what the registry copied. `None` when one
   * of the source's bounds checks panics: the registry destination index,
   * or no room left for the status word.
   */
  function AppInfoWrite(buf: seq<u8>, tx: nat, registry: (RegistryTag, nat) -> seq<u8>): (r: Option<(seq<u8>, nat)>)
    requires |buf| == BufferSize && RegistryFits(registry)
    ensures r.Some? ==> |r.value.0| == BufferSize && r.value.1 + 2 <= BufferSize
  {
    match EntryWrite(buf[0 := 1], tx + 1, registry, AppName)
    case None => None
    case Some((b1, t2)) =>
      match EntryWrite(b1, t2, registry, AppVersion)
      case None => None
      case Some((b2, t3)) => if t3 + 2 > BufferSize then None else Some((b2, t3))
  }

  /**
   * One registry entry of the app-info answer at `t`: the entry copied from
   * `t + 1` on, its length byte at `t`, and the position after it; `None`
   * when `t + 1` is no index of the buffer.
   */
  function EntryWrite(buf: seq<u8>, t: nat, registry: (RegistryTag, nat) -> seq<u8>, tag: RegistryTag): (r: Option<(seq<u8>, nat)>)
    requires |buf| == BufferSize && RegistryFits(registry)
    ensures r.None? <==> t + 1 >= BufferSize
    ensures r.Some? ==> |r.value.0| == BufferSize && t + 1 <= r.value.1 <= BufferSize
    ensures r.Some? ==> r.value.0[..t] == buf[..t] && r.value.0[t] == Truncate(r.value.1 - t - 1)
  {
    if t + 1 >= BufferSize then None
    else
      var entry := registry(tag, BufferSize - t - 1);
      Some((Overwrite(buf, t + 1, entry)[t := Truncate(|entry|)], t + 1 + |entry|))
  }

  /**
   * From an empty answer, the app-info reply fits exactly when name and
   * version total at most 255 bytes, and then the bytes sent are
   * `[0x01, |name|] + name + [|version|] + version + [0x90, 0x00]`.
   */
  lemma AppInfoLayout(buf: seq<u8>, registry: (RegistryTag, nat) -> seq<u8>, name: seq<u8>, version: seq<u8>)
    requires |buf| == BufferSize && RegistryFits(registry)
    requires registry(AppName, BufferSize - 2) == name
    requires |name| <= 256 ==> registry(AppVersion, BufferSize - 3 - |name|) == version
    ensures AppInfoWrite(buf, 0, registry).Some? <==> |name| + |version| <= 255
    ensures AppInfoWrite(buf, 0, registry).Some? ==>
      var (b, t) := AppInfoWrite(buf, 0, registry).value;
      Answered(b, t, 0x9000)[..t + 2] ==
        [0x01, |name| as u8] + name + [|version| as u8] + version + [0x90, 0x00]
  {
  }

  /**
   * The transport state the engine shares with the system (`G_io_app`):
   * which transport delivered the current command and how many bytes it
   * announced. `sent` records every answer handed to a transport.
   */
  class Transport {
    var apduState: ApduState
    var apduLength: nat
    ghost var sent: seq<Transmission>

    /** The zero-initialised global: idle, nothing announced, nothing sent yet. */
    constructor ()
      ensures apduState == Idle && apduLength == 0 && sent == []
    {
      apduState, apduLength := Idle, 0;
      sent := [];
    }
  }

  /** `Comm`, with the button-decoder state of type `B`. */
  class Comm<B> {
    const buffer: array<u8>
    var rx: nat
    var tx: nat
    var buttons: B
    var expectedCla: Option<u8>
    const io: Transport

    /** Cursors and announced length never exceed the buffer. */
    ghost predicate Valid()
      reads this, io
    {
      && buffer.Length == BufferSize
      && rx <= BufferSize
      && tx <= BufferSize
      && io.apduLength <= BufferSize
    }

    /** `Comm::new`: zeroed buffer, both cursors at zero, every CLA accepted. */
    constructor (io: Transport, buttons: B)
      requires io.apduLength <= BufferSize
      ensures Valid() && fresh(buffer) && this.io == io
      ensures buffer[..] == seq(BufferSize, _ => 0)
      ensures rx == 0 && tx == 0 && this.buttons == buttons && expectedCla == None
    {
      buffer := new u8[BufferSize](_ => 0);
      rx, tx := 0, 0;
      this.buttons := buttons;
      expectedCla := None;
      this.io := io;
    }

    /** `set_expected_cla`: from now on, commands of any other CLA are answered BadCla. */
    method SetExpectedCla(cla: u8)
      modifies this
      ensures expectedCla == Some(cla)
      ensures rx == old(rx) && tx == old(tx) && buttons == old(buttons)
    {
      expectedCla := Some(cla);
    }

    /**
     * `apdu_send`, reduced to its effect on the engine: the first `tx` bytes
     * go to the transport that delivered the command, then both cursors and
     * the transport state are reset.
     */
    method ApduSend()
      requires Valid()
      modifies this, io
      ensures Valid()
      ensures io.sent == old(io.sent) + Transmit(old(io.apduState), buffer[..old(tx)])
      ensures tx == 0 && rx == 0 && io.apduState == Idle && io.apduLength == 0
      ensures buttons == old(buttons) && expectedCla == old(expectedCla)
    {
      io.sent := io.sent + Transmit(io.apduState, buffer[..tx]);
      tx, rx := 0, 0;
      io.apduState, io.apduLength := Idle, 0;
    }

    /**
     * `reply`: the status word goes big-endian at `tx`, and exactly the
     * first `tx + 2` bytes are sent.
     */
    method Reply(reply: Status.Reply)
      requires Valid() && tx + 2 <= BufferSize
      modifies this, buffer, io
      ensures Valid()
      ensures buffer[..] == Answered(old(buffer[..]), old(tx), reply.sw)
      ensures io.sent == old(io.sent) + Transmit(old(io.apduState), buffer[..old(tx) + 2])
      ensures tx == 0 && rx == 0 && io.apduState == Idle && io.apduLength == 0
      ensures buttons == old(buttons) && expectedCla == old(expectedCla)
    {
      var sw := reply.sw;
      buffer[tx] := High(sw);
      buffer[tx + 1] := Low(sw);
      tx := tx + 2;
      ApduSend();
    }

    /** `reply_ok`: `reply` with 0x9000; from an empty answer it sends exactly `[0x90, 0x00]`. */
    method ReplyOk()
      requires Valid() && tx + 2 <= BufferSize
      modifies this, buffer, io
      ensures Valid()
      ensures buffer[..] == Answered(old(buffer[..]), old(tx), 0x9000)
      ensures io.sent == old(io.sent) + Transmit(old(io.apduState), buffer[..old(tx) + 2])
      ensures old(tx) == 0 ==> io.sent == old(io.sent) + Transmit(old(io.apduState), [0x90, 0x00])
      ensures tx == 0 && rx == 0 && io.apduState == Idle && io.apduLength == 0
      ensures buttons == old(buttons) && expectedCla == old(expectedCla)
    {
      ghost var buf0 := buffer[..];
      Reply(FromStatusWord(Ok));
      assert High(0x9000) == 0x90 && Low(0x9000) == 0x00;
      if old(tx) == 0 {
        assert buffer[..2] == Answered(buf0, 0, 0x9000)[0..2];
      }
    }

    /** `get_apdu_metadata`: the header is bytes 0..3 of the buffer. */
    method GetApduMetadata() returns (h: ApduHeader)
      requires Valid()
      ensures h == HeaderOf(buffer[..])
      ensures HeaderBytes(h) == buffer[..4]
    {
      h := HeaderOf(buffer[..]);
    }

    /**
     * `get_data`: the data field of the received command, a slice of the
     * first `rx` bytes, or BadLen.
     */
    method GetData() returns (r: Result<seq<u8>, StatusWord>)
      requires Valid()
      ensures r.Success? <==> Apdu.GetData(buffer[..], rx).Success?
      ensures r.Success? ==> r.value == Slice(buffer[..], Apdu.GetData(buffer[..], rx).value)
      ensures r.Failure? ==> r.error == BadLen
    {
      match Apdu.GetData(buffer[..], rx)
      case Success(s) =>
        r := Success(buffer[s.offset..s.offset + s.len]);
      case Failure(e) =>
        r := Failure(e);
    }

    /** `get`: the bytes from `start` up to `end`. */
    method Get(start: nat, end: nat) returns (s: seq<u8>)
      requires Valid() && start <= end <= BufferSize
      ensures |s| == end - start
      ensures forall i :: start <= i < end ==> s[i - start] == buffer[i]
    {
      s := buffer[start..end];
    }

    /** `append`: `m` is written at `tx` byte by byte and `tx` moves past it. */
    method Append(m: seq<u8>)
      requires Valid() && tx + |m| <= BufferSize
      modifies this, buffer
      ensures Valid()
      ensures buffer[..] == Overwrite(old(buffer[..]), old(tx), m)
      ensures tx == old(tx) + |m|
      ensures rx == old(rx) && buttons == old(buttons) && expectedCla == old(expectedCla)
    {
      var i := 0;
      while i < |m|
        invariant 0 <= i <= |m|
        invariant tx == old(tx) + i
        invariant buffer[..] == Overwrite(old(buffer[..]), old(tx), m[..i])
        invariant rx == old(rx) && buttons == old(buttons) && expectedCla == old(expectedCla)
      {
        buffer[tx] := m[i];
        tx := tx + 1;
        i := i + 1;
      }
      assert m[..i] == m;
    }

    /** `Index`: byte `idx` of the buffer. */
    method Index(idx: nat) returns (b: u8)
      requires Valid() && idx < BufferSize
      ensures b == buffer[idx]
    {
      b := buffer[idx];
    }

    /**
     * `IndexMut`, followed by the write through the reference it returns:
     * only byte `idx` changes and `tx` becomes `max(idx, tx)` (not `idx + 1`).
     */
    method IndexMut(idx: nat, value: u8)
      requires Valid() && idx < BufferSize
      modifies this, buffer
      ensures Valid()
      ensures buffer[..] == old(buffer[..])[idx := value]
      ensures tx == if idx > old(tx) then idx else old(tx)
      ensures rx == old(rx) && buttons == old(buttons) && expectedCla == old(expectedCla)
    {
      tx := if idx > tx then idx else tx;
      buffer[idx] := value;
    }

    /** The registry copying `m` into the buffer from position `at` on. */
    method Store(at: nat, m: seq<u8>)
      requires Valid() && at + |m| <= BufferSize
      modifies buffer
      ensures buffer[..] == Overwrite(old(buffer[..]), at, m)
    {
      forall i | at <= i < at + |m| {
        buffer[i] := m[i - at];
      }
    }

    /**
     * One `os_registry_get_current_app_tag` call of the app-info answer and
     * the length byte before it, as `EntryWrite` describes; `false` when the
     * destination index panics.
     */
    method StoreEntry(registry: (RegistryTag, nat) -> seq<u8>, tag: RegistryTag) returns (written: bool)
      requires Valid() && RegistryFits(registry)
      modifies this, buffer
      ensures Valid() && rx == old(rx) && buttons == old(buttons) && expectedCla == old(expectedCla)
      ensures written <==> EntryWrite(old(buffer[..]), old(tx), registry, tag).Some?
      ensures written ==> (buffer[..], tx) == EntryWrite(old(buffer[..]), old(tx), registry, tag).value
    {
      if tx + 1 >= BufferSize {
        return false;
      }
      var entry := registry(tag, BufferSize - tx - 1);
      Store(tx + 1, entry);
      ghost var copied := buffer[..];
      buffer[tx] := Truncate(|entry|);
      assert buffer[..] == copied[tx := Truncate(|entry|)];
      tx := tx + 1 + |entry|;
      written := true;
    }

    /** The seph handler for an event: it may set the transport state and fill the buffer. */
    method RunHandler(ev: SephEvent, len: u16, effect: Received)
      requires Valid() && |effect.buffer| == BufferSize && effect.length <= BufferSize
      modifies buffer, io
      ensures Valid()
      ensures Received(buffer[..], io.apduState, io.apduLength) ==
        AfterHandler(ev, len, Received(old(buffer[..]), old(io.apduState), old(io.apduLength)), effect)
      ensures io.sent == old(io.sent)
    {
      if HandlerRuns(ev, len) {
        io.apduState, io.apduLength := effect.state, effect.length;
      }
      if HandlerWritesBuffer(ev, len) {
        forall i | 0 <= i < BufferSize {
          buffer[i] := effect.buffer[i];
        }
      }
    }

    /**
     * The new state after the engine answered with `sw` at `tx0`, starting
     * from buffer `buf0`, with `state0` selecting the transport.
     */
    ghost predicate Replied(buf0: seq<u8>, tx0: nat, state0: ApduState, sent0: seq<Transmission>, sw: u16)
      reads this, buffer, io
      requires |buf0| == BufferSize && tx0 + 2 <= BufferSize
    {
      && buffer[..] == Answered(buf0, tx0, sw)
      && io.sent == sent0 + Transmit(state0, Answered(buf0, tx0, sw)[..tx0 + 2])
      && tx == 0 && rx == 0 && io.apduState == Idle && io.apduLength == 0
    }

    /**
     * A `reply` inside `decode_event`: with room for the status word at
     * `tx0`, the engine answers `sw` and the step ends as `next`; without it,
     * the buffer index of `reply` panics before anything is sent.
     */
    ghost predicate RepliedThen<T, E>(buf0: seq<u8>, tx0: nat, state0: ApduState, sent0: seq<Transmission>,
                                      sw: u16, next: Step<T, E>, step: Step<T, E>)
      reads this, buffer, io
      requires |buf0| == BufferSize
    {
      if tx0 + 2 <= BufferSize then step == next && Replied(buf0, tx0, state0, sent0, sw)
      else step == Panicked && io.sent == sent0
    }

    /**
     * The outcome of the command check of `decode_event` from the given
     * state: nothing when the transport has no command ready; otherwise the
     * action `Decide` picks, carried out on the buffer and recorded as sent.
     */
    ghost predicate Served<T, E>(buf0: seq<u8>, rx0: nat, tx0: nat, state0: ApduState, length0: nat,
                                 sent0: seq<Transmission>, registry: (RegistryTag, nat) -> seq<u8>,
                                 decoder: ApduHeader -> Result<T, Status.Reply>, step: Step<T, E>)
      reads this, buffer, io
      requires |buf0| == BufferSize && length0 <= BufferSize
      requires RegistryFits(registry)
    {
      if state0 == Idle || length0 == 0 then
        && step == Returned(None)
        && buffer[..] == buf0 && rx == rx0 && tx == tx0
        && io.apduState == state0 && io.apduLength == length0 && io.sent == sent0
      else match Decide(buf0, length0, expectedCla, decoder)
        case Reject(sw) => RepliedThen(buf0, tx0, state0, sent0, sw, Returned(None), step)
        case ExitApp => RepliedThen(buf0, tx0, state0, sent0, 0x9000, Exited, step)
        case Deliver(c) =>
          && step == Returned(Some(Command(c)))
          && buffer[..] == buf0 && rx == length0 && tx == tx0
          && io.apduState == state0 && io.apduLength == length0 && io.sent == sent0
        case AppInfo =>
          match AppInfoWrite(buf0, tx0, registry)
          case None => step == Panicked && io.sent == sent0
          case Some((b, t)) => step == Returned(None) && Replied(b, t, state0, sent0, 0x9000)
    }

    /**
     * The writes of the built-in app-info command (CLA 0xB0, INS 0x01):
     * marker 0x01 at byte 0, `tx` advanced by one, then name and version from
     * the registry; `false` when one of its bounds checks panics.
     */
    method WriteAppInfo(registry: (RegistryTag, nat) -> seq<u8>) returns (written: bool)
      requires Valid() && RegistryFits(registry)
      modifies this, buffer
      ensures Valid() && rx == old(rx) && buttons == old(buttons) && expectedCla == old(expectedCla)
      ensures written <==> AppInfoWrite(old(buffer[..]), old(tx), registry).Some?
      ensures written ==> (buffer[..], tx) == AppInfoWrite(old(buffer[..]), old(tx), registry).value
    {
      ghost var marked := old(buffer[..])[0 := 1];
      buffer[0] := 1;
      if tx + 2 >= BufferSize {
        return false;
      }
      tx := tx + 1;
      written := StoreEntry(registry, AppName);
      if !written {
        return;
      }
      ghost var (b1, t2) := EntryWrite(marked, old(tx) + 1, registry, AppName).value;
      written := StoreEntry(registry, AppVersion);
      if !written {
        return;
      }
      assert (buffer[..], tx) == EntryWrite(b1, t2, registry, AppVersion).value;
      written := tx + 2 <= BufferSize;
    }

    /** The built-in app-info command: its writes, then Ok; on a panic nothing is sent. */
    method AnswerAppInfo<T, E>(registry: (RegistryTag, nat) -> seq<u8>) returns (step: Step<T, E>)
      requires Valid() && RegistryFits(registry)
      modifies this, buffer, io
      ensures Valid() && buttons == old(buttons) && expectedCla == old(expectedCla)
      ensures match AppInfoWrite(old(buffer[..]), old(tx), registry)
        case None => step == Panicked && io.sent == old(io.sent)
        case Some((b, t)) => step == Returned(None) && Replied(b, t, old(io.apduState), old(io.sent), 0x9000)
    {
      var written := WriteAppInfo(registry);
      if !written {
        return Panicked;
      }
      ReplyOk();
      step := Returned(None);
    }

    /**
     * `reply` as `decode_event` calls it, where no precondition protects the
     * buffer index: with no room for the status word the step ends `Panicked`.
     */
    method ReplyOrPanic<T, E>(reply: Status.Reply, next: Step<T, E>) returns (step: Step<T, E>)
      requires Valid()
      modifies this, buffer, io
      ensures Valid() && buttons == old(buttons) && expectedCla == old(expectedCla)
      ensures RepliedThen(old(buffer[..]), old(tx), old(io.apduState), old(io.sent), reply.sw, next, step)
    {
      if tx + 2 > BufferSize {
        return Panicked;
      }
      Reply(reply);
      step := next;
    }

    /** The part of `decode_event` that runs once the packet's handler is done. */
    method Serve<T, E>(registry: (RegistryTag, nat) -> seq<u8>,
                       decoder: ApduHeader -> Result<T, Status.Reply>) returns (step: Step<T, E>)
      requires Valid() && RegistryFits(registry)
      modifies this, buffer, io
      ensures Valid() && buttons == old(buttons) && expectedCla == old(expectedCla)
      ensures Served(old(buffer[..]), old(rx), old(tx), old(io.apduState), old(io.apduLength),
                     old(io.sent), registry, decoder, step)
    {
      step := Returned(None);
      if io.apduState != Idle && io.apduLength > 0 {
        rx := io.apduLength;
        ghost var action := Decide(buffer[..], rx, expectedCla, decoder);
        if rx < 4 {
          step := ReplyOrPanic(FromStatusWord(BadLen), Returned(None));
          return;
        }
        var data := GetData();
        if data.Failure? {
          step := ReplyOrPanic(FromStatusWord(data.error), Returned(None));
          return;
        }
        var h := GetApduMetadata();
        if h.cla == SystemCla && h.p1 == 0 && h.p2 == 0 {
          if h.ins == InsAppInfo {
            assert action == AppInfo;
            step := AnswerAppInfo(registry);
            return;
          } else if h.ins == InsExit {
            assert action == ExitApp;
            step := ReplyOrPanic(FromStatusWord(Ok), Exited);
            return;
          } else {
            assert action == Reject(Code(BadIns));
            step := ReplyOrPanic(FromStatusWord(BadIns), Returned(None));
            return;
          }
        }
        if expectedCla.Some? && buffer[0] != expectedCla.value {
          assert action == Reject(Code(BadCla));
          step := ReplyOrPanic(FromStatusWord(BadCla), Returned(None));
          return;
        }
        h := GetApduMetadata();
        match decoder(h)
        case Success(c) =>
          assert action == Deliver(c);
          step := Returned(Some(Command(c)));
        case Failure(sw) =>
          assert action == Reject(sw.sw);
          step := ReplyOrPanic(sw, Returned(None));
      }
    }

    /**
     * `decode_event`: one packet from the secure-element proxy. `classify`
     * tells the packet kinds apart by tag, `edge` is the button-edge decoder,
     * `effect` is what the packet's seph handler leaves behind, `registry`
     * the system's app registry and `decoder` the application's header decoder.
     */
    method DecodeEvent<T, E>(spi: seq<u8>, classify: u8 -> SephEvent, edge: (B, u8) -> (B, Option<E>),
                             effect: Received, registry: (RegistryTag, nat) -> seq<u8>,
                             decoder: ApduHeader -> Result<T, Status.Reply>) returns (step: Step<T, E>)
      requires Valid() && |spi| == SpiSize
      requires |effect.buffer| == BufferSize && effect.length <= BufferSize
      requires RegistryFits(registry)
      modifies this, buffer, io
      ensures Valid() && expectedCla == old(expectedCla)
      ensures classify(spi[0]).TickerEvent? ==> step == Returned(Some(Ticker)) && unchanged(this, buffer, io)
      ensures classify(spi[0]).ButtonPush? ==> buttons == edge(old(buttons), spi[3] / 2).0
      ensures !classify(spi[0]).ButtonPush? ==> buttons == old(buttons)
      ensures classify(spi[0]).ButtonPush? && edge(old(buttons), spi[3] / 2).1.Some? ==>
        && step == Returned(Some(Button(edge(old(buttons), spi[3] / 2).1.value)))
        && unchanged(buffer, io) && rx == old(rx) && tx == old(tx)
      ensures !classify(spi[0]).TickerEvent? && !(classify(spi[0]).ButtonPush? && edge(old(buttons), spi[3] / 2).1.Some?) ==>
        var r := AfterHandler(classify(spi[0]), PacketLength(spi),
                              Received(old(buffer[..]), old(io.apduState), old(io.apduLength)), effect);
        Served(r.buffer, old(rx), old(tx), r.state, r.length, old(io.sent), registry, decoder, step)
    {
      var tag := spi[0];
      var len := PacketLength(spi);
      var ev := classify(tag);
      if ev.TickerEvent? {
        return Returned(Some(Ticker));
      }
      if ev.ButtonPush? {
        var (next, event) := edge(buttons, spi[3] / 2);
        buttons := next;
        if event.Some? {
          return Returned(Some(Button(event.value)));
        }
      }
      RunHandler(ev, len, effect);
      step := Serve(registry, decoder);
    }
  }
}
