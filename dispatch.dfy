/**
 * The fixed order of checks `decode_event` applies to a complete command,
 * as a pure decision: length, data field, the built-in system commands,
 * the CLA filter and finally the application's decoder.
 */
module Dispatch {
  import opened Bytes
  import opened Wrappers
  import opened Status
  import opened Apdu

  const SystemCla: u8 := 0xB0
  const InsAppInfo: u8 := 0x01
  const InsExit: u8 := 0xA7

  /** What the engine does with a complete command. */
  datatype Action<T> =
    | Reject(sw: u16)   // reply with this status word and surface nothing
    | AppInfo           // answer the built-in name/version query
    | ExitApp           // reply Ok, then leave the application
    | Deliver(cmd: T)   // hand the decoded command to the application

  /** CLA 0xB0 with both parameters zero is the operating system's own class. */
  predicate IsSystemCommand(h: ApduHeader)
  {
    h.cla == SystemCla && h.p1 == 0 && h.p2 == 0
  }

  /** The CLA filter: with no expected CLA, every CLA passes. */
  predicate ClaAccepted(expectedCla: Option<u8>, cla: u8)
  {
    expectedCla.None? || expectedCla.value == cla
  }

  /** Guard order of `decode_event` once the transport reports `rx` bytes. */
  function Decide<T>(buf: seq<u8>, rx: nat, expectedCla: Option<u8>,
                     decoder: ApduHeader -> Result<T, Reply>): Action<T>
    requires |buf| == BufferSize
  {
    if rx < 4 then Reject(Code(BadLen))
    else match GetData(buf, rx)
      case Failure(sw) => Reject(Code(sw))
      case Success(_) =>
        var h := HeaderOf(buf);
        if IsSystemCommand(h) then
          if h.ins == InsAppInfo then AppInfo
          else if h.ins == InsExit then ExitApp
          else Reject(Code(BadIns))
        else if !ClaAccepted(expectedCla, buf[0]) then Reject(Code(BadCla))
        else match decoder(h)
          case Success(c) => Deliver(c)
          case Failure(r) => Reject(r.sw)
  }

  /**
   * A command reaches the application exactly when it is long enough, its
   * data field is well formed, it is not a system command, its CLA passes the
   * filter and the decoder accepts its header; the application then gets what
   * the decoder produced.
   */
  lemma DeliverExactly<T>(buf: seq<u8>, rx: nat, expectedCla: Option<u8>,
                          decoder: ApduHeader -> Result<T, Reply>)
    requires |buf| == BufferSize
    ensures Decide(buf, rx, expectedCla, decoder).Deliver? <==>
      && 4 <= rx
      && GetData(buf, rx).Success?
      && !IsSystemCommand(HeaderOf(buf))
      && ClaAccepted(expectedCla, buf[0])
      && decoder(HeaderOf(buf)).Success?
    ensures Decide(buf, rx, expectedCla, decoder).Deliver? ==>
      Decide(buf, rx, expectedCla, decoder).cmd == decoder(HeaderOf(buf)).value
  {
  }

  /** Incomplete commands are rejected with BadLen before anything else is looked at. */
  lemma TooShortRejected<T>(buf: seq<u8>, rx: nat, expectedCla: Option<u8>,
                            decoder: ApduHeader -> Result<T, Reply>)
    requires |buf| == BufferSize && rx < 4
    ensures Decide(buf, rx, expectedCla, decoder) == Reject(0x6e03)
  {
  }

  /** A malformed data field is answered with the parser's error, whatever the header says. */
  lemma BadDataRejected<T>(buf: seq<u8>, rx: nat, expectedCla: Option<u8>,
                           decoder: ApduHeader -> Result<T, Reply>)
    requires |buf| == BufferSize && 4 <= rx && GetData(buf, rx).Failure?
    ensures Decide(buf, rx, expectedCla, decoder) == Reject(Code(GetData(buf, rx).error))
  {
  }

  /**
   * System commands are intercepted before the CLA filter and the decoder:
   * neither the expected CLA nor the decoder changes the outcome, which is
   * fixed by the instruction byte alone.
   */
  lemma SystemCommandIntercepted<T>(buf: seq<u8>, rx: nat,
                                    cla1: Option<u8>, decoder1: ApduHeader -> Result<T, Reply>,
                                    cla2: Option<u8>, decoder2: ApduHeader -> Result<T, Reply>)
    requires |buf| == BufferSize && 4 <= rx && GetData(buf, rx).Success?
    requires IsSystemCommand(HeaderOf(buf))
    ensures Decide(buf, rx, cla1, decoder1) == Decide(buf, rx, cla2, decoder2)
    ensures buf[1] == InsAppInfo ==> Decide(buf, rx, cla1, decoder1) == AppInfo
    ensures buf[1] == InsExit ==> Decide(buf, rx, cla1, decoder1) == ExitApp
    ensures buf[1] != InsAppInfo && buf[1] != InsExit ==>
      Decide(buf, rx, cla1, decoder1) == Reject(0x6e01)
  {
  }

  /**
   * A well-formed, non-system command whose CLA differs from the expected
   * one is answered BadCla, and the decoder is not consulted.
   */
  lemma ClaMismatchRejected<T>(buf: seq<u8>, rx: nat, cla: u8,
                               decoder1: ApduHeader -> Result<T, Reply>,
                               decoder2: ApduHeader -> Result<T, Reply>)
    requires |buf| == BufferSize && 4 <= rx && GetData(buf, rx).Success?
    requires !IsSystemCommand(HeaderOf(buf)) && buf[0] != cla
    ensures Decide(buf, rx, Some(cla), decoder1) == Reject(0x6e00)
    ensures Decide(buf, rx, Some(cla), decoder1) == Decide(buf, rx, Some(cla), decoder2)
  {
  }

  /**
   * Past the earlier checks, the decoder decides: its error becomes the
   * reply, its success the delivered command.
   */
  lemma DecoderDecides<T>(buf: seq<u8>, rx: nat, expectedCla: Option<u8>,
                          decoder: ApduHeader -> Result<T, Reply>)
    requires |buf| == BufferSize && 4 <= rx && GetData(buf, rx).Success?
    requires !IsSystemCommand(HeaderOf(buf)) && ClaAccepted(expectedCla, buf[0])
    ensures decoder(HeaderOf(buf)).Failure? ==>
      Decide(buf, rx, expectedCla, decoder) == Reject(decoder(HeaderOf(buf)).error.sw)
    ensures decoder(HeaderOf(buf)).Success? ==>
      Decide(buf, rx, expectedCla, decoder) == Deliver(decoder(HeaderOf(buf)).value)
  {
  }
}
