/**
 * Client scenarios: a fresh engine driven through `decode_event` and
 * `reply_ok`, using only the contracts of `Comm`.
 */
module Scenarios {
  import opened Bytes
  import opened Wrappers
  import opened Status
  import opened Apdu
  import opened Dispatch
  import opened Io

  /** The tag these scenarios give to command packets; the real tag values are not part of this model. */
  const CapduTag: u8 := 0x01

  function Classify(tag: u8): SephEvent
  {
    if tag == CapduTag then CapduEvent else OtherEvent
  }

  /** An application decoder accepting INS 0x02 only. */
  function AcceptIns2(h: ApduHeader): Result<u8, Status.Reply>
  {
    if h.ins == 0x02 then Success(h.ins) else Failure(FromStatusWord(BadIns))
  }

  /** A packet of the given tag with a 4-byte payload. */
  function Packet(tag: u8, payload: seq<u8>): (spi: seq<u8>)
    requires |payload| == 4
    ensures |spi| == SpiSize
  {
    [tag, 0x00, 0x04] + payload + seq(SpiSize - 7, _ => 0)
  }

  /** The buffer after the USB-HID handler copied a 4-byte command into it. */
  function Delivered(header: seq<u8>): (buf: seq<u8>)
    requires |header| == 4
    ensures |buf| == BufferSize && buf[..4] == header
  {
    header + seq(BufferSize - 4, _ => 0)
  }

  /**
   * The command 01 02 00 00 with no CLA filter reaches the application as
   * INS 0x02, and `reply_ok` then sends `[0x90, 0x00]` over USB-HID.
   */
  method CommandThenReplyOk() returns (step: Step<u8, bool>, ghost sent: seq<Transmission>)
    ensures step == Returned(Some(Command(0x02 as u8)))
    ensures sent == [Transmission(UsbHid, [0x90, 0x00])]
  {
    var io := new Transport();
    var comm := new Comm<nat>(io, 0);
    var header := [0x01, 0x02, 0x00, 0x00];
    var effect := Received(Delivered(header), UsbHid, 4);
    GetDataNoData(effect.buffer);
    step := comm.DecodeEvent(Packet(CapduTag, header), Classify, (b: nat, s: u8) => (b, None),
                             effect, (t: RegistryTag, room: nat) => [], AcceptIns2);
    comm.ReplyOk();
    sent := io.sent;
  }

  /**
   * With the expected CLA set to 0xE0, a command of CLA 0xD0 is answered
   * 0x6E00 and nothing reaches the application.
   */
  method WrongClaRejected() returns (step: Step<u8, bool>, ghost sent: seq<Transmission>)
    ensures step == Returned(None)
    ensures sent == [Transmission(UsbHid, [0x6e, 0x00])]
  {
    var io := new Transport();
    var comm := new Comm<nat>(io, 0);
    comm.SetExpectedCla(0xE0);
    var header := [0xD0, 0x02, 0x00, 0x00];
    var effect := Received(Delivered(header), UsbHid, 4);
    GetDataNoData(effect.buffer);
    step := comm.DecodeEvent(Packet(CapduTag, header), Classify, (b: nat, s: u8) => (b, None),
                             effect, (t: RegistryTag, room: nat) => [], AcceptIns2);
    assert High(0x6e00) == 0x6e && Low(0x6e00) == 0x00;
    sent := io.sent;
  }
}
