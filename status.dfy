/** Status words, system-call errors and the `Reply` conversions between them. */
module Status {
  import opened Bytes

  /** The named status words of the device (`StatusWords`). */
  datatype StatusWord =
    | Ok
    | NothingReceived
    | BadCla
    | BadIns
    | BadP1P2
    | BadLen
    | UserCancelled
    | Unknown
    | Panic

  /** The `#[repr(u16)]` discriminant of each status word. */
  function Code(sw: StatusWord): u16
  {
    match sw
    case Ok => 0x9000
    case NothingReceived => 0x6982
    case BadCla => 0x6e00
    case BadIns => 0x6e01
    case BadP1P2 => 0x6e02
    case BadLen => 0x6e03
    case UserCancelled => 0x6e04
    case Unknown => 0x6d00
    case Panic => 0xe000
  }

  /** Low-level failures reported by system calls (`SyscallError`). */
  datatype SyscallError =
    | InvalidParameter
    | Overflow
    | Security
    | InvalidCrc
    | InvalidChecksum
    | InvalidCounter
    | NotSupported
    | InvalidState
    | Timeout
    | Unspecified

  /** The `#[repr(u8)]` discriminant: `InvalidParameter = 2`, then one more per variant. */
  function Discriminant(e: SyscallError): u8
  {
    match e
    case InvalidParameter => 2
    case Overflow => 3
    case Security => 4
    case InvalidCrc => 5
    case InvalidChecksum => 6
    case InvalidCounter => 7
    case NotSupported => 8
    case InvalidState => 9
    case Timeout => 10
    case Unspecified => 11
  }

  /** `SyscallError::from(u32)`: the raw error code of a system call. */
  function FromU32(e: u32): SyscallError
  {
    match e
    case 2 => InvalidParameter
    case 3 => Overflow
    case 4 => Security
    case 5 => InvalidCrc
    case 6 => InvalidChecksum
    case 7 => InvalidCounter
    case 8 => NotSupported
    case 9 => InvalidState
    case 10 => Timeout
    case _ => Unspecified
  }

  /** The 2-byte status word a command handler answers with. */
  datatype Reply = Reply(sw: u16)

  /** `From<StatusWords> for Reply`. */
  function FromStatusWord(sw: StatusWord): Reply
  {
    Reply(Code(sw))
  }

  /** `From<SyscallError> for Reply`: the error lands in the reserved 0x68xx range. */
  function FromSyscallError(e: SyscallError): Reply
  {
    Reply(0x6800 + Discriminant(e) as u16)
  }

  /**
   * `From<Infallible> for Reply`. `Infallible` has no values, so the
   * conversion has no argument here; it answers 0x9000.
   */
  function FromInfallible(): (r: Reply)
    ensures r == FromStatusWord(Ok)
  {
    Reply(0x9000)
  }

  /** Every listed status word gets its listed code, and no two share one. */
  lemma StatusWordCodes()
    ensures Code(Ok) == 0x9000 && Code(NothingReceived) == 0x6982
    ensures Code(BadCla) == 0x6e00 && Code(BadIns) == 0x6e01 && Code(BadP1P2) == 0x6e02
    ensures Code(BadLen) == 0x6e03 && Code(UserCancelled) == 0x6e04
    ensures Code(Unknown) == 0x6d00 && Code(Panic) == 0xe000
    ensures forall a: StatusWord, b: StatusWord :: FromStatusWord(a) == FromStatusWord(b) ==> a == b
  {
  }

  /** A system-call error answers 0x6800 plus its code, inside 0x6802..0x680B. */
  lemma SyscallReplyRange(e: SyscallError)
    ensures FromSyscallError(e).sw as int == 0x6800 + Discriminant(e) as int
    ensures 0x6802 <= FromSyscallError(e).sw <= 0x680B
    ensures e == Security ==> FromSyscallError(e) == Reply(0x6804)
  {
  }

  /** Distinct system-call errors answer distinct status words, none of them a named one. */
  lemma SyscallRepliesDistinct(e: SyscallError, f: SyscallError, sw: StatusWord)
    ensures FromSyscallError(e) == FromSyscallError(f) ==> e == f
    ensures FromSyscallError(e) != FromStatusWord(sw)
  {
  }

  /** `from(u32)` maps 2..10 to the variant with that code and everything else to `Unspecified`. */
  lemma FromU32Spec(n: u32)
    ensures 2 <= n <= 10 ==> Discriminant(FromU32(n)) as int == n as int
    ensures !(2 <= n <= 10) ==> FromU32(n) == Unspecified
  {
  }

  /** Converting a variant to its code and back yields the variant (11 is `Unspecified` itself). */
  lemma FromU32RoundTrip(e: SyscallError)
    ensures FromU32(Discriminant(e) as u32) == e
  {
  }
}
