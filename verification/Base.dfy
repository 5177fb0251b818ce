/** Status codes, faults and the parse result shared by the decoder, memory and handlers. */
module Base {
  import opened Words

  /** The status codes the modelled code produces. NotModelled stands for every instruction outside the
      modelled subset, whatever the full decoder would say. */
  datatype Status =
    | Ok | InvalidArgument | Internal
    | UnmappedRead | ProtectionViolation | ProviderFailure
    | InvalidInstruction | TruncatedInstruction | UnsupportedOpcode
    | NotModelled

  datatype FaultKind = NoFault | PageFault | GeneralProtection | InvalidOpcode | ProviderFault | InternalError

  datatype Fault = Fault(kind: FaultKind, rip: u64, addr: u64, reason: Status)

  function KindFromStatus(s: Status): FaultKind {
    match s
    case UnmappedRead => PageFault
    case ProtectionViolation => GeneralProtection
    case InvalidInstruction => InvalidOpcode
    case UnsupportedOpcode => InvalidOpcode
    case TruncatedInstruction => InvalidOpcode
    case ProviderFailure => ProviderFault
    case _ => InternalError
  }

  const CLEAR: Fault := Fault(NoFault, 0, 0, Ok)

  /** An operand register: 0 to 15, or 16 to 19 for AH, CH, DH and BH. */
  type RegId = r: nat | r < 20

  /** 64-bit addition of an address and a wrapped offset. */
  function Plus(a: u64, b: u64): u64 {
    if a + b >= TWO64 then a + b - TWO64 else a + b
  }

  /** How far x lies above a, going round at 2^64. */
  function Offset(x: u64, a: u64): u64 {
    if x >= a then x - a else x - a + TWO64
  }

  // ---- Allocation sizes ------------------------------------------------------------

  /** sz rounded up to a multiple of 16. */
  function RoundedUp(sz: nat): nat {
    16 * ((sz + 15) / 16)
  }

  /** (sz + 15) & ~15 on 64 bits. */
  function Aligned(sz: u64): (n: u64)
    ensures n == if RoundedUp(sz) >= TWO64 then 0 else RoundedUp(sz)
  {
    var s := Plus(sz, 15);
    s - s % 16
  }

  // ---- Little-endian bytes ---------------------------------------------------------

  /** 256^n. */
  function Span(n: nat): (p: nat)
    ensures p >= 1
  {
    if n == 0 then 1 else 256 * Span(n - 1)
  }

  function FromLe(s: seq<u8>): (v: nat)
    ensures v < Span(|s|)
  {
    if |s| == 0 then 0 else s[0] + 256 * FromLe(s[1..])
  }

  function ToLe(v: nat, n: nat): (s: seq<u8>)
    ensures |s| == n
  {
    if n == 0 then [] else [v % 256] + ToLe(v / 256, n - 1)
  }

  /** Storing the low n bytes and loading them back is reduction modulo 256^n. */
  lemma {:induction false} StoreLoad(v: nat, n: nat)
    ensures FromLe(ToLe(v, n)) == v % Span(n)
  {
    if n == 0 {
    } else {
      StoreLoad(v / 256, n - 1);
      assert ToLe(v, n)[1..] == ToLe(v / 256, n - 1);
      DivDiv(v, 256, Span(n - 1));
    }
  }

  lemma {:induction false} LoadStore(s: seq<u8>)
    ensures ToLe(FromLe(s), |s|) == s
  {
    if |s| == 0 {
    } else {
      DivModUnique(FromLe(s), 256, FromLe(s[1..]), s[0]);
      LoadStore(s[1..]);
    }
  }
}
