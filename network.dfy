/**
 * What the scanners observe of the network, as plain values: the model never
 * opens a socket. Each socket operation the Rust code awaits is replaced by
 * the outcome it produced, handed to the model as an input.
 */
module Net {

  /** A byte (`u8`). */
  type byte = b: int | 0 <= b < 256

  /** `ch as u8`: the low eight bits of the scalar value. */
  function CharByte(c: char): byte {
    (c as int) % 256
  }

  /** The bytes of a text, one `as u8` per character (ASCII text keeps its
      codes). */
  function Bytes(s: string): (r: seq<byte>)
    ensures |r| == |s| && forall k :: 0 <= k < |s| ==> r[k] == CharByte(s[k])
  {
    seq(|s|, k requires 0 <= k < |s| => CharByte(s[k]))
  }

  /** The largest `u64`, the type of the timeouts. */
  const U64Max: nat := 0xFFFF_FFFF_FFFF_FFFF

  /** The kinds of `std::io::ErrorKind` the connect classification tells
      apart; every other kind is `OtherKind`. */
  datatype ErrorKind =
    | ConnectionRefused
    | TimedOut
    | PermissionDenied
    | NetworkUnreachable
    | HostUnreachable
    | OtherKind

  /** The value of `tokio::time::timeout(d, TcpStream::connect(..)).await`:
      `Ok(Ok(stream))`, `Ok(Err(e))` with the error's kind and its
      `to_string()`, or `Err(Elapsed)`. */
  datatype ConnectOutcome =
    | Connected
    | ConnectFailed(kind: ErrorKind, message: string)
    | DeadlineElapsed

  /** `PortState` (src/core/tcp.rs, re-exported by src/core/mod.rs; the
      enum of src/scanner/tcp.rs has the same three variants). */
  datatype PortState = Open | Closed | Filtered
}
