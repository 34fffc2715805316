/** Values exchanged by the commit thread of the verification harness. */
module BftTypes {

  /** Rust's u8: address bytes, proposal bytes and the tally counters of is_success. */
  newtype u8 = x: int | 0 <= x < 0x100

  const U8_MAX: u8 := 0xFF

  /** Rust's usize on a 64-bit target: heights and the chain-height counter. */
  newtype usize = x: int | 0 <= x < 0x1_0000_0000_0000_0000

  const USIZE_MAX: usize := 0xFFFF_FFFF_FFFF_FFFF

  datatype Option<T> = None | Some(value: T)

  /** A node address (a byte vector; the four validators are [0], [1], [2], [3]). */
  type Address = seq<u8>

  /** A proposal: an opaque byte vector compared by content. */
  type Target = seq<u8>

  /** The record a validator sends the commit thread when it finalizes a height. */
  datatype Commit = Commit(address: Address, height: usize, proposal: Target)

  /** The two messages the commit thread sends back to a validator. */
  datatype BftMsg =
    | Status(height: usize, interval: Option<nat>, authorityList: seq<Address>)
    | Feed(height: usize, proposal: Target)

  /** A message queued for the mailbox with index `to` (the sender's `address[0]`). */
  datatype Envelope = Envelope(to: u8, msg: BftMsg)
}
