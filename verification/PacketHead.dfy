/** Header sizes, and where a program may move the start of a packet. */
module PacketHead {
  const ETH_LEN := 14
  const IPV4_LEN := 20
  const IPV6_LEN := 40

  /** The kernel refuses to move the head out of the buffer, or so far that less than an
      Ethernet header remains. */
  predicate HeadOutOfRange(newHead: int, end: nat) {
    newHead < 0 || newHead + ETH_LEN > end
  }
}
