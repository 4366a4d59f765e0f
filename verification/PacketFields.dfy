/** Where a packet holds what: fields named by their offset, most significant octet first. */
module PacketFields {
  import opened Words

  /** The four octets at `at`, most significant first, are address `a`. */
  ghost predicate AddressAt(p: seq<byte>, at: nat, a: Addr) {
    && at + 4 <= |p|
    && a == 0x100_0000 * (p[at] as int) + 0x1_0000 * (p[at + 1] as int) + 0x100 * (p[at + 2] as int) + p[at + 3] as int
  }

  /** The two octets at `at`, most significant first, are the low 16 bits of `x`. */
  ghost predicate NumberAt(p: seq<byte>, at: nat, x: nat) {
    at + 2 <= |p| && x % 0x1_0000 == 0x100 * (p[at] as int) + p[at + 1] as int
  }

  ghost predicate ZerosAt(p: seq<byte>, at: nat, end: nat) {
    end <= |p| && forall i :: at <= i < end ==> p[i] == 0
  }
}
