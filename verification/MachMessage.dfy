/**
 The message header, the constants and the transport that both halves of the exception
 RPC rely on. A message is a sequence of 32-bit words; every field of the packed
 structures is 4-byte aligned.
 */
module MachMessage {
  import opened Word32

  // Word indices of mach_msg_header_t, and its length in words.
  const BITS := 0
  const SIZE := 1
  const REMOTE_PORT := 2
  const LOCAL_PORT := 3
  const VOUCHER_PORT := 4
  const ID := 5
  const HEADER_WORDS := 6

  const KERN_SUCCESS: word := 0
  const KERN_FAILURE: word := 5
  const MIG_TYPE_ERROR: word := MODULUS - 300
  const MIG_REPLY_MISMATCH: word := MODULUS - 301
  const MIG_BAD_ID: word := MODULUS - 303
  const MIG_BAD_ARGUMENTS: word := MODULUS - 304
  const MIG_NO_REPLY: word := MODULUS - 305
  const MIG_ARRAY_TOO_LARGE: word := MODULUS - 307
  const MIG_SERVER_DIED: word := MODULUS - 308
  const MACH_RCV_TOO_LARGE: word := 0x1000_4004

  const MACH_NOTIFY_SEND_ONCE: word := 71
  const MACH_MSGH_BITS_COMPLEX: word := 0x8000_0000
  const COPY_SEND: word := 19
  const MAKE_SEND_ONCE: word := 21
  const PORT_SEND: word := 17
  const PORT_SEND_ONCE: word := 18
  const MACH_MSG_PORT_DESCRIPTOR: word := 0

  /** NDR_record: little-endian integers, ASCII, IEEE floating point. */
  const NDR_RECORD: seq<word> := [0, 1]

  predicate IsComplex(bits: word) { bits >= MACH_MSGH_BITS_COMPLEX }

  function RemoteBits(bits: word): (b: word)
    ensures b < 0x100
  {
    bits % 0x100
  }

  function LocalBits(bits: word): (b: word)
    ensures b < 0x100
  {
    bits / 0x100 % 0x100
  }

  function MsghBits(remote: word, local: word): (bits: word)
    requires remote < 0x100 && local < 0x100
    ensures !IsComplex(bits)
  {
    remote + 0x100 * local
  }

  /** The disposition a receiver is shown for the one the sender asked for. */
  function Received(disposition: word): (d: word)
    ensures disposition < 0x100 ==> d < 0x100
  {
    if disposition == COPY_SEND then PORT_SEND
    else if disposition == MAKE_SEND_ONCE then PORT_SEND_ONCE
    else disposition
  }

  // The last word of a port descriptor: 16 bits of padding, 8 of disposition, 8 of type.

  function Disposition(w: word): (d: word) { w / 0x1_0000 % 0x100 }

  function DescriptorType(w: word): (kind: word) { w / 0x1_0000 / 0x100 }

  lemma LowHalf(low: nat, upper: nat)
    requires low < 0x1_0000
    ensures (low + 0x1_0000 * upper) % 0x1_0000 == low && (low + 0x1_0000 * upper) / 0x1_0000 == upper
  {
  }

  lemma LowByte(rest: nat, low: nat)
    requires low < 0x100
    ensures (0x100 * rest + low) % 0x100 == low && (0x100 * rest + low) / 0x100 == rest
  {
  }

  function Descriptor(padding: word, disposition: word, kind: word): (w: word)
    requires padding < 0x1_0000 && disposition < 0x100 && kind < 0x100
    ensures Disposition(w) == disposition && DescriptorType(w) == kind && w % 0x1_0000 == padding
    ensures w == padding + 0x1_0000 * disposition + 0x100_0000 * kind
  {
    var upper: nat := disposition + 0x100 * kind;
    LowHalf(padding, upper);
    LowByte(kind, disposition);
    padding + 0x1_0000 * upper
  }

  function ReceivedDescriptor(w: word): (d: word)
    ensures Disposition(d) == Received(Disposition(w)) && DescriptorType(d) == DescriptorType(w)
  {
    Descriptor(w % 0x1_0000, Received(Disposition(w)), DescriptorType(w))
  }

  /** `bits` with its two port dispositions swapped and shown as the receiver sees them. */
  function DeliveredBits(bits: word): (d: word)
    ensures IsComplex(d) == IsComplex(bits)
    ensures RemoteBits(d) == Received(LocalBits(bits))
    ensures LocalBits(d) == Received(RemoteBits(bits))
  {
    var local, remote := Received(RemoteBits(bits)), Received(LocalBits(bits));
    Assemble(bits / 0x1_0000, local, remote)
  }

  function Assemble(upper: word, local: word, remote: word): (d: word)
    requires upper < 0x1_0000 && local < 0x100 && remote < 0x100
    ensures IsComplex(d) <==> upper >= 0x8000
    ensures RemoteBits(d) == remote
    ensures LocalBits(d) == local
  {
    var rest: nat := 0x100 * upper + local;
    LowByte(rest, remote);
    LowByte(upper, local);
    0x100 * rest + remote
  }

  /**
   The assumed kernel step: the first `n` words of `m` are sent and arrive in `buf`. The
   size is stamped from the number of words sent, the two ports change places, and rights
   asked for become rights held. The only complex messages of this subsystem carry two
   port descriptors, whose dispositions are in words 9 and 12; names are carried over.
   */
  ghost predicate Arrives(m: seq<word>, n: nat, buf: seq<word>) {
    && HEADER_WORDS <= n <= |m| && n <= |buf| && n < 0x4000_0000
    && buf[BITS] == DeliveredBits(m[BITS]) && buf[SIZE] == 4 * n
    && buf[REMOTE_PORT] == m[LOCAL_PORT] && buf[LOCAL_PORT] == m[REMOTE_PORT]
    && buf[VOUCHER_PORT] == m[VOUCHER_PORT] && buf[ID] == m[ID]
    && forall i :: HEADER_WORDS <= i < n ==> buf[i] == ArrivingWord(m, i)
  }

  function ArrivingWord(m: seq<word>, i: nat): (w: word)
    requires HEADER_WORDS <= i < |m|
  {
    if IsComplex(m[BITS]) && (i == 9 || i == 12) then ReceivedDescriptor(m[i]) else m[i]
  }

  /** Carries out the kernel step; the words of `buf` past the message are left alone. */
  method Transmit(mess: array<word>, n: nat, buf: array<word>)
    requires HEADER_WORDS <= n <= mess.Length && n <= buf.Length && n < 0x4000_0000 && mess != buf
    modifies buf
    ensures Arrives(mess[..], n, buf[..])
    ensures buf[n..] == old(buf[n..])
  {
    forall i | HEADER_WORDS <= i < n { buf[i] := ArrivingWord(mess[..], i); }
    buf[BITS], buf[SIZE] := DeliveredBits(mess[BITS]), 4 * n;
    buf[REMOTE_PORT], buf[LOCAL_PORT] := mess[LOCAL_PORT], mess[REMOTE_PORT];
    buf[VOUCHER_PORT], buf[ID] := mess[VOUCHER_PORT], mess[ID];
  }
}
