/** The LSB steganography codec of src/main.rs: `encode_message` hides a
    length-prefixed payload in the least significant bits of a carrier's
    samples, `decode_message` reads it back.  The carrier is the sequence of
    samples the WAV reader yields (its length is `reader.len()`); the
    encoder's output is the sequence of samples it hands to the WAV writer. */
module Codec {
  import opened Bits

  /** One `i32` sample, as its 32-bit two's-complement pattern: the codec
      only ever applies `& 1`, `& !1` and `|` to it. */
  type Sample = bv32

  datatype Error =
    | MessageTooLong     // "Message is too long to fully encode into file"
    | IncompleteMessage  // "Incomplete message in the input file"

  datatype Result<T> = Ok(value: T) | Err(error: Error)

  datatype Option<T> = None | Some(value: T)

  /** `sample & 1`, the bit a sample carries, as 0 or 1. */
  function Lsb(s: Sample): (b: byte)
    ensures b <= 1
    ensures b == 1 <==> s & 1 == 1
  {
    LowBit(s);
    (s & 1) as byte
  }

  lemma LowBit(s: Sample)
    ensures s & 1 == 0 || s & 1 == 1
  {
  }

  lemma BitAsSample(bit: byte)
    requires bit <= 1
    ensures bit as Sample == if bit == 1 then 1 else 0
  {
    if bit == 0 {
    } else {
      assert bit == 1;
    }
  }

  /** The bits a run of samples carries, in order. */
  function Lsbs(samples: seq<Sample>): (bits: seq<byte>)
    ensures |bits| == |samples|
  {
    seq(|samples|, i requires 0 <= i < |samples| => Lsb(samples[i]))
  }

  /** `written` is `original` with only its least significant bit replaced,
      by `bit`: its 31 other bits are those of `original`. */
  predicate Carries(written: Sample, original: Sample, bit: byte) {
    Lsb(written) == bit && written & !1 == original & !1
  }

  /** `(sample & !1) | bit`: the sample carrying `bit`. */
  function SetLsb(s: Sample, bit: byte): (r: Sample)
    requires bit <= 1
    ensures Carries(r, s, bit)
  {
    BitAsSample(bit);
    (s & !1) | (bit as Sample)
  }

  /** The wire frame: the payload's length as 4 big-endian bytes, then the payload. */
  function Frame(message: seq<byte>): (frame: seq<byte>)
    requires |message| < U32Limit
    ensures |frame| == 4 + |message|
    ensures FromU32BE(frame[..4]) == |message| && frame[4..] == message
  {
    FromU32BEOfU32BE(|message|);
    var frame := U32BE(|message|) + message;
    assert frame[..4] == U32BE(|message|);
    frame
  }

  /** The capacity check of `encode_message` as written: the message's bit
      count plus one, without the 32 bits of the length prefix. */
  predicate TooLong(messageLength: nat, sampleCount: nat) {
    messageLength * 8 + 1 > sampleCount
  }

  // ---------------------------------------------------------------------------
  // encode_message
  // ---------------------------------------------------------------------------

  /** What `encode_message` writes: an error when the capacity check fails;
      otherwise every sample, in order, the first 8 * |frame| of them (as far
      as the carrier reaches) carrying frame bit i in their least significant
      bit, all later ones unchanged. */
  function Embedded(samples: seq<Sample>, message: seq<byte>): (r: Result<seq<Sample>>)
    requires |message| < U32Limit
    ensures r.Err? <==> TooLong(|message|, |samples|)
    ensures r.Err? ==> r.error == MessageTooLong
    ensures r.Ok? ==> |r.value| == |samples|
    ensures r.Ok? ==> forall i :: 0 <= i < |samples| && i < 8 * (4 + |message|) ==>
              Carries(r.value[i], samples[i], StreamBit(Frame(message), i))
    ensures r.Ok? ==> forall i :: 8 * (4 + |message|) <= i < |samples| ==> r.value[i] == samples[i]
  {
    if TooLong(|message|, |samples|) then Err(MessageTooLong)
    else
      var frame := Frame(message);
      Ok(seq(|samples|, i requires 0 <= i < |samples| =>
        if i < 8 * |frame| then SetLsb(samples[i], StreamBit(frame, i)) else samples[i]))
  }

  /** `encode_message`: build the frame, run the capacity check, then stream
      the carrier once, rewriting the least significant bit of each sample
      while frame bits remain and passing every other sample through. */
  method EncodeMessage(samples: seq<Sample>, message: seq<byte>) returns (r: Result<seq<Sample>>)
    requires |message| < U32Limit
    ensures r == Embedded(samples, message)
  {
    var messageBytes := U32BE(|message|) + message;
    var bitIndex := 0;
    var availableSpace := |samples|;
    var messageLengthBits := |message| * 8 + 1;
    if messageLengthBits > availableSpace {
      return Err(MessageTooLong);
    }
    ghost var frame := Frame(message);
    assert messageBytes == frame;
    var written: seq<Sample> := [];
    for i := 0 to |samples|
      invariant |written| == i
      invariant bitIndex == Min(i, 8 * |messageBytes|)
      invariant forall j :: 0 <= j < i ==>
        written[j] == if j < 8 * |frame| then SetLsb(samples[j], StreamBit(frame, j)) else samples[j]
    {
      var sample := samples[i];
      if bitIndex < |messageBytes| * 8 {
        var byteIndex := bitIndex / 8;
        var bitOffset := bitIndex % 8;
        var messageBit := BitAt(messageBytes[byteIndex], bitOffset);
        assert messageBit == StreamBit(frame, i);
        sample := (sample & !1) | (messageBit as Sample);
        assert sample == SetLsb(samples[i], StreamBit(frame, i));
        bitIndex := bitIndex + 1;
      }
      written := written + [sample];
    }
    assert written == Embedded(samples, message).value;
    return Ok(written);
  }

  // ---------------------------------------------------------------------------
  // decode_message
  // ---------------------------------------------------------------------------

  /** The payload length a carrier announces: the big-endian value of the
      least significant bits of its first 32 samples. */
  function AnnouncedLength(samples: seq<Sample>): (n: nat)
    requires |samples| >= 32
    ensures n < U32Limit
  {
    var prefix := Pack(Lsbs(samples[..32]), 4);
    U32BEOfFromU32BE(prefix);
    FromU32BE(prefix)
  }

  /** What `decode_message` returns, in closed form.  An empty carrier never
      enters the loop and yields the zeroed 4-byte prefix buffer.  Otherwise
      the payload's last bit must fall on a sample the loop reaches: with a
      32-sample carrier the prefix completes on the last sample, before the
      completion test can run, so even an empty payload is incomplete. */
  function Extracted(samples: seq<Sample>): (r: Result<seq<byte>>)
  {
    if |samples| == 0 then Ok([0, 0, 0, 0])
    else if |samples| <= 32 then Err(IncompleteMessage)
    else
      var length := AnnouncedLength(samples);
      if |samples| < 32 + 8 * length then Err(IncompleteMessage)
      else Ok(Pack(Lsbs(samples[32..32 + 8 * length]), length))
  }

  /** `decode_message`: a single pass over the carrier, first gathering the
      32-bit length prefix into a 4-byte buffer, then, in a buffer reallocated
      to that many bytes, the payload bits; it stops as soon as the payload is
      complete and fails once the last sample has been consumed without that. */
  method DecodeMessage(samples: seq<Sample>) returns (r: Result<seq<byte>>)
    ensures r == Extracted(samples)
  {
    var messageBytes := new byte[4](_ => 0);
    var bitIndex := 0;
    var messageLength: Option<nat> := None;
    var readerLen := |samples|;
    // The bits taken into the current buffer, and the sample the first came from.
    ghost var bits: seq<byte> := [];
    ghost var start := 0;
    PackNothing(4);
    var i := 0;
    while i < readerLen
      invariant i <= readerLen && (readerLen == 0 || i < readerLen)
      invariant fresh(messageBytes)
      invariant start + bitIndex == i && |bits| == bitIndex
      invariant bits == Lsbs(samples[start..start + bitIndex])
      invariant bitIndex <= 8 * messageBytes.Length
      invariant messageBytes[..] == Pack(bits, messageBytes.Length)
      invariant messageLength.None? ==> start == 0 && i < 32 && messageBytes.Length == 4
      invariant messageLength.Some? ==>
        && start == 32 && 32 <= i
        && messageLength.value == messageBytes.Length == AnnouncedLength(samples)
    {
      var sample := samples[i];
      var messageBit := Lsb(sample);
      if bitIndex < messageBytes.Length * 8 {
        OrBit(messageBytes, bitIndex, messageBit, bits);
        LsbsAppend(samples, start, i);
        bitIndex := bitIndex + 1;
        bits := bits + [messageBit];
      }
      if bitIndex == 32 && messageLength.None? {
        var length;
        messageBytes, length := PayloadBuffer(samples, messageBytes, bits);
        messageLength := Some(length);
        bitIndex := 0;
        bits, start := [], 32;
      } else if messageLength.Some? && bitIndex == messageLength.value * 8 {
        ExtractedComplete(samples, start, bits);
        break;
      }
      if i == readerLen - 1 {
        ExtractedIncomplete(samples);
        return Err(IncompleteMessage);
      }
      i := i + 1;
    }
    if readerLen == 0 {
      ExtractedEmpty(samples);
    }
    return Ok(messageBytes[..]);
  }

  /** `message_bytes[byte_index] |= (message_bit as u8) << (7 - bit_offset)`:
      the next bit goes into a buffer that holds the bits taken so far. */
  method OrBit(buffer: array<byte>, bitIndex: nat, bit: byte, ghost bits: seq<byte>)
    requires |bits| == bitIndex < 8 * buffer.Length
    requires buffer[..] == Pack(bits, buffer.Length)
    modifies buffer
    ensures buffer[..] == Pack(bits + [bit], buffer.Length)
  {
    var byteIndex := bitIndex / 8;
    var bitOffset := bitIndex % 8;
    PackAppend(bits, bit, buffer.Length);
    buffer[byteIndex] := buffer[byteIndex] | Place(bit, bitOffset);
  }

  /** Reads the announced length out of the completed prefix buffer and
      allocates the zeroed buffer that the payload bits go into. */
  method PayloadBuffer(samples: seq<Sample>, prefix: array<byte>, ghost bits: seq<byte>)
      returns (buffer: array<byte>, length: nat)
    requires |samples| >= 32 && bits == Lsbs(samples[0..32])
    requires prefix.Length == 4 && prefix[..] == Pack(bits, 4)
    ensures fresh(buffer)
    ensures length == buffer.Length == AnnouncedLength(samples)
    ensures buffer[..] == Pack([], length)
  {
    PrefixLength(samples, bits);
    length := FromU32BE(prefix[..]);
    buffer := new byte[length](_ => 0);
    PackNothing(length);
  }

  lemma PrefixLength(samples: seq<Sample>, bits: seq<byte>)
    requires |samples| >= 32 && bits == Lsbs(samples[0..32])
    ensures FromU32BE(Pack(bits, 4)) == AnnouncedLength(samples)
  {
    assert samples[0..32] == samples[..32];
  }

  lemma ExtractedComplete(samples: seq<Sample>, start: nat, bits: seq<byte>)
    requires start == 32 && start + |bits| <= |samples| && start < |samples|
    requires |bits| == 8 * AnnouncedLength(samples)
    requires bits == Lsbs(samples[start..start + |bits|])
    ensures Extracted(samples) == Ok(Pack(bits, AnnouncedLength(samples)))
  {
  }

  lemma ExtractedIncomplete(samples: seq<Sample>)
    requires 0 < |samples|
    requires |samples| <= 32 || |samples| < 32 + 8 * AnnouncedLength(samples)
    ensures Extracted(samples) == Err(IncompleteMessage)
  {
  }

  lemma ExtractedEmpty(samples: seq<Sample>)
    requires samples == []
    ensures Extracted(samples) == Ok(Pack([], 4))
  {
    PackNothing(4);
    assert Pack([], 4) == [0, 0, 0, 0];
  }

  lemma LsbsAppend(samples: seq<Sample>, start: nat, i: nat)
    requires start <= i < |samples|
    ensures Lsbs(samples[start..i + 1]) == Lsbs(samples[start..i]) + [Lsb(samples[i])]
  {
  }
}
