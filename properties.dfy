/** What the codec promises across its two operations: what a successful
    decode means, when a decode fails, that decoding an encoded carrier gives
    the payload back, and where the capacity check of the encoder lets
    through a carrier that cannot be decoded. */
module CodecProperties {
  import opened Bits
  import opened Codec

  // ---------------------------------------------------------------------------
  // decode_message on its own
  // ---------------------------------------------------------------------------

  /** The announced length, written big-endian, is the bit string carried by
      the first 32 samples. */
  lemma AnnouncedPrefix(samples: seq<Sample>)
    requires |samples| >= 32
    ensures forall k :: 0 <= k < 32 ==> StreamBit(U32BE(AnnouncedLength(samples)), k) == Lsb(samples[k])
  {
    var bits := Lsbs(samples[..32]);
    var prefix := Pack(bits, 4);
    U32BEOfFromU32BE(prefix);
    StreamOfPack(bits, 4);
  }

  /** A decode of a non-empty carrier succeeds only when the carrier holds the
      whole frame, and then returns as many bytes as the prefix announces,
      whose bit stream is the run of bits carried by the samples right after
      the prefix. */
  lemma DecodedPayload(samples: seq<Sample>)
    requires |samples| > 0 && Extracted(samples).Ok?
    ensures 32 < |samples| && 32 + 8 * AnnouncedLength(samples) <= |samples|
    ensures |Extracted(samples).value| == AnnouncedLength(samples)
    ensures forall k :: 0 <= k < 8 * AnnouncedLength(samples) ==>
              StreamBit(Extracted(samples).value, k) == Lsb(samples[32 + k])
  {
    var length := AnnouncedLength(samples);
    var bits := Lsbs(samples[32..32 + 8 * length]);
    var payload := Pack(bits, length);
    assert Extracted(samples) == Ok(payload);
    StreamOfPack(bits, length);
    forall k | 0 <= k < 8 * length
      ensures StreamBit(payload, k) == Lsb(samples[32 + k])
    {
      assert StreamBit(payload, k) == bits[k];
      LsbsAt(samples, 32, 32 + 8 * length, k);
    }
  }

  lemma LsbsAt(samples: seq<Sample>, lo: nat, hi: nat, k: nat)
    requires lo <= hi <= |samples| && k < hi - lo
    ensures Lsbs(samples[lo..hi])[k] == Lsb(samples[lo + k])
  {
  }

  /** Decoding fails exactly when the carrier is non-empty and ends before the
      last payload bit, or ends with the prefix itself; the failure is always
      the incomplete-message error, never a short buffer. */
  lemma IncompleteIff(samples: seq<Sample>)
    ensures Extracted(samples).Err? <==>
              0 < |samples| && (|samples| <= 32 || |samples| < 32 + 8 * AnnouncedLength(samples))
    ensures Extracted(samples).Err? ==> Extracted(samples).error == IncompleteMessage
  {
  }

  /** A carrier announcing an empty payload decodes to no bytes, except when
      it holds nothing but the 32 prefix samples. */
  lemma EmptyPayload(samples: seq<Sample>)
    requires |samples| >= 32 && AnnouncedLength(samples) == 0
    ensures Extracted(samples) == if |samples| == 32 then Err(IncompleteMessage) else Ok([])
  {
    if |samples| > 32 {
      assert |Pack(Lsbs(samples[32..32]), 0)| == 0;
    }
  }

  /** Decoding stops at the end of the payload: samples after it are never
      read. */
  lemma DecodeIgnoresTail(samples: seq<Sample>, tail: seq<Sample>)
    requires |samples| > 0 && Extracted(samples).Ok?
    ensures Extracted(samples + tail) == Extracted(samples)
  {
    var both := samples + tail;
    assert both[..32] == samples[..32];
    var length := AnnouncedLength(samples);
    assert AnnouncedLength(both) == length;
    var payload := samples[32..32 + 8 * length];
    assert Extracted(samples) == Ok(Pack(Lsbs(payload), length));
    assert both[32..32 + 8 * length] == payload;
    assert Extracted(both) == Ok(Pack(Lsbs(payload), length));
  }

  // ---------------------------------------------------------------------------
  // encode_message followed by decode_message
  // ---------------------------------------------------------------------------

  /** Bit i of the frame is bit i of the 4 length bytes, or bit i - 32 of the
      payload. */
  lemma FrameBit(message: seq<byte>, i: nat)
    requires |message| < U32Limit && i < 8 * (4 + |message|)
    ensures i < 32 ==> StreamBit(Frame(message), i) == StreamBit(U32BE(|message|), i)
    ensures i >= 32 ==> StreamBit(Frame(message), i) == StreamBit(message, i - 32)
  {
    var frame := Frame(message);
    U32BEOfFromU32BE(frame[..4]);
    assert frame == frame[..4] + frame[4..];
    StreamBitAppend(frame[..4], frame[4..], i);
  }

  /** Once the capacity check passes and the carrier reaches past the prefix,
      the encoded carrier announces the payload's length. */
  lemma EmbeddedLength(samples: seq<Sample>, message: seq<byte>)
    requires |message| < U32Limit && !TooLong(|message|, |samples|) && |samples| >= 32
    ensures AnnouncedLength(Embedded(samples, message).value) == |message|
  {
    var written := Embedded(samples, message).value;
    var bits := Lsbs(written[..32]);
    var prefix := U32BE(|message|);
    forall k | 0 <= k < 32
      ensures bits[k] == StreamBit(prefix, k)
    {
      FrameBit(message, k);
    }
    PackOfStream(bits, prefix);
    FromU32BEOfU32BE(|message|);
  }

  /** The round trip: a payload encoded into a carrier that holds its whole
      frame (and, for an empty payload, at least one sample more) decodes to
      that payload. */
  lemma RoundTrip(samples: seq<Sample>, message: seq<byte>)
    requires |message| < U32Limit
    requires 8 * (4 + |message|) <= |samples|
    requires |message| == 0 ==> |samples| > 32
    ensures Embedded(samples, message).Ok?
    ensures Extracted(Embedded(samples, message).value) == Ok(message)
  {
    var written := Embedded(samples, message).value;
    EmbeddedLength(samples, message);
    var bits := Lsbs(written[32..32 + 8 * |message|]);
    forall k | 0 <= k < 8 * |message|
      ensures bits[k] == StreamBit(message, k)
    {
      FrameBit(message, 32 + k);
    }
    PackOfStream(bits, message);
  }

  /** The capacity check counts the payload's bits plus one and leaves out the
      32 prefix bits: every carrier longer than the payload's bit count but
      shorter than the frame passes it, and what the encoder then writes
      cannot be decoded. */
  lemma CapacityQuirk(samples: seq<Sample>, message: seq<byte>)
    requires |message| < U32Limit
    requires 8 * |message| < |samples| < 8 * (4 + |message|)
    ensures Embedded(samples, message).Ok?
    ensures Extracted(Embedded(samples, message).value) == Err(IncompleteMessage)
  {
    if |samples| >= 32 {
      EmbeddedLength(samples, message);
    }
  }

  // ---------------------------------------------------------------------------
  // The payload "AB"
  // ---------------------------------------------------------------------------

  /** "AB" in 48 zero samples: the carrier holds the frame exactly, sample 30
      carries the 1 of the length 2, sample 47 the final 0 of 'B', and the
      carrier decodes to "AB". */
  lemma ExampleAB()
    ensures var written := Embedded(seq(48, _ => 0), [0x41, 0x42]);
      && written.Ok?
      && Lsb(written.value[30]) == 1 && Lsb(written.value[47]) == 0
      && Extracted(written.value) == Ok([0x41, 0x42])
  {
    var message: seq<byte> := [0x41, 0x42];
    RoundTrip(seq(48, _ => 0), message);
    FrameBit(message, 30);
    FrameBit(message, 47);
    assert U32BE(2) == [0, 0, 0, 2];
  }

  /** "AB" in 40 samples: the encoder accepts it, but the carrier it writes
      holds only the prefix and the first payload byte, and does not decode. */
  lemma ExampleABShortCarrier(samples: seq<Sample>)
    requires |samples| == 40
    ensures Embedded(samples, [0x41, 0x42]).Ok?
    ensures Extracted(Embedded(samples, [0x41, 0x42]).value) == Err(IncompleteMessage)
  {
    CapacityQuirk(samples, [0x41, 0x42]);
  }
}
