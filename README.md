# LSB steganography codec of the WAV steganography tool

This project models, in Dafny, the codec at the heart of the tool: `encode_message` and `decode_message` in `src/main.rs`.
- `encode_message` hides a payload in the least significant bits of a WAV file's samples.
- `decode_message` recovers it.

The carrier is the sequence of samples the WAV reader yields, and `reader.len()` is its length. The encoder's result is the sequence of samples it hands to the WAV writer.

The wire frame has two parts:
- the payload's length, as a 4-byte big-endian `u32`;
- the payload bytes.

Frame bit `k` is bit `7 - k % 8` of byte `k / 8`, so each byte is sent most significant bit first. Frame bit `k` replaces the least significant bit of sample `k`, and later samples pass through unchanged.

The decoder is a two-phase state machine:
1. It gathers 32 bits into a 4-byte buffer.
2. It reads the length `L` from that buffer and reallocates the buffer to `L` bytes. It then gathers `8 L` more bits.

The decoder stops as soon as the payload is complete. It fails with "Incomplete message" when it consumes the last sample first.

Files:
- `bits.dfy` (module `Bits`) holds the pure layer:
  - `U32BE`/`FromU32BE`, the `u32` big-endian conversions;
  - `StreamBit`, the bit stream over a byte string;
  - `Pack`, which gathers bits into bytes the way the decoder's `|=` does.
- `codec.dfy` (module `Codec`) holds the two operations as imperative methods, each proved equal to a specification function:
  - `EncodeMessage` loops over the carrier, appending each sample to the output. It is proved equal to `Embedded`.
  - `DecodeMessage` loops over the carrier, ORing bits into an `array<byte>` that it reallocates at the prefix boundary. It leaves by `break` or by an early error return. It is proved equal to `Extracted`.
- `properties.dfy` (module `CodecProperties`) relates the two operations, and states what a decode means and when it fails.

Samples are Rust `i32`s. They are modelled as their 32-bit two's-complement patterns (`bv32`), so `sample & 1` and `(sample & !1) | bit` are the source's own operations. Bytes are `bv8`.

Where the code and the design intent differ, the model follows the code:
- **Capacity check.** The check is `|m| * 8 + 1 > n`. It does not count the 32 prefix bits, so a carrier with `8 |m| < n < 8 (4 + |m|)` passes. The encoder then writes only part of the frame, and that carrier never decodes (`CapacityQuirk`). For example, "AB" in 40 samples encodes successfully rather than being rejected, and then fails to decode (`ExampleABShortCarrier`).
- **Empty payload in 32 samples.** With an empty payload, a carrier of exactly 32 samples fails to decode. The prefix completes on the last sample, in the same iteration that hits the end-of-carrier test, so the completion test never runs. With 33 or more samples, the empty payload decodes (`EmptyPayload`).
- **Empty carrier.** An empty carrier decodes successfully to the four zero bytes of the untouched prefix buffer (`Codec.ExtractedEmpty`).

## Model

| member | source | states |
|---|---|---|
| Bits.FromU32BEOfU32BE | src/main.rs:159 | reading back the big-endian bytes of a length below 2^32 gives that length |
| Bits.U32BEOfFromU32BE | src/main.rs:214 | every 4-byte string reads as a value below 2^32 whose big-endian bytes are that string, so the decoder's length read is the exact inverse of the encoder's prefix |
| Bits.BitAt | src/main.rs:181 | `(byte >> (7 - offset)) & 1` is a single bit, 0 or 1 |
| Bits.StreamBitAppend | src/main.rs:159-162 | the bit stream of the concatenated prefix and payload is the prefix's 32 bits followed by the payload's bits |
| Bits.GatherOfByte | src/main.rs:205-209 | ORing the eight bits of a byte, each shifted to `7 - offset`, rebuilds that byte |
| Bits.BitsOfGather | src/main.rs:208 | bit `offset` of a byte built from eight 0/1 bits is the bit placed at that offset, so ORing into a zeroed byte acts as assignment |
| Bits.PackOfStream | src/main.rs:205-209 | packing the bit stream of a byte string, most significant bit first, gives back that byte string |
| Bits.StreamOfPack | src/main.rs:205-209 | the bit stream of the packed bytes is the sequence of bits that was packed |
| Bits.PackAppend | src/main.rs:206-208 | ORing a bit at position `7 - bitIndex % 8` of byte `bitIndex / 8` turns the packing of the bits so far into the packing of those bits plus the new one, and leaves every other byte alone |
| Bits.PackNothing | src/main.rs:215 | a freshly zeroed buffer is the packing of no bits |
| Codec.Lsb | src/main.rs:203 | `sample & 1` is 0 or 1, and is 1 exactly when the sample's lowest bit is set |
| Codec.SetLsb | src/main.rs:182 | `sample & !1` ORed with the bit carries `bit` in its lowest bit and keeps the other 31 bits of the sample |
| Codec.Frame | src/main.rs:159-162 | the frame is 4 + len(m) bytes, its first four read back as len(m), and the rest is the payload |
| Codec.Embedded | src/main.rs:166-186 | the encoder fails with the too-long error exactly when `len(m) * 8 + 1 > n`. Otherwise it outputs `n` samples in order. Each sample below `8 (4 + len(m))` differs from its input only in the lowest bit, which carries frame bit `i`. Every later sample is unchanged |
| Codec.EncodeMessage | src/main.rs:149-190 | the streaming loop, with its bit cursor, returns exactly `Embedded(samples, message)` |
| Codec.AnnouncedLength | src/main.rs:212-214 | the length read from the first 32 lowest bits is below 2^32 |
| Codec.DecodeMessage | src/main.rs:193-229 | the two-phase loop returns exactly `Extracted(samples)`. That includes its reallocated buffer, its `break` and its early error return |
| Codec.OrBit | src/main.rs:205-209 | one OR-assignment step turns a buffer holding the packing of the bits taken so far into the packing of those bits plus the new one |
| Codec.PayloadBuffer | src/main.rs:212-216 | at the prefix boundary, the new buffer is zeroed and its length is the announced length |
| Codec.PrefixLength | src/main.rs:212-214 | the value read from the filled 4-byte buffer is the announced length |
| Codec.ExtractedComplete | src/main.rs:217-228 | when `8 L` payload bits are in, the buffer returned is the decode result |
| Codec.ExtractedIncomplete | src/main.rs:221-224 | consuming the last sample before completion is the incomplete-message error |
| Codec.ExtractedEmpty | src/main.rs:197-228 | an empty carrier returns the zeroed 4-byte prefix buffer |
| CodecProperties.AnnouncedPrefix | src/main.rs:205-214 | the big-endian bits of the announced length are the lowest bits of samples 0..31, in order |
| CodecProperties.DecodedPayload | src/main.rs:205-228 | a successful decode of a non-empty carrier has all `32 + 8 L` samples. It returns exactly `L` bytes, and their bit stream is the lowest bits of samples `32 .. 32 + 8 L - 1` |
| CodecProperties.IncompleteIff | src/main.rs:212-225 | decoding fails exactly when the carrier is non-empty and has at most 32 samples or fewer than `32 + 8 L` samples. The failure is always the incomplete-message error |
| CodecProperties.EmptyPayload | src/main.rs:212-221 | with `L = 0`, a 32-sample carrier is incomplete and a longer one decodes to no bytes |
| CodecProperties.DecodeIgnoresTail | src/main.rs:217-218 | samples after the end of the payload do not change a successful decode |
| CodecProperties.FrameBit | src/main.rs:159-181 | frame bit `i` is bit `i` of the length prefix for `i < 32`, and payload bit `i - 32` after that |
| CodecProperties.EmbeddedLength | src/main.rs:159-214 | once the capacity check passes and the carrier reaches 32 samples, the encoded carrier announces the payload's length |
| CodecProperties.RoundTrip | src/main.rs:311-316 | when `len(m) < 2^32`, `n >= 8 (4 + len(m))`, and `n > 32` for an empty payload, encoding succeeds and decoding its output gives back `m` |
| CodecProperties.CapacityQuirk | src/main.rs:166-178 | every carrier with `8 len(m) < n < 8 (4 + len(m))` passes the capacity check, and the encoder's output then fails to decode as an incomplete message |
| CodecProperties.ExampleAB | src/main.rs:159-228 | "AB" in 48 zero samples: sample 30 carries the 1 of the length 2, sample 47 carries the last bit of 'B' (a 0), and the result decodes to "AB" |
| CodecProperties.ExampleABShortCarrier | src/main.rs:169-174 | "AB" in 40 samples passes the capacity check, and the encoder's output does not decode |

## Left out

- WAV file I/O through `hound` is not modelled. That covers opening the reader, creating the writer, writing samples and finalizing. The carrier is an in-memory sequence and the encoder's output is a returned sequence. Per-sample read and write errors (the `?` on each sample) are not modelled.
- The output file is created before the capacity check. A rejected payload therefore still leaves an output file behind, and the model does not capture this.
- The WAV sample format is not modelled. Samples are taken as `i32` values, and how `hound` converts 8-, 16- or 24-bit samples is outside the model.
- Integer widths:
  - `message.len() as u32` wraps for payloads of 2^32 bytes or more. The model requires `|m| < 2^32` instead.
  - The model does not capture `usize` overflow of `message.len() * 8 + 1` or of `L * 8`.
  - The model does not capture a carrier longer than `u32` can count.
- The model does not capture allocation failure of `vec![0u8; L]` for a huge announced length `L`.
- `main`, the command-line and GUI structures, and base64 handling are not part of this model. They form the interface around the codec.
- src/encryption.rs is not part of this model. It wraps an external stream cipher and OS randomness.
- src/soundcloudapi.rs is not part of this model. It is an HTTP upload.
- src/sound_generation.rs is not part of this model. It does random floating-point sine synthesis and writes a file.
- The commented-out earlier versions and tests in src/main.rs are not modelled. The round-trip assertion among them is stated as `CodecProperties.RoundTrip`.
