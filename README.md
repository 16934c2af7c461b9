# Clipboard-image pipeline of cut_helper_tauri, modelled in Dafny

This project models the clipboard-image pipeline in
`src-tauri/src/commands/image_processor.rs`. The pipeline has three parts.

- **Fingerprint** (`calculate_image_hash`, `calculate_image_hash_internal`) is a sampling hash of
  an RGBA8 buffer. The token list starts with the decimal width and height. Then it holds one
  token per sampled pixel: its R, G and B bytes in decimal, run together. The stride is
  `len / (min(1000, len/4) * 4)` pixels, or 1. The tokens are joined with `-`. The first 1000
  characters are folded into a wrapping `i32` with `h * 31 + code`, and the fingerprint is the
  decimal rendering of that `i32`.
- **Normaliser** (`process_image_internal`, `process_clipboard_image`) forces every alpha byte to
  255 in place. It wraps the buffer as a `width x height` image, which fails if the buffer is
  too short. It PNG-encodes the image, which may fail, then base64-encodes the PNG bytes. It
  returns `data:image/png;base64,...` together with the input dimensions.
- **Dedup gate** (`monitor_and_process_clipboard_image`) keeps one stored fingerprint
  (`LAST_IMAGE_HASH`). A failed clipboard read clears it. An empty or zero-sized image is
  ignored. A repeated fingerprint yields nothing. A new fingerprint is stored before encoding,
  and the encoded image is returned with `original_size = width * height * 4`.

Files and modules:

- `wrappers.dfy` (`Wrappers`): `Option` and `Result`.
- `ints.dfy` (`Ints`): `u8`, `u32` and `i32` as subsets of `int`. Wrap-around is written out.
- `decimal.dfy` (`Decimal`): Rust's `to_string` on integers, with a parser that proves it injective.
- `image_hash.dfy` (`ImageHash`): the fingerprint.
  - Specification functions: `Step`, `SampledFrom`, `Tokens`, `HashText`, `Window`, `FoldHash` and `Fingerprint`.
    `Mix` and `FoldHash` (the hash loop) are characterised by `MixIsAffine` and
    `FoldHashIsPolynomial`; `Join` and `HashText` (the `join("-")`) by `HashTextShape`.
  - The source's two loops as methods proved against them: `SampleTokens` is the sampling loop.
    `CalculateImageHashInternal` calls it and then runs the hash loop.
  - Lemmas about the fingerprint.
- `normalizer.dfy` (`Normalizer`): alpha repair as an in-place loop on `array<Byte>` (`RepairAlpha`),
  proved against the pixel-by-pixel function `AlphaRepaired`; `ImageBuffer::from_raw` as `FromRaw`;
  the normaliser as `Normalize`.
  - The PNG encoder and the base64 engine come from libraries. They are passed in as a `Codec`
    value: a pair of functions, and the PNG function may fail.
- `dedup_gate.dfy` (`DedupGate`): the gate as a pure transition `Monitor(last, snapshot, codec)`,
  and the class `ClipboardMonitor`, whose field `lastHash` is `LAST_IMAGE_HASH`.
  - `MonitorAndProcess` is proved to update `lastHash` and return exactly as `Monitor` says.
  - `Usable` (the emptiness guard) and `WithSize` (the result record) are characterised by
    `MonitorNonAdvancing` and `MonitorAdvancing`.
  - The clipboard read is a parameter: `None` is a failed read.

Three consequences of the code are proved here and are easy to miss:

- More than 1000 pixels can be sampled. A buffer of 4000 bytes or more can give up to 2000
  samples, and a 7999-byte buffer gives exactly 2000 (`ImageHash.SampleCountBound`).
- Only the first 1000 characters are hashed, and every `-token` takes at least four of them. So
  only the first 250 samples can affect the fingerprint.
  - In a buffer of 4000 bytes or more, a change that lies entirely in the last three quarters of
    the bytes (the lower three quarters of the picture) never changes the fingerprint
    (`ImageHash.TopQuarterDecidesFingerprint`). The gate then treats the changed image as a
    repeat (`DedupGate.LowerChangeIsRepeat`).
- The width and the height lead the hashed text. So two images whose dimensions differ never
  feed the same text to the hash (`ImageHash.WindowDeterminesDimensions`). The `i32` fold may
  still collide.

Three behaviours of the code worth stating:

- `ImageBuffer::from_raw` accepts a buffer that is longer than `width * height * 4`. Only a
  shorter buffer is refused.
- The stride falls back to 1 only when `len / 4` is 0.
- A clipboard read error clears the stored hash without reporting a lock failure.

## Model

| member | source | states |
|---|---|---|
| `Ints.WrapI32` | src-tauri/src/commands/image_processor.rs:113 | the result is an `i32` congruent to its argument modulo 2^32 (two's-complement wrap) |
| `Ints.WrapU32` | src-tauri/src/commands/image_processor.rs:178 | the result is a `u32` congruent to its argument modulo 2^32, equal to it when it fits |
| `Decimal.NatToString` | src-tauri/src/commands/image_processor.rs:88 | `to_string` of an unsigned value is at least one decimal digit, digits only, no leading zero |
| `Decimal.ParseNatToString` | src-tauri/src/commands/image_processor.rs:100-105 | reading the decimal rendering back gives the number again |
| `Decimal.NatToStringInjective` | src-tauri/src/commands/image_processor.rs:201 | two unsigned values render alike exactly when they are equal |
| `Decimal.U32StringLength` | src-tauri/src/commands/image_processor.rs:201 | a `u32` renders in at most ten characters |
| `Decimal.IntToString` | src-tauri/src/commands/image_processor.rs:229 | `i32::to_string` is never empty and starts with `-` exactly for negative values |
| `Decimal.IntToStringInjective` | src-tauri/src/commands/image_processor.rs:161 | two `i32` values render alike exactly when they are equal, so the gate's string comparison compares hashes |
| `ImageHash.SampleSize` | src-tauri/src/commands/image_processor.rs:204 | the stride's target is at most 1000 pixels and at most the whole pixels in the buffer, and at least 1 once a pixel fits |
| `ImageHash.PixelToken` | src-tauri/src/commands/image_processor.rs:213-218 | a pixel's token is its R, G and B in decimal, run together: at least three characters, all digits |
| `ImageHash.SampledFrom` | src-tauri/src/commands/image_processor.rs:211-220 | every token the sampling loop pushes has at least three characters, all digits, so no token contains the `-` separator |
| `ImageHash.Step` | src-tauri/src/commands/image_processor.rs:204-209 | the stride is never zero (so `step_by` cannot panic), and below 4000 bytes it is 1: every pixel is sampled |
| `ImageHash.Stride` | src-tauri/src/commands/image_processor.rs:211 | the byte stride `step * 4` is at least 4 and a multiple of 4 |
| `ImageHash.Window` | src-tauri/src/commands/image_processor.rs:225 | at most 1000 characters enter the hash |
| `ImageHash.Fingerprint` | src-tauri/src/commands/image_processor.rs:196-198 | the fingerprint fails with `Empty RGBA data` exactly for an empty buffer; otherwise it is a non-empty string |
| `ImageHash.SampleTokens` | src-tauri/src/commands/image_processor.rs:201-220 | the sampling loop leaves `hash_parts` equal to width, height and one token per visited pixel |
| `ImageHash.CalculateImageHashInternal` | src-tauri/src/commands/image_processor.rs:191-230 | the method returns exactly the fingerprint (error for empty data, else the decimal wrapped hash of the first 1000 characters) |
| `ImageHash.CalculateImageHash` | src-tauri/src/commands/image_processor.rs:78-117 | the command returns the same fingerprint as the internal twin on every input |
| `ImageHash.SampledFromCount` | src-tauri/src/commands/image_processor.rs:211-212 | after the last sampled offset no further pixel's blue byte fits in the buffer |
| `ImageHash.SampledFromElement` | src-tauri/src/commands/image_processor.rs:211-219 | the k-th sampled token is the R, G, B token of the pixel at byte offset `i + k * stride`, and that pixel's blue byte is inside the buffer |
| `ImageHash.SampledFromAt` | src-tauri/src/commands/image_processor.rs:211-220 | the sampled tokens are exactly one per offset `k * stride` whose blue byte fits, in increasing offset order |
| `ImageHash.SampleCountBound` | src-tauri/src/commands/image_processor.rs:204-220 | at most 1000 samples below 4000 bytes, at most 2000 in general, and exactly 2000 for 7999 bytes |
| `ImageHash.MixIsAffine` | src-tauri/src/commands/image_processor.rs:226 | one round `(h << 5) - h + code`, each step wrapping, equals `31 * h + code` wrapped to `i32` |
| `ImageHash.FoldHashIsPolynomial` | src-tauri/src/commands/image_processor.rs:224-227 | the wrapping fold equals the exact base-31 polynomial of the character codes reduced to `i32` |
| `ImageHash.WindowIgnoresTail` | src-tauri/src/commands/image_processor.rs:225 | characters past the first 1000 cannot change the hash |
| `ImageHash.FingerprintsEqualIffHashesEqual` | src-tauri/src/commands/image_processor.rs:224-229 | two fingerprints are equal strings exactly when their `i32` hashes are equal |
| `ImageHash.HashTextShape` | src-tauri/src/commands/image_processor.rs:223 | the joined text is `width-height` followed by `-token` for each sampled pixel |
| `ImageHash.WindowFields` | src-tauri/src/commands/image_processor.rs:201-225 | in the hashed window the first `-`-separated field is the width and the second the height |
| `ImageHash.WindowDeterminesDimensions` | src-tauri/src/commands/image_processor.rs:201-225 | equal hashed windows imply equal width and equal height, for any buffers |
| `ImageHash.FingerprintIgnoresAlpha` | src-tauri/src/commands/image_processor.rs:211-219 | the alpha bytes are never read: buffers agreeing on every R, G, B byte have equal fingerprints |
| `ImageHash.SameSampleCount` | src-tauri/src/commands/image_processor.rs:211-212 | buffers of one length get the same number of samples |
| `ImageHash.EarlySampleAgrees` | src-tauri/src/commands/image_processor.rs:211-219 | each of the first 250 samples reads only bytes below `250 * stride` |
| `ImageHash.LateBytesCannotChangeFingerprint` | src-tauri/src/commands/image_processor.rs:204-229 | buffers of one length that agree below byte `250 * stride` have equal fingerprints |
| `ImageHash.TopQuarterDecidesFingerprint` | src-tauri/src/commands/image_processor.rs:204-229 | from 4000 bytes on, buffers agreeing on their first quarter have equal fingerprints |
| `Normalizer.AlphaRepaired` | src-tauri/src/commands/image_processor.rs:241-243 | alpha repair keeps the buffer length |
| `Normalizer.AlphaRepairedAt` | src-tauri/src/commands/image_processor.rs:241-243 | every byte at an index `3 mod 4` becomes 255 and every other byte is unchanged |
| `Normalizer.AlphaRepairIdempotent` | src-tauri/src/commands/image_processor.rs:241-243 | repairing an already repaired buffer changes nothing |
| `Normalizer.FingerprintOfRepaired` | src-tauri/src/commands/image_processor.rs:211-219 | fingerprinting before or after alpha repair gives the same result |
| `Normalizer.RepairAlpha` | src-tauri/src/commands/image_processor.rs:240-243 | the in-place loop leaves the array equal to the repaired buffer |
| `Normalizer.FromRaw` | src-tauri/src/commands/image_processor.rs:246-251 | wrapping succeeds exactly when the buffer holds at least `width * height * 4` bytes, and keeps them |
| `Normalizer.Normalize` | src-tauri/src/commands/image_processor.rs:233-276 | success implies the buffer covers `width * height * 4` bytes and echoes the input dimensions as both sizes; a failure is the buffer error or carries the `PNG encoding failed: ` prefix |
| `Normalizer.NormalizeOutcomes` | src-tauri/src/commands/image_processor.rs:246-271 | a short buffer gives `Failed to create image buffer`; an encoder error gives `PNG encoding failed: ` and its message; success exactly otherwise, with the data-URL prefix and width and height equal to original width and height equal to the input |
| `Normalizer.RoundTrip` | src-tauri/src/commands/image_processor.rs:246-264 | with a codec that encodes only the covered pixels and decodes them back exactly, decoding the payload after the prefix gives the first `width * height * 4` alpha-repaired bytes at the input dimensions |
| `Normalizer.ProcessImageInternal` | src-tauri/src/commands/image_processor.rs:233-276 | the buffer is repaired in place and the result is exactly the normaliser's outcome |
| `Normalizer.ProcessClipboardImage` | src-tauri/src/commands/image_processor.rs:28-72 | the command gives the same outcome as the internal twin |
| `DedupGate.OriginalSize` | src-tauri/src/commands/image_processor.rs:178 | `original_size` is `width * height * 4` whenever that fits in `u32`, and wraps modulo 2^32 otherwise |
| `DedupGate.Monitor` | src-tauri/src/commands/image_processor.rs:127-180 | the stored hash afterwards is cleared, kept, or the snapshot's own fingerprint; an image is offered only when the stored hash changed to a non-empty one |
| `DedupGate.CurrentHash` | src-tauri/src/commands/image_processor.rs:154 | the fingerprint of a usable image is never the empty string |
| `DedupGate.MonitorNonAdvancing` | src-tauri/src/commands/image_processor.rs:133-164 | a failed read clears the stored hash and yields nothing; an unusable image or an equal fingerprint yields nothing and changes nothing |
| `DedupGate.MonitorAdvancing` | src-tauri/src/commands/image_processor.rs:165-179 | a new fingerprint is stored even when encoding then fails; encoder errors pass through; success returns the payload, the dimensions and `original_size` |
| `DedupGate.RepeatIsSuppressed` | src-tauri/src/commands/image_processor.rs:157-167 | from any state, the same snapshot offered twice yields nothing the second time and leaves the state alone |
| `DedupGate.ClearedGateAdvances` | src-tauri/src/commands/image_processor.rs:135-139 | after the stored hash was cleared, any usable image is stored and offered |
| `DedupGate.LowerChangeIsRepeat` | src-tauri/src/commands/image_processor.rs:154-164 | from 4000 bytes on, an image of the same size whose first quarter of bytes is unchanged is suppressed as a repeat |
| `DedupGate.PresentPresentAbsentPresent` | src-tauri/src/commands/image_processor.rs:127-180 | from an empty gate, present, present, absent, present yields result, nothing, nothing, the same result |
| `DedupGate.ClipboardMonitor.constructor` | src-tauri/src/commands/image_processor.rs:11-13 | the stored hash starts empty |
| `DedupGate.ClipboardMonitor.MonitorAndProcess` | src-tauri/src/commands/image_processor.rs:127-180 | the method's new stored hash and result are exactly those of the gate transition |
| `DedupGate.ReplaySameImage` | src-tauri/src/commands/image_processor.rs:127-180 | on one gate object the replay gives result, nothing, nothing, same result, and the first is an image exactly when normalisation succeeds |

## Left out

- PNG encoding (`DynamicImage::write_to` with `ImageFormat::Png`) comes from the `image` crate, which is not part of this model. It is a function parameter that may fail, so lossless
  compression is assumed (`Normalizer.Lossless`) rather than proved. `Normalizer.ContainerCodecIsLossless`
  shows that the assumption can be met by a codec that, like PNG, stores only the covered pixels.
- Base64 (`general_purpose::STANDARD.encode`) comes from the `base64` crate, which is not part of this model. It is a function parameter. Only the `data:image/png;base64,` prefix and
  the left inverse assumed in `Normalizer.RoundTrip` are stated about it.
- `Normalizer.RoundTrip`: for a buffer longer than `width * height * 4`, the bytes past that
  length are not in the PNG and do not come back; the round trip is stated for the covered bytes only.
- `Normalizer.FromRaw` follows the documented rule of `ImageBuffer::from_raw`: the buffer must
  hold at least `width * height * 4` bytes. The crate's overflow check on that product is not
  modelled.
- `tokio::task::spawn_blocking` and `.await` are left out, along with the `Task join error` path,
  which only a panicking worker can reach. Each call is modelled as running to completion in
  sequence.
- The `Mutex` around `LAST_IMAGE_HASH` is left out, together with the race between two
  overlapping invocations. Accesses to `lastHash` are sequential. Lock poisoning is left out
  too. Poisoning needs a panic while the lock is held, and no statement run under the lock
  can panic.
- `app.clipboard().read_image()` is host I/O. Its outcome is the `snapshot` parameter.
- `DedupGate.OriginalSize`: models the release-build wrap of the `u32` product at line 178. A
  debug build panics on that overflow instead.
- `DedupGate.ClipboardMonitor.MonitorAndProcess`: the `?` after the hash call (line 154) is modelled, but it is
  unreachable because the bytes were checked to be non-empty.
- `config.rs`, `tray.rs`, `lib.rs`, `cut_admin.rs`, `models/` and the JavaScript front end are
  left out. They hold window, tray, database, settings and polling glue.
