/**
 * The dedup gate of `monitor_and_process_clipboard_image`: a single stored fingerprint
 * (`LAST_IMAGE_HASH`, initially empty) decides whether the image on the clipboard is new.
 *
 * The clipboard read is host I/O: its outcome is passed in, `None` standing for a failed read.
 * The mutex around the stored hash becomes plain sequential access to a field.
 */
module DedupGate {
  import opened Wrappers
  import opened Ints
  import ImageHash
  import opened Normalizer

  /** What the clipboard reader hands over: dimensions and RGBA8 bytes. */
  datatype ClipboardImage = ClipboardImage(width: U32, height: U32, rgba: seq<Byte>)

  /** `ProcessedImageWithSize`: the payload, the encoder's dimensions and the raw byte size. */
  datatype ProcessedImageWithSize = ProcessedImageWithSize(
    base64Data: string,
    width: U32,
    height: U32,
    originalSize: nat)

  type Outcome = Result<Option<ProcessedImageWithSize>, string>

  /**
   * `(width * height * 4) as usize`, multiplied in `u32`: the raw buffer size, wrapping modulo
   * 2^32 as a release build does.
   */
  function OriginalSize(width: U32, height: U32): (n: U32)
    ensures width * height * 4 < TWO_32 ==> n == width * height * 4
    ensures (width * height * 4 - n) % TWO_32 == 0
  {
    WrapU32(width * height * 4)
  }

  /** An image the gate fingerprints: non-zero dimensions and some bytes. */
  predicate Usable(image: ClipboardImage) {
    image.width != 0 && image.height != 0 && |image.rgba| != 0
  }

  /** The result record built from the normaliser's output. */
  function WithSize(p: ProcessedImage, image: ClipboardImage): ProcessedImageWithSize {
    ProcessedImageWithSize(p.base64Data, p.width, p.height, OriginalSize(image.width, image.height))
  }

  /**
   * One invocation of the gate: the stored fingerprint afterwards, and the result. The stored
   * fingerprint is cleared, kept, or replaced by the snapshot's own; an image is offered only
   * when it was replaced by a different one.
   */
  function Monitor(last: string, snapshot: Option<ClipboardImage>, codec: Codec): (r: (string, Outcome))
    ensures r.0 == "" || r.0 == last
            || (snapshot.Some? && Usable(snapshot.value) && r.0 == CurrentHash(snapshot.value))
    ensures r.1.Ok? && r.1.value.Some? ==> r.0 != last && r.0 != ""
  {
    match snapshot
    case None => ("", Ok(None))
    case Some(image) =>
      if !Usable(image) then (last, Ok(None))
      else
        match ImageHash.Fingerprint(image.rgba, image.width, image.height)
        case Err(e) => (last, Err(e))
        case Ok(current) =>
          if last == current then (last, Ok(None))
          else
            (current,
             match Normalize(image.rgba, image.width, image.height, codec)
             case Err(e) => Err(e)
             case Ok(p) => Ok(Some(WithSize(p, image))))
  }

  /** The fingerprint the gate computes for a usable image. */
  function CurrentHash(image: ClipboardImage): (h: string)
    requires Usable(image)
    ensures h != ""
  {
    ImageHash.Fingerprint(image.rgba, image.width, image.height).value
  }

  /**
   * The invocations that produce nothing: a failed read clears the stored hash; an empty or
   * zero-sized image, or one whose fingerprint equals the stored one, leaves it unchanged.
   */
  lemma MonitorNonAdvancing(last: string, snapshot: Option<ClipboardImage>, codec: Codec)
    ensures snapshot.None? ==> Monitor(last, snapshot, codec) == ("", Ok(None))
    ensures snapshot.Some? && !Usable(snapshot.value) ==> Monitor(last, snapshot, codec) == (last, Ok(None))
    ensures snapshot.Some? && Usable(snapshot.value) && CurrentHash(snapshot.value) == last ==>
              Monitor(last, snapshot, codec) == (last, Ok(None))
  {
  }

  /**
   * A usable image with a new fingerprint: the fingerprint is stored whatever the encoder does,
   * an encoder error is passed on, and a success is returned with the encoder's dimensions and
   * the raw size `width * height * 4`.
   */
  lemma MonitorAdvancing(last: string, image: ClipboardImage, codec: Codec)
    requires Usable(image) && CurrentHash(image) != last
    ensures var (next, r) := Monitor(last, Some(image), codec);
      var n := Normalize(image.rgba, image.width, image.height, codec);
      && next == CurrentHash(image)
      && (n.Err? ==> r == Err(n.error))
      && (n.Ok? ==> r.Ok? && r.value.Some?
                    && r.value.value.base64Data == n.value.base64Data
                    && r.value.value.width == image.width && r.value.value.height == image.height
                    && r.value.value.originalSize == OriginalSize(image.width, image.height))
  {
    NormalizeOutcomes(image.rgba, image.width, image.height, codec);
  }

  /**
   * Whatever the stored hash, offering the same image twice in a row yields nothing the second
   * time, and the second call changes no state.
   */
  lemma RepeatIsSuppressed(last: string, snapshot: Option<ClipboardImage>, codec: Codec)
    requires snapshot.Some?
    ensures var (s1, _) := Monitor(last, snapshot, codec);
      Monitor(s1, snapshot, codec) == (s1, Ok(None))
  {
  }

  /** After a failed read, any usable image is offered again: no fingerprint is the empty string. */
  lemma ClearedGateAdvances(image: ClipboardImage, codec: Codec)
    requires Usable(image)
    ensures Monitor("", Some(image), codec).0 == CurrentHash(image)
    ensures Monitor("", Some(image), codec).1.Ok? ==> Monitor("", Some(image), codec).1.value.Some?
  {
  }

  /**
   * In a buffer of 4000 bytes or more, a change below the top quarter of the picture is not
   * noticed: the gate holding the old image's fingerprint treats the new image as a repeat.
   */
  lemma LowerChangeIsRepeat(previous: ClipboardImage, current: ClipboardImage, codec: Codec)
    requires Usable(previous)
    requires current.width == previous.width && current.height == previous.height
    requires |current.rgba| == |previous.rgba| >= 4 * ImageHash.SAMPLE_LIMIT
    requires forall k :: 0 <= k < |previous.rgba| / 4 ==> current.rgba[k] == previous.rgba[k]
    ensures Monitor(CurrentHash(previous), Some(current), codec) == (CurrentHash(previous), Ok(None))
  {
    ImageHash.TopQuarterDecidesFingerprint(previous.rgba, current.rgba, previous.width, previous.height);
  }

  /**
   * The sequence present, present, absent, present from a fresh gate: the first and the last
   * call agree (an image, or the encoder's error), the two middle calls yield nothing.
   */
  lemma PresentPresentAbsentPresent(image: ClipboardImage, codec: Codec)
    requires Usable(image)
    ensures var (s1, r1) := Monitor("", Some(image), codec);
      var (s2, r2) := Monitor(s1, Some(image), codec);
      var (s3, r3) := Monitor(s2, None, codec);
      var (s4, r4) := Monitor(s3, Some(image), codec);
      && r2 == Ok(None) && r3 == Ok(None) && r4 == r1
      && s1 == s2 == s4 == CurrentHash(image) && s3 == ""
      && (r1.Ok? ==> r1.value.Some?)
  {
    ClearedGateAdvances(image, codec);
    RepeatIsSuppressed("", Some(image), codec);
  }

  /** The process-wide gate: `LAST_IMAGE_HASH`, owned by one object. */
  class ClipboardMonitor {
    var lastHash: string

    /** `Mutex::new(String::new())`. */
    constructor ()
      ensures lastHash == ""
    {
      lastHash := "";
    }

    /**
     * `monitor_and_process_clipboard_image`: compare the snapshot's fingerprint with the stored
     * one, store the new fingerprint before encoding, and return the encoded image.
     */
    method MonitorAndProcess(snapshot: Option<ClipboardImage>, codec: Codec) returns (r: Outcome)
      modifies this
      ensures (lastHash, r) == Monitor(old(lastHash), snapshot, codec)
    {
      if snapshot.None? {
        lastHash := "";
        return Ok(None);
      }
      var image := snapshot.value;
      if image.width == 0 || image.height == 0 || |image.rgba| == 0 {
        return Ok(None);
      }
      var hashed := ImageHash.CalculateImageHashInternal(image.rgba, image.width, image.height);
      match hashed {
        case Err(e) =>
          return Err(e);
        case Ok(current) =>
          if lastHash == current {
            return Ok(None);
          }
          lastHash := current;
      }
      var buffer := new Byte[|image.rgba|](i requires 0 <= i < |image.rgba| => image.rgba[i]);
      assert buffer[..] == image.rgba;
      var processed := ProcessImageInternal(buffer, image.width, image.height, codec);
      match processed {
        case Err(e) =>
          return Err(e);
        case Ok(p) =>
          r := Ok(Some(ProcessedImageWithSize(p.base64Data, p.width, p.height,
                                              OriginalSize(image.width, image.height))));
      }
    }
  }

  /** The same image offered present, present, absent, present to a new gate object. */
  method ReplaySameImage(image: ClipboardImage, codec: Codec) returns (r1: Outcome, r2: Outcome, r3: Outcome, r4: Outcome)
    requires Usable(image)
    ensures r2 == Ok(None) && r3 == Ok(None) && r4 == r1
    ensures r1.Ok? <==> Normalize(image.rgba, image.width, image.height, codec).Ok?
    ensures r1.Ok? ==> r1.value.Some?
  {
    var gate := new ClipboardMonitor();
    r1 := gate.MonitorAndProcess(Some(image), codec);
    r2 := gate.MonitorAndProcess(Some(image), codec);
    r3 := gate.MonitorAndProcess(None, codec);
    r4 := gate.MonitorAndProcess(Some(image), codec);
    PresentPresentAbsentPresent(image, codec);
  }
}
