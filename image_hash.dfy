/**
 * The sampling fingerprint of `calculate_image_hash` / `calculate_image_hash_internal`.
 *
 * Tokens: the decimal width, the decimal height, then one token per sampled pixel (its R, G and
 * B bytes in decimal, run together). The tokens are joined with `-`, and the first 1000
 * characters are folded into a wrapping `i32` with `h * 31 + code`. The fingerprint is the
 * decimal rendering of that `i32`.
 */
module ImageHash {
  import opened Wrappers
  import opened Ints
  import opened Decimal

  /** The error of an empty buffer. */
  const EMPTY_DATA := "Empty RGBA data"

  /** At most this many pixels are aimed for when choosing the stride. */
  const SAMPLE_LIMIT: nat := 1000

  /** Only this many characters of the joined tokens enter the hash. */
  const WINDOW: nat := 1000

  /** `1000.min(len / 4)`. */
  function SampleSize(len: nat): (size: nat)
    ensures size <= SAMPLE_LIMIT && size * 4 <= len
    ensures len >= 4 ==> size >= 1
  {
    if len / 4 < SAMPLE_LIMIT then len / 4 else SAMPLE_LIMIT
  }

  lemma StrideQuotient(len: nat)
    requires SampleSize(len) > 0
    ensures len / (SampleSize(len) * 4) >= 1
    ensures len < 4 * SAMPLE_LIMIT ==> len / (SampleSize(len) * 4) == 1
  {
    var d := SampleSize(len) * 4;
    QuotientOfBetween(len, d);
    if len < 4 * SAMPLE_LIMIT {
      assert len / 4 * 4 == d;
    }
  }

  /** A dividend between the divisor and twice it has quotient 1; at least the divisor, at least 1. */
  lemma QuotientOfBetween(n: nat, d: nat)
    requires 0 < d <= n
    ensures n / d >= 1
    ensures n < 2 * d ==> n / d == 1
  {
    var q, r := n / d, n % d;
    assert n == d * q + r && 0 <= r < d;
  }

  /**
   * The pixel stride: `len / (sample_size * 4)`, or 1 when no whole pixel fits. It is never
   * zero, so `step_by(step * 4)` cannot panic and the sampling loop terminates. Below 4000 bytes
   * every pixel is sampled.
   */
  function Step(len: nat): (step: nat)
    ensures step >= 1
    ensures len < 4 * SAMPLE_LIMIT ==> step == 1
  {
    var size := SampleSize(len);
    if size > 0 then
      StrideQuotient(len);
      len / (size * 4)
    else 1
  }

  /** The byte stride `step * 4`: sampled offsets are whole-pixel boundaries. */
  function Stride(len: nat): (stride: nat)
    ensures stride >= 4 && stride % 4 == 0
  {
    4 * Step(len)
  }

  /** `format!("{}{}{}", b[i], b[i + 1], b[i + 2])`: the R, G and B bytes of the pixel at `i`. */
  function PixelToken(b: seq<Byte>, i: nat): (t: string)
    requires i + 2 < |b|
    ensures |t| >= 3 && AllDigits(t)
  {
    NatToString(b[i]) + NatToString(b[i + 1]) + NatToString(b[i + 2])
  }

  /**
   * The tokens pushed by the sampling loop from offset `i` on: offsets `i`, `i + stride`, ...
   * below `|b|`, skipping an offset whose blue byte lies past the end.
   */
  function SampledFrom(b: seq<Byte>, stride: nat, i: nat): (tokens: seq<string>)
    requires stride > 0
    ensures forall k :: 0 <= k < |tokens| ==> |tokens[k]| >= 3 && AllDigits(tokens[k])
    decreases |b| - i
  {
    if i >= |b| then []
    else (if i + 2 < |b| then [PixelToken(b, i)] else []) + SampledFrom(b, stride, i + stride)
  }

  /** The token list `hash_parts` once the sampling loop is done. */
  function Tokens(b: seq<Byte>, width: U32, height: U32): seq<string> {
    [NatToString(width), NatToString(height)] + SampledFrom(b, Stride(|b|), 0)
  }

  /** `parts.join(sep)`. */
  function Join(parts: seq<string>, sep: string): string {
    if parts == [] then "" else parts[0] + Prefixed(parts[1..], sep)
  }

  /** Each part preceded by the separator. */
  function Prefixed(parts: seq<string>, sep: string): string {
    if parts == [] then "" else sep + parts[0] + Prefixed(parts[1..], sep)
  }

  /** `hash_parts.join("-")`. */
  function HashText(b: seq<Byte>, width: U32, height: U32): string {
    Join(Tokens(b, width, height), "-")
  }

  /** `s.chars().take(1000)`. */
  function Window(s: string): (w: string)
    ensures |w| <= WINDOW
  {
    if |s| <= WINDOW then s else s[..WINDOW]
  }

  /** One round of the hash loop: `((h << 5).wrapping_sub(h)).wrapping_add(c as i32)`. */
  function Mix(h: I32, c: char): I32 {
    WrapI32(WrapI32(WrapI32(h * 32) - h) + c as int)
  }

  /** The hash loop as a left fold from 0. */
  function FoldHash(s: string): I32 {
    if s == [] then 0 else Mix(FoldHash(s[..|s| - 1]), s[|s| - 1])
  }

  /** The fingerprint of `calculate_image_hash`: an error exactly for the empty buffer. */
  function Fingerprint(b: seq<Byte>, width: U32, height: U32): (r: Result<string, string>)
    ensures r.Err? <==> |b| == 0
    ensures r.Err? ==> r.error == EMPTY_DATA
    ensures r.Ok? ==> r.value != ""
  {
    if |b| == 0 then Err(EMPTY_DATA)
    else Ok(IntToString(FoldHash(Window(HashText(b, width, height)))))
  }

  /**
   * The first half of `calculate_image_hash_internal`: with the stride of `Stride`, the sampling
   * loop pushing one token per visited pixel into `hash_parts`.
   */
  method SampleTokens(data: seq<Byte>, width: U32, height: U32) returns (parts: seq<string>)
    ensures parts == Tokens(data, width, height)
  {
    parts := [NatToString(width), NatToString(height)];
    var stride := Stride(|data|);
    var i := 0;
    while i < |data|
      invariant parts + SampledFrom(data, stride, i) == Tokens(data, width, height)
      decreases |data| - i
    {
      ghost var rest := SampledFrom(data, stride, i + stride);
      if i + 2 < |data| {
        assert SampledFrom(data, stride, i) == [PixelToken(data, i)] + rest;
        ghost var before := parts;
        parts := parts + [NatToString(data[i]) + NatToString(data[i + 1]) + NatToString(data[i + 2])];
        assert parts + rest == before + ([PixelToken(data, i)] + rest);
      } else {
        assert SampledFrom(data, stride, i) == rest;
      }
      i := i + stride;
    }
  }

  /**
   * `calculate_image_hash_internal`: the empty-buffer check, the token list, the join, and the
   * hash loop over the first 1000 characters.
   */
  method CalculateImageHashInternal(data: seq<Byte>, width: U32, height: U32) returns (r: Result<string, string>)
    ensures r == Fingerprint(data, width, height)
  {
    if |data| == 0 {
      return Err(EMPTY_DATA);
    }
    var parts := SampleTokens(data, width, height);
    var text := Join(parts, "-");
    var n := if |text| < WINDOW then |text| else WINDOW;
    var hash: I32 := 0;
    var j := 0;
    while j < n
      invariant 0 <= j <= n
      invariant hash == FoldHash(text[..j])
    {
      assert text[..j + 1][..j] == text[..j];
      hash := Mix(hash, text[j]);
      j := j + 1;
    }
    assert text[..n] == Window(text);
    r := Ok(IntToString(hash));
  }

  /** `calculate_image_hash`, the command: the same computation as the internal twin. */
  method CalculateImageHash(data: seq<Byte>, width: U32, height: U32) returns (r: Result<string, string>)
    ensures r == Fingerprint(data, width, height)
  {
    r := CalculateImageHashInternal(data, width, height);
  }

  // ---------------------------------------------------------------------------------------------
  // Which pixels are sampled

  lemma MulStep(k: nat, stride: nat)
    ensures (k + 1) * stride == k * stride + stride
  {
  }

  /** No pixel fits past the last sampled offset. */
  lemma {:induction false} SampledFromCount(b: seq<Byte>, stride: nat, i: nat)
    requires stride >= 3
    ensures i + |SampledFrom(b, stride, i)| * stride + 2 >= |b|
    decreases |b| - i
  {
    if i < |b| {
      var rest := SampledFrom(b, stride, i + stride);
      SampledFromCount(b, stride, i + stride);
      if i + 2 < |b| {
        assert |SampledFrom(b, stride, i)| == |rest| + 1;
        MulStep(|rest|, stride);
      } else {
        assert rest == [];
      }
    }
  }

  /** The `k`-th sampled token is the RGB token of the pixel at offset `i + k * stride`. */
  lemma {:induction false} SampledFromElement(b: seq<Byte>, stride: nat, i: nat, k: nat)
    requires stride >= 3 && k < |SampledFrom(b, stride, i)|
    ensures i + k * stride + 2 < |b| && SampledFrom(b, stride, i)[k] == PixelToken(b, i + k * stride)
    decreases |b| - i
  {
    var rest := SampledFrom(b, stride, i + stride);
    if i + 2 < |b| {
      assert SampledFrom(b, stride, i) == [PixelToken(b, i)] + rest;
      if k > 0 {
        SampledFromElement(b, stride, i + stride, k - 1);
        MulStep(k - 1, stride);
      }
    }
  }

  /**
   * The sampled tokens, one per offset `i + k * stride` whose blue byte is in the buffer, in
   * increasing offset order; the count is the first `k` whose pixel no longer fits.
   */
  lemma SampledFromAt(b: seq<Byte>, stride: nat, i: nat)
    requires stride >= 3
    ensures i + |SampledFrom(b, stride, i)| * stride + 2 >= |b|
    ensures forall k :: 0 <= k < |SampledFrom(b, stride, i)| ==>
              i + k * stride + 2 < |b| && SampledFrom(b, stride, i)[k] == PixelToken(b, i + k * stride)
  {
    SampledFromCount(b, stride, i);
    forall k | 0 <= k < |SampledFrom(b, stride, i)|
      ensures i + k * stride + 2 < |b| && SampledFrom(b, stride, i)[k] == PixelToken(b, i + k * stride)
    {
      SampledFromElement(b, stride, i, k);
    }
  }

  lemma MulMono(a: nat, b: nat, c: nat)
    requires a <= b
    ensures a * c <= b * c
  {
  }

  /**
   * At most 1000 pixels are sampled below 4000 bytes, but up to 2000 above: a 7999-byte buffer
   * gets stride 4 and 2000 samples. `sample_size` caps the stride's target at 1000 pixels; it
   * does not bound how many are sampled.
   */
  lemma SampleCountBound(b: seq<Byte>)
    ensures var n := |SampledFrom(b, Stride(|b|), 0)|;
      n <= 2 * SAMPLE_LIMIT
      && (|b| < 4 * SAMPLE_LIMIT ==> n <= SAMPLE_LIMIT)
      && (|b| == 7999 ==> n == 2 * SAMPLE_LIMIT)
  {
    var stride := Stride(|b|);
    var n := |SampledFrom(b, stride, 0)|;
    assert n > 0 ==> (n - 1) * stride + 2 < |b| by {
      SampledFromAt(b, stride, 0);
      if n > 0 {
        assert 0 + (n - 1) * stride + 2 < |b|;
      }
    }
    assert n * stride + 2 >= |b| by {
      SampledFromAt(b, stride, 0);
    }
    if |b| < 4 * SAMPLE_LIMIT {
      assert stride == 4;
    } else {
      var step := |b| / 4000;
      assert stride == 4 * step && step >= 1;
      if n > 2000 {
        assert 2000 * stride <= (n - 1) * stride by {
          MulMono(2000, n - 1, stride);
        }
        assert false;
      }
    }
  }

  // ---------------------------------------------------------------------------------------------
  // The hash

  /** One round of the loop is `31 * h + code`, wrapped to `i32`. */
  lemma MixIsAffine(h: I32, c: char)
    ensures Mix(h, c) == WrapI32(31 * h + c as int)
  {
    var a := WrapI32(h * 32);
    var qa := (h * 32 - a) / TWO_32;
    assert a == h * 32 - TWO_32 * qa;
    var b := WrapI32(a - h);
    var qb := (a - h - b) / TWO_32;
    assert b == a - h - TWO_32 * qb;
    var x := 31 * h + c as int;
    assert b + c as int == x + TWO_32 * (-(qa + qb));
    WrapI32Shift(x, -(qa + qb));
  }

  /** The hash as a polynomial in 31 over the character codes, most significant first. */
  function Polynomial(s: string): int {
    if s == [] then 0 else 31 * Polynomial(s[..|s| - 1]) + s[|s| - 1] as int
  }

  /** Scaling by 31 and adding a code keeps two congruent values congruent. */
  lemma AffineCongruent(h: int, p: int, code: int)
    requires (p - h) % TWO_32 == 0
    ensures WrapI32(31 * h + code) == WrapI32(31 * p + code)
  {
    var q := (p - h) / TWO_32;
    assert h == p - TWO_32 * q;
    assert 31 * h + code == (31 * p + code) + TWO_32 * (-31 * q);
    WrapI32Shift(31 * p + code, -31 * q);
  }

  /** The wrapping fold equals the exact polynomial reduced to `i32`: wrapping early loses nothing. */
  lemma {:induction false} FoldHashIsPolynomial(s: string)
    ensures FoldHash(s) == WrapI32(Polynomial(s))
  {
    if s != [] {
      var p := s[..|s| - 1];
      var code := s[|s| - 1] as int;
      FoldHashIsPolynomial(p);
      var h := FoldHash(p);
      MixIsAffine(h, s[|s| - 1]);
      assert FoldHash(s) == WrapI32(31 * h + code);
      assert Polynomial(s) == 31 * Polynomial(p) + code;
      AffineCongruent(h, Polynomial(p), code);
    }
  }

  /** Characters after the first 1000 cannot change the hash. */
  lemma WindowIgnoresTail(s: string, t: string)
    requires |s| >= WINDOW
    ensures Window(s + t) == Window(s)
    ensures FoldHash(Window(s + t)) == FoldHash(Window(s))
  {
    assert (s + t)[..WINDOW] == s[..WINDOW];
  }

  /** Two non-empty buffers have the same fingerprint exactly when their `i32` hashes agree. */
  lemma FingerprintsEqualIffHashesEqual(a: seq<Byte>, wa: U32, ha: U32, b: seq<Byte>, wb: U32, hb: U32)
    requires |a| > 0 && |b| > 0
    ensures Fingerprint(a, wa, ha) == Fingerprint(b, wb, hb)
        <==> FoldHash(Window(HashText(a, wa, ha))) == FoldHash(Window(HashText(b, wb, hb)))
  {
    IntToStringInjective(FoldHash(Window(HashText(a, wa, ha))), FoldHash(Window(HashText(b, wb, hb))));
  }

  // ---------------------------------------------------------------------------------------------
  // What the fingerprint can and cannot see

  lemma JoinTwoThenRest(x: string, y: string, rest: seq<string>, sep: string)
    ensures Join([x, y] + rest, sep) == x + sep + y + Prefixed(rest, sep)
  {
    var t := [x, y] + rest;
    assert t[1..] == [y] + rest;
    assert t[1..][1..] == rest;
  }

  /** The joined text is `width-height` followed by `-token` for each sampled pixel. */
  lemma HashTextShape(b: seq<Byte>, width: U32, height: U32)
    ensures HashText(b, width, height)
         == NatToString(width) + "-" + NatToString(height) + Prefixed(SampledFrom(b, Stride(|b|), 0), "-")
  {
    JoinTwoThenRest(NatToString(width), NatToString(height), SampledFrom(b, Stride(|b|), 0), "-");
  }

  /** The characters before the first `-`. */
  function Field(s: string): (f: string)
    ensures f <= s && forall k :: 0 <= k < |f| ==> f[k] != '-'
    ensures |f| < |s| ==> s[|f|] == '-'
  {
    if s == [] || s[0] == '-' then [] else [s[0]] + Field(s[1..])
  }

  lemma {:induction false} FieldOfDigits(d: string, rest: string)
    requires AllDigits(d) && (rest == [] || rest[0] == '-')
    ensures Field(d + rest) == d
  {
    if d == [] {
      assert d + rest == rest;
    } else {
      assert (d + rest)[1..] == d[1..] + rest;
      FieldOfDigits(d[1..], rest);
    }
  }

  lemma LeadingFields(dw: string, dh: string, p: string)
    requires AllDigits(dw) && AllDigits(dh) && |dw| <= 10 && |dh| <= 10
    requires p == [] || p[0] == '-'
    ensures var x := Window(dw + "-" + dh + p);
      |dw| < |x| && Field(x) == dw && Field(x[|dw| + 1..]) == dh
  {
    var t := dw + "-" + dh + p;
    var x := Window(t);
    var m := |x| - |dw| - 1 - |dh|;
    assert 0 <= m <= |p|;
    var p' := p[..m];
    assert p' == [] || p'[0] == '-';
    assert x == dw + ("-" + (dh + p'));
    FieldOfDigits(dw, "-" + (dh + p'));
    assert x[|dw| + 1..] == dh + p';
    FieldOfDigits(dh, p');
  }

  lemma PrefixedStartsWithSeparator(parts: seq<string>)
    ensures Prefixed(parts, "-") == [] || Prefixed(parts, "-")[0] == '-'
  {
  }

  /** Within the hashed window, the first field is the width and the second the height. */
  lemma WindowFields(b: seq<Byte>, width: U32, height: U32)
    ensures var x := Window(HashText(b, width, height));
      |NatToString(width)| < |x|
      && Field(x) == NatToString(width)
      && Field(x[|NatToString(width)| + 1..]) == NatToString(height)
  {
    var parts := SampledFrom(b, Stride(|b|), 0);
    HashTextShape(b, width, height);
    U32StringLength(width);
    U32StringLength(height);
    PrefixedStartsWithSeparator(parts);
    LeadingFields(NatToString(width), NatToString(height), Prefixed(parts, "-"));
  }

  /**
   * Buffers read with different dimensions never hash the same text: the width and height lead
   * the hashed window. (The `i32` fold itself may still collide.)
   */
  lemma WindowDeterminesDimensions(a: seq<Byte>, wa: U32, ha: U32, b: seq<Byte>, wb: U32, hb: U32)
    requires Window(HashText(a, wa, ha)) == Window(HashText(b, wb, hb))
    ensures wa == wb && ha == hb
  {
    WindowFields(a, wa, ha);
    WindowFields(b, wb, hb);
    NatToStringInjective(wa, wb);
    NatToStringInjective(ha, hb);
  }

  /** Two buffers of one length that agree on every R, G and B byte (alpha may differ). */
  predicate SameRgb(a: seq<Byte>, b: seq<Byte>) {
    |a| == |b| && forall k :: 0 <= k < |a| && k % 4 != 3 ==> a[k] == b[k]
  }

  lemma SameRgbAt(a: seq<Byte>, b: seq<Byte>, k: nat)
    requires SameRgb(a, b) && k < |a| && k % 4 != 3
    ensures a[k] == b[k]
  {
  }

  /** A pixel starting on a 4-byte boundary has the same token in two buffers with the same RGB. */
  lemma PixelTokensAgree(a: seq<Byte>, b: seq<Byte>, i: nat)
    requires SameRgb(a, b) && i % 4 == 0 && i + 2 < |a|
    ensures PixelToken(a, i) == PixelToken(b, i)
  {
    SameRgbAt(a, b, i);
    SameRgbAt(a, b, i + 1);
    SameRgbAt(a, b, i + 2);
  }

  lemma MultiplesOfFourAdd(i: nat, stride: nat)
    requires i % 4 == 0 && stride % 4 == 0
    ensures (i + stride) % 4 == 0
  {
    assert i + stride == 4 * (i / 4 + stride / 4);
  }

  lemma {:induction false} SampledFromIgnoresAlpha(a: seq<Byte>, b: seq<Byte>, stride: nat, i: nat)
    requires SameRgb(a, b) && stride > 0 && stride % 4 == 0 && i % 4 == 0
    ensures SampledFrom(a, stride, i) == SampledFrom(b, stride, i)
    decreases |a| - i
  {
    if i < |a| {
      MultiplesOfFourAdd(i, stride);
      SampledFromIgnoresAlpha(a, b, stride, i + stride);
      if i + 2 < |a| {
        PixelTokensAgree(a, b, i);
      }
    }
  }

  /** Only R, G and B bytes are sampled: the alpha channel never affects the fingerprint. */
  lemma FingerprintIgnoresAlpha(a: seq<Byte>, b: seq<Byte>, width: U32, height: U32)
    requires SameRgb(a, b)
    ensures Fingerprint(a, width, height) == Fingerprint(b, width, height)
  {
    SampledFromIgnoresAlpha(a, b, Stride(|a|), 0);
  }

  lemma {:induction false} PrefixedAppend(x: seq<string>, y: seq<string>, sep: string)
    ensures Prefixed(x + y, sep) == Prefixed(x, sep) + Prefixed(y, sep)
  {
    if x == [] {
      assert x + y == y;
    } else {
      assert (x + y)[1..] == x[1..] + y;
      PrefixedAppend(x[1..], y, sep);
    }
  }

  lemma {:induction false} PrefixedLength(parts: seq<string>)
    requires forall k :: 0 <= k < |parts| ==> |parts[k]| >= 3
    ensures |Prefixed(parts, "-")| >= 4 * |parts|
  {
    if parts != [] {
      PrefixedLength(parts[1..]);
    }
  }

  /** How many samples can influence the hash: each `-token` takes at least four characters. */
  const VISIBLE_SAMPLES: nat := 250

  /** Both buffers of one length sample the same offsets, and so the same number of pixels. */
  lemma SameSampleCount(a: seq<Byte>, b: seq<Byte>, stride: nat)
    requires |a| == |b| && stride >= 3
    ensures |SampledFrom(a, stride, 0)| == |SampledFrom(b, stride, 0)|
  {
    var na, nb := |SampledFrom(a, stride, 0)|, |SampledFrom(b, stride, 0)|;
    SampledFromCount(a, stride, 0);
    SampledFromCount(b, stride, 0);
    if na < nb {
      SampledFromElement(b, stride, 0, na);
    } else if nb < na {
      SampledFromElement(a, stride, 0, nb);
    }
  }

  /** A sampled pixel among the first 250 lies wholly below byte `250 * stride`. */
  lemma EarlySampleAgrees(a: seq<Byte>, b: seq<Byte>, stride: nat, k: nat)
    requires |a| == |b| && stride >= 3 && k < VISIBLE_SAMPLES
    requires k < |SampledFrom(a, stride, 0)| && k < |SampledFrom(b, stride, 0)|
    requires forall j :: 0 <= j < |a| && j < VISIBLE_SAMPLES * stride ==> a[j] == b[j]
    ensures SampledFrom(a, stride, 0)[k] == SampledFrom(b, stride, 0)[k]
  {
    OffsetBelowLimit(k, stride);
    var o: nat := k * stride;
    var limit := VISIBLE_SAMPLES * stride;
    FirstSampledAt(a, stride, k, o);
    FirstSampledAt(b, stride, k, o);
    PixelTokenOfAgreeingBytes(a, b, o, limit);
  }

  /** `SampledFromElement` from offset 0, with the pixel offset named. */
  lemma FirstSampledAt(b: seq<Byte>, stride: nat, k: nat, o: nat)
    requires stride >= 3 && k < |SampledFrom(b, stride, 0)| && o == k * stride
    ensures o + 2 < |b| && SampledFrom(b, stride, 0)[k] == PixelToken(b, o)
  {
    SampledFromElement(b, stride, 0, k);
  }

  lemma OffsetBelowLimit(k: nat, stride: nat)
    requires stride >= 3 && k < VISIBLE_SAMPLES
    ensures 0 <= k * stride && k * stride + 2 < VISIBLE_SAMPLES * stride
  {
    MulMono(0, k, stride);
    MulMono(k + 1, VISIBLE_SAMPLES, stride);
    MulStep(k, stride);
  }

  lemma PixelTokenOfAgreeingBytes(a: seq<Byte>, b: seq<Byte>, o: nat, limit: nat)
    requires |a| == |b| && o + 2 < |a| && o + 2 < limit
    requires forall j :: 0 <= j < |a| && j < limit ==> a[j] == b[j]
    ensures PixelToken(a, o) == PixelToken(b, o)
  {
    assert a[o] == b[o] && a[o + 1] == b[o + 1] && a[o + 2] == b[o + 2];
  }

  /** Once 250 tokens of at least three characters follow the head, what comes after is outside the window. */
  lemma TokensPastWindowIgnored(head: string, x: seq<string>, ya: seq<string>, yb: seq<string>)
    requires |x| == VISIBLE_SAMPLES
    requires forall k :: 0 <= k < |x| ==> |x[k]| >= 3
    ensures Window(head + Prefixed(x + ya, "-")) == Window(head + Prefixed(x + yb, "-"))
  {
    PrefixedAppend(x, ya, "-");
    PrefixedAppend(x, yb, "-");
    PrefixedLength(x);
    var h := head + Prefixed(x, "-");
    assert head + Prefixed(x + ya, "-") == h + Prefixed(ya, "-");
    assert head + Prefixed(x + yb, "-") == h + Prefixed(yb, "-");
    WindowIgnoresTail(h, Prefixed(ya, "-"));
    WindowIgnoresTail(h, Prefixed(yb, "-"));
  }

  /**
   * Only the first 250 sampled pixels reach the 1000-character window: two buffers of one length
   * that agree below byte `250 * stride` have the same fingerprint, whatever follows.
   */
  lemma LateBytesCannotChangeFingerprint(a: seq<Byte>, b: seq<Byte>, width: U32, height: U32)
    requires |a| == |b|
    requires forall k :: 0 <= k < |a| && k < VISIBLE_SAMPLES * Stride(|a|) ==> a[k] == b[k]
    ensures Fingerprint(a, width, height) == Fingerprint(b, width, height)
  {
    var stride := Stride(|a|);
    var sa, sb := SampledFrom(a, stride, 0), SampledFrom(b, stride, 0);
    SameSampleCount(a, b, stride);
    var m := if |sa| < VISIBLE_SAMPLES then |sa| else VISIBLE_SAMPLES;
    forall k | 0 <= k < m
      ensures sa[k] == sb[k]
    {
      EarlySampleAgrees(a, b, stride, k);
    }
    HashTextShape(a, width, height);
    HashTextShape(b, width, height);
    var head := NatToString(width) + "-" + NatToString(height);
    if |sa| <= VISIBLE_SAMPLES {
      assert sa == sb;
    } else {
      var x := sa[..VISIBLE_SAMPLES];
      assert x == sb[..VISIBLE_SAMPLES];
      assert sa == x + sa[VISIBLE_SAMPLES..];
      assert sb == x + sb[VISIBLE_SAMPLES..];
      forall k | 0 <= k < |x|
        ensures |x[k]| >= 3
      {
        SampledFromElement(a, stride, 0, k);
      }
      TokensPastWindowIgnored(head, x, sa[VISIBLE_SAMPLES..], sb[VISIBLE_SAMPLES..]);
    }
  }

  /**
   * For a buffer of 4000 bytes or more, a change confined to its last three quarters (the lower
   * three quarters of the picture) never changes the fingerprint.
   */
  lemma TopQuarterDecidesFingerprint(a: seq<Byte>, b: seq<Byte>, width: U32, height: U32)
    requires |a| == |b| && |a| >= 4 * SAMPLE_LIMIT
    requires forall k :: 0 <= k < |a| / 4 ==> a[k] == b[k]
    ensures Fingerprint(a, width, height) == Fingerprint(b, width, height)
  {
    assert VISIBLE_SAMPLES * Stride(|a|) <= |a| / 4;
    LateBytesCannotChangeFingerprint(a, b, width, height);
  }
}
