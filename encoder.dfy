/** Encoder selection and output scaling (graphics/ffmpegEncoding.go).
    The `lspci` probes and the `ffmpeg -encoders` checks are shell
    commands; here their outcomes are inputs: a probe is `None` when the
    command fails and `Some(output)` otherwise, and encoder availability
    is a predicate on the codec name. */
module Encoder {
  import opened Common
  import opened Text

  // ---------------------------------------------------------------
  // GPU classification

  /** The outputs of the three `lspci | grep` probes. */
  datatype GpuProbes = GpuProbes(nvidia: Option<string>, amd: Option<string>, intel: Option<string>)

  /** A probe found something: the command succeeded with output. */
  predicate Hit(probe: Option<string>)
  {
    probe.Some? && |probe.value| > 0
  }

  /** An AMD display controller is discrete when its description names
      a Radeon. */
  predicate IsRadeon(output: string)
  {
    Contains(ToLower(output), "radeon")
  }

  predicate IsIntegratedClass(gpuType: string)
  {
    gpuType == "amd_integrated" || gpuType == "intel_integrated"
  }

  /** The class `getGPUInfo` reports, by priority: an Intel display
      first, then an AMD one without a Radeon (both integrated), then a
      Radeon, then NVIDIA, and "unknown" with no hit. */
  function Classification(p: GpuProbes): (r: (string, bool))
    ensures r.1 <==> IsIntegratedClass(r.0)
    ensures !Hit(p.nvidia) && !Hit(p.amd) && !Hit(p.intel) ==> r == ("unknown", false)
    ensures Hit(p.intel) ==> r == ("intel_integrated", true)
  {
    if Hit(p.intel) then ("intel_integrated", true)
    else if Hit(p.amd) && !IsRadeon(p.amd.value) then ("amd_integrated", true)
    else if Hit(p.amd) then ("amd_discrete", false)
    else if Hit(p.nvidia) then ("nvidia", false)
    else ("unknown", false)
  }

  /** `getGPUInfo`: the probes run in order and each hit overwrites the
      integrated or the discrete candidate; an integrated one wins. */
  method GetGPUInfo(p: GpuProbes) returns (gpuType: string, isIntegrated: bool)
    ensures (gpuType, isIntegrated) == Classification(p)
  {
    var integrated, discrete := "", "";
    if Hit(p.nvidia) {
      discrete := "nvidia";
    }
    if Hit(p.amd) {
      var out := ToLower(p.amd.value);
      if Contains(out, "radeon") {
        discrete := "amd_discrete";
      } else {
        integrated := "amd_integrated";
      }
    }
    if Hit(p.intel) {
      integrated := "intel_integrated";
    }
    if integrated != "" {
      return integrated, true;
    }
    if discrete != "" {
      return discrete, false;
    }
    return "unknown", false;
  }

  // ---------------------------------------------------------------
  // Resolution ceilings and scaling

  /** `getMaxResolution`: the largest frame each class encodes. */
  function MaxResolution(gpuType: string): (r: (int, int))
    ensures r.0 % 2 == 0 && r.1 % 2 == 0
    ensures 1920 <= r.0 && 1080 <= r.1 <= r.0
    ensures IsIntegratedClass(gpuType) ==> r == (3840, 2160)
  {
    match gpuType
    case "nvidia" => (8192, 8192)
    case "amd_discrete" => (4096, 4096)
    case "amd_integrated" => (3840, 2160)
    case "intel_integrated" => (3840, 2160)
    case _ => (1920, 1080)
  }

  /** `minFloat`: the smaller of two numbers, the second on a tie. */
  function MinFloat(a: real, b: real): (r: real)
    ensures r <= a && r <= b
    ensures r == a || r == b
    ensures a == b ==> r == b
  {
    if a < b then a else b
  }

  /** The largest even number not above `n` (`n--` when `n % 2 != 0`). */
  function EvenDown(n: nat): (r: nat)
    ensures r % 2 == 0 && r <= n && n - r <= 1
  {
    if n % 2 != 0 then n - 1 else n
  }

  predicate WithinCeiling(width: int, height: int, gpuType: string)
  {
    width <= MaxResolution(gpuType).0 && height <= MaxResolution(gpuType).1
  }

  /** `calculateScaledDimensions` in exact arithmetic. A frame within
      the ceiling is returned unchanged. Otherwise the scale is the
      smaller of `maxW / width` and `maxH / height` (the height one on a
      tie, as `minFloat` picks), both sides are multiplied by it and
      truncated, and each is then rounded down to an even number. */
  function ScaledDimensions(width: int, height: int, gpuType: string): (r: (int, int))
    requires WithinCeiling(width, height, gpuType) || (width >= 0 && height >= 0)
    ensures WithinCeiling(width, height, gpuType) ==> r == (width, height)
    ensures !WithinCeiling(width, height, gpuType) ==>
              && 0 <= r.0 <= MaxResolution(gpuType).0 && 0 <= r.1 <= MaxResolution(gpuType).1
              && r.0 <= width && r.1 <= height
              && r.0 % 2 == 0 && r.1 % 2 == 0
  {
    var (maxW, maxH) := MaxResolution(gpuType);
    if width <= maxW && height <= maxH then (width, height)
    else if maxW * height < maxH * width then
      ScaledBy(width, height, maxW, maxH);
      (EvenDown(maxW), EvenDown(height * maxW / width))
    else
      ScaledBy(height, width, maxH, maxW);
      (EvenDown(width * maxH / height), EvenDown(maxH))
  }

  /** Scaling `(a, b)` by `maxA / a`, the smaller of the two ratios, keeps
      both sides within their ceilings and below the input. */
  lemma ScaledBy(a: int, b: int, maxA: int, maxB: int)
    requires a > 0 && b >= 0 && maxA > 0 && maxB > 0
    requires a > maxA || b > maxB
    requires maxA * b <= maxB * a
    ensures maxA < a
    ensures 0 <= b * maxA / a <= maxB
    ensures b * maxA / a <= b
  {
    if maxA >= a {
      MulLe(a, maxA, b);
      MulLt(maxB, b, a);
      MulComm(a, b);
      assert false;
    }
    var n := b * maxA;
    MulComm(b, maxA);
    MulLe(0, maxA, b);
    DivLe(n, a, maxB);
    MulLe(maxA, a, b);
    MulComm(a, b);
    DivLe(n, a, b);
  }

  /** The scale `calculateScaledDimensions` applies, in real arithmetic. */
  function ScaleFactor(width: int, height: int, gpuType: string): (s: real)
    requires width > 0 && height > 0
    ensures s > 0.0
  {
    var (maxW, maxH) := MaxResolution(gpuType);
    MinFloat(maxW as real / width as real, maxH as real / height as real)
  }

  /** `x * (n / d)` truncated is `x * n / d` for non-negative numbers. */
  lemma FloorOfScaled(x: int, n: int, d: int)
    requires x >= 0 && n >= 0 && d > 0
    ensures (x as real * (n as real / d as real)).Floor == x * n / d
  {
    var q, rem := x * n / d, x * n % d;
    assert x * n == q * d + rem && 0 <= rem < d;
    assert x as real * (n as real / d as real) == (x * n) as real / d as real;
    assert (x * n) as real / d as real == q as real + rem as real / d as real;
  }

  /** `calculateScaledDimensions` over the reals: both sides multiplied
      by the scale, truncated, then rounded down to even. */
  function RealScaled(width: int, height: int, gpuType: string): (int, int)
    requires width > 0 && height > 0
  {
    var s := ScaleFactor(width, height, gpuType);
    var w, h := (width as real * s).Floor, (height as real * s).Floor;
    (if w >= 0 then EvenDown(w) else w, if h >= 0 then EvenDown(h) else h)
  }

  /** The integer formula is the real-arithmetic scaling the source
      computes in floating point. */
  lemma ScaledDimensionsExact(width: int, height: int, gpuType: string)
    requires width > 0 && height > 0 && !WithinCeiling(width, height, gpuType)
    ensures ScaledDimensions(width, height, gpuType) == RealScaled(width, height, gpuType)
  {
    var maxW, maxH := MaxResolution(gpuType).0, MaxResolution(gpuType).1;
    if maxW * height < maxH * width {
      ExactOnWidth(width, height, gpuType);
    } else {
      ExactOnHeight(width, height, gpuType);
    }
  }

  lemma ExactOnWidth(width: int, height: int, gpuType: string)
    requires width > 0 && height > 0 && !WithinCeiling(width, height, gpuType)
    requires MaxResolution(gpuType).0 * height < MaxResolution(gpuType).1 * width
    ensures ScaledDimensions(width, height, gpuType) == RealScaled(width, height, gpuType)
  {
    var maxW, maxH := MaxResolution(gpuType).0, MaxResolution(gpuType).1;
    var s := ScaleFactor(width, height, gpuType);
    ScaledOnRatio(width, height, maxW, maxH, s);
    RealScaledIs(width, height, gpuType, maxW, height * maxW / width);
  }

  lemma ExactOnHeight(width: int, height: int, gpuType: string)
    requires width > 0 && height > 0 && !WithinCeiling(width, height, gpuType)
    requires MaxResolution(gpuType).0 * height >= MaxResolution(gpuType).1 * width
    ensures ScaledDimensions(width, height, gpuType) == RealScaled(width, height, gpuType)
  {
    var maxW, maxH := MaxResolution(gpuType).0, MaxResolution(gpuType).1;
    var s := ScaleFactor(width, height, gpuType);
    ScaledOnRatio(height, width, maxH, maxW, s);
    RealScaledIs(width, height, gpuType, width * maxH / height, maxH);
  }

  /** When `a`'s ratio `maxA / a` is the scale `s` and the smaller one,
      `a` scales to `maxA` and `b` to `b * maxA / a`. */
  lemma ScaledOnRatio(a: int, b: int, maxA: int, maxB: int, s: real)
    requires a > 0 && b > 0 && maxA >= 0 && maxB >= 0
    requires s == MinFloat(maxA as real / a as real, maxB as real / b as real)
              || s == MinFloat(maxB as real / b as real, maxA as real / a as real)
    requires maxA * b <= maxB * a
    ensures (a as real * s).Floor == maxA
    ensures (b as real * s).Floor == b * maxA / a
  {
    var sa, sb := maxA as real / a as real, maxB as real / b as real;
    assert sa <= sb by {
      CrossCompare(maxB, b, maxA, a);
    }
    assert s == sa;
    FloorOfScaled(a, maxA, a);
    FloorOfScaled(b, maxA, a);
    assert a * maxA / a == maxA;
  }

  lemma RealScaledIs(width: int, height: int, gpuType: string, w: nat, h: nat)
    requires width > 0 && height > 0
    requires (width as real * ScaleFactor(width, height, gpuType)).Floor == w
    requires (height as real * ScaleFactor(width, height, gpuType)).Floor == h
    ensures RealScaled(width, height, gpuType) == (EvenDown(w), EvenDown(h))
  {
  }

  /** Comparing two ratios by cross-multiplying. */
  lemma CrossCompare(a: int, b: int, c: int, d: int)
    requires b > 0 && d > 0
    ensures a as real / b as real < c as real / d as real <==> a * d < c * b
  {
    assert a as real / b as real == (a * d) as real / (b * d) as real;
    assert c as real / d as real == (c * b) as real / (b * d) as real;
  }

  /** The scaled frame keeps the aspect ratio up to the truncation and
      the even rounding: the cross products differ by less than
      `2 * (width + height)`. */
  lemma ScaledAspect(width: int, height: int, gpuType: string)
    requires width > 0 && height > 0
    ensures var (w, h) := ScaledDimensions(width, height, gpuType);
            -2 * (width + height) < w * height - h * width < 2 * (width + height)
  {
    var (maxW, maxH) := MaxResolution(gpuType);
    var r := ScaledDimensions(width, height, gpuType);
    if !(width <= maxW && height <= maxH) {
      if maxW * height < maxH * width {
        assert r == (EvenDown(maxW), EvenDown(height * maxW / width));
        TruncatedCross(width, height, maxW);
      } else {
        assert r == (EvenDown(width * maxH / height), EvenDown(maxH));
        TruncatedCross(height, width, maxH);
        assert r.0 * height - r.1 * width == -(r.1 * width - r.0 * height);
      }
    }
  }

  /** With `b' = EvenDown(b * m / a)` and `a' = EvenDown(m)`, the cross
      product `a' * b - b' * a` lies in `[-b, 2a)`. */
  lemma TruncatedCross(a: int, b: int, m: int)
    requires a > 0 && b > 0 && m >= 0
    ensures var a1, b1 := EvenDown(m), EvenDown(b * m / a);
            -b <= a1 * b - b1 * a < 2 * a
  {
    var n := b * m;
    MulLe(0, m, b);
    MulComm(m, b);
    var q := n / a;
    DivRemainder(n, a);
    EvenDownTimes(m, b);
    EvenDownTimes(q, a);
  }

  // ---------------------------------------------------------------
  // Choosing an encoder

  /** An ffmpeg encoder: its short name and its codec. */
  datatype Candidate = Candidate(name: string, codec: string)

  const HardwareNames: set<string> := {"nvenc", "amf", "qsv", "vaapi"}

  /** The encoders `getGPUEncoder` tries for a class, in order. */
  function Candidates(gpuType: string): (r: seq<Candidate>)
    ensures |r| >= 1
    ensures forall c :: c in r ==> c.name in HardwareNames && c.codec == "h264_" + c.name
  {
    match gpuType
    case "nvidia" => [Candidate("nvenc", "h264_nvenc")]
    case "intel_integrated" => [Candidate("qsv", "h264_qsv"), Candidate("vaapi", "h264_vaapi")]
    case _ => [Candidate("nvenc", "h264_nvenc"), Candidate("amf", "h264_amf"),
               Candidate("qsv", "h264_qsv"), Candidate("vaapi", "h264_vaapi")]
  }

  const Software: Candidate := Candidate("libx264", "libx264")

  /** The position of the first candidate whose codec is available. */
  function FirstAvailable(cands: seq<Candidate>, available: string -> bool): (r: Option<nat>)
    ensures r.Some? ==> r.value < |cands| && available(cands[r.value].codec)
    ensures r.Some? ==> forall j :: 0 <= j < r.value ==> !available(cands[j].codec)
    ensures r.None? ==> forall j :: 0 <= j < |cands| ==> !available(cands[j].codec)
  {
    if cands == [] then None
    else if available(cands[0].codec) then Some(0)
    else match FirstAvailable(cands[1..], available)
      case None => None
      case Some(i) => Some(i + 1)
  }

  /** The first available candidate, or the software encoder. */
  function Chosen(cands: seq<Candidate>, available: string -> bool): Candidate
  {
    match FirstAvailable(cands, available)
    case None => Software
    case Some(i) => cands[i]
  }

  /** Frames too large for an integrated GPU to encode reliably. */
  predicate TooLargeForIntegrated(width: int, height: int)
  {
    width > 3840 || height > 2160 || width * height > 8000000
  }

  /** What `getGPUEncoder` settles on: the software encoder for a too
      large frame on an integrated GPU, otherwise the first available
      candidate of the class. */
  function EncoderChoice(width: int, height: int, p: GpuProbes, available: string -> bool): (r: (Candidate, string))
    ensures r.1 == Classification(p).0
    ensures Classification(p).1 && TooLargeForIntegrated(width, height) ==> r.0 == Software
    ensures !(Classification(p).1 && TooLargeForIntegrated(width, height)) ==>
              var cands := Candidates(r.1);
              && (r.0 == Software <==> forall j :: 0 <= j < |cands| ==> !available(cands[j].codec))
              && (r.0 != Software ==>
                    exists i :: 0 <= i < |cands| && r.0 == cands[i] && available(r.0.codec)
                                && forall j :: 0 <= j < i ==> !available(cands[j].codec))
  {
    var (gpuType, integrated) := Classification(p);
    if integrated && TooLargeForIntegrated(width, height) then (Software, gpuType)
    else (Chosen(Candidates(gpuType), available), gpuType)
  }

  /** `getGPUEncoder`: returns the codec, the encoder name and the GPU
      class; `probed` lists the codecs whose availability it checked, in
      order. */
  method GetGPUEncoder(width: int, height: int, p: GpuProbes, available: string -> bool)
    returns (encoder: string, encoderName: string, gpuType: string, ghost probed: seq<string>)
    ensures var (c, g) := EncoderChoice(width, height, p, available);
            encoder == c.codec && encoderName == c.name && gpuType == g
    ensures Classification(p).1 && TooLargeForIntegrated(width, height) ==> probed == []
    ensures forall i :: 0 <= i < |probed| - 1 ==> !available(probed[i])
    ensures encoderName != "libx264" ==> |probed| >= 1 && probed[|probed| - 1] == encoder
  {
    var isIntegrated;
    gpuType, isIntegrated := GetGPUInfo(p);
    probed := [];
    if isIntegrated && (width > 3840 || height > 2160 || width * height > 8000000) {
      return "libx264", "libx264", gpuType, probed;
    }
    var encoders := Candidates(gpuType);
    var i := 0;
    while i < |encoders|
      invariant 0 <= i <= |encoders|
      invariant |probed| == i && forall k :: 0 <= k < i ==> probed[k] == encoders[k].codec
      invariant forall k :: 0 <= k < i ==> !available(encoders[k].codec)
    {
      probed := probed + [encoders[i].codec];
      if available(encoders[i].codec) {
        return encoders[i].codec, encoders[i].name, gpuType, probed;
      }
      i := i + 1;
    }
    return "libx264", "libx264", gpuType, probed;
  }

  // ---------------------------------------------------------------
  // Encoder arguments

  /** The `-vf` value that scales to `w` by `h`. */
  function ScaleFilter(w: int, h: int): string
  {
    "scale=" + IntToString(w) + ":" + IntToString(h) + ":flags=lanczos"
  }

  /** The output options `getEncoderArgs` builds: pixel format and
      fast start always, the codec, each family's own quality options,
      the render device for VA-API on an integrated GPU, and the
      lanczos scale filter to the ceiling-fitted size when scaling a
      hardware encoder's input. */
  predicate EncoderArgsFor(args: map<string, string>, encoder: string, encoderName: string, gpuType: string,
                           width: int, height: int, useScaling: bool)
    requires useScaling ==> WithinCeiling(width, height, gpuType) || (width >= 0 && height >= 0)
  {
    && "pix_fmt" in args && "movflags" in args && "c:v" in args
    && args["pix_fmt"] == "yuv420p" && args["movflags"] == "faststart" && args["c:v"] == encoder
    && ("vf" in args <==> useScaling && encoderName in HardwareNames)
    && ("vf" in args ==> var (w, h) := ScaledDimensions(width, height, gpuType); args["vf"] == ScaleFilter(w, h))
    && ("vaapi_device" in args <==> encoderName == "vaapi" && IsIntegratedClass(gpuType))
    && ("vaapi_device" in args ==> args["vaapi_device"] == "/dev/dri/renderD128")
    && (encoderName == "nvenc" ==>
        args.Keys - {"vf"} == {"pix_fmt", "movflags", "c:v", "preset", "cq", "rc"}
        && args["preset"] == "p4" && args["cq"] == "23" && args["rc"] == "vbr")
    && (encoderName == "amf" ==>
        args.Keys - {"vf"} == {"pix_fmt", "movflags", "c:v", "quality", "profile"}
        && args["quality"] == "quality" && args["profile"] == "high")
    && (encoderName == "qsv" ==>
        args.Keys - {"vf"} == {"pix_fmt", "movflags", "c:v", "preset", "profile"}
        && args["preset"] == "quality" && args["profile"] == "high")
    && (encoderName == "vaapi" ==> args.Keys - {"vf", "vaapi_device"} == {"pix_fmt", "movflags", "c:v"})
    && (encoderName !in HardwareNames ==>
        args.Keys == {"pix_fmt", "movflags", "c:v", "preset", "crf"}
        && args["preset"] == "medium" && args["crf"] == "23")
  }

  /** `getEncoderArgs`: the output options for the chosen encoder. */
  method GetEncoderArgs(encoder: string, encoderName: string, gpuType: string, width: int, height: int, useScaling: bool)
    returns (args: map<string, string>)
    requires useScaling ==> WithinCeiling(width, height, gpuType) || (width >= 0 && height >= 0)
    ensures EncoderArgsFor(args, encoder, encoderName, gpuType, width, height, useScaling)
  {
    args := map["pix_fmt" := "yuv420p", "movflags" := "faststart"];
    var targetWidth, targetHeight := width, height;
    if useScaling {
      targetWidth, targetHeight := ScaledDimensions(width, height, gpuType).0, ScaledDimensions(width, height, gpuType).1;
    }
    var vf := ScaleFilter(targetWidth, targetHeight);
    match encoderName
    case "nvenc" =>
      args := args["c:v" := encoder]["preset" := "p4"]["cq" := "23"]["rc" := "vbr"];
      if useScaling {
        args := args["vf" := vf];
      }
    case "amf" =>
      args := args["c:v" := encoder]["quality" := "quality"]["profile" := "high"];
      if useScaling {
        args := args["vf" := vf];
      }
    case "qsv" =>
      args := args["c:v" := encoder]["preset" := "quality"]["profile" := "high"];
      if useScaling {
        args := args["vf" := vf];
      }
    case "vaapi" =>
      args := args["c:v" := encoder];
      if gpuType == "amd_integrated" || gpuType == "intel_integrated" {
        args := args["vaapi_device" := "/dev/dri/renderD128"];
      }
      if useScaling {
        args := args["vf" := vf];
      }
    case _ =>
      args := args["c:v" := encoder]["preset" := "medium"]["crf" := "23"];
  }

  // ---------------------------------------------------------------
  // Arithmetic and slicing helpers: proof steps used above, not
  // properties of the program.

  lemma MulLe(x: int, y: int, c: int)
    requires 0 <= x <= y && c >= 0
    ensures x * c <= y * c
  {
  }

  lemma MulLt(x: int, y: int, c: int)
    requires 0 <= x < y && c > 0
    ensures x * c < y * c
  {
  }

  lemma MulComm(x: int, y: int)
    ensures x * y == y * x
  {
  }

  /** `n / d <= m` whenever `n <= m * d`. */
  lemma DivLe(n: int, d: int, m: int)
    requires d > 0 && n >= 0 && m >= 0 && n <= m * d
    ensures n / d <= m
  {
    if n / d > m {
      MulLe(m + 1, n / d, d);
      assert false;
    }
  }

  /** Euclidean division leaves a remainder in `[0, d)`. */
  lemma DivRemainder(n: int, d: int)
    requires n >= 0 && d > 0
    ensures 0 <= n - (n / d) * d < d
  {
  }

  /** Rounding `n` down to even takes `c` off `n * c` when `n` is odd. */
  lemma EvenDownTimes(n: nat, c: int)
    ensures EvenDown(n) * c == n * c - (if n % 2 != 0 then c else 0)
  {
    if n % 2 != 0 {
      assert (n - 1) * c == n * c - c;
    }
  }
}
