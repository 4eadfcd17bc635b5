/** The bit-rate decision of index.js, lines 22-31 and 76: ffprobe reports
    the container's `format.bit_rate` in bits per second, the script turns
    it into whole kilobits per second and keeps only files above 128. */
module BitRate {
  import opened Text

  /** The `format` object of ffprobe's JSON output; `bitRate` is None when
      `bit_rate` is missing or is not a whole number. A value JavaScript
      divides to 0 (`null`, `false`, `[]`) is modelled as missing too: line
      31 then gives 0 and not NaN, but neither passes line 76. */
  datatype Format = Format(bitRate: Option<nat>)

  /** What `probe` holds at line 31: ProbeFailed when ffprobe or JSON.parse
      threw (the object stays `{}`, or holds the unparsed output string,
      neither of which has a `format`); otherwise the parsed object, which
      may lack `format`. */
  datatype Probe = ProbeFailed | Probed(format: Option<Format>)

  /** A JavaScript number as far as line 31 can produce one. */
  datatype Number = Int(n: int) | NaN

  /** Files at or below this many kilobits per second are left alone. */
  const Threshold: int := 128

  /** Line 31: `Math.floor((probe.format || { bit_rate: 0 }).bit_rate / 1000)`. */
  function Kbps(p: Probe): (r: Number)
    ensures (p.ProbeFailed? || p.format.None?) ==> r == Int(0)
    ensures p.Probed? && p.format.Some? && p.format.value.bitRate.None? ==> r.NaN?
    ensures p.Probed? && p.format.Some? && p.format.value.bitRate.Some? ==>
      var b := p.format.value.bitRate.value;
      r.Int? && r.n * 1000 <= b < (r.n + 1) * 1000
  {
    match p
    case ProbeFailed => Int(0)
    case Probed(None) => Int(0)
    case Probed(Some(Format(None))) => NaN
    case Probed(Some(Format(Some(b)))) => Int(b / 1000)
  }

  /** Line 76: `getBitRate(fn) > 128`; every comparison with NaN is false. */
  predicate HighBitRate(p: Probe) {
    match Kbps(p)
    case Int(k) => k > Threshold
    case NaN => false
  }

  /** A file passes the bit-rate filter exactly when ffprobe reported a
      numeric bit rate of at least 129000 bit/s; one that could not be
      probed, or whose report has no usable bit rate, never passes. */
  lemma HighBitRateIff(p: Probe)
    ensures HighBitRate(p) <==>
      p.Probed? && p.format.Some? && p.format.value.bitRate.Some? && p.format.value.bitRate.value >= 129000
  {
    if p.Probed? && p.format.Some? && p.format.value.bitRate.Some? {
      var b := p.format.value.bitRate.value;
      var k := Kbps(p).n;
      assert k * 1000 <= b < (k + 1) * 1000;
      if b >= 129000 {
        assert k > 128;
      } else {
        assert k < 129;
      }
    }
  }

  /** Line 76: the files of `files` that pass the bit-rate filter, in order. */
  function HighBitRateFiles(files: seq<Path>, probe: Path -> Probe): (r: seq<Path>)
    ensures forall fn :: fn in r <==> fn in files && HighBitRate(probe(fn))
    ensures Distinct(files) ==> Distinct(r)
  {
    Filter(files, fn => HighBitRate(probe(fn)))
  }

  /** The bit-rate filter keeps the order of the candidates. */
  lemma HighBitRateFilesAppend(a: seq<Path>, b: seq<Path>, probe: Path -> Probe)
    ensures HighBitRateFiles(a + b, probe) == HighBitRateFiles(a, probe) + HighBitRateFiles(b, probe)
  {
    FilterAppend(a, b, fn => HighBitRate(probe(fn)));
  }
}
