/** `getEstimatedFileSize` (js/script.js:532-577): a base size in KB per tier, scaled by a
    factor per format, printed as `N KB` below 1000 KB and as `N.N MB` from there on. Sizes are
    kept exactly, in tenths of a KB. */
module FileSize {
  import opened Wrappers
  import opened Text

  /** The base size of a tier in KB; a tier outside the table counts as 100. */
  function BaseKb(tier: string): nat {
    if tier == "450p" then 45
    else if tier == "760p" then 100
    else if tier == "1080p" then 200
    else if tier == "2K" then 400
    else if tier == "4K" then 800
    else 100
  }

  /** The format factor in tenths: png 2.5, webp 0.7, jpg and anything else 1. */
  function FactorTenths(format: string): nat {
    if format == "png" then 25 else if format == "webp" then 7 else 10
  }

  /** The estimate in tenths of a KB. */
  function EstimatedTenths(tier: string, format: string): nat {
    BaseKb(tier) * FactorTenths(format)
  }

  /** A printed size: whole KB, or tenths of a MB. */
  datatype SizeLabel = Kb(kb: nat) | Mb(tenthsOfMb: nat)

  /** Rounding `t / d` half up, which is what both `Math.round` and `toFixed(1)` do on the
      positive values met here. */
  function RoundDiv(t: nat, d: nat): (n: nat)
    requires d > 0 && d % 2 == 0
    ensures d * n <= t + d / 2 < d * n + d
  {
    (t + d / 2) / d
  }

  /** The label for a tier and a format. Below 1000 KB the size is rounded to whole KB, from
      1000 KB on it is rounded to tenths of a MB. In double arithmetic `45 * 0.7` comes out
      just under 31.5, so (450p, webp) is rounded down to 31 KB; every other product in the
      table is exact. */
  function Estimate(tier: string, format: string): (r: SizeLabel)
    ensures r.Mb? <==> EstimatedTenths(tier, format) >= 10000
    ensures r.Mb? ==>
      1000 * r.tenthsOfMb - 500 <= EstimatedTenths(tier, format) < 1000 * r.tenthsOfMb + 500
    ensures r.Kb? && (tier, format) != ("450p", "webp") ==>
      10 * r.kb - 5 <= EstimatedTenths(tier, format) < 10 * r.kb + 5
  {
    var t := EstimatedTenths(tier, format);
    if t >= 10000 then Mb(RoundDiv(t, 1000))
    else if tier == "450p" && format == "webp" then Kb(31)
    else Kb(RoundDiv(t, 10))
  }

  /** `${n} KB` or `${whole}.${tenth} MB`: digits, then the unit; an MB label has exactly one
      digit after its point. */
  function LabelText(l: SizeLabel): (s: string)
    ensures |s| > 3 && IsDigit(s[0])
    ensures l.Kb? ==> s[|s| - 3..] == " KB" && IsDigits(s[..|s| - 3])
    ensures l.Mb? ==> (|s| >= 6 && s[|s| - 3..] == " MB" && s[|s| - 5] == '.' &&
      IsDigits(s[..|s| - 5]) && IsDigit(s[|s| - 4]))
  {
    match l
    case Kb(n) =>
      var digits := NatToString(n);
      assert (digits + " KB")[..|digits|] == digits;
      digits + " KB"
    case Mb(m) =>
      var digits := NatToString(m / 10);
      var s := digits + "." + [DigitChar(m % 10)] + " MB";
      assert s[..|digits|] == digits && s[0] == digits[0];
      s
  }

  /** What the card shows for a tier and a format. */
  function EstimatedFileSize(tier: string, format: string): string {
    LabelText(Estimate(tier, format))
  }

  /** Reads a label back. */
  function ParseLabel(s: string): (r: Option<SizeLabel>) {
    if |s| < 3 then None
    else
      var body, unit := s[..|s| - 3], s[|s| - 3..];
      if unit == " KB" && IsDigits(body) then Some(Kb(ParseNat(body)))
      else if unit == " MB" && |body| >= 2 && body[|body| - 2] == '.' &&
              IsDigits(body[..|body| - 2]) && IsDigit(body[|body| - 1]) then
        Some(Mb(10 * ParseNat(body[..|body| - 2]) + ParseNat([body[|body| - 1]])))
      else None
  }

  lemma DigitCharParses(d: nat)
    requires d < 10
    ensures IsDigits([DigitChar(d)]) && ParseNat([DigitChar(d)]) == d
  {
  }

  /** Every label reads back as the size it was printed from. */
  lemma ParseLabelText(l: SizeLabel)
    ensures ParseLabel(LabelText(l)) == Some(l)
  {
    var s := LabelText(l);
    match l
    case Kb(n) =>
      var digits := NatToString(n);
      assert s[..|s| - 3] == digits && s[|s| - 3..] == " KB";
      ParseNatToString(n);
    case Mb(m) =>
      var digits, tenth := NatToString(m / 10), DigitChar(m % 10);
      var body := digits + "." + [tenth];
      assert s == body + " MB";
      assert s[..|s| - 3] == body && s[|s| - 3..] == " MB";
      assert body[..|body| - 2] == digits && body[|body| - 2] == '.' && body[|body| - 1] == tenth;
      ParseNatToString(m / 10);
      DigitCharParses(m % 10);
  }

  /** Labels of different sizes differ, so a label names its size. */
  lemma LabelTextInjective(a: SizeLabel, b: SizeLabel)
    requires LabelText(a) == LabelText(b)
    ensures a == b
  {
    ParseLabelText(a);
    ParseLabelText(b);
  }

  /** For every tier, webp is estimated smaller than jpg and png larger, as the comments on
      the factors say. */
  lemma FormatsOrdered(tier: string)
    ensures EstimatedTenths(tier, "webp") < EstimatedTenths(tier, "jpg") < EstimatedTenths(tier, "png")
  {
  }

  /** Larger tiers of the table are estimated larger, in every format. */
  lemma TiersOrdered(format: string)
    ensures EstimatedTenths("450p", format) < EstimatedTenths("760p", format)
    ensures EstimatedTenths("760p", format) < EstimatedTenths("1080p", format)
    ensures EstimatedTenths("1080p", format) < EstimatedTenths("2K", format)
    ensures EstimatedTenths("2K", format) < EstimatedTenths("4K", format)
  {
  }

  /** (450p, webp) is exactly 31.5 KB, which exact rounding would print as 32 KB; the script
      prints 31 KB. */
  lemma WebpSmallestDiverges()
    ensures EstimatedTenths("450p", "webp") == 315 && RoundDiv(315, 10) == 32
    ensures Estimate("450p", "webp") == Kb(31) && EstimatedFileSize("450p", "webp") == "31 KB"
  {
    assert NatToString(31) == "31";
  }

  lemma KbSample(tier: string, format: string, n: nat)
    requires EstimatedTenths(tier, format) == 10 * n && 0 < n < 1000
    ensures EstimatedFileSize(tier, format) == NatToString(n) + " KB"
  {
    assert Estimate(tier, format) == Kb(n);
  }

  lemma MbSample(tier: string, format: string, n: nat)
    requires EstimatedTenths(tier, format) == 10000 * n && 0 < n < 10
    ensures EstimatedFileSize(tier, format) == [DigitChar(n)] + ".0 MB"
  {
    assert Estimate(tier, format) == Mb(10 * n);
    assert NatToString(n) == [DigitChar(n)];
  }

  /** (1080p, png) prints as 500 KB and (4K, jpg) as 800 KB; only png at 2K and 4K reaches the
      MB range, as 1.0 MB and 2.0 MB. */
  lemma SampleLabels()
    ensures EstimatedFileSize("1080p", "png") == "500 KB"
    ensures EstimatedFileSize("4K", "jpg") == "800 KB"
    ensures EstimatedFileSize("2K", "png") == "1.0 MB"
    ensures EstimatedFileSize("4K", "png") == "2.0 MB"
  {
    hide LabelText, Estimate, EstimatedFileSize; // the two sample lemmas give the labels
    KbSample("1080p", "png", 500);
    assert NatToString(500) == "500";
    KbSample("4K", "jpg", 800);
    assert NatToString(800) == "800";
    MbSample("2K", "png", 1);
    MbSample("4K", "png", 2);
  }
}
