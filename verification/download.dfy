/** Download naming and format handling: the file name each format card asks for
    (js/script.js:517-519), the choice between a direct download and a re-encoding
    (js/script.js:580-589), the MIME type of the re-encoding (js/script.js:602-611), and the
    `.jpg` name used when the image cannot be decoded (js/script.js:631-635). */
module Download {
  import opened Wrappers
  import opened Thumbnails
  import opened FileSize

  const NamePrefix := "RAO RAMZAN YT DOWNLOADER - "

  /** `RAO RAMZAN YT DOWNLOADER - ${thumbnail.size}.${format}`: the fixed prefix, the size, and
      the format as extension; when the size has no `.`, the first `.` opens the extension. */
  function FileName(size: string, format: string): (r: string)
    ensures |r| == |NamePrefix| + |size| + 1 + |format|
    ensures r[..|NamePrefix|] == NamePrefix && r[|r| - |format| - 1..] == "." + format
    ensures r[|NamePrefix|..|NamePrefix| + |size|] == size
    ensures '.' !in size ==> FirstDotAt(r) == Some(|NamePrefix| + |size|)
  {
    var r := NamePrefix + size + "." + format;
    assert r[..|NamePrefix|] == NamePrefix && r[|r| - |format| - 1..] == "." + format;
    assert r[|NamePrefix|..|NamePrefix| + |size|] == size;
    assert '.' !in size ==> FirstDotAt(r) == Some(|NamePrefix| + |size|) by {
      if '.' !in size {
        NamePrefixHasNoDot();
        assert r[..|NamePrefix| + |size|] == NamePrefix + size;
        FirstDotIs(r, |NamePrefix| + |size|);
      }
    }
    r
  }

  /** The position of the first `.`, if any. */
  function FirstDotAt(s: string): (r: Option<nat>)
    ensures r.Some? ==> r.value < |s| && s[r.value] == '.' && '.' !in s[..r.value]
    ensures r.None? ==> '.' !in s
  {
    if s == [] then None
    else if s[0] == '.' then Some(0)
    else
      var rest := FirstDotAt(s[1..]);
      assert s == [s[0]] + s[1..];
      if rest.None? then None
      else
        assert s[..rest.value + 1] == [s[0]] + s[1..][..rest.value];
        Some(rest.value + 1)
  }

  /** A `.` at `k` with none before it is the first one. */
  lemma {:induction false} FirstDotIs(s: string, k: nat)
    requires k < |s| && s[k] == '.' && '.' !in s[..k]
    ensures FirstDotAt(s) == Some(k)
  {
    if k > 0 {
      assert s[0] == s[..k][0];
      assert s[1..][..k - 1] == s[..k][1..];
      FirstDotIs(s[1..], k - 1);
    }
  }

  /** For sizes without a `.`, a file name names its size and its format. */
  lemma FileNameInjective(size1: string, format1: string, size2: string, format2: string)
    requires '.' !in size1 && '.' !in size2
    requires FileName(size1, format1) == FileName(size2, format2)
    ensures size1 == size2 && format1 == format2
  {
    hide FileName; // the layout in its contract is enough
    var r := FileName(size1, format1);
    var n, k := |NamePrefix|, |NamePrefix| + |size1|;
    assert |size1| == |size2|;
    assert size1 == r[n..k] == size2;
    assert format1 == r[k + 1..] == format2;
  }

  /** The type handed to `canvas.toDataURL`. */
  function MimeType(format: string): (m: string)
    ensures format == "png" || format == "webp" ==> m == "image/" + format
    ensures format != "png" && format != "webp" ==> m == "image/jpeg"
  {
    match format
    case "png" => "image/png"
    case "webp" => "image/webp"
    case _ => "image/jpeg"
  }

  /** `pat` occurs in `s` at `i`. */
  predicate OccursAt(s: string, pat: string, i: nat) {
    i + |pat| <= |s| && s[i..i + |pat|] == pat
  }

  /** The first position at or after `from` where `pat` occurs, as `indexOf` finds it. */
  function IndexOf(s: string, pat: string, from: nat): (r: Option<nat>)
    requires from <= |s|
    ensures r.Some? ==> from <= r.value && OccursAt(s, pat, r.value)
    ensures r.Some? ==> forall j :: from <= j < r.value ==> !OccursAt(s, pat, j)
    ensures r.None? ==> forall j :: from <= j <= |s| ==> !OccursAt(s, pat, j)
    decreases |s| - from
  {
    if OccursAt(s, pat, from) then Some(from)
    else if from == |s| then None
    else IndexOf(s, pat, from + 1)
  }

  /** `s.replace(pat, rep)` with a string pattern: only the first occurrence is replaced, and
      a text without one comes back unchanged. */
  function ReplaceFirst(s: string, pat: string, rep: string): string {
    var i := IndexOf(s, pat, 0);
    if i.None? then s else s[..i.value] + rep + s[i.value + |pat|..]
  }

  /** `filename.replace(`.${format}`, '.jpg')`. */
  function FallbackName(filename: string, format: string): string {
    ReplaceFirst(filename, "." + format, ".jpg")
  }

  /** What the browser is asked to save. */
  datatype Request =
    | Direct(href: string, filename: string)                  // `downloadDirectly`
    | Encoded(source: string, mime: string, filename: string) // decode, draw, `toDataURL(mime)`

  /** `downloadThumbnailWithFormat(url, filename, format)`; `decodes` says whether the image
      loads into the canvas (`img.onload`) or fails (`img.onerror`). */
  function DownloadRequest(url: string, filename: string, format: string, decodes: bool): (r: Request)
    ensures r.Direct? <==> format == "jpg" || !decodes
    ensures format == "jpg" ==> r == Direct(url, filename)
    ensures format != "jpg" && decodes ==> r == Encoded(url, MimeType(format), filename)
    ensures format != "jpg" && !decodes ==> r == Direct(url, FallbackName(filename, format))
  {
    if format == "jpg" then Direct(url, filename)
    else if decodes then Encoded(url, MimeType(format), filename)
    else Direct(url, FallbackName(filename, format))
  }

  lemma NamePrefixHasNoDot()
    ensures '.' !in NamePrefix
  {
  }

  /** `pat` starting with `x` cannot occur in a stretch of `s` free of `x`. */
  lemma NoOccurrenceBefore(s: string, pat: string, k: nat)
    requires pat != [] && k <= |s| && pat[0] !in s[..k]
    ensures forall j :: 0 <= j < k ==> !OccursAt(s, pat, j)
  {
    forall j | 0 <= j < k ensures !OccursAt(s, pat, j) {
      assert s[j] == s[..k][j];
      if j + |pat| <= |s| {
        assert s[j..j + |pat|][0] == s[j];
      }
    }
  }

  /** An occurrence with none before it is the one `indexOf` finds. */
  lemma {:induction false} IndexOfFirst(s: string, pat: string, from: nat, k: nat)
    requires from <= k <= |s| && OccursAt(s, pat, k)
    requires forall j :: from <= j < k ==> !OccursAt(s, pat, j)
    ensures IndexOf(s, pat, from) == Some(k)
    decreases k - from
  {
    if from < k {
      IndexOfFirst(s, pat, from + 1, k);
    }
  }

  /** When the size has no `.`, the first `.` of a card's file name opens the format, so the
      fallback keeps the stem and only swaps the extension for `.jpg`. */
  lemma FallbackKeepsStem(size: string, format: string)
    requires '.' !in size
    ensures FallbackName(FileName(size, format), format) == NamePrefix + size + ".jpg"
  {
    var stem, pat := NamePrefix + size, "." + format;
    var name := FileName(size, format);
    var k := |stem|;
    NamePrefixHasNoDot();
    assert name == stem + pat;
    assert name[..k] == stem && name[k..] == pat && name[k + |pat|..] == [];
    assert '.' !in stem;
    NoOccurrenceBefore(name, pat, k);
    IndexOfFirst(name, pat, 0, k);
  }

  /** One format card: its label, the name of the file it saves, and its format. */
  datatype Card = Card(format: string, size: string, filename: string)

  /** The formats offered for each tier, in the order of the cards (js/script.js:449-468). */
  const Formats: seq<string> := ["jpg", "png", "webp"]

  function CardFor(c: Candidate, format: string): Card {
    Card(format, EstimatedFileSize(c.size, format), FileName(c.size, format))
  }

  /** The cards of one tier's panel. */
  function PanelCards(c: Candidate): (r: seq<Card>)
    ensures |r| == |Formats| && forall i :: 0 <= i < |r| ==> r[i] == CardFor(c, Formats[i])
  {
    [CardFor(c, "jpg"), CardFor(c, "png"), CardFor(c, "webp")]
  }

  /** For every card built from the candidate list: a jpg card saves the image as it is, under
      its own name; a png or webp card re-encodes it with the matching type `image/<format>`
      under its own name, and when the image cannot be decoded it saves the original under the
      same name ending in `.jpg`. */
  lemma CardRequests(id: string, t: nat, f: nat, decodes: bool)
    requires t < |Tiers| && f < |Formats|
    ensures var c := Candidates(id)[t];
      var card := PanelCards(c)[f];
      var r := DownloadRequest(c.url, card.filename, card.format, decodes);
      (card.format == "jpg" ==> r == Direct(c.url, NamePrefix + Tiers[t] + ".jpg")) &&
      (card.format != "jpg" && decodes ==>
         r == Encoded(c.url, "image/" + card.format, NamePrefix + Tiers[t] + "." + card.format)) &&
      (card.format != "jpg" && !decodes ==> r == Direct(c.url, NamePrefix + Tiers[t] + ".jpg"))
  {
    // The contracts of the list, the panel, the request and the type are enough; the size label
    // plays no part.
    hide Candidates, PanelCards, EstimatedFileSize, DownloadRequest, MimeType, FallbackName;
    var c, format := Candidates(id)[t], Formats[f];
    assert c.size == Tiers[t] && '.' !in Tiers[t];
    assert PanelCards(c)[f] == Card(format, EstimatedFileSize(c.size, format), FileName(c.size, format));
    FallbackKeepsStem(Tiers[t], format);
  }
}
