/** The candidate list `getThumbnails` builds from a video id (js/script.js:289-296): five
    quality tiers, each naming one of YouTube's stored thumbnail images. */
module Thumbnails {
  import opened Wrappers

  /** One entry of `thumbnailQualities`. */
  datatype Candidate = Candidate(name: string, url: string, size: string)

  /** The tiers, in the order of the list and of the tabs built from it. */
  const Tiers: seq<string> := ["450p", "760p", "1080p", "2K", "4K"]

  /** The label shown for each tier. */
  const TierNames: seq<string> :=
    ["Standard Quality (450p)", "HD Quality (760p)", "Full HD (1080p)", "2K Quality", "4K Quality"]

  /** The stored image each tier points at: the three highest share the largest one. */
  const TierFiles: seq<string> :=
    ["hqdefault", "sddefault", "maxresdefault", "maxresdefault", "maxresdefault"]

  const ImageHost := "https://img.youtube.com/vi/"

  /** `https://img.youtube.com/vi/${videoId}/<file>.jpg`. */
  function ImageUrl(id: string, file: string): string {
    ImageHost + id + "/" + file + ".jpg"
  }

  function CandidateAt(id: string, i: nat): Candidate
    requires i < |Tiers|
  {
    Candidate(TierNames[i], ImageUrl(id, TierFiles[i]), Tiers[i])
  }

  /** The list for `id`. */
  function Candidates(id: string): (r: seq<Candidate>)
    ensures |r| == |Tiers| == 5
    ensures forall i :: 0 <= i < |r| ==> r[i].size == Tiers[i] && r[i].name == TierNames[i]
    ensures forall i :: 0 <= i < |r| ==> r[i].url == ImageUrl(id, TierFiles[i])
  {
    [CandidateAt(id, 0), CandidateAt(id, 1), CandidateAt(id, 2), CandidateAt(id, 3), CandidateAt(id, 4)]
  }

  /** The id back out of an image URL: between the host and the last `/`. */
  function IdOfImageUrl(url: string): (r: Option<string>)
  {
    if |url| < |ImageHost| || url[..|ImageHost|] != ImageHost then None
    else
      var slash := LastSlash(url, |url|);
      if slash.Some? && |ImageHost| <= slash.value then Some(url[|ImageHost|..slash.value]) else None
  }

  /** The largest index below `hi` that holds `/`. */
  function LastSlash(s: string, hi: nat): (r: Option<nat>)
    requires hi <= |s|
    ensures r.Some? ==> r.value < hi && s[r.value] == '/'
    ensures r.Some? ==> forall k :: r.value < k < hi ==> s[k] != '/'
    ensures r.None? ==> forall k :: 0 <= k < hi ==> s[k] != '/'
  {
    if hi == 0 then None
    else if s[hi - 1] == '/' then Some(hi - 1)
    else LastSlash(s, hi - 1)
  }

  /** The id is recovered from every image URL built from it, whatever characters it holds,
      as long as the file name has no `/`. */
  lemma IdOfImageUrlRoundTrip(id: string, file: string)
    requires '/' !in file
    ensures IdOfImageUrl(ImageUrl(id, file)) == Some(id)
  {
    var url := ImageUrl(id, file);
    var k := |ImageHost| + |id|;
    assert url == ImageHost + id + ("/" + file + ".jpg");
    assert url[..|ImageHost|] == ImageHost;
    assert url[k] == '/';
    forall j | k < j < |url| ensures url[j] != '/' {
      assert url[j] == (file + ".jpg")[j - k - 1];
    }
    assert url[|ImageHost|..k] == id;
  }

  /** Different ids never share an image URL. */
  lemma ImageUrlInjective(id1: string, id2: string, file: string)
    requires '/' !in file && ImageUrl(id1, file) == ImageUrl(id2, file)
    ensures id1 == id2
  {
    IdOfImageUrlRoundTrip(id1, file);
    IdOfImageUrlRoundTrip(id2, file);
  }

  /** The 1080p, 2K and 4K entries all point at the same image; the 450p, 760p and 1080p ones
      at three different images. */
  lemma HighTiersShareOneImage(id: string)
    ensures var r := Candidates(id); r[2].url == r[3].url == r[4].url
    ensures var r := Candidates(id); r[0].url != r[1].url && r[1].url != r[2].url && r[0].url != r[2].url
  {
    var r := Candidates(id);
    var k := |ImageHost| + |id| + 1;
    assert r[0].url[k] == 'h' && r[1].url[k] == 's' && r[2].url[k] == 'm';
  }

  /** Every entry's URL carries the id it was built from. */
  lemma CandidatesCarryId(id: string)
    ensures forall i :: 0 <= i < 5 ==> IdOfImageUrl(Candidates(id)[i].url) == Some(id)
  {
    forall i | 0 <= i < 5 ensures IdOfImageUrl(Candidates(id)[i].url) == Some(id) {
      IdOfImageUrlRoundTrip(id, TierFiles[i]);
    }
  }

  /** No two tiers share a size, so each names its own content panel. */
  lemma TiersDistinct()
    ensures forall i, j :: 0 <= i < j < |Tiers| ==> Tiers[i] != Tiers[j]
  {
    forall i, j | 0 <= i < j < |Tiers| ensures Tiers[i] != Tiers[j] {
      assert |Tiers[i]| != |Tiers[j]| || Tiers[i][0] != Tiers[j][0];
    }
  }
}
