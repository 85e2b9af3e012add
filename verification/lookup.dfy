/** The input check of `handleGetThumbnail` (js/script.js:204-217): the field is trimmed, an
    empty value is refused with one message, a value `extractVideoId` finds nothing in with
    another, and otherwise the id is passed on to the lookup. */
module Lookup {
  import opened Wrappers
  import opened Text
  import opened VideoId
  import opened VideoLinks

  datatype InputError = EmptyInput | InvalidUrl

  /** The text shown by `showError` for each refusal. */
  function ErrorMessage(e: InputError): (m: string)
    ensures m != []
  {
    match e
    case EmptyInput => "Please enter a YouTube video URL"
    case InvalidUrl => "Invalid YouTube URL. Please enter a valid YouTube video URL"
  }

  /** The outcome of pressing the button with `raw` in the field. */
  function CheckInput(raw: string): (r: Result<string, InputError>)
    ensures r == Failure(EmptyInput) <==> AllSpace(raw)
    ensures r == Failure(InvalidUrl) <==> !AllSpace(raw) && ExtractVideoId(Trim(raw)).None?
    ensures r.Success? ==> ExtractVideoId(Trim(raw)) == Some(r.value)
  {
    TrimEmptyIffAllSpace(raw);
    var url := Trim(raw);
    if url == [] then Failure(EmptyInput)
    else
      var id := ExtractVideoId(url);
      if id.None? then Failure(InvalidUrl) else Success(id.value)
  }

  /** The message shown for each refusal: a blank field asks for a URL, and a field without a
      match says the URL is invalid; the two messages differ. */
  lemma CheckInputMessages(raw: string)
    ensures AllSpace(raw) ==> (CheckInput(raw).Failure? &&
      ErrorMessage(CheckInput(raw).error) == "Please enter a YouTube video URL")
    ensures !AllSpace(raw) && ExtractVideoId(Trim(raw)).None? ==> (CheckInput(raw).Failure? &&
      ErrorMessage(CheckInput(raw).error) == "Invalid YouTube URL. Please enter a valid YouTube video URL")
    ensures ErrorMessage(EmptyInput) != ErrorMessage(InvalidUrl)
  {
    var a, b := ErrorMessage(EmptyInput), ErrorMessage(InvalidUrl);
    assert |a| != |b|;
  }

  /** No character of `s` is white space. */
  predicate Solid(s: string) {
    forall i :: 0 <= i < |s| ==> !IsJsSpace(s[i])
  }

  lemma SolidConcat(a: string, b: string)
    requires Solid(a) && Solid(b)
    ensures Solid(a + b)
  {
    forall i | 0 <= i < |a + b| ensures !IsJsSpace((a + b)[i]) {
      if i >= |a| {
        assert (a + b)[i] == b[i - |a|];
      }
    }
  }

  lemma IdStringSolid(s: string)
    requires IdString(s)
    ensures Solid(s)
  {
  }

  lemma PrefixSolid(pre: string)
    requires pre in Prefixes
    ensures Solid(pre)
  {
  }

  /** Printable ASCII, from `!` to `~`, holds no white space. */
  lemma PrintableSolid(s: string)
    requires forall i :: 0 <= i < |s| ==> '!' <= s[i] <= '~'
    ensures Solid(s)
  {
  }

  lemma LiteralSolid(p: Pattern)
    ensures Solid(Literal(p))
  {
    PrintableSolid(Literal(p));
  }

  lemma LeadSolid(sh: Shape)
    requires sh.UserLink? ==> IdString(sh.name)
    ensures Solid(Lead(sh))
  {
    if sh.UserLink? {
      assert Solid(Opener(sh.slash));
      SolidConcat(sh.name, Opener(sh.slash));
    }
  }

  lemma TrailerSolid(sh: Shape, extra: Option<string>)
    requires extra.Some? ==> IdString(extra.value)
    ensures Solid(Trailer(sh, extra))
  {
    if extra.Some? {
      var opening := if Stop(PatternOf(sh)) == '&' then "&t=" else "?si=";
      assert Solid(opening);
      SolidConcat(opening, extra.value);
    }
  }

  /** Strings without white space, joined, hold none. */
  lemma {:induction false} SolidJoin(parts: seq<string>)
    requires forall i :: 0 <= i < |parts| ==> Solid(parts[i])
    ensures Solid(Join(parts))
    decreases |parts|
  {
    if parts != [] {
      assert forall i :: 0 <= i < |parts[1..]| ==> parts[1..][i] == parts[i + 1];
      SolidJoin(parts[1..]);
      SolidConcat(parts[0], Join(parts[1..]));
    }
  }

  /** A built URL holds no white space. */
  lemma RenderSolid(l: Link)
    requires WellFormed(l)
    ensures Solid(Render(l))
  {
    PrefixSolid(l.prefix);
    LiteralSolid(PatternOf(l.shape));
    LeadSolid(l.shape);
    IdStringSolid(l.id);
    TrailerSolid(l.shape, l.extra);
    SolidJoin([l.prefix, Literal(PatternOf(l.shape)), Lead(l.shape), l.id, Trailer(l.shape, l.extra)]);
  }

  /** A well-formed URL of any of the six shapes, typed with any white space before and after
      it, is accepted, and its own id is passed on. */
  lemma CheckInputAcceptsLinks(before: string, l: Link, after: string)
    requires AllSpace(before) && AllSpace(after) && WellFormed(l)
    ensures CheckInput(before + Render(l) + after) == Success(l.id)
  {
    var u := Render(l);
    RenderSolid(l);
    RenderLayout(l);
    assert u != [];
    TrimOfPadded(before, u, after);
    RoundTrip(l);
  }

  /** A non-blank input without `y` in either case is refused as an invalid URL. */
  lemma CheckInputRefusesWithoutY(raw: string)
    requires !AllSpace(raw)
    requires forall i :: 0 <= i < |raw| ==> Fold(raw[i]) != 'Y'
    ensures CheckInput(raw) == Failure(InvalidUrl)
  {
    var url := Trim(raw);
    var a, b := TrimIsSlice(raw);
    forall i | 0 <= i < |url| ensures Fold(url[i]) != 'Y' {
      assert url[i] == raw[a + i];
    }
    NoYNoMatch(url);
  }
}
