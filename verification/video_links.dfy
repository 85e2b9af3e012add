/** The URL shapes the six expressions of `extractVideoId` are written for
    (js/script.js:270-275), built around a video id, and the round trip: extracting from a
    built URL gives back exactly that id. */
module VideoLinks {
  import opened Wrappers
  import opened Text
  import opened VideoId

  datatype Shape =
    | WatchLink
    | EmbedLink
    | LegacyVLink
    | UserLink(name: string, slash: bool)  // `/user/<name>?v=` or `/user/<name>/?v=`
    | ShortHostLink
    | ShortsLink

  /** An optional scheme and `www.`, a shape, an id and an optional trailing parameter. */
  datatype Link = Link(prefix: string, shape: Shape, id: string, extra: Option<string>)

  function PatternOf(sh: Shape): Pattern {
    match sh
    case WatchLink => Watch
    case EmbedLink => Embed
    case LegacyVLink => LegacyV
    case UserLink(_, _) => User
    case ShortHostLink => ShortHost
    case ShortsLink => Shorts
  }

  /** What follows a user name: `?v=`, with the optional `/` before it. */
  function Opener(slash: bool): string {
    if slash then "/?v=" else "?v="
  }

  /** What a shape puts between its literal and the id. */
  function Lead(sh: Shape): string {
    if sh.UserLink? then sh.name + Opener(sh.slash) else ""
  }

  /** A trailing parameter after the id: `&t=...` where the id stops at `&`, `?si=...` where
      it stops at `?`. */
  function Trailer(sh: Shape, extra: Option<string>): string {
    if extra.None? then ""
    else (if Stop(PatternOf(sh)) == '&' then "&t=" else "?si=") + extra.value
  }

  /** The URL: prefix, literal, lead, id and trailer, one after another. */
  function Render(l: Link): string {
    Join([l.prefix, Literal(PatternOf(l.shape)), Lead(l.shape), l.id, Trailer(l.shape, l.extra)])
  }

  /** The characters of a video id: `[A-Za-z0-9_-]`. */
  predicate IdChar(c: char) {
    'a' <= c <= 'z' || 'A' <= c <= 'Z' || '0' <= c <= '9' || c == '_' || c == '-'
  }

  predicate IdString(s: string) {
    forall i :: 0 <= i < |s| ==> IdChar(s[i])
  }

  /** The id, the user name and the trailing value are non-empty where they must be, and made
      of id characters. */
  predicate PartsWellFormed(l: Link) {
    l.id != [] && IdString(l.id) &&
    (l.extra.Some? ==> IdString(l.extra.value)) &&
    (l.shape.UserLink? ==> l.shape.name != [] && IdString(l.shape.name))
  }

  predicate WellFormed(l: Link) {
    l.prefix in Prefixes && PartsWellFormed(l)
  }

  lemma IdStringAvoids(s: string, x: char)
    requires IdString(s) && !IdChar(x)
    ensures x !in s
  {
  }

  /** Where the pieces of a built URL sit: the prefix ends at `P`, the literal at `T`, the lead
      at `c`, the id at `e`, and the trailer runs to the end. */
  lemma RenderLayout(l: Link)
    ensures var u, L, lead, trailer := Render(l), Literal(PatternOf(l.shape)), Lead(l.shape),
        Trailer(l.shape, l.extra);
      var P, T := |l.prefix|, |l.prefix| + |L|;
      var c, e := T + |lead|, T + |lead| + |l.id|;
      |u| == e + |trailer| && u[0..P] == l.prefix && u[P..T] == L && u[T..c] == lead &&
      u[c..e] == l.id && u[e..|u|] == trailer
  {
    JoinFive(l.prefix, Literal(PatternOf(l.shape)), Lead(l.shape), l.id, Trailer(l.shape, l.extra));
  }

  /** At a position holding one literal, no other literal matches. */
  lemma LiteralsDiffer(p1: Pattern, p2: Pattern, s: string, q: nat)
    requires q + |Literal(p1)| <= |s| && s[q..q + |Literal(p1)|] == Literal(p1)
    requires p1 != p2
    ensures !LiteralAt(s, q, Literal(p2))
  {
    var d := if p1 == ShortHost || p2 == ShortHost then 5 else 12;
    assert s[q + d] == s[q..q + |Literal(p1)|][d];
    if LiteralAt(s, q, Literal(p2)) {
      LiteralAtChar(s, q, Literal(p2), d);
    }
  }

  /** The index of the `.` in each literal's host. */
  function DotIndex(p: Pattern): (d: nat)
    ensures d < |Literal(p)| && Literal(p)[d] == '.'
  {
    if p == ShortHost then 5 else 7
  }

  /** Past its first character, no literal holds a `y` in either case. */
  lemma LiteralLaterChar(p: Pattern, i: nat)
    requires 0 < i < |Literal(p)|
    ensures Fold(Literal(p)[i]) != 'Y'
  {
  }

  /** A text whose only `y` (in either case) before `T` is the first character of a literal at
      `P`, and which has no `.` from `T` on, holds a literal only at `P`, and only that one. */
  lemma OnlyHeadLiteral(u: string, P: nat, p: Pattern)
    requires P + |Literal(p)| <= |u| && u[P..P + |Literal(p)|] == Literal(p)
    requires Avoids(u, 0, P, 'y') && Avoids(u, 0, P, 'Y')
    requires Avoids(u, P + |Literal(p)|, |u|, '.')
    ensures OnlyLiteral(u, P, p)
  {
    var T := P + |Literal(p)|;
    forall q: nat, p' | LiteralAt(u, q, Literal(p')) ensures q == P && p' == p {
      LiteralStartsWithY(p', u, q);
      if q == P && p' != p {
        LiteralsDiffer(p, p', u, P);
      } else if P < q < T {
        SliceChar(u, P, T, Literal(p), q - P);
        LiteralLaterChar(p, q - P);
      } else if q >= T {
        var d := DotIndex(p');
        LiteralAtChar(u, q, Literal(p'), d);
      }
    }
  }

  /** The prefix holds no `y` in either case; lead, id and trailer hold no `.`. */
  lemma PiecesFree(l: Link)
    requires WellFormed(l)
    ensures 'y' !in l.prefix && 'Y' !in l.prefix
    ensures '.' !in Lead(l.shape) && '.' !in l.id && '.' !in Trailer(l.shape, l.extra)
  {
    IdStringAvoids(l.id, '.');
    if l.shape.UserLink? {
      IdStringAvoids(l.shape.name, '.');
    }
    if l.extra.Some? {
      IdStringAvoids(l.extra.value, '.');
    }
  }

  /** A built URL holds the literal of its shape at the end of the prefix, and no other
      literal anywhere. */
  lemma RenderLiteral(l: Link)
    requires WellFormed(l)
    ensures LiteralAt(Render(l), |l.prefix|, Literal(PatternOf(l.shape)))
    ensures OnlyLiteral(Render(l), |l.prefix|, PatternOf(l.shape))
  {
    hide *; // only the layout and the pieces' characters matter
    var u, P, L := Render(l), |l.prefix|, Literal(PatternOf(l.shape));
    var T := P + |L|;
    var c, e := T + |Lead(l.shape)|, T + |Lead(l.shape)| + |l.id|;
    RenderLayout(l);
    PiecesFree(l);
    AvoidsOfPiece(u, 0, P, 'y', l.prefix);
    AvoidsOfPiece(u, 0, P, 'Y', l.prefix);
    AvoidsOfPiece(u, T, c, '.', Lead(l.shape));
    AvoidsOfPiece(u, c, e, '.', l.id);
    AvoidsOfPiece(u, e, |u|, '.', Trailer(l.shape, l.extra));
    AvoidsJoin(u, T, c, e, '.');
    AvoidsJoin(u, T, e, |u|, '.');
    ExactLiteralAt(u, P, L);
    OnlyHeadLiteral(u, P, PatternOf(l.shape));
  }

  /** `/user/` literal at `P`, a name up to `k`, then `/?v=` and a character other than `&`:
      backtracking settles at once on the `/` after the name. */
  lemma UserSplitBeforeSlash(u: string, P: nat, k: nat)
    requires LiteralAt(u, P, Literal(User)) && P + |Literal(User)| < k
    requires k + 4 < |u| && Avoids(u, P + |Literal(User)|, k, '/')
    requires u[k] == '/' && u[k + 1] == '?' && u[k + 2] == 'v' && u[k + 3] == '=' && u[k + 4] != '&'
    ensures UserSplit(u, P) == Some((k, k + 4))
  {
    RunEndAt(u, P + |Literal(User)|, '/', k);
    assert QueryAt(u, k + 1);
  }

  /** `/user/` literal at `P`, a name up to `k`, then `?v=` and a character other than `&`, and
      after that no `/` and no `?`: backtracking gives characters back down to `k`. */
  lemma UserSplitBeforeQuery(u: string, P: nat, k: nat)
    requires LiteralAt(u, P, Literal(User)) && P + |Literal(User)| < k
    requires k + 3 < |u| && Avoids(u, P + |Literal(User)|, k, '/')
    requires u[k] == '?' && u[k + 1] == 'v' && u[k + 2] == '=' && u[k + 3] != '&'
    requires Avoids(u, k + 3, |u|, '/') && Avoids(u, k + 3, |u|, '?')
    ensures UserSplit(u, P) == Some((k, k + 3))
  {
    var T := P + |Literal(User)|;
    RunEndAt(u, T, '/', |u|);
    assert QueryAt(u, k);
    var last := LastQuery(u, T + 1, |u|);
  }

  /** `/user/` literal at `P`, a name up to `k`, then the opener and a character other than
      `&`, and in the form without the slash nothing after the opener holds `/` or `?`:
      backtracking settles on the end of the name. */
  lemma UserSplitAfterName(u: string, P: nat, k: nat, slash: bool)
    requires LiteralAt(u, P, Literal(User)) && P + |Literal(User)| < k
    requires k + |Opener(slash)| < |u| && u[k..k + |Opener(slash)|] == Opener(slash)
    requires Avoids(u, P + |Literal(User)|, k, '/')
    requires u[k + |Opener(slash)|] != '&'
    requires !slash ==> Avoids(u, k + 3, |u|, '/') && Avoids(u, k + 3, |u|, '?')
    ensures UserSplit(u, P) == Some((k, k + |Opener(slash)|))
  {
    var o := Opener(slash);
    SliceChar(u, k, k + |o|, o, 0);
    SliceChar(u, k, k + |o|, o, 1);
    SliceChar(u, k, k + |o|, o, 2);
    if slash {
      SliceChar(u, k, k + |o|, o, 3);
      UserSplitBeforeSlash(u, P, k);
    } else {
      UserSplitBeforeQuery(u, P, k);
    }
  }

  /** The pieces of a `/user/` link: the lead is the name and the opener, the name is not
      empty and has no `/`, the id does not start with `&`, and in the form without the slash
      neither the id nor the trailer holds `/` or `?`. */
  lemma UserPieces(l: Link)
    requires PartsWellFormed(l) && l.shape.UserLink?
    ensures PatternOf(l.shape) == User && Lead(l.shape) == l.shape.name + Opener(l.shape.slash)
    ensures l.shape.name != [] && '/' !in l.shape.name && l.id != [] && l.id[0] != '&'
    ensures !l.shape.slash ==> '/' !in l.id && '?' !in l.id
    ensures !l.shape.slash ==> '/' !in Trailer(l.shape, l.extra) && '?' !in Trailer(l.shape, l.extra)
  {
    IdStringAvoids(l.shape.name, '/');
    IdStringAvoids(l.id, '/');
    IdStringAvoids(l.id, '?');
    if l.extra.Some? {
      IdStringAvoids(l.extra.value, '/');
      IdStringAvoids(l.extra.value, '?');
    }
  }

  /** A built `/user/` URL around the end `k` of its name: the literal, a name without `/`,
      the opener, then an id that does not start with `&`, and in the form without the slash
      nothing after the opener holds `/` or `?`. */
  lemma UserLinkLayout(l: Link)
    requires PartsWellFormed(l) && l.shape.UserLink?
    ensures var u, P := Render(l), |l.prefix|;
      var T := P + |Literal(User)|;
      var k := T + |l.shape.name|;
      var c := k + |Opener(l.shape.slash)|;
      LiteralAt(u, P, Literal(User)) && T < k && c < |u| && Avoids(u, T, k, '/') &&
      u[k..c] == Opener(l.shape.slash) && u[c] != '&' &&
      (!l.shape.slash ==> Avoids(u, c, |u|, '/') && Avoids(u, c, |u|, '?'))
  {
    hide *; // only the layout and the pieces' characters matter
    var u, P, L := Render(l), |l.prefix|, Literal(User);
    var T := P + |L|;
    var k := T + |l.shape.name|;
    var o := Opener(l.shape.slash);
    var c, e := k + |o|, k + |o| + |l.id|;
    var trailer := Trailer(l.shape, l.extra);
    RenderLayout(l);
    UserPieces(l);
    ExactLiteralAt(u, P, L);
    SliceSplit(u, T, c, l.shape.name, o);
    AvoidsOfPiece(u, T, k, '/', l.shape.name);
    SliceChar(u, c, e, l.id, 0);
    if !l.shape.slash {
      AvoidsOfPiece(u, c, e, '/', l.id);
      AvoidsOfPiece(u, c, e, '?', l.id);
      AvoidsOfPiece(u, e, |u|, '/', trailer);
      AvoidsOfPiece(u, e, |u|, '?', trailer);
      AvoidsJoin(u, c, e, |u|, '/');
      AvoidsJoin(u, c, e, |u|, '?');
    }
  }

  /** At the literal of a built `/user/` URL, backtracking settles on the end of the name. */
  lemma UserSplitOfLink(l: Link)
    requires PartsWellFormed(l) && l.shape.UserLink?
    ensures var k := |l.prefix| + |Literal(User)| + |l.shape.name|;
      UserSplit(Render(l), |l.prefix|) == Some((k, k + |Opener(l.shape.slash)|))
  {
    UserLinkLayout(l);
    hide *;
    UserSplitAfterName(Render(l), |l.prefix|, |l.prefix| + |Literal(User)| + |l.shape.name|,
      l.shape.slash);
  }

  /** A literal other than `/user/` at `P`, then a character other than the stop character:
      the capture starts right after the literal. */
  lemma PlainCapture(p: Pattern, u: string, P: nat)
    requires p != User && P + |Literal(p)| < |u| && u[P..P + |Literal(p)|] == Literal(p)
    requires u[P + |Literal(p)|] != Stop(p)
    ensures CaptureStart(p, u, P) == Some(P + |Literal(p)|)
  {
    ExactLiteralAt(u, P, Literal(p));
  }

  lemma UserCaptureOfSplit(u: string, P: nat, k: nat, c: nat)
    requires UserSplit(u, P) == Some((k, c))
    ensures CaptureStart(User, u, P) == Some(c)
  {
  }

  lemma UserCaptureAtHead(l: Link)
    requires PartsWellFormed(l) && l.shape.UserLink?
    ensures CaptureStart(PatternOf(l.shape), Render(l), |l.prefix|) ==
      Some(|l.prefix| + |Literal(PatternOf(l.shape))| + |Lead(l.shape)|)
  {
    UserSplitOfLink(l);
    var k := |l.prefix| + |Literal(User)| + |l.shape.name|;
    UserCaptureOfSplit(Render(l), |l.prefix|, k, k + |Opener(l.shape.slash)|);
  }

  lemma PlainCaptureAtHead(l: Link)
    requires PartsWellFormed(l) && !l.shape.UserLink?
    ensures CaptureStart(PatternOf(l.shape), Render(l), |l.prefix|) ==
      Some(|l.prefix| + |Literal(PatternOf(l.shape))|)
  {
    var u, P, L := Render(l), |l.prefix|, Literal(PatternOf(l.shape));
    var T := P + |L|;
    RenderLayout(l);
    assert Lead(l.shape) == "";
    SliceChar(u, T, T + |l.id|, l.id, 0);
    IdStringAvoids(l.id, Stop(PatternOf(l.shape)));
    PlainCapture(PatternOf(l.shape), u, P);
  }

  /** At the literal of a built URL the capture starts right after the lead, on the id. */
  lemma CaptureAtHead(l: Link)
    requires PartsWellFormed(l)
    ensures CaptureStart(PatternOf(l.shape), Render(l), |l.prefix|) ==
      Some(|l.prefix| + |Literal(PatternOf(l.shape))| + |Lead(l.shape)|)
  {
    if l.shape.UserLink? {
      UserCaptureAtHead(l);
    } else {
      PlainCaptureAtHead(l);
    }
  }

  /** Where only one literal occurs, only that expression can match, and only there. */
  lemma CaptureOnlyAtLiteral(u: string, P: nat, p: Pattern)
    requires OnlyLiteral(u, P, p)
    ensures forall q: nat, p' :: CaptureStart(p', u, q).Some? ==> q == P && p' == p
  {
    forall q: nat, p' | CaptureStart(p', u, q).Some? ensures q == P && p' == p {
      CaptureStartSpec(p', u, q);
      ReadingHasLiteral(p', u, q, CaptureStart(p', u, q).value);
    }
  }

  /** An expression that cannot match anywhere gives no capture. */
  lemma MatchOfNowhere(p: Pattern, u: string)
    requires forall q: nat :: CaptureStart(p, u, q).None?
    ensures MatchOf(p, u).None?
  {
  }

  /** The capture of an expression whose only match is at `P`, starting at `c`, on `id` followed
      by the end of the text or the stop character. */
  lemma MatchOfOnly(p: Pattern, u: string, P: nat, c: nat, id: string)
    requires CaptureStart(p, u, P) == Some(c)
    requires forall q: nat :: q < P ==> CaptureStart(p, u, q).None?
    requires c + |id| <= |u| && u[c..c + |id|] == id && Stop(p) !in id
    requires c + |id| == |u| || u[c + |id|] == Stop(p)
    ensures MatchOf(p, u) == Some(id)
  {
    AvoidsOfPiece(u, c, c + |id|, Stop(p), id);
    RunEndAt(u, c, Stop(p), c + |id|);
  }

  /** When exactly one expression matches, `extractVideoId` gives its capture. */
  lemma ExtractOfOnlyMatch(u: string, p: Pattern, id: string)
    requires MatchOf(p, u) == Some(id)
    requires forall p' :: p' != p ==> MatchOf(p', u).None?
    ensures ExtractVideoId(u) == Some(id)
  {
    assert Patterns[3] == User;
    assert p == Patterns[0] || p == Patterns[1] || p == Patterns[2] || p == Patterns[3] ||
      p == Patterns[4] || p == Patterns[5];
    FirstMatchNone(Patterns, u);
    var k := FirstMatchIndex(Patterns, u);
  }

  /** A trailing parameter opens with the stop character of its shape's expression. */
  lemma TrailerOpensWithStop(l: Link)
    ensures var t := Trailer(l.shape, l.extra); t == [] || t[0] == Stop(PatternOf(l.shape))
  {
  }

  /** A text whose only literal is that of `p` at `P`, where the capture starts at `c` on `id`,
      followed by the end of the text or the stop character: extraction gives `id`. */
  lemma ExtractAtOnlyLiteral(u: string, P: nat, p: Pattern, c: nat, id: string)
    requires SoleMatch(u, P, p, c, id)
    ensures ExtractVideoId(u) == Some(id)
  {
    CaptureOnlyAtLiteral(u, P, p);
    MatchOfOnly(p, u, P, c, id);
    forall p' | p' != p ensures MatchOf(p', u).None? {
      MatchOfNowhere(p', u);
    }
    ExtractOfOnlyMatch(u, p, id);
  }

  /** In a built URL the id runs up to the end or up to the stop character. */
  lemma IdEnds(l: Link)
    requires PartsWellFormed(l)
    ensures var u, c := Render(l), |l.prefix| + |Literal(PatternOf(l.shape))| + |Lead(l.shape)|;
      c + |l.id| <= |u| && u[c..c + |l.id|] == l.id && Stop(PatternOf(l.shape)) !in l.id &&
      (c + |l.id| == |u| || u[c + |l.id|] == Stop(PatternOf(l.shape)))
  {
    var u, c := Render(l), |l.prefix| + |Literal(PatternOf(l.shape))| + |Lead(l.shape)|;
    RenderLayout(l);
    IdStringAvoids(l.id, Stop(PatternOf(l.shape)));
    TrailerOpensWithStop(l);
    if c + |l.id| < |u| {
      SliceChar(u, c + |l.id|, |u|, Trailer(l.shape, l.extra), 0);
    }
  }

  /** A built URL has one match: that of its shape's expression, at the end of the prefix,
      capturing exactly the id. */
  lemma LinkSoleMatch(l: Link)
    requires WellFormed(l)
    ensures SoleMatch(Render(l), |l.prefix|, PatternOf(l.shape),
      |l.prefix| + |Literal(PatternOf(l.shape))| + |Lead(l.shape)|, l.id)
  {
    RenderLiteral(l);
    CaptureAtHead(l);
    IdEnds(l);
  }

  /** Round trip: extracting from any well-formed URL of the six shapes, with or without
      scheme and `www.`, with or without a trailing parameter, gives back exactly its id. */
  lemma RoundTrip(l: Link)
    requires WellFormed(l)
    ensures ExtractVideoId(Render(l)) == Some(l.id)
  {
    hide *; // the two steps below need only the lemmas' contracts
    LinkSoleMatch(l);
    ExtractAtOnlyLiteral(Render(l), |l.prefix|, PatternOf(l.shape),
      |l.prefix| + |Literal(PatternOf(l.shape))| + |Lead(l.shape)|, l.id);
  }
}
