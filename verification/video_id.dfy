/** `extractVideoId` (js/script.js:267-286): six regular expressions tried in a fixed order; the
    first one that matches anywhere in the input gives its first capture group, and when none
    matches the result is null.

    Every expression is `(?:https?:\/\/)?(?:www\.)?`, then a host/path literal, then a capture
    `([^x]+)` that stops at one character `x`, all matched without regard to ASCII case. No text
    the optional prefix allows contains a `y` and every literal starts with one, so the match the
    engine finds has its literal at the leftmost position where the rest of the expression can
    match (LeftmostStartHasFirstLiteral). The model therefore searches literal positions. */
module VideoId {
  import opened Wrappers
  import opened Text

  datatype Pattern = Watch | Embed | LegacyV | User | ShortHost | Shorts

  /** The expressions in the order the script tries them. */
  const Patterns: seq<Pattern> := [Watch, Embed, LegacyV, User, ShortHost, Shorts]

  /** The host/path literal of each expression, in lower case. */
  function Literal(p: Pattern): string {
    match p
    case Watch => "youtube.com/watch?v="
    case Embed => "youtube.com/embed/"
    case LegacyV => "youtube.com/v/"
    case User => "youtube.com/user/"
    case ShortHost => "youtu.be/"
    case Shorts => "youtube.com/shorts/"
  }

  /** The character the capture `([^x]+)` of each expression stops at. */
  function Stop(p: Pattern): char {
    if p == Watch || p == User then '&' else '?'
  }

  /** `?v=` (the `v` in either case) at `k`, followed by a character other than `&`. */
  predicate QueryAt(s: string, k: nat) {
    k + 3 < |s| && s[k] == '?' && Fold(s[k + 1]) == 'V' && s[k + 2] == '=' && s[k + 3] != '&'
  }

  /** One way `youtube\.com\/user\/[^\/]+\/?\?v=([^&]+)` can match with its literal at `q`: the
      name segment `[^\/]+` ends at `k` and the capture starts at `c`. */
  predicate UserReading(s: string, q: nat, k: nat, c: nat) {
    var s0 := q + |Literal(User)|;
    LiteralAt(s, q, Literal(User)) && s0 < k <= |s| && Avoids(s, s0, k, '/') &&
    ((k < |s| && s[k] == '/' && QueryAt(s, k + 1) && c == k + 4) || (QueryAt(s, k) && c == k + 3))
  }

  /** The expression of `p` can match with its literal at `q` and its capture starting at `c`. */
  ghost predicate Reading(p: Pattern, s: string, q: nat, c: nat) {
    if p == User then exists k: nat :: UserReading(s, q, k, c)
    else LiteralAt(s, q, Literal(p)) && c == q + |Literal(p)| && c < |s| && s[c] != Stop(p)
  }

  /** A reading needs the literal at its position and at least one character to capture. */
  lemma ReadingHasLiteral(p: Pattern, s: string, q: nat, c: nat)
    requires Reading(p, s, q, c)
    ensures LiteralAt(s, q, Literal(p)) && q + |Literal(p)| <= c < |s| && s[c] != Stop(p)
  {
    if p == User {
      var k :| UserReading(s, q, k, c);
    }
  }

  /** Of two `/user/` readings, the one with the longer name segment starts its capture later. */
  lemma UserReadingsOrdered(s: string, q: nat, k1: nat, c1: nat, k2: nat, c2: nat)
    requires UserReading(s, q, k1, c1) && UserReading(s, q, k2, c2) && k1 <= k2
    ensures c1 <= c2 && (k1 == k2 ==> c1 == c2)
  {
    if k1 < k2 {
      assert s[k1] != '/';
    }
  }

  /** The largest `k` in [lo, hi) with `?v=` and a non-`&` character at `k`. */
  function LastQuery(s: string, lo: nat, hi: nat): (r: Option<nat>)
    ensures r.Some? ==> lo <= r.value < hi && QueryAt(s, r.value)
    ensures r.Some? ==> forall k :: r.value < k < hi ==> !QueryAt(s, k)
    ensures r.None? ==> forall k :: lo <= k < hi ==> !QueryAt(s, k)
    decreases hi
  {
    if hi <= lo then None
    else if QueryAt(s, hi - 1) then Some(hi - 1)
    else LastQuery(s, lo, hi - 1)
  }

  /** Backtracking over the greedy name segment of the `/user/` expression with its literal at
      `q`: the segment first takes every character up to the next `/` and then gives them back
      one at a time. The result is (segment end, capture start) of the first reading found. */
  function UserSplit(s: string, q: nat): Option<(nat, nat)> {
    if !LiteralAt(s, q, Literal(User)) then None
    else
      var s0 := q + |Literal(User)|;
      var e := RunEnd(s, s0, '/');
      if e == s0 then None
      else if e < |s| && QueryAt(s, e + 1) then Some((e, e + 4))
      else
        var last := LastQuery(s, s0 + 1, e);
        if last.Some? then Some((last.value, last.value + 3)) else None
  }

  /** The backtracking finds a reading whenever there is one, and the one it finds has the
      longest name segment. */
  lemma UserSplitSpec(s: string, q: nat)
    ensures UserSplit(s, q).Some? ==> UserReading(s, q, UserSplit(s, q).value.0, UserSplit(s, q).value.1)
    ensures UserSplit(s, q).Some? ==>
      forall k: nat, c: nat :: UserReading(s, q, k, c) ==> k <= UserSplit(s, q).value.0
    ensures UserSplit(s, q).None? ==> forall k: nat, c: nat :: !UserReading(s, q, k, c)
  {
    if LiteralAt(s, q, Literal(User)) {
      var s0 := q + |Literal(User)|;
      var e := RunEnd(s, s0, '/');
      forall k: nat, c: nat | UserReading(s, q, k, c) ensures k <= e {
      }
    }
  }

  lemma UserLongestIsLatest(s: string, q: nat, k: nat, c: nat)
    requires UserReading(s, q, k, c)
    requires forall k': nat, c': nat :: UserReading(s, q, k', c') ==> k' <= k
    ensures forall c': nat :: Reading(User, s, q, c') ==> c' <= c
  {
    forall c': nat | Reading(User, s, q, c') ensures c' <= c {
      var k' :| UserReading(s, q, k', c');
      UserReadingsOrdered(s, q, k', c', k, c);
    }
  }

  /** Where the capture of `p` starts if the expression of `p` matches with its literal at `q`. */
  function CaptureStart(p: Pattern, s: string, q: nat): (r: Option<nat>)
    ensures r.Some? ==> q < r.value < |s|
  {
    if p == User then
      var split := UserSplit(s, q);
      if split.Some? then Some(split.value.1) else None
    else if LiteralAt(s, q, Literal(p)) && q + |Literal(p)| < |s| && s[q + |Literal(p)|] != Stop(p) then
      Some(q + |Literal(p)|)
    else None
  }

  /** CaptureStart finds a reading at `q` whenever there is one, and it picks the reading the
      engine settles on: the one with the latest capture start. */
  lemma CaptureStartSpec(p: Pattern, s: string, q: nat)
    ensures CaptureStart(p, s, q).Some? ==> Reading(p, s, q, CaptureStart(p, s, q).value)
    ensures CaptureStart(p, s, q).Some? ==>
      forall c: nat :: Reading(p, s, q, c) ==> c <= CaptureStart(p, s, q).value
    ensures CaptureStart(p, s, q).None? ==> forall c: nat :: !Reading(p, s, q, c)
  {
    if p == User {
      UserSplitSpec(s, q);
      var split := UserSplit(s, q);
      if split.Some? {
        UserLongestIsLatest(s, q, split.value.0, split.value.1);
      }
    }
  }

  /** A match: the literal's position and the capture's start. */
  datatype Hit = Hit(at: nat, start: nat)

  /** The leftmost literal position at or after `from` where the expression of `p` matches. */
  function FindHit(p: Pattern, s: string, from: nat): (r: Option<Hit>)
    requires from <= |s|
    ensures r.Some? ==> from <= r.value.at < |s| && CaptureStart(p, s, r.value.at) == Some(r.value.start)
    ensures r.Some? ==> forall q :: from <= q < r.value.at ==> CaptureStart(p, s, q).None?
    ensures r.None? ==> forall q :: from <= q < |s| ==> CaptureStart(p, s, q).None?
    decreases |s| - from
  {
    if from == |s| then None
    else
      var here := CaptureStart(p, s, from);
      if here.Some? then Some(Hit(from, here.value)) else FindHit(p, s, from + 1)
  }

  /** `s.match(regexp)[1]` for the expression of `p`, or None when it does not match. */
  function MatchOf(p: Pattern, s: string): Option<string> {
    var hit := FindHit(p, s, 0);
    if hit.None? then None
    else Some(s[hit.value.start..RunEnd(s, hit.value.start, Stop(p))])
  }

  /** The literal of `p` at `P` is the only literal anywhere in `s`. */
  ghost predicate OnlyLiteral(s: string, P: nat, p: Pattern) {
    forall q: nat, p' :: LiteralAt(s, q, Literal(p')) ==> q == P && p' == p
  }

  /** The loop of `extractVideoId` over the expressions `ps`: the first capture found. */
  function FirstMatch(ps: seq<Pattern>, s: string): Option<string> {
    if ps == [] then None
    else
      var m := MatchOf(ps[0], s);
      if m.Some? then m else FirstMatch(ps[1..], s)
  }

  /** `extractVideoId(url)`; None stands for `null`. */
  function ExtractVideoId(url: string): Option<string> {
    FirstMatch(Patterns, url)
  }

  // ---------------------------------------------------------------------------------------
  // What a match means, stated without the search.

  /** `(c, q)` is the reading the engine reports for `p`: no reading at an earlier literal
      position, and the latest capture start at this one. */
  ghost predicate Leftmost(p: Pattern, s: string, q: nat, c: nat) {
    Reading(p, s, q, c) &&
    (forall q': nat, c': nat :: q' < q ==> !Reading(p, s, q', c')) &&
    (forall c': nat :: Reading(p, s, q, c') ==> c' <= c)
  }

  /** `id` is what `([^x]+)` captures starting at `c`: the whole run of characters other than
      `x`, non-empty, copied from `s` as it stands. */
  predicate CapturedAt(s: string, c: nat, id: string, x: char) {
    0 < |id| && c + |id| <= |s| && s[c..c + |id|] == id && x !in id &&
    (c + |id| == |s| || s[c + |id|] == x)
  }

  /** The greedy run from a character other than `x` is what `([^x]+)` captures there. */
  lemma RunIsCaptured(s: string, c: nat, x: char)
    requires c < |s| && s[c] != x
    ensures CapturedAt(s, c, s[c..RunEnd(s, c, x)], x)
  {
    PieceOfAvoids(s, c, RunEnd(s, c, x), x);
  }

  /** The only literal in `s` is that of `p` at `P`, the expression of `p` matches there with
      its capture starting at `c`, and `id` is what it captures. */
  ghost predicate SoleMatch(s: string, P: nat, p: Pattern, c: nat, id: string) {
    OnlyLiteral(s, P, p) && CaptureStart(p, s, P) == Some(c) && CapturedAt(s, c, id, Stop(p))
  }

  /** No expression among `ps` has any reading in `s`. */
  ghost predicate NoneMatch(ps: seq<Pattern>, s: string) {
    forall j, q: nat, c: nat :: 0 <= j < |ps| ==> !Reading(ps[j], s, q, c)
  }

  /** One expression: it yields nothing exactly when it has no reading, and otherwise the
      capture of its leftmost, greedy reading. */
  lemma MatchOfSpec(p: Pattern, s: string)
    ensures MatchOf(p, s).None? <==> forall q: nat, c: nat :: !Reading(p, s, q, c)
    ensures MatchOf(p, s).Some? ==>
      exists q: nat, c: nat :: Leftmost(p, s, q, c) && CapturedAt(s, c, MatchOf(p, s).value, Stop(p))
  {
    var hit := FindHit(p, s, 0);
    if hit.None? {
      forall q: nat, c: nat ensures !Reading(p, s, q, c) {
        if Reading(p, s, q, c) {
          ReadingHasLiteral(p, s, q, c);
          CaptureStartSpec(p, s, q);
        }
      }
    } else {
      var h := hit.value;
      var e := RunEnd(s, h.start, Stop(p));
      CaptureStartSpec(p, s, h.at);
      forall q': nat, c': nat | q' < h.at ensures !Reading(p, s, q', c') {
        CaptureStartSpec(p, s, q');
      }
      ReadingHasLiteral(p, s, h.at, h.start);
      assert Leftmost(p, s, h.at, h.start);
      RunIsCaptured(s, h.start, Stop(p));
    }
  }

  /** The loop finds nothing exactly when no expression in `ps` matches. */
  lemma {:induction false} FirstMatchNone(ps: seq<Pattern>, s: string)
    ensures FirstMatch(ps, s).None? <==> forall i :: 0 <= i < |ps| ==> MatchOf(ps[i], s).None?
    decreases |ps|
  {
    hide MatchOf;
    if ps != [] {
      FirstMatchNone(ps[1..], s);
      assert forall i :: 1 <= i < |ps| ==> ps[i] == ps[1..][i - 1];
    }
  }

  /** The position in `ps` of the expression whose capture the loop returns: it matches, and
      no expression before it does. */
  lemma {:induction false} FirstMatchIndex(ps: seq<Pattern>, s: string) returns (i: nat)
    requires FirstMatch(ps, s).Some?
    ensures i < |ps| && MatchOf(ps[i], s) == FirstMatch(ps, s)
    ensures forall j :: 0 <= j < i ==> MatchOf(ps[j], s).None?
    decreases |ps|
  {
    hide MatchOf; // each expression's search plays no part here
    var m := MatchOf(ps[0], s);
    if m.Some? {
      i := 0;
    } else {
      assert FirstMatch(ps, s) == FirstMatch(ps[1..], s);
      var i' := FirstMatchIndex(ps[1..], s);
      i := i' + 1;
      assert ps[i] == ps[1..][i'];
      forall j | 0 <= j < i ensures MatchOf(ps[j], s).None? {
        if j > 0 {
          assert ps[j] == ps[1..][j - 1];
        }
      }
    }
  }

  /** `extractVideoId` returns null exactly when no expression matches anywhere; otherwise its
      result is the capture of the leftmost, greedy reading of the first expression, in the
      fixed order, that matches at all. The id is a non-empty run of the input, kept in its
      original case, ending at that expression's stop character or at the end. */
  lemma ExtractVideoIdSpec(url: string)
    ensures ExtractVideoId(url).None? <==> NoneMatch(Patterns, url)
    ensures ExtractVideoId(url).Some? ==>
      exists i, q: nat, c: nat :: 0 <= i < |Patterns| && NoneMatch(Patterns[..i], url) &&
        Leftmost(Patterns[i], url, q, c) &&
        CapturedAt(url, c, ExtractVideoId(url).value, Stop(Patterns[i]))
  {
    hide MatchOf; // MatchOfSpec says all that is needed of each search
    FirstMatchNone(Patterns, url);
    forall i | 0 <= i < |Patterns|
      ensures MatchOf(Patterns[i], url).None? <==> forall q: nat, c: nat :: !Reading(Patterns[i], url, q, c)
    {
      MatchOfSpec(Patterns[i], url);
    }
    if ExtractVideoId(url).Some? {
      var i := FirstMatchIndex(Patterns, url);
      MatchOfSpec(Patterns[i], url);
      var q, c :| Leftmost(Patterns[i], url, q, c) &&
        CapturedAt(url, c, MatchOf(Patterns[i], url).value, Stop(Patterns[i]));
      assert NoneMatch(Patterns[..i], url);
    }
  }

  // ---------------------------------------------------------------------------------------
  // The optional prefix does not move the match.

  /** The texts `(?:https?:\/\/)?(?:www\.)?` can match, in the order backtracking tries them. */
  const Prefixes: seq<string> := ["https://www.", "https://", "http://www.", "http://", "www.", ""]

  /** The whole expression of `p` matches starting at `st`, its literal sitting at `q`. */
  ghost predicate MatchStartsAt(p: Pattern, s: string, st: nat, q: nat) {
    exists i :: 0 <= i < |Prefixes| && LiteralAt(s, st, Prefixes[i]) && q == st + |Prefixes[i]| &&
      exists c: nat :: Reading(p, s, q, c)
  }

  /** A character matched by a prefix text is not a `y` in either case. */
  lemma PrefixHasNoY(s: string, st: nat, i: nat, j: nat)
    requires i < |Prefixes| && LiteralAt(s, st, Prefixes[i]) && st <= j < st + |Prefixes[i]|
    ensures Fold(s[j]) != 'Y'
  {
    var pre := Prefixes[i];
    LiteralAtChar(s, st, pre, j - st);
    assert pre[j - st] in pre;
  }

  /** Every literal starts with a `y`. */
  lemma LiteralStartsWithY(p: Pattern, s: string, q: nat)
    requires LiteralAt(s, q, Literal(p))
    ensures Fold(s[q]) == 'Y'
  {
    LiteralAtChar(s, q, Literal(p), 0);
  }

  /** Every literal starts with `y`, so a text without `y` in either case matches no
      expression. */
  lemma NoYNoMatch(s: string)
    requires forall i :: 0 <= i < |s| ==> Fold(s[i]) != 'Y'
    ensures ExtractVideoId(s).None?
  {
    forall i | 0 <= i < |Patterns| ensures MatchOf(Patterns[i], s).None? {
      var p := Patterns[i];
      forall q: nat | q < |s| ensures CaptureStart(p, s, q).None? {
        if CaptureStart(p, s, q).Some? {
          CaptureStartSpec(p, s, q);
          ReadingHasLiteral(p, s, q, CaptureStart(p, s, q).value);
          LiteralStartsWithY(p, s, q);
        }
      }
    }
    FirstMatchNone(Patterns, s);
  }

  /** Where the expression of `p` matches with its literal at `q`, the whole expression can
      also match from `q` with the empty prefix, and `q` holds a `y`. */
  lemma CaptureStartMatches(p: Pattern, s: string, q: nat)
    requires CaptureStart(p, s, q).Some?
    ensures q < |s| && Fold(s[q]) == 'Y' && MatchStartsAt(p, s, q, q)
  {
    var c := CaptureStart(p, s, q).value;
    CaptureStartSpec(p, s, q);
    ReadingHasLiteral(p, s, q, c);
    LiteralStartsWithY(p, s, q);
    assert LiteralAt(s, q, Prefixes[5]);
  }

  /** The engine reports the leftmost starting position of a match. Whatever prefix that match
      uses, its literal sits at the position FindHit finds. */
  lemma LeftmostStartHasFirstLiteral(p: Pattern, s: string, st: nat, q: nat)
    requires MatchStartsAt(p, s, st, q)
    requires forall st': nat, q': nat :: st' < st ==> !MatchStartsAt(p, s, st', q')
    ensures FindHit(p, s, 0).Some? && FindHit(p, s, 0).value.at == q
  {
    var i :| 0 <= i < |Prefixes| && LiteralAt(s, st, Prefixes[i]) && q == st + |Prefixes[i]| &&
      exists c: nat :: Reading(p, s, q, c);
    var c :| Reading(p, s, q, c);
    // From here on only the contracts of the searches matter.
    hide CaptureStart, FindHit, MatchStartsAt;
    CaptureStartSpec(p, s, q);
    forall q': nat | q' < q ensures CaptureStart(p, s, q').None? {
      if CaptureStart(p, s, q').Some? {
        CaptureStartMatches(p, s, q');
        PrefixHasNoY(s, st, i, q');
        assert false;
      }
    }
  }
}
