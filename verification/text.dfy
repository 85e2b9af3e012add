/** Character and string rules the script relies on from the JavaScript runtime: ASCII case
    folding as non-Unicode case-insensitive regular expressions apply it, the white space that
    `String.prototype.trim` removes, and decimal rendering of whole numbers. */
module Text {

  /** The canonical form a case-insensitive, non-Unicode JavaScript regular expression compares:
      lower-case ASCII letters become upper case. No other character folds onto an ASCII one. */
  function Fold(c: char): char {
    if 'a' <= c <= 'z' then (c as int - 32) as char else c
  }

  /** `t` with every character folded. */
  function Folded(t: string): (r: string) {
    seq(|t|, i requires 0 <= i < |t| => Fold(t[i]))
  }

  /** `lit` occurs in `s` at index `q`, letters compared without regard to ASCII case. */
  predicate LiteralAt(s: string, q: nat, lit: string) {
    q + |lit| <= |s| && Folded(s[q..q + |lit|]) == Folded(lit)
  }

  /** Where a literal occurs, each of its characters matches the text's, up to case. */
  lemma LiteralAtChar(s: string, q: nat, lit: string, j: nat)
    requires LiteralAt(s, q, lit) && j < |lit|
    ensures Fold(s[q + j]) == Fold(lit[j])
  {
    assert Folded(s[q..q + |lit|])[j] == Folded(lit)[j];
    assert s[q..q + |lit|][j] == s[q + j];
  }

  /** A literal written exactly as it stands matches. */
  lemma ExactLiteralAt(s: string, q: nat, lit: string)
    requires q + |lit| <= |s| && s[q..q + |lit|] == lit
    ensures LiteralAt(s, q, lit)
  {
  }

  /** The strings of `parts` one after another. */
  function Join(parts: seq<string>): string
    decreases |parts|
  {
    if parts == [] then [] else parts[0] + Join(parts[1..])
  }

  /** Where each of five joined pieces sits. */
  lemma JoinFive(a: string, b: string, c: string, d: string, e: string)
    ensures var s := Join([a, b, c, d, e]);
      var i, j, k, m := |a|, |a| + |b|, |a| + |b| + |c|, |a| + |b| + |c| + |d|;
      |s| == m + |e| && s[0..i] == a && s[i..j] == b && s[j..k] == c && s[k..m] == d &&
      s[m..|s|] == e
  {
    var p4, p3, p2, p1, parts := [e], [d, e], [c, d, e], [b, c, d, e], [a, b, c, d, e];
    assert p4[1..] == [] && p3[1..] == p4 && p2[1..] == p3 && p1[1..] == p2 && parts[1..] == p1;
    var r3 := d + (e + []);
    assert Join(p4) == e + [];
    assert Join(p3) == r3;
    var r2 := c + r3;
    assert Join(p2) == r2;
    var r1 := b + r2;
    assert Join(p1) == r1;
    var s := a + r1;
    assert Join(parts) == s;
    var i, j, k, m := |a|, |a| + |b|, |a| + |b| + |c|, |a| + |b| + |c| + |d|;
    assert s[i..] == r1 && s[j..] == r2 && s[k..] == r3 && s[m..] == e + [];
  }

  /** The two halves of a slice that spells `x + y`. */
  lemma SliceSplit(s: string, a: nat, b: nat, x: string, y: string)
    requires a <= b <= |s| && s[a..b] == x + y
    ensures a + |x| <= b && s[a..a + |x|] == x && s[a + |x|..b] == y
  {
    assert s[a..a + |x|] == s[a..b][..|x|];
    assert s[a + |x|..b] == s[a..b][|x|..];
  }

  /** A character of a slice is the text's character at the same place. */
  lemma SliceChar(s: string, a: nat, b: nat, x: string, i: nat)
    requires a <= b <= |s| && s[a..b] == x && i < |x|
    ensures s[a + i] == x[i]
  {
    assert s[a..b][i] == s[a + i];
  }

  /** No character of `s` in the index range [a, b) is `x`. */
  predicate Avoids(s: string, a: nat, b: nat, x: char)
    requires b <= |s|
  {
    forall j :: a <= j < b ==> s[j] != x
  }

  /** A slice that spells a string without `x` is a range of the text without `x`. */
  lemma AvoidsOfPiece(s: string, a: nat, b: nat, x: char, piece: string)
    requires a <= b <= |s| && s[a..b] == piece && x !in piece
    ensures Avoids(s, a, b, x)
  {
    forall j | a <= j < b ensures s[j] != x {
      assert s[j] == s[a..b][j - a];
    }
  }

  /** A range of the text without `x` is a slice without `x`. */
  lemma PieceOfAvoids(s: string, a: nat, b: nat, x: char)
    requires a <= b <= |s| && Avoids(s, a, b, x)
    ensures x !in s[a..b]
  {
    forall k | 0 <= k < b - a ensures s[a..b][k] != x {
      assert s[a..b][k] == s[a + k];
    }
  }

  /** Two adjacent ranges without `x` make one. */
  lemma AvoidsJoin(s: string, a: nat, b: nat, c: nat, x: char)
    requires a <= b <= c <= |s| && Avoids(s, a, b, x) && Avoids(s, b, c, x)
    ensures Avoids(s, a, c, x)
  {
  }

  /** Index of the first `x` at or after `i`, or `|s|` if there is none: where a greedy
      `[^x]+` run starting at `i` stops. */
  function RunEnd(s: string, i: nat, x: char): (r: nat)
    requires i <= |s|
    ensures i <= r <= |s| && Avoids(s, i, r, x)
    ensures r < |s| ==> s[r] == x
    decreases |s| - i
  {
    if i == |s| || s[i] == x then i else RunEnd(s, i + 1, x)
  }

  /** RunEnd stops at the first `x`, so any index with no `x` before it and an `x` (or the end)
      at it is where RunEnd stops. */
  lemma RunEndAt(s: string, i: nat, x: char, d: nat)
    requires i <= d <= |s| && Avoids(s, i, d, x) && (d == |s| || s[d] == x)
    ensures RunEnd(s, i, x) == d
  {
  }

  /** The characters ECMAScript counts as WhiteSpace or LineTerminator. */
  predicate IsJsSpace(c: char) {
    c == '\t' || c == '\n' || c == '\U{000B}' || c == '\U{000C}' || c == '\r' || c == ' ' ||
    c == '\U{00A0}' || c == '\U{1680}' || ('\U{2000}' <= c <= '\U{200A}') ||
    c == '\U{2028}' || c == '\U{2029}' || c == '\U{202F}' || c == '\U{205F}' ||
    c == '\U{3000}' || c == '\U{FEFF}'
  }

  predicate AllSpace(s: string) {
    forall i :: 0 <= i < |s| ==> IsJsSpace(s[i])
  }

  /** `s` without its leading white space. */
  function TrimStart(s: string): (r: string)
    ensures |r| <= |s| && r == s[|s| - |r|..]
    ensures AllSpace(s[..|s| - |r|])
    ensures r != [] ==> !IsJsSpace(r[0])
  {
    if s != [] && IsJsSpace(s[0]) then TrimStart(s[1..]) else s
  }

  /** `s` without its trailing white space. */
  function TrimEnd(s: string): (r: string)
    ensures |r| <= |s| && r == s[..|r|]
    ensures AllSpace(s[|r|..])
    ensures r != [] ==> !IsJsSpace(r[|r| - 1])
  {
    if s != [] && IsJsSpace(s[|s| - 1]) then TrimEnd(s[..|s| - 1]) else s
  }

  /** `String.prototype.trim`. */
  function Trim(s: string): string {
    TrimEnd(TrimStart(s))
  }

  /** The trimmed text is a contiguous piece of the input. */
  lemma TrimIsSlice(s: string) returns (a: nat, b: nat)
    ensures a <= b <= |s| && Trim(s) == s[a..b]
  {
    var t := TrimStart(s);
    a := |s| - |t|;
    b := a + |Trim(s)|;
    assert t == s[a..];
  }

  /** The trimmed text is empty exactly when the input is nothing but white space. */
  lemma TrimEmptyIffAllSpace(s: string)
    ensures Trim(s) == [] <==> AllSpace(s)
  {
    var t := TrimStart(s);
    if Trim(s) == [] {
      assert AllSpace(t[0..]);
      assert t == [];
      assert s[..|s|] == s;
    } else {
      assert t != [];
      assert t[0] == s[|s| - |t|];
    }
  }

  lemma {:induction false} TrimStartOfPadded(a: string, m: string)
    requires AllSpace(a) && m != [] && !IsJsSpace(m[0])
    ensures TrimStart(a + m) == m
    decreases |a|
  {
    if a == [] {
      assert a + m == m;
    } else {
      assert (a + m)[0] == a[0];
      assert (a + m)[1..] == a[1..] + m;
      TrimStartOfPadded(a[1..], m);
    }
  }

  lemma {:induction false} TrimEndOfPadded(m: string, b: string)
    requires AllSpace(b) && m != [] && !IsJsSpace(m[|m| - 1])
    ensures TrimEnd(m + b) == m
    decreases |b|
  {
    if b == [] {
      assert m + b == m;
    } else {
      assert (m + b)[|m + b| - 1] == b[|b| - 1];
      assert (m + b)[..|m + b| - 1] == m + b[..|b| - 1];
      TrimEndOfPadded(m, b[..|b| - 1]);
    }
  }

  /** Trimming removes exactly the white space around a text that neither starts nor ends with
      white space. */
  lemma TrimOfPadded(a: string, m: string, b: string)
    requires AllSpace(a) && AllSpace(b)
    requires m != [] && !IsJsSpace(m[0]) && !IsJsSpace(m[|m| - 1])
    ensures Trim(a + m + b) == m
  {
    assert (m + b)[0] == m[0];
    TrimStartOfPadded(a, m + b);
    assert a + m + b == a + (m + b);
    TrimEndOfPadded(m, b);
  }

  predicate IsDigit(c: char) {
    '0' <= c <= '9'
  }

  predicate IsDigits(s: string) {
    s != [] && forall i :: 0 <= i < |s| ==> IsDigit(s[i])
  }

  function DigitChar(d: nat): char
    requires d < 10
  {
    ('0' as int + d) as char
  }

  /** Decimal rendering of a whole number, as JavaScript prints it: no sign and no leading zero. */
  function NatToString(n: nat): (r: string)
    ensures IsDigits(r)
    ensures |r| > 1 ==> r[0] != '0'
    decreases n
  {
    if n < 10 then [DigitChar(n)] else NatToString(n / 10) + [DigitChar(n % 10)]
  }

  /** The value of a string of decimal digits. */
  function ParseNat(s: string): nat
    requires IsDigits(s)
    decreases |s|
  {
    var last := s[|s| - 1] as int - '0' as int;
    if |s| == 1 then last else ParseNat(s[..|s| - 1]) * 10 + last
  }

  /** Rendering a number and reading it back gives the number. */
  lemma {:induction false} ParseNatToString(n: nat)
    ensures ParseNat(NatToString(n)) == n
    decreases n
  {
    if n >= 10 {
      var s := NatToString(n);
      assert s[..|s| - 1] == NatToString(n / 10);
      ParseNatToString(n / 10);
    }
  }
}
