/**
 * generateOgImage of the static export: read the page's og:description, wrap it
 * into lines, fill the SVG template, rasterise it unless the PNG already exists,
 * and insert an og:image tag into the page. Rasterisation and the file system are
 * not modelled: whether the PNG exists is a set of paths, whether sharp succeeds is
 * an input, and the page is a string in and out.
 */
module OgImage {
  import opened Wrappers
  import opened JsString

  const WrapWidth := 60
  const TitleWidth := 24
  const DescriptionOpen := "<meta name=\"og:description\" content=\""
  const DescriptionClose := "\">"
  const HeadClose := "</head>"
  const PublicDir := "public/"
  const ImageDir := PublicDir + "og/"
  /** The Cloudflare Pages deployment the images are published on: its branch alias and its project. */
  const PagesBranch := "feat-og-images-v2"
  const PagesProject := "v6-docs.pages.dev"
  const ImageHost := "https://" + PagesBranch + "." + PagesProject + "/"
  const TitleSlot := "{{ title }}"
  const Line1Slot := "{{ line1 }}"
  const Line2Slot := "{{ line2 }}"
  const Line3Slot := "{{ line3 }}"

  predicate NoLineTerminator(d: string)
  {
    forall k :: 0 <= k < |d| ==> !IsLineTerminator(d[k])
  }

  predicate NoSpace(d: string)
  {
    forall k :: 0 <= k < |d| ==> !IsSpace(d[k])
  }

  // ---------------------------------------------------------------------------
  // The description: /<meta name="og:description" content="(.*)">/
  // ---------------------------------------------------------------------------

  /** How many characters from `i` on are not line terminators (how far `.*` can reach). */
  function LineRun(s: string, i: nat): (n: nat)
    requires i <= |s|
    decreases |s| - i
    ensures i + n <= |s|
    ensures NoLineTerminator(s[i..i + n])
    ensures i + n == |s| || IsLineTerminator(s[i + n])
  {
    if i == |s| || IsLineTerminator(s[i]) then 0
    else
      var n := LineRun(s, i + 1);
      assert s[i..i + n + 1] == [s[i]] + s[i + 1..i + 1 + n];
      1 + n
  }

  /** A line-terminator-free stretch of `m` characters from `i` is within the run. */
  lemma {:induction false} RunCovers(s: string, i: nat, m: nat)
    requires i + m <= |s|
    requires NoLineTerminator(s[i..i + m])
    decreases m
    ensures m <= LineRun(s, i)
  {
    if m > 0 {
      assert s[i..i + m][0] == s[i];
      assert s[i + 1..i + m] == s[i..i + m][1..];
      RunCovers(s, i + 1, m - 1);
    }
  }

  /** A stretch free of line terminators that ends the string or a line is the whole run. */
  lemma {:induction false} RunIs(s: string, i: nat, m: nat)
    requires i + m <= |s|
    requires NoLineTerminator(s[i..i + m])
    requires i + m == |s| || IsLineTerminator(s[i + m])
    decreases m
    ensures LineRun(s, i) == m
  {
    if m > 0 {
      assert s[i..i + m][0] == s[i];
      assert s[i + 1..i + m] == s[i..i + m][1..];
      RunIs(s, i + 1, m - 1);
    }
  }

  /** The closing `">` starts `j` characters after `start`. */
  predicate ClosesAt(s: string, start: nat, j: nat)
  {
    OccursAt(s, DescriptionClose, start + j)
  }

  /** The largest `j` with `j + 2 <= n` at which `">` follows: greedy `.*` backtracking. */
  function LastClose(s: string, start: nat, n: nat): (r: Option<nat>)
    ensures r.Some? ==> r.value + 2 <= n && ClosesAt(s, start, r.value)
    ensures r.Some? ==> forall j: nat :: r.value < j && j + 2 <= n ==> !ClosesAt(s, start, j)
    ensures r.None? ==> forall j: nat :: j + 2 <= n ==> !ClosesAt(s, start, j)
  {
    if n < 2 then None
    else if ClosesAt(s, start, n - 2) then Some(n - 2)
    else LastClose(s, start, n - 1)
  }

  /** The whole tag `<meta name="og:description" content="d">` starts at `i`. */
  predicate TagAt(s: string, d: string, i: nat)
  {
    OccursAt(s, DescriptionOpen + d + DescriptionClose, i)
  }

  lemma TagAtParts(s: string, d: string, i: nat)
    requires TagAt(s, d, i)
    ensures OccursAt(s, DescriptionOpen, i)
    ensures ClosesAt(s, i + |DescriptionOpen|, |d|)
    ensures s[i + |DescriptionOpen|..i + |DescriptionOpen| + |d|] == d
  {
    var whole := DescriptionOpen + d + DescriptionClose;
    var start := i + |DescriptionOpen|;
    assert s[i..i + |whole|] == whole;
    assert s[i..start] == whole[..|DescriptionOpen|];
    assert s[start..start + |d|] == whole[|DescriptionOpen|..|DescriptionOpen| + |d|];
    assert s[start + |d|..start + |d| + 2] == whole[|DescriptionOpen| + |d|..];
  }

  /** A tag whose description has no line terminator lies within the run after the opening text. */
  lemma TagFits(s: string, d: string, i: nat)
    requires NoLineTerminator(d) && TagAt(s, d, i)
    ensures OccursAt(s, DescriptionOpen, i)
    ensures |d| + 2 <= LineRun(s, i + |DescriptionOpen|)
    ensures ClosesAt(s, i + |DescriptionOpen|, |d|)
  {
    TagAtParts(s, d, i);
    var start := i + |DescriptionOpen|;
    var stretch := s[start..start + |d| + 2];
    assert stretch == d + DescriptionClose;
    assert NoLineTerminator(stretch) by {
      forall k | 0 <= k < |stretch| ensures !IsLineTerminator(stretch[k]) {
        if k < |d| { assert stretch[k] == d[k]; }
      }
    }
    RunCovers(s, start, |d| + 2);
  }

  lemma PrefixHasNoLineTerminator(x: string, n: nat)
    requires NoLineTerminator(x) && n <= |x|
    ensures NoLineTerminator(x[..n])
  {
    forall k | 0 <= k < n ensures !IsLineTerminator(x[..n][k]) {
      assert x[..n][k] == x[k];
    }
  }

  /** Three texts that follow each other in `s` from `a` on make up their concatenation there. */
  lemma OccursOfThree(s: string, a: nat, b: nat, c: nat, x: string, y: string, z: string)
    requires OccursAt(s, x, a) && b == a + |x|
    requires c == b + |y| && c <= |s| && s[b..c] == y
    requires OccursAt(s, z, c)
    ensures OccursAt(s, x + y + z, a)
  {
    assert s[a..c + |z|] == s[a..b] + s[b..c] + s[c..c + |z|];
  }

  /** A closing `">` within the run after the opening text completes a tag. */
  lemma TagFromClose(s: string, i: nat, j: nat)
    requires OccursAt(s, DescriptionOpen, i)
    requires j + 2 <= LineRun(s, i + |DescriptionOpen|)
    requires ClosesAt(s, i + |DescriptionOpen|, j)
    ensures TagAt(s, s[i + |DescriptionOpen|..i + |DescriptionOpen| + j], i)
    ensures NoLineTerminator(s[i + |DescriptionOpen|..i + |DescriptionOpen| + j])
  {
    var start := i + |DescriptionOpen|;
    var run := LineRun(s, start);
    var d := s[start..start + j];
    PrefixHasNoLineTerminator(s[start..start + run], j);
    assert d == s[start..start + run][..j];
    OccursOfThree(s, i, start, start + j, DescriptionOpen, d, DescriptionClose);
  }

  /** The regular expression's match at `i`, if any: the capture group, up to the last `">` on the line. */
  function CaptureAt(s: string, i: nat): (r: Option<string>)
    requires i <= |s|
    ensures r.Some? ==> TagAt(s, r.value, i) && NoLineTerminator(r.value)
  {
    if !OccursAt(s, DescriptionOpen, i) then None
    else
      var start := i + |DescriptionOpen|;
      match LastClose(s, start, LineRun(s, start))
      case None => None
      case Some(j) =>
        TagFromClose(s, i, j);
        Some(s[start..start + j])
  }

  /**
   * The capture is the LONGEST `d` without a line terminator such that the whole
   * tag with `d` starts at `i`, and there is none exactly when no such `d` exists.
   */
  lemma CaptureIsLongestTag(s: string, i: nat)
    requires i <= |s|
    ensures CaptureAt(s, i).Some? ==>
              forall d :: |d| > |CaptureAt(s, i).value| && NoLineTerminator(d) ==> !TagAt(s, d, i)
    ensures CaptureAt(s, i).None? ==> forall d :: NoLineTerminator(d) ==> !TagAt(s, d, i)
  {
    forall d | NoLineTerminator(d) && TagAt(s, d, i)
      ensures CaptureAt(s, i).Some? && |d| <= |CaptureAt(s, i).value|
    {
      TagFits(s, d, i);
    }
  }

  /** The leftmost position at or after `from` where the regular expression matches. */
  function FirstCapture(s: string, from: nat): (r: Option<nat>)
    requires from <= |s|
    decreases |s| - from
    ensures r.Some? ==> from <= r.value <= |s| && CaptureAt(s, r.value).Some?
    ensures r.Some? ==> forall k :: from <= k < r.value ==> CaptureAt(s, k).None?
    ensures r.None? ==> forall k :: from <= k <= |s| ==> CaptureAt(s, k).None?
  {
    if CaptureAt(s, from).Some? then Some(from)
    else if from == |s| then None
    else FirstCapture(s, from + 1)
  }

  /**
   * `metaDescription ? metaDescription[1] : ''`: the capture group of the FIRST
   * match in the page, or the empty string when there is none.
   */
  function Description(html: string): (d: string)
    ensures NoLineTerminator(d)
    ensures (forall i :: 0 <= i <= |html| ==> CaptureAt(html, i).None?) ==> d == ""
    ensures d != "" ==> exists i :: 0 <= i <= |html| && TagAt(html, d, i)
  {
    match FirstCapture(html, 0)
    case None => ""
    case Some(i) => CaptureAt(html, i).value
  }

  /** The description is the capture of the leftmost match, wherever in the page it is. */
  lemma DescriptionIsFirstCapture(html: string, i: nat)
    requires i <= |html| && CaptureAt(html, i).Some?
    requires forall k :: 0 <= k < i ==> CaptureAt(html, k).None?
    ensures Description(html) == CaptureAt(html, i).value
  {
    var f := FirstCapture(html, 0);
    assert f.Some?;
    assert f.value == i;
  }

  /** A page that starts with its og:description tag, on a line of its own, gives that description back. */
  lemma {:induction false} DescriptionReadBack(d: string, rest: string)
    requires NoLineTerminator(d)
    requires rest == [] || IsLineTerminator(rest[0])
    ensures Description(DescriptionOpen + d + DescriptionClose + rest) == d
  {
    var tag := DescriptionOpen + d + DescriptionClose;
    var html := tag + rest;
    assert TagAt(html, d, 0) by {
      assert html[..|tag|] == tag;
    }
    if rest != [] {
      assert html[|tag|] == rest[0];
    }
    CaptureOfTag(html, d, 0);
  }

  /** A tag whose description has no line terminator and which ends its line is what the regular expression captures. */
  lemma CaptureOfTag(s: string, d: string, i: nat)
    requires NoLineTerminator(d) && TagAt(s, d, i)
    requires var e := i + |DescriptionOpen| + |d| + |DescriptionClose|;
             e == |s| || (e < |s| && IsLineTerminator(s[e]))
    ensures i <= |s| && CaptureAt(s, i) == Some(d)
  {
    TagAtParts(s, d, i);
    var start := i + |DescriptionOpen|;
    var n := |d| + |DescriptionClose|;
    assert s[start..start + n] == d + DescriptionClose;
    assert NoLineTerminator(DescriptionClose);
    ConcatHasNoLineTerminator(d, DescriptionClose);
    RunIs(s, start, n);
    assert LastClose(s, start, n) == Some(|d|);
  }

  lemma ConcatHasNoLineTerminator(a: string, b: string)
    requires NoLineTerminator(a) && NoLineTerminator(b)
    ensures NoLineTerminator(a + b)
  {
    forall k | 0 <= k < |a + b| ensures !IsLineTerminator((a + b)[k]) {
      if k >= |a| { assert (a + b)[k] == b[k - |a|]; }
    }
  }

  // ---------------------------------------------------------------------------
  // The lines: description.trim().split(/(.{0,60})(?:\s|$)/g).filter(Boolean)
  // ---------------------------------------------------------------------------

  /** Where the capture group of a match ends, and where the whole match ends. */
  datatype Match = Match(captureEnd: nat, end: nat)

  /** The `k` characters from `q` hold no line terminator, so `.{k}` can match them. */
  predicate LineFree(s: string, q: nat, k: nat)
  {
    q + k <= |s| && NoLineTerminator(s[q..q + k])
  }

  /** `(?:\s|$)` can follow a capture of `k` characters from `q`. */
  predicate Acceptable(s: string, q: nat, k: nat)
  {
    q + k <= |s| && (q + k == |s| || IsSpace(s[q + k]))
  }

  /** The largest `k' <= k` that is Acceptable: greedy `.{0,60}` backtracking. */
  function LongestAcceptable(s: string, q: nat, k: nat): (r: Option<nat>)
    requires q + k <= |s|
    ensures r.Some? ==> r.value <= k && Acceptable(s, q, r.value)
    ensures r.Some? ==> forall k': nat :: r.value < k' <= k ==> !Acceptable(s, q, k')
    ensures r.None? ==> forall k': nat :: k' <= k ==> !Acceptable(s, q, k')
  {
    if Acceptable(s, q, k) then Some(k)
    else if k == 0 then None
    else LongestAcceptable(s, q, k - 1)
  }

  function Min(a: nat, b: nat): nat
  {
    if a <= b then a else b
  }

  /**
   * The sticky match of `(.{0,60})(?:\s|$)` at `q`: a capture of at most 60
   * characters without a line terminator, followed by a `\s` character (consumed)
   * or by the end of the string.
   */
  function WrapMatchAt(s: string, q: nat): (r: Option<Match>)
    requires q <= |s|
    ensures r.Some? ==> q <= r.value.captureEnd <= q + WrapWidth && r.value.captureEnd <= r.value.end <= |s|
    ensures r.Some? ==> LineFree(s, q, r.value.captureEnd - q) && Acceptable(s, q, r.value.captureEnd - q)
    ensures r.Some? ==>
              if r.value.captureEnd == |s| then r.value.end == |s|
              else r.value.end == r.value.captureEnd + 1 && IsSpace(s[r.value.captureEnd])
  {
    var run := LineRun(s, q);
    match LongestAcceptable(s, q, Min(WrapWidth, run))
    case None => None
    case Some(k) =>
      assert s[q..q + k] == s[q..q + run][..k];
      Some(Match(q + k, if q + k == |s| then q + k else q + k + 1))
  }

  /** The capture is the longest that the regular expression allows, and there is no match exactly when none is allowed. */
  lemma WrapMatchIsLongest(s: string, q: nat)
    requires q <= |s|
    ensures WrapMatchAt(s, q).Some? ==>
              forall k: nat :: WrapMatchAt(s, q).value.captureEnd - q < k <= WrapWidth && LineFree(s, q, k) ==> !Acceptable(s, q, k)
    ensures WrapMatchAt(s, q).None? ==> forall k: nat :: k <= WrapWidth && LineFree(s, q, k) ==> !Acceptable(s, q, k)
  {
    forall k: nat | k <= WrapWidth && LineFree(s, q, k) ensures k <= Min(WrapWidth, LineRun(s, q)) {
      RunCovers(s, q, k);
    }
  }

  /** Every match that starts before the end consumes at least one character. */
  lemma MatchAdvances(s: string, q: nat)
    requires q < |s| && WrapMatchAt(s, q).Some?
    ensures WrapMatchAt(s, q).value.end > q
  {
  }

  /** A position where the match fails holds a character that is not `\s`. */
  lemma FailureIsNotSpace(s: string, q: nat)
    requires q < |s| && WrapMatchAt(s, q).None?
    ensures !IsSpace(s[q])
  {
    WrapMatchIsLongest(s, q);
    assert LineFree(s, q, 0) by {
      assert s[q..q] == [];
    }
  }

  /**
   * The loop of String.prototype.split with a regular expression (ECMAScript section
   * 22.2.6.14): `p` is where the last match ended, `q` where the next match is
   * tried. On a match the text between `p` and `q` and the capture are pushed; the
   * text after the last match is pushed at the end. (The step for a match ending at
   * `p` is left out: every match tried here ends after `q`.)
   */
  function SplitFrom(s: string, p: nat, q: nat): seq<string>
    requires p <= q <= |s|
    decreases |s| - q
  {
    if q == |s| then [s[p..]]
    else match WrapMatchAt(s, q)
      case None => SplitFrom(s, p, q + 1)
      case Some(m) =>
        MatchAdvances(s, q);
        [s[p..q], s[q..m.captureEnd]] + SplitFrom(s, m.end, m.end)
  }

  /** `s.split(/(.{0,60})(?:\s|$)/g)`; on the empty string the regular expression matches, so the result is empty. */
  function Split(s: string): (r: seq<string>)
    ensures s == [] ==> r == []
    ensures r == [] || SplitShape(r)
    ensures Visible(Concat(r)) == Visible(s)
    ensures forall l :: l in r ==> exists a, b :: 0 <= a <= b <= |s| && l == s[a..b]
  {
    if |s| == 0 then
      assert Acceptable(s, 0, 0);
      assert WrapMatchAt(s, 0).Some?;
      if WrapMatchAt(s, 0).Some? then [] else [s]
    else
      SplitFromShape(s, 0, 0);
      SplitFromVisible(s, 0, 0);
      SplitFromSlices(s, 0, 0);
      SplitFrom(s, 0, 0)
  }

  /** Every piece of the split loop is a slice of the input from `p` on. */
  lemma {:induction false} SplitFromSlices(s: string, p: nat, q: nat)
    requires p <= q <= |s|
    decreases |s| - q
    ensures forall l :: l in SplitFrom(s, p, q) ==> exists a, b :: p <= a <= b <= |s| && l == s[a..b]
  {
    if q == |s| {
      assert s[p..] == s[p..|s|];
    } else {
      match WrapMatchAt(s, q)
      case None =>
        SplitFromSlices(s, p, q + 1);
      case Some(m) =>
        MatchAdvances(s, q);
        SplitFromSlices(s, m.end, m.end);
        var rest := SplitFrom(s, m.end, m.end);
        assert SplitFrom(s, p, q) == [s[p..q], s[q..m.captureEnd]] + rest;
        forall l | l in SplitFrom(s, p, q) ensures exists a, b :: p <= a <= b <= |s| && l == s[a..b] {
          if l == s[p..q] {
          } else if l == s[q..m.captureEnd] {
          } else {
            assert l in rest;
          }
        }
    }
  }

  /** `filter(Boolean)` on strings: the non-empty ones, in order. */
  function DropEmpty(xs: seq<string>): (r: seq<string>)
    ensures forall i :: 0 <= i < |r| ==> r[i] != ""
    ensures forall x :: x in r <==> x in xs && x != ""
    ensures |r| <= |xs|
  {
    if xs == [] then []
    else (if xs[0] == "" then [] else [xs[0]]) + DropEmpty(xs[1..])
  }

  /** `filter` keeps the order: a filtered concatenation is the concatenation of the filtered parts. */
  lemma {:induction false} DropEmptyKeepsOrder(a: seq<string>, b: seq<string>)
    decreases |a|
    ensures DropEmpty(a + b) == DropEmpty(a) + DropEmpty(b)
  {
    if a == [] {
      assert a + b == b;
    } else {
      assert (a + b)[0] == a[0] && (a + b)[1..] == a[1..] + b;
      DropEmptyKeepsOrder(a[1..], b);
    }
  }

  /** A single piece is kept exactly when it is not empty. */
  lemma DropEmptySingle(x: string)
    ensures DropEmpty([x]) == if x == "" then [] else [x]
  {
    assert [x][1..] == [];
  }

  /** The description's lines, as the template receives them. */
  function WrapLines(description: string): (lines: seq<string>)
    ensures forall l :: l in lines ==>
              l != "" && exists a, b :: 0 <= a <= b <= |Trim(description)| && l == Trim(description)[a..b]
  {
    DropEmpty(Split(Trim(description)))
  }

  /** The characters that are not `\s`, in order. */
  function Visible(s: string): string
  {
    if s == [] then [] else (if IsSpace(s[0]) then [] else [s[0]]) + Visible(s[1..])
  }

  function Concat(xs: seq<string>): string
  {
    if xs == [] then [] else xs[0] + Concat(xs[1..])
  }

  lemma {:induction false} VisibleAppend(a: string, b: string)
    ensures Visible(a + b) == Visible(a) + Visible(b)
  {
    if a == [] {
      assert a + b == b;
    } else {
      assert (a + b)[0] == a[0];
      assert (a + b)[1..] == a[1..] + b;
      VisibleAppend(a[1..], b);
    }
  }

  lemma {:induction false} VisibleOfSpaces(a: string)
    requires forall k :: 0 <= k < |a| ==> IsSpace(a[k])
    ensures Visible(a) == []
  {
    if a != [] {
      VisibleOfSpaces(a[1..]);
    }
  }

  lemma {:induction false} ConcatDropEmpty(xs: seq<string>)
    ensures Concat(DropEmpty(xs)) == Concat(xs)
  {
    if xs != [] {
      ConcatDropEmpty(xs[1..]);
      if xs[0] == "" {
        assert DropEmpty(xs) == DropEmpty(xs[1..]);
        assert Concat(xs) == Concat(xs[1..]);
      } else {
        var r := [xs[0]] + DropEmpty(xs[1..]);
        assert r[0] == xs[0] && r[1..] == DropEmpty(xs[1..]);
      }
    }
  }

  /** Text between matches never holds a `\s` character: at each of its positions the match failed. */
  lemma GapHasNoSpace(s: string, p: nat, q: nat)
    requires p <= q <= |s|
    requires forall x :: p <= x < q ==> WrapMatchAt(s, x).None?
    ensures NoSpace(s[p..q])
  {
    var gap := s[p..q];
    forall k | 0 <= k < |gap| ensures !IsSpace(gap[k]) {
      FailureIsNotSpace(s, p + k);
    }
  }

  /** The pieces split returns: an odd number, the captures at odd positions and the gaps at even ones. */
  predicate SplitShape(r: seq<string>)
  {
    && |r| % 2 == 1
    && (forall i :: 0 <= i < |r| && i % 2 == 1 ==> |r[i]| <= WrapWidth && NoLineTerminator(r[i]))
    && (forall i :: 0 <= i < |r| && i % 2 == 0 ==> NoSpace(r[i]))
  }

  lemma ShapeCons(gap: string, piece: string, rest: seq<string>)
    requires NoSpace(gap) && |piece| <= WrapWidth && NoLineTerminator(piece) && SplitShape(rest)
    ensures SplitShape([gap, piece] + rest)
  {
    var r := [gap, piece] + rest;
    forall i | 2 <= i < |r| ensures r[i] == rest[i - 2] { }
  }

  lemma {:induction false} SplitFromShape(s: string, p: nat, q: nat)
    requires p <= q <= |s|
    requires forall x :: p <= x < q ==> WrapMatchAt(s, x).None?
    decreases |s| - q
    ensures SplitShape(SplitFrom(s, p, q))
  {
    if q == |s| {
      GapHasNoSpace(s, p, q);
      assert s[p..] == s[p..q];
    } else {
      match WrapMatchAt(s, q)
      case None =>
        SplitFromShape(s, p, q + 1);
      case Some(m) =>
        SplitFromAtMatch(s, p, q);
        GapHasNoSpace(s, p, q);
        SplitFromShape(s, m.end, m.end);
        var piece := s[q..m.captureEnd];
        assert piece == s[q..q + (m.captureEnd - q)];
        ShapeCons(s[p..q], piece, SplitFrom(s, m.end, m.end));
    }
  }

  lemma VisibleStep(gap: string, piece: string, tail: string, after: string, rest: seq<string>)
    requires forall k :: 0 <= k < |tail| ==> IsSpace(tail[k])
    requires Visible(Concat(rest)) == Visible(after)
    ensures Visible(Concat([gap, piece] + rest)) == Visible(gap + piece + tail + after)
  {
    var front := gap + piece;
    ConcatOfTwoMore(gap, piece, rest);
    VisibleOfSpaces(tail);
    VisibleAppend(front, Concat(rest));
    VisibleAppend(front + tail, after);
    VisibleAppend(front, tail);
  }

  lemma ConcatOfTwoMore(a: string, b: string, rest: seq<string>)
    ensures Concat([a, b] + rest) == a + b + Concat(rest)
  {
    var r := [a, b] + rest;
    assert r[0] == a && r[1..][0] == b && r[1..][1..] == rest;
  }

  /** What a match consumes after its capture is nothing or one `\s` character. */
  lemma MatchTailIsSpace(s: string, q: nat)
    requires q < |s| && WrapMatchAt(s, q).Some?
    ensures var m := WrapMatchAt(s, q).value;
            forall k :: 0 <= k < |s[m.captureEnd..m.end]| ==> IsSpace(s[m.captureEnd..m.end][k])
  {
    var m := WrapMatchAt(s, q).value;
    if m.captureEnd < |s| {
      assert s[m.captureEnd..m.end] == [s[m.captureEnd]];
    } else {
      assert s[m.captureEnd..m.end] == [];
    }
  }

  lemma {:induction false} SplitFromVisible(s: string, p: nat, q: nat)
    requires p <= q <= |s|
    decreases |s| - q
    ensures Visible(Concat(SplitFrom(s, p, q))) == Visible(s[p..])
  {
    if q == |s| {
      assert [s[p..]][1..] == [];
      assert Concat([s[p..]]) == s[p..] + Concat([]);
      assert s[p..] + [] == s[p..];
    } else if WrapMatchAt(s, q).None? {
      SplitFromVisible(s, p, q + 1);
    } else {
      var m := WrapMatchAt(s, q).value;
      MatchAdvances(s, q);
      SplitFromVisible(s, m.end, m.end);
      VisibleAtMatch(s, p, q);
    }
  }

  /** SplitFrom at a position where the regular expression matches: the gap and the capture, then the rest. */
  lemma SplitFromAtMatch(s: string, p: nat, q: nat)
    requires p <= q < |s| && WrapMatchAt(s, q).Some?
    ensures var m := WrapMatchAt(s, q).value;
            q < m.end && SplitFrom(s, p, q) == [s[p..q], s[q..m.captureEnd]] + SplitFrom(s, m.end, m.end)
  {
    MatchAdvances(s, q);
  }

  lemma SliceOfFour(s: string, p: nat, q: nat, c: nat, e: nat)
    requires p <= q <= c <= e <= |s|
    ensures s[p..] == s[p..q] + s[q..c] + s[c..e] + s[e..]
  {
  }

  /** One step of the split keeps the visible text, given that the rest of it does. */
  lemma VisibleAtMatch(s: string, p: nat, q: nat)
    requires p <= q < |s| && WrapMatchAt(s, q).Some?
    requires var e := WrapMatchAt(s, q).value.end;
             e <= |s| && Visible(Concat(SplitFrom(s, e, e))) == Visible(s[e..])
    ensures Visible(Concat(SplitFrom(s, p, q))) == Visible(s[p..])
  {
    var m := WrapMatchAt(s, q).value;
    SplitFromAtMatch(s, p, q);
    MatchTailIsSpace(s, q);
    var gap, piece, tail, after := s[p..q], s[q..m.captureEnd], s[m.captureEnd..m.end], s[m.end..];
    SliceOfFour(s, p, q, m.captureEnd, m.end);
    VisibleStep(gap, piece, tail, after, SplitFrom(s, m.end, m.end));
  }

  /** White space around a text is not visible. */
  lemma VisibleBetweenSpaces(front: string, t: string, back: string)
    requires forall k :: 0 <= k < |front| ==> IsSpace(front[k])
    requires forall k :: 0 <= k < |back| ==> IsSpace(back[k])
    ensures Visible(front + t + back) == Visible(t)
  {
    VisibleOfSpaces(front);
    VisibleOfSpaces(back);
    VisibleAppend(front + t, back);
    VisibleAppend(front, t);
  }

  /** Trimming drops only `\s` characters. */
  lemma VisibleTrim(s: string)
    ensures Visible(Trim(s)) == Visible(s)
  {
    var lo: nat :| TrimmedSlice(s, Trim(s), lo);
    VisibleOfTrimmed(s, Trim(s), lo);
  }

  lemma VisibleOfTrimmed(s: string, t: string, lo: nat)
    requires TrimmedSlice(s, t, lo)
    ensures Visible(t) == Visible(s)
  {
    var front, back := s[..lo], s[lo + |t|..];
    assert s == front + t + back;
    assert forall k :: 0 <= k < |back| ==> IsSpace(back[k]) by {
      forall k | 0 <= k < |back| ensures IsSpace(back[k]) {
        assert back[k] == s[lo + |t| + k];
      }
    }
    VisibleBetweenSpaces(front, t, back);
  }

  /**
   * The wrapped lines are all non-empty, and each is either a captured line of at most
   * 60 characters without a line terminator or an unbroken stretch without any `\s`
   * character.
   */
  lemma WrapLinesBounded(description: string)
    ensures forall l :: l in WrapLines(description) ==>
              l != "" && ((|l| <= WrapWidth && NoLineTerminator(l)) || NoSpace(l))
  {
    PiecesBounded(Split(Trim(description)));
  }

  lemma PiecesBounded(pieces: seq<string>)
    requires pieces == [] || SplitShape(pieces)
    ensures forall l :: l in DropEmpty(pieces) ==>
              l != "" && ((|l| <= WrapWidth && NoLineTerminator(l)) || NoSpace(l))
  {
    forall l | l in pieces ensures (|l| <= WrapWidth && NoLineTerminator(l)) || NoSpace(l) {
      var i :| 0 <= i < |pieces| && pieces[i] == l;
    }
  }

  /** Together the lines hold every visible character of the description, in order. */
  lemma WrapLinesKeepText(description: string)
    ensures Visible(Concat(WrapLines(description))) == Visible(description)
  {
    ConcatDropEmpty(Split(Trim(description)));
    VisibleTrim(description);
  }

  /** An empty description gives no lines at all. */
  lemma EmptyDescriptionHasNoLines()
    ensures WrapLines("") == []
  {
    assert Trim("") == "";
    assert Acceptable("", 0, 0);
    assert WrapMatchAt("", 0).Some?;
  }

  lemma TrimWithoutSpace(s: string)
    requires NoSpace(s)
    ensures Trim(s) == s
  {
    var t := Trim(s);
    var lo: nat :| TrimmedSlice(s, t, lo);
    assert |s| > 0 ==> !IsSpace(s[0]);
    assert lo == 0;
    assert lo + |t| == |s|;
  }

  lemma {:induction false} LongWordSplit(s: string, q: nat)
    requires |s| > WrapWidth && NoSpace(s)
    requires q <= |s| - WrapWidth
    decreases |s| - q
    ensures SplitFrom(s, 0, q) == [s[..|s| - WrapWidth], s[|s| - WrapWidth..], ""]
  {
    var n := |s|;
    var w := s[q..n];
    assert NoLineTerminator(w) by {
      forall k | 0 <= k < |w| ensures !IsLineTerminator(w[k]) {
        assert w[k] == s[q + k];
      }
    }
    RunIs(s, q, n - q);
    var r := WrapMatchAt(s, q);
    if q < n - WrapWidth {
      assert r.None?;
      LongWordSplit(s, q + 1);
    } else {
      assert Min(WrapWidth, LineRun(s, q)) == WrapWidth;
      assert Acceptable(s, q, WrapWidth);
      assert LongestAcceptable(s, q, WrapWidth) == Some(WrapWidth);
      assert r == Some(Match(n, n));
      assert s[n..] == [];
      assert SplitFrom(s, n, n) == [""];
      assert SplitFrom(s, 0, q) == [s[0..q], s[q..n]] + [""];
      assert s[0..q] == s[..n - WrapWidth] && s[q..n] == s[n - WrapWidth..];
    }
  }

  /**
   * An unbroken word of more than 60 characters is not cut into 60-character
   * pieces: the split leaves all but its last 60 characters in the first line.
   */
  lemma {:induction false} LongWordWrapsAtTail(s: string)
    requires |s| > WrapWidth && NoSpace(s)
    ensures WrapLines(s) == [s[..|s| - WrapWidth], s[|s| - WrapWidth..]]
  {
    var n := |s|;
    LinesOfUntrimmed(s);
    LongWordSplit(s, 0);
    DropTrailingEmpty(s[..n - WrapWidth], s[n - WrapWidth..]);
  }

  /** No stretch of the text without a `\s` character is longer than 60: every word fits on a line. */
  predicate WordsFit(s: string)
  {
    forall i, j :: 0 <= i <= j <= |s| && NoSpace(s[i..j]) ==> j - i <= WrapWidth
  }

  /** The first `\s` character at or after `q`, or the end of the string. */
  function NextSpace(s: string, q: nat): (r: nat)
    requires q <= |s|
    decreases |s| - q
    ensures q <= r <= |s| && (r == |s| || IsSpace(s[r]))
    ensures NoSpace(s[q..r])
  {
    if q == |s| || IsSpace(s[q]) then q
    else
      var r := NextSpace(s, q + 1);
      assert forall k :: 0 < k < r - q ==> s[q..r][k] == s[q + 1..r][k - 1];
      r
  }

  /** Where the word starting at `q` fits, the wrapping expression matches right at `q`. */
  lemma MatchWhereWordFits(s: string, q: nat)
    requires q <= |s| && WordsFit(s)
    ensures WrapMatchAt(s, q).Some?
  {
    var r := NextSpace(s, q);
    var w := s[q..r];
    assert NoLineTerminator(w) by {
      forall k | 0 <= k < |w| ensures !IsLineTerminator(w[k]) {
        assert !IsSpace(w[k]);
      }
    }
    assert LineFree(s, q, r - q) && Acceptable(s, q, r - q);
    WrapMatchIsLongest(s, q);
  }

  /** When every word fits, each match starts where the last one ended: every piece is a line of at most 60 characters. */
  lemma {:induction false} SplitFromFits(s: string, p: nat)
    requires p <= |s| && WordsFit(s)
    decreases |s| - p
    ensures forall l :: l in SplitFrom(s, p, p) ==> |l| <= WrapWidth && NoLineTerminator(l)
  {
    if p == |s| {
      assert s[p..] == [];
    } else {
      MatchWhereWordFits(s, p);
      var m := WrapMatchAt(s, p).value;
      MatchAdvances(s, p);
      SplitFromFits(s, m.end);
      assert SplitFrom(s, p, p) == [s[p..p], s[p..m.captureEnd]] + SplitFrom(s, m.end, m.end);
      assert NoLineTerminator(s[p..p]);
    }
  }

  /**
   * When every word fits, the split loop packs greedily: it starts with the longest
   * capture acceptable at `p`, so no longer stretch up to a later `\s` or the end,
   * within 60 characters, could have been the first line.
   */
  lemma SplitFromPacks(s: string, p: nat)
    requires p < |s| && WordsFit(s)
    ensures WrapMatchAt(s, p).Some?
    ensures var m := WrapMatchAt(s, p).value;
            && SplitFrom(s, p, p) == ["", s[p..m.captureEnd]] + SplitFrom(s, m.end, m.end)
            && forall k: nat :: m.captureEnd - p < k <= WrapWidth && LineFree(s, p, k) ==> !Acceptable(s, p, k)
  {
    MatchWhereWordFits(s, p);
    SplitFromAtMatch(s, p, p);
    WrapMatchIsLongest(s, p);
    assert s[p..p] == "";
  }

  lemma WordsFitTrimmed(s: string)
    requires WordsFit(s)
    ensures WordsFit(Trim(s))
  {
    var t := Trim(s);
    var lo: nat :| TrimmedSlice(s, t, lo);
    WordsFitSlice(s, lo, lo + |t|);
  }

  lemma WordsFitSlice(s: string, lo: nat, hi: nat)
    requires lo <= hi <= |s| && WordsFit(s)
    ensures WordsFit(s[lo..hi])
  {
    var t := s[lo..hi];
    forall i, j | 0 <= i <= j <= |t| && NoSpace(t[i..j]) ensures j - i <= WrapWidth {
      var w := s[lo + i..lo + j];
      forall k | 0 <= k < |w| ensures !IsSpace(w[k]) {
        assert w[k] == t[i..j][k];
      }
    }
  }

  /** A description whose words all fit is wrapped into lines of at most 60 characters, none holding a line terminator. */
  lemma WrapLinesFit(description: string)
    requires WordsFit(description)
    ensures forall l :: l in WrapLines(description) ==> |l| <= WrapWidth && NoLineTerminator(l)
  {
    var s := Trim(description);
    WordsFitTrimmed(description);
    if s != [] {
      SplitFromFits(s, 0);
    }
  }

  /** A trimmed description of at most 60 characters on one line is a single line: its words are not broken apart. */
  lemma ShortDescriptionIsOneLine(description: string)
    requires var t := Trim(description); t != "" && |t| <= WrapWidth && NoLineTerminator(t)
    ensures WrapLines(description) == [Trim(description)]
  {
    var t := Trim(description);
    OneLineSplit(t);
    DropOuterEmpty(t);
  }

  /** Text of at most 60 characters without a line terminator is one capture, between two empty gaps. */
  lemma OneLineSplit(t: string)
    requires t != "" && |t| <= WrapWidth && NoLineTerminator(t)
    ensures Split(t) == ["", t, ""]
  {
    var n := |t|;
    assert t[0..n] == t;
    RunIs(t, 0, n);
    assert Acceptable(t, 0, n);
    assert WrapMatchAt(t, 0) == Some(Match(n, n));
    SplitFromAtMatch(t, 0, 0);
    assert t[n..] == [];
  }

  lemma DropOuterEmpty(t: string)
    requires t != ""
    ensures DropEmpty(["", t, ""]) == [t]
  {
    assert ["", t, ""][1..] == [t, ""] && [t, ""][1..] == [""] && [""][1..] == [];
    assert DropEmpty([""]) == [];
  }

  lemma LinesOfUntrimmed(s: string)
    requires NoSpace(s)
    ensures WrapLines(s) == DropEmpty(Split(s))
  {
    TrimWithoutSpace(s);
  }

  lemma DropTrailingEmpty(a: string, b: string)
    requires a != "" && b != ""
    ensures DropEmpty([a, b, ""]) == [a, b]
  {
    assert [a, b, ""][1..] == [b, ""] && [b, ""][1..] == [""] && [""][1..] == [];
    assert DropEmpty([""]) == [];
    assert DropEmpty([b, ""]) == [b];
  }

  // ---------------------------------------------------------------------------
  // The template
  // ---------------------------------------------------------------------------

  /** What the three line slots receive as the source writes it: `lines[0]`, `lines[1] || ''`, `lines[2] || ''`. */
  function LineSlotsAsWritten(lines: seq<string>): (r: (string, string, string))
    ensures r.0 == (if |lines| > 0 then lines[0] else "undefined")
    ensures r.1 == (if |lines| > 1 then lines[1] else "")
    ensures r.2 == (if |lines| > 2 then lines[2] else "")
  {
    (if |lines| > 0 then lines[0] else "undefined",
     if |lines| > 1 && lines[1] != "" then lines[1] else "",
     if |lines| > 2 && lines[2] != "" then lines[2] else "")
  }

  /** An empty description puts the word "undefined" on the image. */
  lemma AsWrittenEmptyDescriptionShowsUndefined()
    ensures LineSlotsAsWritten(WrapLines("")).0 == "undefined"
  {
    EmptyDescriptionHasNoLines();
  }

  /** What the three line slots receive, with a missing first line left empty like the others. */
  function LineSlots(lines: seq<string>): (r: (string, string, string))
    ensures r.0 == (if |lines| > 0 then lines[0] else "")
    ensures r.1 == (if |lines| > 1 then lines[1] else "")
    ensures r.2 == (if |lines| > 2 then lines[2] else "")
  {
    (if |lines| > 0 && lines[0] != "" then lines[0] else "",
     if |lines| > 1 && lines[1] != "" then lines[1] else "",
     if |lines| > 2 && lines[2] != "" then lines[2] else "")
  }

  /** Only the first three lines reach the template; the corrected slots never invent text. */
  lemma SlotsUseFirstThreeLines(lines: seq<string>)
    ensures |lines| >= 3 ==> LineSlots(lines) == LineSlots(lines[..3])
    ensures var r := LineSlots(lines); r.0 in lines + [""] && r.1 in lines + [""] && r.2 in lines + [""]
    ensures LineSlots(WrapLines("")) == ("", "", "")
  {
    var r := LineSlots(lines);
    var padded := lines + [""];
    assert r.0 == padded[if |lines| > 0 then 0 else |lines|];
    assert r.1 == padded[if |lines| > 1 then 1 else |lines|];
    assert r.2 == padded[if |lines| > 2 then 2 else |lines|];
    EmptyDescriptionHasNoLines();
  }

  /** The two slot functions differ only on a description without lines. */
  lemma SlotsAgreeWhenThereIsALine(lines: seq<string>)
    requires |lines| > 0 && lines[0] != ""
    ensures LineSlots(lines) == LineSlotsAsWritten(lines)
  {
  }

  /** The chain of `replace` calls on the template, each replacing its slot's first occurrence. */
  function FillTemplate(template: string, title: string, slots: (string, string, string)): (svg: string)
    ensures && IndexOf(template, TitleSlot).None? && IndexOf(template, Line1Slot).None?
            && IndexOf(template, Line2Slot).None? && IndexOf(template, Line3Slot).None?
            ==> svg == template
  {
    var withTitle := ReplaceFirst(template, TitleSlot, Prefix(title, TitleWidth));
    var withLine1 := ReplaceFirst(withTitle, Line1Slot, slots.0);
    var withLine2 := ReplaceFirst(withLine1, Line2Slot, slots.1);
    ReplaceFirst(withLine2, Line3Slot, slots.2)
  }

  /** The title slot's first occurrence receives at most the first 24 characters of the title. */
  lemma TitleSlotGetsFirst24(template: string, title: string)
    requires '$' !in title
    ensures var filled := ReplaceFirst(template, TitleSlot, Prefix(title, TitleWidth));
            match IndexOf(template, TitleSlot)
            case None => filled == template
            case Some(i) =>
              && filled == template[..i] + Prefix(title, TitleWidth) + template[i + |TitleSlot|..]
              && |Prefix(title, TitleWidth)| <= 24
  {
    assert '$' !in Prefix(title, TitleWidth);
  }

  /**
   * A template holding the four placeholders in order, with no `{` in the text
   * between them, gets each placeholder replaced in place by its text, when those
   * texts hold neither `{` nor `$`.
   */
  lemma FillTemplateInPlace(a: string, b: string, c: string, d: string, e: string,
                            title: string, slots: (string, string, string))
    requires '{' !in a && '{' !in b && '{' !in c && '{' !in d
    requires '{' !in title && '$' !in title
    requires '{' !in slots.0 && '$' !in slots.0 && '{' !in slots.1 && '$' !in slots.1 && '$' !in slots.2
    ensures FillTemplate(a + TitleSlot + b + Line1Slot + c + Line2Slot + d + Line3Slot + e, title, slots)
            == a + Prefix(title, TitleWidth) + b + slots.0 + c + slots.1 + d + slots.2 + e
  {
    var t := Prefix(title, TitleWidth);
    assert '{' !in t && '$' !in t;
    assert TitleSlot[0] == '{' && Line1Slot[0] == '{' && Line2Slot[0] == '{' && Line3Slot[0] == '{';
    assert a + TitleSlot + b + Line1Slot + c + Line2Slot + d + Line3Slot + e
           == a + TitleSlot + (b + Line1Slot + (c + Line2Slot + (d + Line3Slot + e)));
    ReplaceFour('{', a, b, c, d, e, TitleSlot, Line1Slot, Line2Slot, Line3Slot, t, slots.0, slots.1, slots.2);
  }

  /** Four first-occurrence replacements, each pattern starting with a character that none of the text before it holds. */
  lemma ReplaceFour(open: char, a: string, b: string, c: string, d: string, e: string,
                    p1: string, p2: string, p3: string, p4: string,
                    t1: string, t2: string, t3: string, t4: string)
    requires |p1| > 0 && |p2| > 0 && |p3| > 0 && |p4| > 0
    requires p1[0] == open && p2[0] == open && p3[0] == open && p4[0] == open
    requires open !in a && open !in b && open !in c && open !in d
    requires open !in t1 && open !in t2 && open !in t3
    requires '$' !in t1 && '$' !in t2 && '$' !in t3 && '$' !in t4
    ensures ReplaceFirst(ReplaceFirst(ReplaceFirst(ReplaceFirst(
              a + p1 + (b + p2 + (c + p3 + (d + p4 + e))), p1, t1), p2, t2), p3, t3), p4, t4)
            == a + t1 + b + t2 + c + t3 + d + t4 + e
  {
    var r3 := d + p4 + e;
    var r2 := c + p3 + r3;
    var r1 := b + p2 + r2;
    var s1 := ReplaceFirst(a + p1 + r1, p1, t1);
    ReplaceAfter(a + p1 + r1, a, p1, r1, t1);
    var x2 := a + t1 + b;
    Regroup(a, t1, b, p2, r2);
    var s2 := ReplaceFirst(s1, p2, t2);
    ReplaceAfter(s1, x2, p2, r2, t2);
    var x3 := x2 + t2 + c;
    Regroup(x2, t2, c, p3, r3);
    var s3 := ReplaceFirst(s2, p3, t3);
    ReplaceAfter(s2, x3, p3, r3, t3);
    var x4 := x3 + t3 + d;
    Regroup(x3, t3, d, p4, e);
    ReplaceAfter(s3, x4, p4, e, t4);
  }

  lemma Regroup(x: string, t: string, y: string, p: string, r: string)
    ensures x + t + (y + p + r) == x + t + y + p + r
  {
  }

  /**
   * As written, `String.replace` expands `$` patterns in the title: a title holding
   * `$&` puts the placeholder itself back into the image.
   */
  lemma TitleMatchPatternRepeatsSlot(template: string, a: string, b: string)
    requires '$' !in a && '$' !in b && |a| + 2 + |b| <= TitleWidth
    requires IndexOf(template, TitleSlot).Some?
    ensures var i := IndexOf(template, TitleSlot).value;
            ReplaceFirst(template, TitleSlot, Prefix(a + "$&" + b, TitleWidth))
              == template[..i] + a + TitleSlot + b + template[i + |TitleSlot|..]
  {
    var i := IndexOf(template, TitleSlot).value;
    var before, after := template[..i], template[i + |TitleSlot|..];
    assert Prefix(a + "$&" + b, TitleWidth) == a + ("$&" + b);
    ExpandMatchBetween(a, b, TitleSlot, before, after);
  }

  lemma ExpandMatchBetween(a: string, b: string, matched: string, before: string, after: string)
    requires '$' !in a && '$' !in b
    ensures Expand(a + ("$&" + b), matched, before, after) == a + matched + b
  {
    ExpandLiteralThen(a, "$&" + b, matched, before, after);
    ExpandDollarPatterns(b, matched, before, after);
    ExpandLiteral(b, matched, before, after);
  }

  // ---------------------------------------------------------------------------
  // Image path, image URL and the og:image tag
  // ---------------------------------------------------------------------------

  /** `public/og/<slug>.png`, where `slug` is what the slug helper makes of the title. */
  function ImagePath(slug: string): (path: string)
    ensures |path| == |ImageDir| + |slug| + 4
    ensures path[..|ImageDir|] == ImageDir && path[|ImageDir|..|path| - 4] == slug && path[|path| - 4..] == ".png"
  {
    ImageDir + slug + ".png"
  }

  /** Different slugs give different PNG paths. */
  lemma ImagePathInjective(s1: string, s2: string)
    ensures ImagePath(s1) == ImagePath(s2) <==> s1 == s2
  {
    if ImagePath(s1) == ImagePath(s2) {
      var n := |ImageDir|;
      assert |s1| == |s2|;
      assert ImagePath(s1)[n..n + |s1|] == s1;
      assert ImagePath(s2)[n..n + |s2|] == s2;
    }
  }

  /** `output.replace('public/', <pages.dev host>)`: a leading `public/` becomes the host. */
  function ImageUrl(output: string): (url: string)
    ensures |PublicDir| <= |output| && output[..|PublicDir|] == PublicDir ==> url == ImageHost + output[|PublicDir|..]
  {
    if |PublicDir| <= |output| && output[..|PublicDir|] == PublicDir then
      ImageHostHasNoDollar();
      assert output == PublicDir + output[|PublicDir|..];
      ReplaceAtFront(output, PublicDir, output[|PublicDir|..], ImageHost);
      ReplaceFirst(output, PublicDir, ImageHost)
    else
      ReplaceFirst(output, PublicDir, ImageHost)
  }

  lemma ImageHostHasNoDollar()
    ensures '$' !in ImageHost
  {
    assert '$' !in "https://" && '$' !in PagesBranch && '$' !in "." && '$' !in PagesProject && '$' !in "/";
  }

  /** The image URL is the host followed by `og/<slug>.png`. */
  lemma {:induction false} ImageUrlOfPath(slug: string)
    ensures ImageUrl(ImagePath(slug)) == ImageHost + "og/" + slug + ".png"
  {
    var rest := "og/" + slug + ".png";
    assert ImagePath(slug) == PublicDir + rest;
    ImageHostHasNoDollar();
    ReplaceAtFront(ImagePath(slug), PublicDir, rest, ImageHost);
  }

  const ImageTagOpen := "<meta property=\"og:image\" content=\""

  function ImageTag(url: string): string
  {
    ImageTagOpen + url + "\">"
  }

  /** `html.replace('</head>', tag + '</head>')`. */
  function InjectTag(html: string, url: string): (page: string)
    ensures IndexOf(html, HeadClose).None? ==> page == html
    ensures IndexOf(html, HeadClose).Some? ==>
              var i := IndexOf(html, HeadClose).value;
              i <= |page| && page[..i] == html[..i]
  {
    ReplaceFirst(html, HeadClose, ImageTag(url) + HeadClose)
  }

  /**
   * The tag goes immediately before the first `</head>`, and everything else of the
   * page is kept; a page without `</head>` is left as it is.
   */
  lemma {:induction false} InjectTagPlacement(html: string, url: string)
    requires '$' !in url
    ensures IndexOf(html, HeadClose).None? ==> InjectTag(html, url) == html
    ensures IndexOf(html, HeadClose).Some? ==>
              var i := IndexOf(html, HeadClose).value;
              InjectTag(html, url) == html[..i] + ImageTag(url) + html[i..]
  {
    assert '$' !in ImageTagOpen && '$' !in "\">" && '$' !in HeadClose;
    var found := IndexOf(html, HeadClose);
    if found.Some? {
      InsertBefore(html, HeadClose, ImageTag(url), found.value);
    }
  }

  // ---------------------------------------------------------------------------
  // generateOgImage
  // ---------------------------------------------------------------------------

  /**
   * What one call produces: the PNG path, the filled SVG, whether sharp was run,
   * whether a PNG was written, and the page written back.
   */
  datatype OgResult = OgResult(imagePath: string, svg: string, attempted: bool, generated: bool, html: string)

  /**
   * How the first line slot is filled: as the source writes it (`lines[0]`, which is
   * "undefined" without a line), or corrected to `lines[0] || ''` like the other two.
   */
  datatype SlotRule = AsWritten | Corrected

  function SlotsFor(rule: SlotRule, lines: seq<string>): (string, string, string)
  {
    match rule
    case AsWritten => LineSlotsAsWritten(lines)
    case Corrected => LineSlots(lines)
  }

  /** The filled SVG for a page: the title and the slots of the description's lines. */
  function OgSvg(rule: SlotRule, template: string, title: string, html: string): string
  {
    FillTemplate(template, title, SlotsFor(rule, WrapLines(Description(html))))
  }

  /** The two rules draw the same image for every page whose description has a line. */
  lemma SvgRulesAgreeWithALine(template: string, title: string, html: string)
    requires WrapLines(Description(html)) != []
    ensures OgSvg(AsWritten, template, title, html) == OgSvg(Corrected, template, title, html)
  {
    var lines := WrapLines(Description(html));
    assert lines[0] != "";
    SlotsAgreeWhenThereIsALine(lines);
  }

  /** The public URL of the slug's PNG. */
  function PublicUrl(slug: string): string
  {
    ImageHost + "og/" + slug + ".png"
  }

  /** The page written back: the og:image tag for the slug's PNG, inserted before `</head>`. */
  function TaggedPage(html: string, slug: string): string
  {
    InjectTag(html, PublicUrl(slug))
  }

  lemma UrlHasNoDollar(slug: string)
    requires '$' !in slug
    ensures '$' !in PublicUrl(slug)
  {
    ImageHostHasNoDollar();
    assert '$' !in "og/" && '$' !in ".png";
  }

  /**
   * The page gets the tag pointing at the PNG's public URL right before its first
   * `</head>`, and is otherwise unchanged; without `</head>` it is left as it is.
   */
  lemma {:induction false} TaggedPagePlacement(html: string, slug: string)
    requires '$' !in slug
    ensures IndexOf(html, HeadClose).None? ==> TaggedPage(html, slug) == html
    ensures IndexOf(html, HeadClose).Some? ==>
              var i := IndexOf(html, HeadClose).value;
              TaggedPage(html, slug) == html[..i] + ImageTag(ImageHost + "og/" + slug + ".png") + html[i..]
  {
    UrlHasNoDollar(slug);
    InjectTagPlacement(html, PublicUrl(slug));
  }

  /**
   * generateOgImage(entry, htmlOutput), given the page as read, the PNGs that exist and
   * whether sharp succeeds; a failure of sharp is caught and logged. The PNG is made
   * only when it is not on disk yet.
   */
  method GenerateOgImage(rule: SlotRule, template: string, title: string, slug: string, html: string,
                         existing: set<string>, rasterSucceeds: bool) returns (o: OgResult)
    ensures o.imagePath == ImagePath(slug)
    ensures o.svg == OgSvg(rule, template, title, html)
    ensures o.attempted <==> o.imagePath !in existing
    ensures o.generated <==> o.attempted && rasterSucceeds
    ensures o.html == TaggedPage(html, slug)
  {
    var description := Description(html);
    var output := ImagePath(slug);
    var shouldGenerateOgImage := true;
    if output in existing {
      shouldGenerateOgImage := false;
    }
    var lines := WrapLines(description);
    var svg := FillTemplate(template, title, SlotsFor(rule, lines));
    var generated := false;
    if shouldGenerateOgImage {
      if rasterSucceeds {
        generated := true;
      }
    }
    var ogImageUrl := ImageUrl(output);
    ImageUrlOfPath(slug);
    var updatedHtml := InjectTag(html, ogImageUrl);
    o := OgResult(output, svg, shouldGenerateOgImage, generated, updatedHtml);
  }
}
