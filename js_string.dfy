/**
 * The parts of JavaScript's string semantics (ECMAScript, section 22.1.3 on
 * String.prototype and section 22.2 on RegExp) that the site's code relies on.
 * A JavaScript string is modelled as a sequence of characters.
 */
module JsString {
  import opened Wrappers

  /** LineTerminator (ECMAScript section 12.3): the characters `.` in a RegExp does not match. */
  predicate IsLineTerminator(c: char)
  {
    c == '\n' || c == '\r' || c == '\U{2028}' || c == '\U{2029}'
  }

  /**
   * WhiteSpace or LineTerminator (ECMAScript sections 12.2 and 12.3): the class `\s`
   * of a RegExp, which is also the set of characters String.prototype.trim removes.
   */
  predicate IsSpace(c: char)
  {
    || c == '\t' || c == '\U{000B}' || c == '\U{000C}' || c == ' ' || c == '\U{00A0}'
    || c == '\U{1680}' || ('\U{2000}' <= c <= '\U{200A}') || c == '\U{202F}' || c == '\U{205F}'
    || c == '\U{3000}' || c == '\U{FEFF}'
    || IsLineTerminator(c)
  }

  predicate IsAsciiUpper(c: char)
  {
    'A' <= c <= 'Z'
  }

  function LowerChar(c: char): (d: char)
    ensures !IsAsciiUpper(d)
    ensures !IsAsciiUpper(c) ==> d == c
    ensures IsAsciiUpper(c) ==> d as int == c as int + 32
  {
    if IsAsciiUpper(c) then (c as int + 32) as char else c
  }

  /**
   * String.prototype.toLowerCase, on the ASCII letters: every upper-case letter
   * becomes its lower-case letter and every other character stays.
   */
  function ToLower(s: string): (r: string)
    ensures |r| == |s|
    ensures forall i :: 0 <= i < |r| ==> !IsAsciiUpper(r[i])
    ensures forall i :: 0 <= i < |s| && !IsAsciiUpper(s[i]) ==> r[i] == s[i]
    ensures forall i :: 0 <= i < |s| && IsAsciiUpper(s[i]) ==> r[i] as int == s[i] as int + 32
  {
    seq(|s|, i requires 0 <= i < |s| => LowerChar(s[i]))
  }

  lemma ToLowerIdempotent(s: string)
    ensures ToLower(ToLower(s)) == ToLower(s)
  {
  }

  /** A string holding an upper-case ASCII letter is never the result of ToLower. */
  lemma UpperNeverLowered(s: string, t: string, i: nat)
    requires i < |t| && IsAsciiUpper(t[i])
    ensures ToLower(s) != t
  {
  }

  /** String.prototype.trimStart: drops the leading `\s` characters. */
  function TrimStart(s: string): (r: string)
    ensures |r| <= |s| && r == s[|s| - |r|..]
    ensures forall i :: 0 <= i < |s| - |r| ==> IsSpace(s[i])
    ensures r == [] || !IsSpace(r[0])
  {
    if s == [] || !IsSpace(s[0]) then s else TrimStart(s[1..])
  }

  /** String.prototype.trimEnd: drops the trailing `\s` characters. */
  function TrimEnd(s: string): (r: string)
    ensures |r| <= |s| && r == s[..|r|]
    ensures forall i :: |r| <= i < |s| ==> IsSpace(s[i])
    ensures r == [] || !IsSpace(r[|r| - 1])
  {
    if s == [] || !IsSpace(s[|s| - 1]) then s else TrimEnd(s[..|s| - 1])
  }

  /** `r` is the slice of `s` from `lo`, with nothing but `\s` characters cut on either side. */
  predicate TrimmedSlice(s: string, r: string, lo: nat)
  {
    && lo + |r| <= |s| && r == s[lo..lo + |r|]
    && (forall i :: 0 <= i < lo ==> IsSpace(s[i]))
    && (forall i :: lo + |r| <= i < |s| ==> IsSpace(s[i]))
  }

  /**
   * String.prototype.trim: the longest slice of `s` that neither starts nor ends
   * with a `\s` character, every character dropped on either side being one.
   */
  function Trim(s: string): (r: string)
    ensures r == [] || (!IsSpace(r[0]) && !IsSpace(r[|r| - 1]))
    ensures exists lo: nat :: TrimmedSlice(s, r, lo)
  {
    var t := TrimStart(s);
    var r := TrimEnd(t);
    TrimmedTwice(s, t, r);
    r
  }

  /** Cutting `\s` characters from the front and then from the back leaves a trimmed slice. */
  lemma TrimmedTwice(s: string, t: string, r: string)
    requires |t| <= |s| && t == s[|s| - |t|..]
    requires forall i :: 0 <= i < |s| - |t| ==> IsSpace(s[i])
    requires |r| <= |t| && r == t[..|r|]
    requires forall i :: |r| <= i < |t| ==> IsSpace(t[i])
    ensures TrimmedSlice(s, r, |s| - |t|)
  {
    var lo := |s| - |t|;
    forall i | lo + |r| <= i < |s| ensures IsSpace(s[i]) {
      assert s[i] == t[i - lo];
    }
  }

  /** String.prototype.slice(0, n) with n >= 0: at most the first n characters. */
  function Prefix(s: string, n: nat): (r: string)
    ensures |r| <= n && |r| <= |s|
    ensures |s| <= n ==> r == s
    ensures n <= |s| ==> |r| == n
    ensures forall i :: 0 <= i < |r| ==> r[i] == s[i]
  {
    if |s| <= n then s else s[..n]
  }

  predicate OccursAt(s: string, pat: string, i: nat)
  {
    i + |pat| <= |s| && s[i..i + |pat|] == pat
  }

  /** String.prototype.indexOf(pat, from): the first occurrence at or after `from`. */
  function IndexOfFrom(s: string, pat: string, from: nat): (r: Option<nat>)
    requires from <= |s|
    decreases |s| - from
    ensures r.Some? ==> from <= r.value && OccursAt(s, pat, r.value)
    ensures r.Some? ==> forall k :: from <= k < r.value ==> !OccursAt(s, pat, k)
    ensures r.None? ==> forall k: nat :: from <= k ==> !OccursAt(s, pat, k)
  {
    if OccursAt(s, pat, from) then Some(from)
    else if from == |s| then None
    else IndexOfFrom(s, pat, from + 1)
  }

  function IndexOf(s: string, pat: string): (r: Option<nat>)
    ensures r.Some? ==> OccursAt(s, pat, r.value) && forall k :: 0 <= k < r.value ==> !OccursAt(s, pat, k)
    ensures r.None? ==> forall k: nat :: !OccursAt(s, pat, k)
  {
    IndexOfFrom(s, pat, 0)
  }

  /**
   * GetSubstitution (ECMAScript section 22.1.3.19.1) for a string pattern, which
   * has no capture groups: `$$` is a dollar sign, `$&` the matched text, `` $` ``
   * the text before the match, `$'` the text after it, and every other character
   * (`$1`, `$<` and a lone `$` included) is copied.
   */
  function Expand(rep: string, matched: string, before: string, after: string): string
    decreases |rep|
  {
    if rep == [] then []
    else if rep[0] == '$' && |rep| >= 2 && rep[1] == '$' then "$" + Expand(rep[2..], matched, before, after)
    else if rep[0] == '$' && |rep| >= 2 && rep[1] == '&' then matched + Expand(rep[2..], matched, before, after)
    else if rep[0] == '$' && |rep| >= 2 && rep[1] == '`' then before + Expand(rep[2..], matched, before, after)
    else if rep[0] == '$' && |rep| >= 2 && rep[1] == '\'' then after + Expand(rep[2..], matched, before, after)
    else [rep[0]] + Expand(rep[1..], matched, before, after)
  }

  /** A replacement without a dollar sign is inserted as it is. */
  lemma {:induction false} ExpandLiteral(rep: string, matched: string, before: string, after: string)
    requires '$' !in rep
    ensures Expand(rep, matched, before, after) == rep
  {
    if rep != [] {
      assert rep[0] != '$';
      assert '$' !in rep[1..] by {
        forall i | 0 <= i < |rep[1..]| ensures rep[1..][i] != '$' {
          assert rep[1..][i] == rep[i + 1];
        }
      }
      ExpandLiteral(rep[1..], matched, before, after);
    }
  }

  /** Text without a dollar sign at the front of a replacement is copied, and the rest is expanded after it. */
  lemma {:induction false} ExpandLiteralThen(lit: string, rest: string, matched: string, before: string, after: string)
    requires '$' !in lit
    decreases |lit|
    ensures Expand(lit + rest, matched, before, after) == lit + Expand(rest, matched, before, after)
  {
    if lit == [] {
      assert lit + rest == rest;
    } else {
      var all := lit + rest;
      assert all[0] == lit[0] && lit[0] != '$';
      assert all[1..] == lit[1..] + rest;
      assert '$' !in lit[1..] by {
        forall i | 0 <= i < |lit[1..]| ensures lit[1..][i] != '$' {
          assert lit[1..][i] == lit[i + 1];
        }
      }
      ExpandLiteralThen(lit[1..], rest, matched, before, after);
    }
  }

  /** The four `$` patterns: `$$` is a dollar sign, `$&` the match, `` $` `` what precedes it, `$'` what follows it. */
  lemma ExpandDollarPatterns(rest: string, matched: string, before: string, after: string)
    ensures Expand("$$" + rest, matched, before, after) == "$" + Expand(rest, matched, before, after)
    ensures Expand("$&" + rest, matched, before, after) == matched + Expand(rest, matched, before, after)
    ensures Expand("$`" + rest, matched, before, after) == before + Expand(rest, matched, before, after)
    ensures Expand("$'" + rest, matched, before, after) == after + Expand(rest, matched, before, after)
  {
    assert ("$$" + rest)[2..] == rest;
    assert ("$&" + rest)[2..] == rest;
    assert ("$`" + rest)[2..] == rest;
    assert ("$'" + rest)[2..] == rest;
  }

  /**
   * String.prototype.replace(pat, rep) with a string pattern: only the FIRST
   * occurrence of `pat` is replaced; without one the string is returned as it is.
   */
  function ReplaceFirst(s: string, pat: string, rep: string): (r: string)
    ensures IndexOf(s, pat).None? ==> r == s
    ensures IndexOf(s, pat).Some? ==>
              var i := IndexOf(s, pat).value;
              r == s[..i] + Expand(rep, pat, s[..i], s[i + |pat|..]) + s[i + |pat|..]
    ensures '$' !in rep && IndexOf(s, pat).Some? ==>
              var i := IndexOf(s, pat).value;
              r == s[..i] + rep + s[i + |pat|..]
  {
    match IndexOf(s, pat)
    case None => s
    case Some(i) =>
      var before, after := s[..i], s[i + |pat|..];
      if '$' !in rep then ExpandLiteral(rep, pat, before, after); before + Expand(rep, pat, before, after) + after
      else before + Expand(rep, pat, before, after) + after
  }

  /** A pattern the string starts with is the one replaced. */
  lemma ReplaceAtFront(s: string, pat: string, rest: string, rep: string)
    requires s == pat + rest && '$' !in rep
    ensures ReplaceFirst(s, pat, rep) == rep + rest
  {
    assert OccursAt(s, pat, 0) by {
      assert s[..|pat|] == pat;
    }
    assert IndexOf(s, pat) == Some(0);
    assert s[|pat|..] == rest;
  }

  /** At an occurrence, the rest of the string is the pattern followed by what comes after it. */
  lemma SplitAtOccurrence(s: string, pat: string, i: nat)
    requires OccursAt(s, pat, i)
    ensures s[i..] == pat + s[i + |pat|..]
  {
    assert s[i..] == s[i..i + |pat|] + s[i + |pat|..];
  }

  /** Putting `text` before the pattern at an occurrence `i` inserts `text` at `i`. */
  lemma InsertBefore(s: string, pat: string, text: string, i: nat)
    requires OccursAt(s, pat, i)
    ensures s[..i] + (text + pat) + s[i + |pat|..] == s[..i] + text + s[i..]
  {
    var before, after := s[..i], s[i + |pat|..];
    SplitAtOccurrence(s, pat, i);
    calc {
      before + (text + pat) + after;
      before + text + (pat + after);
      before + text + s[i..];
    }
  }

  /**
   * When the first character of the pattern does not occur in `x`, the first
   * occurrence in `x + pat + rest` is the one right after `x`.
   */
  lemma ReplaceAfter(s: string, x: string, pat: string, rest: string, text: string)
    requires s == x + pat + rest && |pat| > 0 && pat[0] !in x && '$' !in text
    ensures ReplaceFirst(s, pat, text) == x + text + rest
  {
    assert s[|x|..|x| + |pat|] == pat;
    assert OccursAt(s, pat, |x|);
    forall k | 0 <= k < |x| ensures !OccursAt(s, pat, k) {
      assert s[k] == x[k];
      if k + |pat| <= |s| {
        assert s[k..k + |pat|][0] != pat[0];
      }
    }
    assert IndexOf(s, pat) == Some(|x|);
    assert s[..|x|] == x && s[|x| + |pat|..] == rest;
  }
}
