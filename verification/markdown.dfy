/**
 * `formatMarkdownText` (src/lib/utils.ts): six global regular-expression replacements
 * applied in a fixed order (bold, italic, h1, h2, h3, bullet), each one to the output
 * of the one before, and an empty-result fallback.
 *
 * Every pass is one of two fixed regular-expression shapes, each written here as a
 * dedicated scanner that follows JavaScript's `String.prototype.replace` with a
 * global pattern: the leftmost match is replaced, scanning resumes after it, and a
 * position where nothing matches is copied as it is.
 *   - `/(O)(.+?)(C)/g`: an opening alternative from O, tried in order; the shortest
 *     non-empty run of non-terminator characters; a closing alternative from C, tried
 *     in order. Replaced by `before + run + after`.
 *   - `/^M(.+)$/gm`: at a line start, the literal marker M and the (non-empty) rest
 *     of the line. Replaced by `before + rest + after`.
 */
module Markdown {
  import opened Wrappers
  import opened Strings

  /** A match of `(O)(.+?)(C)` at the start of a string t: t[..open] is the opening
      delimiter, t[open..stop] the captured run, t[stop..stop + close] the closing one. */
  datatype Span = Span(open: nat, stop: nat, close: nat)

  /** Every alternative of a delimiter group is a non-empty single-line literal. */
  predicate Delimiters(alts: seq<string>) {
    forall k :: 0 <= k < |alts| ==> |alts[k]| > 0 && SingleLine(alts[k])
  }

  /** Some alternative of `alts` matches at the start of t. */
  predicate AnyPrefix(alts: seq<string>, t: string) {
    exists k :: 0 <= k < |alts| && alts[k] <= t
  }

  /** The first alternative of `alts`, in the order the regular expression tries
      them, that matches at the start of t. */
  function FirstAlt(alts: seq<string>, t: string): (r: Option<nat>)
    ensures r.Some? ==> r.value < |alts| && |alts[r.value]| <= |t|
  {
    if |alts| == 0 then None
    else if StartsWith(t, alts[0]) then Some(0)
    else match FirstAlt(alts[1..], t)
      case None => None
      case Some(k) => Some(k + 1)
  }

  /** FirstAlt picks the first alternative that matches, and finds none exactly when
      no alternative matches. */
  lemma {:induction false} FirstAltSpec(alts: seq<string>, t: string)
    ensures var r := FirstAlt(alts, t);
      r.Some? ==> alts[r.value] <= t && forall j :: 0 <= j < r.value ==> !(alts[j] <= t)
    ensures FirstAlt(alts, t).None? <==> !AnyPrefix(alts, t)
  {
    if |alts| > 0 {
      StartsWithIff(t, alts[0]);
    }
    if |alts| > 0 && !(alts[0] <= t) {
      FirstAltSpec(alts[1..], t);
      assert forall j :: 1 <= j < |alts| ==> alts[j] == alts[1..][j - 1];
    }
  }

  /** `o(.+)` ending at e followed by a closing alternative: a candidate match of the
      opening alternative o whose captured run is t[|o|..e]. */
  ghost predicate Viable(t: string, o: string, e: int, closes: seq<string>) {
    && o <= t
    && |o| < e <= |t|
    && SingleLine(t[|o|..e])
    && AnyPrefix(closes, t[e..])
  }

  /** The lazy run `(.+?)(C)`: the captured run t[open..stop] grows one character at a
      time, never across a line terminator, until a closing alternative matches. */
  function LazyClose(t: string, open: nat, stop: nat, closes: seq<string>): (r: Option<Span>)
    requires open < stop <= |t|
    ensures r.Some? ==> r.value.open == open && stop <= r.value.stop
    ensures r.Some? ==> r.value.stop + r.value.close <= |t|
    decreases |t| - stop
  {
    match FirstAlt(closes, t[stop..])
    case Some(k) => Some(Span(open, stop, |closes[k]|))
    case None =>
      if stop < |t| && !IsLineTerminator(t[stop]) then LazyClose(t, open, stop + 1, closes)
      else None
  }

  /** The lazy run stops at the first position where a closing alternative matches, and
      that closing delimiter is the first alternative that fits there. */
  lemma {:induction false} LazyCloseFound(t: string, open: nat, stop: nat, closes: seq<string>)
    requires open < stop <= |t|
    requires SingleLine(t[open..stop])
    ensures var r := LazyClose(t, open, stop, closes);
      r.Some? ==> (
        && SingleLine(t[open..r.value.stop])
        && FirstAlt(closes, t[r.value.stop..]).Some?
        && r.value.close == |closes[FirstAlt(closes, t[r.value.stop..]).value]|
        && forall e :: stop <= e < r.value.stop ==> !AnyPrefix(closes, t[e..]))
    decreases |t| - stop
  {
    if FirstAlt(closes, t[stop..]).None? && stop < |t| && !IsLineTerminator(t[stop]) {
      FirstAltSpec(closes, t[stop..]);
      assert t[open..stop + 1] == t[open..stop] + [t[stop]];
      LazyCloseFound(t, open, stop + 1, closes);
    }
  }

  /** The lazy run finds nothing exactly when no position up to the end of the line
      admits a closing delimiter. */
  lemma {:induction false} LazyCloseMissing(t: string, open: nat, stop: nat, closes: seq<string>)
    requires open < stop <= |t|
    requires SingleLine(t[open..stop])
    ensures LazyClose(t, open, stop, closes).None? ==>
      forall e :: stop <= e <= |t| && SingleLine(t[open..e]) ==> !AnyPrefix(closes, t[e..])
    decreases |t| - stop
  {
    FirstAltSpec(closes, t[stop..]);
    if FirstAlt(closes, t[stop..]).None? {
      if stop < |t| && !IsLineTerminator(t[stop]) {
        assert t[open..stop + 1] == t[open..stop] + [t[stop]];
        LazyCloseMissing(t, open, stop + 1, closes);
      } else if stop < |t| {
        assert forall e :: stop < e <= |t| ==> t[open..e][stop - open] == t[stop];
      }
    }
  }

  /** The match of `(O)(.+?)(C)` at the start of t, trying the opening alternatives
      from index j on, in order. */
  function MatchFrom(t: string, opens: seq<string>, closes: seq<string>, j: nat): (r: Option<Span>)
    requires j <= |opens|
    ensures r.Some? ==> r.value.open < r.value.stop && r.value.stop + r.value.close <= |t|
    decreases |opens| - j
  {
    if j == |opens| then None
    else
      var o := opens[j];
      if StartsWith(t, o) && |o| < |t| && !IsLineTerminator(t[|o|]) then
        match LazyClose(t, |o|, |o| + 1, closes)
        case Some(sp) => Some(sp)
        case None => MatchFrom(t, opens, closes, j + 1)
      else
        MatchFrom(t, opens, closes, j + 1)
  }

  /** The match a backtracking engine reports, with opening alternative k: the captured
      run is the shortest possible for opens[k], no earlier alternative (from j on)
      admits any match, and the closing delimiter is the first alternative that fits. */
  ghost predicate Chosen(t: string, opens: seq<string>, closes: seq<string>, j: nat, k: nat, sp: Span)
    requires k < |opens|
  {
    && sp.open == |opens[k]|
    && Viable(t, opens[k], sp.stop, closes)
    && (forall e :: sp.open < e < sp.stop ==> !Viable(t, opens[k], e, closes))
    && (forall i, e :: j <= i < k ==> !Viable(t, opens[i], e, closes))
    && FirstAlt(closes, t[sp.stop..]).Some?
    && sp.close == |closes[FirstAlt(closes, t[sp.stop..]).value]|
  }

  /** When opens[j] fits and the lazy run closes, that match is the one chosen. */
  lemma LazyChosen(t: string, opens: seq<string>, closes: seq<string>, j: nat)
    requires j < |opens|
    requires StartsWith(t, opens[j]) && |opens[j]| < |t| && !IsLineTerminator(t[|opens[j]|])
    requires LazyClose(t, |opens[j]|, |opens[j]| + 1, closes).Some?
    ensures Chosen(t, opens, closes, j, j, LazyClose(t, |opens[j]|, |opens[j]| + 1, closes).value)
  {
    var o := opens[j];
    StartsWithIff(t, o);
    assert t[|o|..|o| + 1] == [t[|o|]];
    LazyCloseFound(t, |o|, |o| + 1, closes);
    var sp := LazyClose(t, |o|, |o| + 1, closes).value;
    FirstAltSpec(closes, t[sp.stop..]);
    assert Viable(t, o, sp.stop, closes);
  }

  /** When opens[j] does not fit, or the lazy run never closes, opens[j] admits no match. */
  lemma NoneViable(t: string, opens: seq<string>, closes: seq<string>, j: nat)
    requires j < |opens|
    requires !(StartsWith(t, opens[j]) && |opens[j]| < |t| && !IsLineTerminator(t[|opens[j]|]))
      || LazyClose(t, |opens[j]|, |opens[j]| + 1, closes).None?
    ensures forall e :: !Viable(t, opens[j], e, closes)
  {
    var o := opens[j];
    StartsWithIff(t, o);
    if o <= t && |o| < |t| && !IsLineTerminator(t[|o|]) {
      assert t[|o|..|o| + 1] == [t[|o|]];
      LazyCloseMissing(t, |o|, |o| + 1, closes);
    }
    if o <= t && |o| < |t| && IsLineTerminator(t[|o|]) {
      forall e | |o| < e <= |t| ensures !SingleLine(t[|o|..e]) {
        assert t[|o|..e][0] == t[|o|];
      }
    }
  }

  /** A choice made from j + 1 on stands from j on when opens[j] admits no match. */
  lemma ChosenExtend(t: string, opens: seq<string>, closes: seq<string>, j: nat, k: nat, sp: Span)
    requires j < k < |opens|
    requires Chosen(t, opens, closes, j + 1, k, sp)
    requires forall e :: !Viable(t, opens[j], e, closes)
    ensures Chosen(t, opens, closes, j, k, sp)
  {
  }

  /** MatchFrom finds exactly the match JavaScript's backtracking matcher finds at the
      start of t, and finds none exactly when no alternative admits a match. */
  lemma {:induction false} MatchFromSpec(t: string, opens: seq<string>, closes: seq<string>, j: nat)
    requires j <= |opens|
    ensures MatchFrom(t, opens, closes, j).Some? ==>
      exists k :: j <= k < |opens| && Chosen(t, opens, closes, j, k, MatchFrom(t, opens, closes, j).value)
    ensures MatchFrom(t, opens, closes, j).None? ==>
      forall k, e :: j <= k < |opens| ==> !Viable(t, opens[k], e, closes)
    decreases |opens| - j
  {
    if j < |opens| {
      var o := opens[j];
      if StartsWith(t, o) && |o| < |t| && !IsLineTerminator(t[|o|]) && LazyClose(t, |o|, |o| + 1, closes).Some? {
        LazyChosen(t, opens, closes, j);
      } else {
        NoneViable(t, opens, closes, j);
        MatchFromSpec(t, opens, closes, j + 1);
        var r := MatchFrom(t, opens, closes, j + 1);
        assert MatchFrom(t, opens, closes, j) == r;
        if r.Some? {
          var k :| j + 1 <= k < |opens| && Chosen(t, opens, closes, j + 1, k, r.value);
          ChosenExtend(t, opens, closes, j, k, r.value);
        }
      }
    }
  }

  /** `s.replace(/(O)(.+?)(C)/g, before + "$2" + after)`: every leftmost,
      non-overlapping match is replaced by its captured run between `before` and `after`. */
  function ReplaceDelimited(s: string, opens: seq<string>, closes: seq<string>, before: string, after: string): (r: string)
    decreases |s|
  {
    if s == [] then []
    else
      var m := MatchFrom(s, opens, closes, 0);
      if m.Some? then
        before + s[m.value.open..m.value.stop] + after + ReplaceDelimited(s[m.value.stop + m.value.close..], opens, closes, before, after)
      else
        [s[0]] + ReplaceDelimited(s[1..], opens, closes, before, after)
  }

  /** A delimited pass starts with the text's own first character or with the
      opening tag. */
  lemma DelimitedFirst(s: string, opens: seq<string>, closes: seq<string>, before: string, after: string)
    requires s != [] && before != []
    ensures var r := ReplaceDelimited(s, opens, closes, before, after);
      r[0] == s[0] || r[0] == before[0]
  {
  }

  /** Index of the first line terminator at or after i, or |s|: where the greedy
      `(.+)` of a line pattern stops and `$` holds. */
  function LineEnd(s: string, i: nat): (e: nat)
    requires i <= |s|
    ensures i <= e <= |s|
    decreases |s| - i
  {
    if i == |s| || IsLineTerminator(s[i]) then i else LineEnd(s, i + 1)
  }

  /** The run s[i..LineEnd(s, i)] holds no line terminator, and it stops at one or at
      the end. */
  lemma {:induction false} LineEndSpec(s: string, i: nat)
    requires i <= |s|
    ensures SingleLine(s[i..LineEnd(s, i)])
    ensures LineEnd(s, i) == |s| || IsLineTerminator(s[LineEnd(s, i)])
    decreases |s| - i
  {
    if i < |s| && !IsLineTerminator(s[i]) {
      LineEndSpec(s, i + 1);
      var e := LineEnd(s, i + 1);
      assert s[i..e] == [s[i]] + s[i + 1..e];
    }
  }

  /** `s.replace(/^M(.+)$/gm, before + "$1" + after)` for the literal marker M;
      `atStart` says whether position 0 of s is a line start (the start of the input
      or just after a line terminator). */
  function ReplaceLines(s: string, marker: string, before: string, after: string, atStart: bool): (r: string)
    decreases |s|
  {
    if s == [] then []
    else if atStart && marker <= s && |marker| < |s| && !IsLineTerminator(s[|marker|]) then
      var e := LineEnd(s, |marker|);
      before + s[|marker|..e] + after + ReplaceLines(s[e..], marker, before, after, false)
    else
      [s[0]] + ReplaceLines(s[1..], marker, before, after, IsLineTerminator(s[0]))
  }

  const BoldDelimiters: seq<string> := ["**", "__", "*"]
  const ItalicDelimiters: seq<string> := ["_"]
  const StrongOpen := "<strong>"
  const StrongClose := "</strong>"
  const EmOpen := "<em>"
  const EmClose := "</em>"
  const H1Open := "<h1 class=\"text-2xl font-bold my-2\">"
  const H1Close := "</h1>"
  const H2Open := "<h2 class=\"text-xl font-bold my-2\">"
  const H2Close := "</h2>"
  const H3Open := "<h3 class=\"text-lg font-bold my-2\">"
  const H3Close := "</h3>"
  const BulletOpen := "<li class=\"ml-4\">\U{2022} "
  const BulletClose := "</li>"
  /** What the page shows for an empty result. */
  const Placeholder := "&nbsp;"

  lemma DelimiterGroups()
    ensures Delimiters(BoldDelimiters) && Delimiters(ItalicDelimiters)
  {
  }

  /** Pass 1: `/(\*\*|__|\*)(.+?)(\*\*|__|\*)/g` to `<strong>$2</strong>`. */
  function Bold(s: string): string {
    DelimiterGroups();
    ReplaceDelimited(s, BoldDelimiters, BoldDelimiters, StrongOpen, StrongClose)
  }

  /** Pass 2: `/(_)(.+?)(_)/g` to `<em>$2</em>`. */
  function Italic(s: string): string {
    DelimiterGroups();
    ReplaceDelimited(s, ItalicDelimiters, ItalicDelimiters, EmOpen, EmClose)
  }

  /** Passes 3 to 5: `/^# (.+)$/gm`, `/^## (.+)$/gm`, `/^### (.+)$/gm`. */
  function H1(s: string): string { ReplaceLines(s, "# ", H1Open, H1Close, true) }
  function H2(s: string): string { ReplaceLines(s, "## ", H2Open, H2Close, true) }
  function H3(s: string): string { ReplaceLines(s, "### ", H3Open, H3Close, true) }

  /** Pass 6: `/^\* (.+)$/gm` to a list item with a bullet glyph. */
  function Bullet(s: string): string { ReplaceLines(s, "* ", BulletOpen, BulletClose, true) }

  /** The two inline passes. */
  function Inline(s: string): string { Italic(Bold(s)) }

  /** The four line passes. */
  function Blocks(s: string): string { Bullet(H3(H2(H1(s)))) }

  /** The six passes, each applied to the output of the one before. */
  function Rewrite(s: string): string {
    Blocks(Inline(s))
  }

  /** `formatMarkdownText(text)`. */
  function FormatMarkdownText(text: string): (r: string)
    ensures text == "" ==> r == ""
    ensures text != "" ==> r == Rewrite(text) && r != ""
    ensures |r| >= |text|
  {
    if text == "" then ""
    else
      RewriteGrows(text);
      var formatted := Rewrite(text);
      if formatted == "" then Placeholder else formatted
  }

  /** One step of the delimited pass: a match is replaced, otherwise one character is copied. */
  lemma DelimitedStep(t: string, opens: seq<string>, closes: seq<string>, before: string, after: string)
    requires t != []
    ensures var m := MatchFrom(t, opens, closes, 0);
      m.Some? ==> (ReplaceDelimited(t, opens, closes, before, after)
        == before + t[m.value.open..m.value.stop] + after + ReplaceDelimited(t[m.value.stop + m.value.close..], opens, closes, before, after))
    ensures MatchFrom(t, opens, closes, 0).None? ==>
      ReplaceDelimited(t, opens, closes, before, after) == [t[0]] + ReplaceDelimited(t[1..], opens, closes, before, after)
  {
  }

  // ---------------------------------------------------------------------------
  // Every replacement is longer than the text it replaces.

  /** The two delimiters of a match are together shorter than the two tags. */
  lemma MatchShorterThanTags(s: string, opens: seq<string>, closes: seq<string>, before: string, after: string)
    requires forall k, m :: 0 <= k < |opens| && 0 <= m < |closes| ==> |opens[k]| + |closes[m]| < |before| + |after|
    requires MatchFrom(s, opens, closes, 0).Some?
    ensures MatchFrom(s, opens, closes, 0).value.open + MatchFrom(s, opens, closes, 0).value.close < |before| + |after|
  {
    var sp := MatchFrom(s, opens, closes, 0).value;
    MatchFromSpec(s, opens, closes, 0);
    var k :| 0 <= k < |opens| && Chosen(s, opens, closes, 0, k, sp);
    var m := FirstAlt(closes, s[sp.stop..]).value;
    assert |opens[k]| + |closes[m]| < |before| + |after|;
  }

  /** A delimited replacement never shortens: each match `o + run + c` becomes
      `before + run + after`, and the tags are longer than any pair of delimiters. */
  lemma {:induction false} ReplaceDelimitedGrows(s: string, opens: seq<string>, closes: seq<string>, before: string, after: string)
    requires forall k, m :: 0 <= k < |opens| && 0 <= m < |closes| ==> |opens[k]| + |closes[m]| < |before| + |after|
    ensures |ReplaceDelimited(s, opens, closes, before, after)| >= |s|
    decreases |s|
  {
    if s != [] {
      var m := MatchFrom(s, opens, closes, 0);
      DelimitedStep(s, opens, closes, before, after);
      if m.Some? {
        MatchShorterThanTags(s, opens, closes, before, after);
        ReplaceDelimitedGrows(s[m.value.stop + m.value.close..], opens, closes, before, after);
      } else {
        ReplaceDelimitedGrows(s[1..], opens, closes, before, after);
      }
    }
  }

  /** A line replacement never shortens: `marker + rest` becomes `before + rest + after`. */
  lemma {:induction false} ReplaceLinesGrows(s: string, marker: string, before: string, after: string, atStart: bool)
    requires |marker| < |before| + |after|
    ensures |ReplaceLines(s, marker, before, after, atStart)| >= |s|
    decreases |s|
  {
    if s == [] {
    } else if atStart && marker <= s && |marker| < |s| && !IsLineTerminator(s[|marker|]) {
      var e := LineEnd(s, |marker|);
      ReplaceLinesGrows(s[e..], marker, before, after, false);
    } else {
      ReplaceLinesGrows(s[1..], marker, before, after, IsLineTerminator(s[0]));
    }
  }

  /** The whole pipeline never shortens its input, so a non-empty text never reaches
      the `&nbsp;` fallback. */
  lemma RewriteGrows(s: string)
    ensures |Rewrite(s)| >= |s|
  {
    DelimiterGroups();
    ReplaceDelimitedGrows(s, BoldDelimiters, BoldDelimiters, StrongOpen, StrongClose);
    var b := Bold(s);
    ReplaceDelimitedGrows(b, ItalicDelimiters, ItalicDelimiters, EmOpen, EmClose);
    var i := Italic(b);
    ReplaceLinesGrows(i, "# ", H1Open, H1Close, true);
    ReplaceLinesGrows(H1(i), "## ", H2Open, H2Close, true);
    ReplaceLinesGrows(H2(H1(i)), "### ", H3Open, H3Close, true);
    ReplaceLinesGrows(H3(H2(H1(i))), "* ", BulletOpen, BulletClose, true);
  }

  // ---------------------------------------------------------------------------
  // Where the delimited passes leave text alone.

  /** A match begins with one of the opening alternatives. */
  lemma MatchOpensWith(t: string, opens: seq<string>, closes: seq<string>)
    requires MatchFrom(t, opens, closes, 0).Some?
    ensures AnyPrefix(opens, t)
  {
    MatchFromSpec(t, opens, closes, 0);
    var k :| 0 <= k < |opens| && Chosen(t, opens, closes, 0, k, MatchFrom(t, opens, closes, 0).value);
    assert opens[k] <= t;
  }

  /** Text in which no opening alternative occurs anywhere passes through unchanged. */
  lemma {:induction false} DelimitedIdentity(s: string, opens: seq<string>, closes: seq<string>, before: string, after: string)
    requires Delimiters(opens) && Delimiters(closes)
    requires forall i, k :: 0 <= i <= |s| && 0 <= k < |opens| ==> !(opens[k] <= s[i..])
    ensures ReplaceDelimited(s, opens, closes, before, after) == s
    decreases |s|
  {
    if s != [] {
      assert s[0..] == s;
      assert !AnyPrefix(opens, s);
      if MatchFrom(s, opens, closes, 0).Some? {
        MatchOpensWith(s, opens, closes);
      }
      DelimitedStep(s, opens, closes, before, after);
      forall i, k | 0 <= i <= |s| - 1 && 0 <= k < |opens| ensures !(opens[k] <= s[1..][i..]) {
        assert s[1..][i..] == s[i + 1..];
      }
      DelimitedIdentity(s[1..], opens, closes, before, after);
    }
  }

  /** A prefix holding no first character of an opening alternative is copied as it is,
      and the pass goes on with the rest. */
  lemma {:induction false} DelimitedPrefix(p: string, q: string, opens: seq<string>, closes: seq<string>, before: string, after: string)
    requires Delimiters(opens) && Delimiters(closes)
    requires forall i, k :: 0 <= i < |p| && 0 <= k < |opens| ==> p[i] != opens[k][0]
    ensures ReplaceDelimited(p + q, opens, closes, before, after) == p + ReplaceDelimited(q, opens, closes, before, after)
    decreases |p|
  {
    if p == [] {
      assert p + q == q;
    } else {
      var t := p + q;
      forall k | 0 <= k < |opens| ensures !(opens[k] <= t) {
        assert opens[k][0] != t[0];
      }
      if MatchFrom(t, opens, closes, 0).Some? {
        MatchOpensWith(t, opens, closes);
      }
      DelimitedStep(t, opens, closes, before, after);
      assert t[1..] == p[1..] + q;
      DelimitedPrefix(p[1..], q, opens, closes, before, after);
    }
  }

  /** Single-line text stays single-line when the tags are single-line. */
  lemma {:induction false} DelimitedSingleLine(s: string, opens: seq<string>, closes: seq<string>, before: string, after: string)
    requires SingleLine(s) && SingleLine(before) && SingleLine(after)
    ensures SingleLine(ReplaceDelimited(s, opens, closes, before, after))
    decreases |s|
  {
    if s != [] {
      var m := MatchFrom(s, opens, closes, 0);
      DelimitedStep(s, opens, closes, before, after);
      if m.Some? {
        var k := m.value.stop + m.value.close;
        var run := s[m.value.open..m.value.stop];
        SingleLineSlice(s, m.value.open, m.value.stop);
        SingleLineSlice(s, k, k);
        DelimitedSingleLine(s[k..], opens, closes, before, after);
        SingleLineConcat(before, run);
        SingleLineConcat(before + run, after);
        SingleLineConcat(before + run + after, ReplaceDelimited(s[k..], opens, closes, before, after));
      } else {
        SingleLineSlice(s, 1, 1);
        DelimitedSingleLine(s[1..], opens, closes, before, after);
        SingleLineConcat([s[0]], ReplaceDelimited(s[1..], opens, closes, before, after));
      }
    }
  }

  // ---------------------------------------------------------------------------
  // No match crosses a line terminator.

  /** A single-line literal is a prefix of u + w, where w starts with a line
      terminator, exactly when it is a prefix of u. */
  lemma PrefixBeforeTerminator(a: string, u: string, w: string)
    requires SingleLine(a)
    requires w != [] && IsLineTerminator(w[0])
    ensures a <= u + w <==> a <= u
  {
    if |a| <= |u| {
      assert (u + w)[..|a|] == u[..|a|];
    } else {
      assert (u + w)[|u|] == w[0];
      assert a[|u|] != (u + w)[|u|];
    }
  }

  lemma {:induction false} FirstAltBeforeTerminator(alts: seq<string>, u: string, w: string)
    requires Delimiters(alts)
    requires w != [] && IsLineTerminator(w[0])
    ensures FirstAlt(alts, u + w) == FirstAlt(alts, u)
  {
    if |alts| > 0 {
      PrefixBeforeTerminator(alts[0], u, w);
      StartsWithIff(u, alts[0]);
      StartsWithIff(u + w, alts[0]);
      FirstAltBeforeTerminator(alts[1..], u, w);
    }
  }

  /** The lazy run sees the same text whether or not a line break and more text follow. */
  lemma {:induction false} LazyCloseCut(x: string, w: string, open: nat, stop: nat, closes: seq<string>)
    requires Delimiters(closes)
    requires w != [] && IsLineTerminator(w[0])
    requires open < stop <= |x|
    requires SingleLine(x[open..stop])
    ensures (x + w)[open..stop] == x[open..stop]
    ensures LazyClose(x + w, open, stop, closes) == LazyClose(x, open, stop, closes)
    decreases |x| - stop
  {
    assert (x + w)[open..stop] == x[open..stop];
    assert (x + w)[stop..] == x[stop..] + w;
    FirstAltBeforeTerminator(closes, x[stop..], w);
    if FirstAlt(closes, x[stop..]).None? && stop < |x| && !IsLineTerminator(x[stop]) {
      assert x[open..stop + 1] == x[open..stop] + [x[stop]];
      LazyCloseCut(x, w, open, stop + 1, closes);
    }
  }

  /** Matching at the start of x + w sees only x when w starts with a line terminator. */
  lemma {:induction false} MatchFromCut(x: string, w: string, opens: seq<string>, closes: seq<string>, j: nat)
    requires Delimiters(opens) && Delimiters(closes)
    requires w != [] && IsLineTerminator(w[0])
    requires j <= |opens|
    ensures MatchFrom(x + w, opens, closes, j) == MatchFrom(x, opens, closes, j)
    decreases |opens| - j
  {
    if j < |opens| {
      var o := opens[j];
      PrefixBeforeTerminator(o, x, w);
      StartsWithIff(x, o);
      StartsWithIff(x + w, o);
      if o <= x && |o| < |x| && !IsLineTerminator(x[|o|]) {
        assert (x + w)[|o|] == x[|o|];
        LazyCloseCut(x, w, |o|, |o| + 1, closes);
      } else if o <= x && |o| == |x| {
        assert (x + w)[|o|] == w[0];
      }
      MatchFromCut(x, w, opens, closes, j + 1);
    }
  }

  /** A line terminator is never part of a match, so it is copied. */
  lemma DelimitedAtTerminator(c: char, y: string, opens: seq<string>, closes: seq<string>, before: string, after: string)
    requires Delimiters(opens) && Delimiters(closes)
    requires IsLineTerminator(c)
    ensures ReplaceDelimited([c] + y, opens, closes, before, after) == [c] + ReplaceDelimited(y, opens, closes, before, after)
  {
    var w := [c] + y;
    MatchFromCut([], w, opens, closes, 0);
    assert [] + w == w;
    assert w[1..] == y;
  }

  lemma ConcatSlices(x: string, w: string, i: nat, j: nat)
    requires i <= j <= |x|
    ensures (x + w)[i..j] == x[i..j]
    ensures (x + w)[j..] == x[j..] + w
  {
  }

  /** The first step on x and on x + w, where w starts with a line terminator, emits the
      same head and leaves the same rest. */
  lemma DelimitedHead(x: string, w: string, opens: seq<string>, closes: seq<string>, before: string, after: string)
      returns (head: string, rest: string)
    requires Delimiters(opens) && Delimiters(closes)
    requires x != [] && w != [] && IsLineTerminator(w[0])
    ensures |rest| < |x|
    ensures ReplaceDelimited(x, opens, closes, before, after) == head + ReplaceDelimited(rest, opens, closes, before, after)
    ensures ReplaceDelimited(x + w, opens, closes, before, after) == head + ReplaceDelimited(rest + w, opens, closes, before, after)
  {
    var m := MatchFrom(x, opens, closes, 0);
    MatchFromCut(x, w, opens, closes, 0);
    DelimitedStep(x, opens, closes, before, after);
    DelimitedStep(x + w, opens, closes, before, after);
    if m.Some? {
      ConcatSlices(x, w, m.value.open, m.value.stop);
      ConcatSlices(x, w, m.value.stop + m.value.close, m.value.stop + m.value.close);
      head := before + x[m.value.open..m.value.stop] + after;
      rest := x[m.value.stop + m.value.close..];
    } else {
      ConcatSlices(x, w, 1, 1);
      head := [x[0]];
      rest := x[1..];
    }
  }

  /** A delimited pass maps the text before a line terminator and the text from it on
      independently. */
  lemma {:induction false} DelimitedAppend(x: string, w: string, opens: seq<string>, closes: seq<string>, before: string, after: string)
    requires Delimiters(opens) && Delimiters(closes)
    requires w != [] && IsLineTerminator(w[0])
    ensures ReplaceDelimited(x + w, opens, closes, before, after)
      == ReplaceDelimited(x, opens, closes, before, after) + ReplaceDelimited(w, opens, closes, before, after)
    decreases |x|
  {
    if x == [] {
      assert x + w == w;
      assert ReplaceDelimited(x, opens, closes, before, after) == [];
    } else {
      var head, rest := DelimitedHead(x, w, opens, closes, before, after);
      DelimitedAppend(rest, w, opens, closes, before, after);
      var rr, rw := ReplaceDelimited(rest, opens, closes, before, after), ReplaceDelimited(w, opens, closes, before, after);
      assert head + (rr + rw) == (head + rr) + rw;
    }
  }

  /** A delimited pass works line by line: the text before a line terminator, the
      terminator and the text after it are mapped independently. */
  lemma DelimitedSplit(x: string, c: char, y: string, opens: seq<string>, closes: seq<string>, before: string, after: string)
    requires Delimiters(opens) && Delimiters(closes)
    requires IsLineTerminator(c)
    ensures ReplaceDelimited(x + [c] + y, opens, closes, before, after)
      == ReplaceDelimited(x, opens, closes, before, after) + [c] + ReplaceDelimited(y, opens, closes, before, after)
  {
    assert x + [c] + y == x + ([c] + y);
    DelimitedAtTerminator(c, y, opens, closes, before, after);
    DelimitedAppend(x, [c] + y, opens, closes, before, after);
  }

  // ---------------------------------------------------------------------------
  // Line passes.

  /** Text holding no first character of the marker passes through unchanged. */
  lemma {:induction false} LinesWithoutMarker(s: string, marker: string, before: string, after: string, atStart: bool)
    requires |marker| > 0
    requires forall i :: 0 <= i < |s| ==> s[i] != marker[0]
    ensures ReplaceLines(s, marker, before, after, atStart) == s
    decreases |s|
  {
    if s != [] {
      assert !(marker <= s) by { assert s[0] != marker[0]; }
      LinesWithoutMarker(s[1..], marker, before, after, IsLineTerminator(s[0]));
    }
  }

  /** A single line that does not begin with the marker and a non-empty rest (or does
      not begin at a line start) passes through unchanged. */
  lemma {:induction false} LinesIdentity(s: string, marker: string, before: string, after: string, atStart: bool)
    requires SingleLine(s)
    requires atStart ==> !(marker <= s && |marker| < |s|)
    ensures ReplaceLines(s, marker, before, after, atStart) == s
    decreases |s|
  {
    if s != [] {
      LinesIdentity(s[1..], marker, before, after, false);
    }
  }

  /** A whole line `marker + x`, x non-empty, becomes exactly `before + x + after`. */
  lemma LinesWholeLine(marker: string, x: string, before: string, after: string)
    requires SingleLine(x) && x != []
    ensures ReplaceLines(marker + x, marker, before, after, true) == before + x + after
  {
    var s := marker + x;
    assert s[|marker|..] == x;
    assert s[|marker|] == x[0];
    assert s[|marker|..|s|] == x;
    LineEndAt(s, |marker|, |s|);
    assert s[|s|..] == [];
  }

  /** Single-line text stays single-line when the tags are single-line. */
  lemma {:induction false} LinesSingleLine(s: string, marker: string, before: string, after: string, atStart: bool)
    requires SingleLine(s) && SingleLine(before) && SingleLine(after)
    ensures SingleLine(ReplaceLines(s, marker, before, after, atStart))
    decreases |s|
  {
    if s == [] {
    } else if atStart && marker <= s && |marker| < |s| && !IsLineTerminator(s[|marker|]) {
      assert forall i :: |marker| <= i < |s| ==> s[|marker|..|s|][i - |marker|] == s[i];
      LineEndAt(s, |marker|, |s|);
      assert s[|s|..] == [];
      LinesSingleLine([], marker, before, after, false);
    } else {
      LinesSingleLine(s[1..], marker, before, after, false);
    }
  }

  /** LineEnd finds the first line terminator: any e that closes a single-line run at a
      terminator or at the end is the one it returns. */
  lemma {:induction false} LineEndAt(s: string, i: nat, e: nat)
    requires i <= e <= |s|
    requires SingleLine(s[i..e])
    requires e == |s| || IsLineTerminator(s[e])
    ensures LineEnd(s, i) == e
    decreases e - i
  {
    if i < e {
      assert s[i..e][0] == s[i];
      assert s[i + 1..e] == s[i..e][1..];
      LineEndAt(s, i + 1, e);
    }
  }

  /** One step of a line pass: a line start holding the marker and a non-empty rest of
      the line is replaced up to the line end, otherwise one character is copied. */
  lemma LinesStep(t: string, marker: string, before: string, after: string, atStart: bool)
    requires t != []
    ensures var hit := atStart && marker <= t && |marker| < |t| && !IsLineTerminator(t[|marker|]);
      ReplaceLines(t, marker, before, after, atStart)
      == if hit then before + t[|marker|..LineEnd(t, |marker|)] + after + ReplaceLines(t[LineEnd(t, |marker|)..], marker, before, after, false)
         else [t[0]] + ReplaceLines(t[1..], marker, before, after, IsLineTerminator(t[0]))
  {
  }

  /** A line terminator never starts a marked line, so it is copied and a line starts after it. */
  lemma LinesAtTerminator(c: char, y: string, marker: string, before: string, after: string, atStart: bool)
    requires SingleLine(marker) && IsLineTerminator(c)
    ensures ReplaceLines([c] + y, marker, before, after, atStart) == [c] + ReplaceLines(y, marker, before, after, true)
  {
    var w := [c] + y;
    LinesStep(w, marker, before, after, atStart);
    assert w[0] == c && w[1..] == y;
    if |marker| > 0 {
      assert marker[0] != w[0];
    }
  }

  /** The line end seen from i in x + w, where w starts with a line terminator, is the one
      seen in x. */
  lemma LineEndCut(x: string, w: string, i: nat)
    requires i <= |x|
    requires w != [] && IsLineTerminator(w[0])
    ensures LineEnd(x + w, i) == LineEnd(x, i)
  {
    var e := LineEnd(x, i);
    LineEndSpec(x, i);
    assert (x + w)[i..e] == x[i..e];
    if e == |x| {
      assert (x + w)[e] == w[0];
    } else {
      assert (x + w)[e] == x[e];
    }
    LineEndAt(x + w, i, e);
  }

  /** The first step of a line pass on x and on x + w, where w starts with a line
      terminator, emits the same head and leaves the same rest. */
  lemma LinesHead(x: string, w: string, marker: string, before: string, after: string, atStart: bool)
      returns (head: string, rest: string, restStart: bool)
    requires SingleLine(marker)
    requires x != [] && w != [] && IsLineTerminator(w[0])
    ensures |rest| < |x|
    ensures ReplaceLines(x, marker, before, after, atStart) == head + ReplaceLines(rest, marker, before, after, restStart)
    ensures ReplaceLines(x + w, marker, before, after, atStart) == head + ReplaceLines(rest + w, marker, before, after, restStart)
  {
    var t := x + w;
    LinesStep(x, marker, before, after, atStart);
    LinesStep(t, marker, before, after, atStart);
    PrefixBeforeTerminator(marker, x, w);
    if |marker| < |x| {
      assert t[|marker|] == x[|marker|];
    } else if |marker| == |x| {
      assert t[|marker|] == w[0];
    }
    assert t[0] == x[0];
    if atStart && marker <= x && |marker| < |x| && !IsLineTerminator(x[|marker|]) {
      var e := LineEnd(x, |marker|);
      LineEndCut(x, w, |marker|);
      ConcatSlices(x, w, |marker|, e);
      head := before + x[|marker|..e] + after;
      rest := x[e..];
      restStart := false;
    } else {
      ConcatSlices(x, w, 1, 1);
      head := [x[0]];
      rest := x[1..];
      restStart := IsLineTerminator(x[0]);
    }
  }

  /** A line pass maps the text before a line terminator and the text from it on
      independently; the terminator starts a fresh line. */
  lemma {:induction false} LinesAppend(x: string, w: string, marker: string, before: string, after: string, atStart: bool)
    requires SingleLine(marker)
    requires w != [] && IsLineTerminator(w[0])
    ensures ReplaceLines(x + w, marker, before, after, atStart)
      == ReplaceLines(x, marker, before, after, atStart) + ReplaceLines(w, marker, before, after, true)
    decreases |x|
  {
    LinesAtTerminator(w[0], w[1..], marker, before, after, atStart);
    LinesAtTerminator(w[0], w[1..], marker, before, after, true);
    assert [w[0]] + w[1..] == w;
    if x == [] {
      assert x + w == w;
      assert ReplaceLines(x, marker, before, after, atStart) == [];
    } else {
      var head, rest, restStart := LinesHead(x, w, marker, before, after, atStart);
      LinesAppend(rest, w, marker, before, after, restStart);
      var rr, rw := ReplaceLines(rest, marker, before, after, restStart), ReplaceLines(w, marker, before, after, true);
      assert head + (rr + rw) == (head + rr) + rw;
    }
  }

  /** A line pass works line by line: the text before a line terminator, the terminator
      and the text after it (which begins at a line start) are mapped independently. */
  lemma LinesSplit(x: string, c: char, y: string, marker: string, before: string, after: string, atStart: bool)
    requires SingleLine(marker) && IsLineTerminator(c)
    ensures ReplaceLines(x + [c] + y, marker, before, after, atStart)
      == ReplaceLines(x, marker, before, after, atStart) + [c] + ReplaceLines(y, marker, before, after, true)
  {
    assert x + [c] + y == x + ([c] + y);
    LinesAtTerminator(c, y, marker, before, after, true);
    LinesAppend(x, [c] + y, marker, before, after, atStart);
  }

  // ---------------------------------------------------------------------------
  // What formatMarkdownText does to whole lines.

  lemma InlineTagsSingleLine()
    ensures SingleLine(StrongOpen) && SingleLine(StrongClose) && SingleLine(EmOpen) && SingleLine(EmClose)
  {
  }

  lemma HeadingTagsSingleLine()
    ensures SingleLine(H1Open) && SingleLine(H1Close) && SingleLine(H2Open) && SingleLine(H2Close)
  {
  }

  lemma TagsSingleLine()
    ensures SingleLine(StrongOpen) && SingleLine(StrongClose) && SingleLine(EmOpen) && SingleLine(EmClose)
    ensures SingleLine(H1Open) && SingleLine(H1Close) && SingleLine(H2Open) && SingleLine(H2Close)
    ensures SingleLine(H3Open) && SingleLine(H3Close) && SingleLine(BulletOpen) && SingleLine(BulletClose)
  {
    InlineTagsSingleLine();
    HeadingTagsSingleLine();
  }

  /** The two delimited passes keep single-line text single-line. */
  lemma InlineSingleLine(s: string)
    requires SingleLine(s)
    ensures SingleLine(Bold(s)) && SingleLine(Italic(Bold(s)))
  {
    DelimiterGroups();
    TagsSingleLine();
    DelimitedSingleLine(s, BoldDelimiters, BoldDelimiters, StrongOpen, StrongClose);
    DelimitedSingleLine(Bold(s), ItalicDelimiters, ItalicDelimiters, EmOpen, EmClose);
  }

  /** The six passes keep single-line text single-line: no pass adds a line break. */
  lemma RewriteSingleLine(s: string)
    requires SingleLine(s)
    ensures SingleLine(Rewrite(s))
  {
    TagsSingleLine();
    InlineSingleLine(s);
    var i := Italic(Bold(s));
    LinesSingleLine(i, "# ", H1Open, H1Close, true);
    LinesSingleLine(H1(i), "## ", H2Open, H2Close, true);
    LinesSingleLine(H2(H1(i)), "### ", H3Open, H3Close, true);
    LinesSingleLine(H3(H2(H1(i))), "* ", BulletOpen, BulletClose, true);
  }

  /** The inline passes work line by line: no match reaches across a line terminator. */
  lemma InlineSplit(x: string, c: char, y: string)
    requires IsLineTerminator(c)
    ensures Inline(x + [c] + y) == Inline(x) + [c] + Inline(y)
  {
    DelimiterGroups();
    DelimitedSplit(x, c, y, BoldDelimiters, BoldDelimiters, StrongOpen, StrongClose);
    DelimitedSplit(Bold(x), c, Bold(y), ItalicDelimiters, ItalicDelimiters, EmOpen, EmClose);
  }

  lemma H1Split(x: string, c: char, y: string)
    requires IsLineTerminator(c)
    ensures H1(x + [c] + y) == H1(x) + [c] + H1(y)
  {
    LinesSplit(x, c, y, "# ", H1Open, H1Close, true);
  }

  lemma H2Split(x: string, c: char, y: string)
    requires IsLineTerminator(c)
    ensures H2(x + [c] + y) == H2(x) + [c] + H2(y)
  {
    LinesSplit(x, c, y, "## ", H2Open, H2Close, true);
  }

  lemma H3Split(x: string, c: char, y: string)
    requires IsLineTerminator(c)
    ensures H3(x + [c] + y) == H3(x) + [c] + H3(y)
  {
    LinesSplit(x, c, y, "### ", H3Open, H3Close, true);
  }

  lemma BulletSplit(x: string, c: char, y: string)
    requires IsLineTerminator(c)
    ensures Bullet(x + [c] + y) == Bullet(x) + [c] + Bullet(y)
  {
    LinesSplit(x, c, y, "* ", BulletOpen, BulletClose, true);
  }

  /** The line passes work line by line: the text after a line terminator starts a
      fresh line. */
  lemma BlocksSplit(x: string, c: char, y: string)
    requires IsLineTerminator(c)
    ensures Blocks(x + [c] + y) == Blocks(x) + [c] + Blocks(y)
  {
    H1Split(x, c, y);
    H2Split(H1(x), c, H1(y));
    H3Split(H2(H1(x)), c, H2(H1(y)));
    BulletSplit(H3(H2(H1(x))), c, H3(H2(H1(y))));
  }

  /** The whole rewrite works line by line. */
  lemma RewriteSplit(x: string, c: char, y: string)
    requires IsLineTerminator(c)
    ensures Rewrite(x + [c] + y) == Rewrite(x) + [c] + Rewrite(y)
  {
    InlineSplit(x, c, y);
    BlocksSplit(Inline(x), c, Inline(y));
  }

  /** The rewrite of each line in a list. */
  function RewriteEach(lines: seq<string>): (r: seq<string>)
    ensures |r| == |lines|
    ensures forall i :: 0 <= i < |lines| ==> r[i] == Rewrite(lines[i])
  {
    if lines == [] then [] else [Rewrite(lines[0])] + RewriteEach(lines[1..])
  }

  /** Rewriting lines joined by line feeds is joining their rewrites. */
  lemma {:induction false} RewriteLines(lines: seq<string>)
    ensures Rewrite(Join(lines, "\n")) == Join(RewriteEach(lines), "\n")
    decreases |lines|
  {
    if |lines| >= 2 {
      var rest := Join(lines[1..], "\n");
      assert Join(lines, "\n") == lines[0] + ['\n'] + rest;
      RewriteSplit(lines[0], '\n', rest);
      RewriteLines(lines[1..]);
      var r := RewriteEach(lines);
      assert r[1..] == RewriteEach(lines[1..]);
      assert Join(r, "\n") == r[0] + "\n" + Join(r[1..], "\n");
    }
  }

  /** Text with no `*`, `_` or `#` is shown as it is. */
  lemma PlainTextUnchanged(s: string)
    requires forall i :: 0 <= i < |s| ==> s[i] != '*' && s[i] != '_' && s[i] != '#'
    ensures FormatMarkdownText(s) == s
  {
    if s != "" {
      DelimiterGroups();
      assert s + [] == s;
      DelimitedPrefix(s, [], BoldDelimiters, BoldDelimiters, StrongOpen, StrongClose);
      DelimitedPrefix(s, [], ItalicDelimiters, ItalicDelimiters, EmOpen, EmClose);
      LinesWithoutMarker(s, "# ", H1Open, H1Close, true);
      LinesWithoutMarker(s, "## ", H2Open, H2Close, true);
      LinesWithoutMarker(s, "### ", H3Open, H3Close, true);
      LinesWithoutMarker(s, "* ", BulletOpen, BulletClose, true);
    }
  }

  /** A heading needs its space: `#T`, where T does not start with a space or another
      `#`, is no heading; only the inline passes act on T. */
  lemma HeadingNeedsSpace(t: string)
    requires SingleLine(t)
    requires t == [] || (t[0] != ' ' && t[0] != '#')
    ensures FormatMarkdownText("#" + t) == "#" + Italic(Bold(t))
  {
    DelimiterGroups();
    InlinePrefix("#", t);
    InlineSingleLine(t);
    var u := Italic(Bold(t));
    assert u == [] || u[0] == t[0] || u[0] == '<' by {
      if t != [] {
        DelimitedFirst(t, BoldDelimiters, BoldDelimiters, StrongOpen, StrongClose);
        DelimitedFirst(Bold(t), ItalicDelimiters, ItalicDelimiters, EmOpen, EmClose);
        assert StrongOpen[0] == '<' && EmOpen[0] == '<';
      }
    }
    var v := "#" + u;
    SingleLineConcat("#", u);
    assert |v| == 1 || v[1] == u[0];
    LinesIdentity(v, "# ", H1Open, H1Close, true);
    LinesIdentity(v, "## ", H2Open, H2Close, true);
    LinesIdentity(v, "### ", H3Open, H3Close, true);
    LinesIdentity(v, "* ", BulletOpen, BulletClose, true);
  }

  /** A heading needs its text: a bare `# ` is shown as it is. */
  lemma BareHeading()
    ensures FormatMarkdownText("# ") == "# "
  {
    var w := "# ";
    assert forall i :: 0 <= i < |w| ==> w[i] != '*' && w[i] != '_';
    InlinePlain(w);
    LinesIdentity(w, "# ", H1Open, H1Close, true);
    LinesIdentity(w, "## ", H2Open, H2Close, true);
    LinesIdentity(w, "### ", H3Open, H3Close, true);
    LinesIdentity(w, "* ", BulletOpen, BulletClose, true);
  }

  /** A prefix holding neither `*` nor `_` is passed over by both delimited passes. */
  lemma InlinePrefix(p: string, t: string)
    requires forall i :: 0 <= i < |p| ==> p[i] != '*' && p[i] != '_'
    ensures Italic(Bold(p + t)) == p + Italic(Bold(t))
  {
    DelimiterGroups();
    DelimitedPrefix(p, t, BoldDelimiters, BoldDelimiters, StrongOpen, StrongClose);
    DelimitedPrefix(p, Bold(t), ItalicDelimiters, ItalicDelimiters, EmOpen, EmClose);
  }

  /** A line that starts with a tag is left alone by a line pass whose marker starts with
      `#` or `*`. */
  lemma TagLineUnchanged(v: string, marker: string, before: string, after: string)
    requires SingleLine(v) && v != [] && v[0] == '<'
    requires marker != [] && (marker[0] == '#' || marker[0] == '*')
    ensures ReplaceLines(v, marker, before, after, true) == v
  {
    assert !(marker <= v) by { assert marker[0] != v[0]; }
    LinesIdentity(v, marker, before, after, true);
  }

  lemma ConcatSingleLine(a: string, b: string, c: string)
    requires SingleLine(a) && SingleLine(b) && SingleLine(c)
    ensures SingleLine(a + b + c)
  {
    SingleLineConcat(a, b);
    SingleLineConcat(a + b, c);
  }

  /** The inline passes on a non-empty single line give a non-empty single line. */
  lemma InlineLine(t: string)
    requires SingleLine(t) && t != []
    ensures SingleLine(Italic(Bold(t))) && Italic(Bold(t)) != []
  {
    DelimiterGroups();
    InlineSingleLine(t);
    ReplaceDelimitedGrows(t, BoldDelimiters, BoldDelimiters, StrongOpen, StrongClose);
    ReplaceDelimitedGrows(Bold(t), ItalicDelimiters, ItalicDelimiters, EmOpen, EmClose);
  }

  /** `# text` is a level-1 heading around the text with its bold and italic spans. */
  lemma Heading1(t: string)
    requires SingleLine(t) && t != []
    ensures FormatMarkdownText("# " + t) == H1Open + Italic(Bold(t)) + H1Close
  {
    TagsSingleLine();
    InlinePrefix("# ", t);
    var u := Italic(Bold(t));
    InlineLine(t);
    LinesWholeLine("# ", u, H1Open, H1Close);
    var v := H1Open + u + H1Close;
    ConcatSingleLine(H1Open, u, H1Close);
    TagLineUnchanged(v, "## ", H2Open, H2Close);
    TagLineUnchanged(v, "### ", H3Open, H3Close);
    TagLineUnchanged(v, "* ", BulletOpen, BulletClose);
  }

  /** `## text` is a level-2 heading: the level-1 pass does not take it. */
  lemma Heading2(t: string)
    requires SingleLine(t) && t != []
    ensures FormatMarkdownText("## " + t) == H2Open + Italic(Bold(t)) + H2Close
  {
    TagsSingleLine();
    InlinePrefix("## ", t);
    var u := Italic(Bold(t));
    InlineLine(t);
    var line := "## " + u;
    assert !("# " <= line) by { assert line[1] == '#'; }
    ConcatSingleLine("## ", u, "");
    assert "## " + u + "" == line;
    LinesIdentity(line, "# ", H1Open, H1Close, true);
    LinesWholeLine("## ", u, H2Open, H2Close);
    var v := H2Open + u + H2Close;
    ConcatSingleLine(H2Open, u, H2Close);
    TagLineUnchanged(v, "### ", H3Open, H3Close);
    TagLineUnchanged(v, "* ", BulletOpen, BulletClose);
  }

  /** `### text` is a level-3 heading: neither shorter marker takes it. */
  lemma Heading3(t: string)
    requires SingleLine(t) && t != []
    ensures FormatMarkdownText("### " + t) == H3Open + Italic(Bold(t)) + H3Close
  {
    TagsSingleLine();
    InlinePrefix("### ", t);
    var u := Italic(Bold(t));
    InlineLine(t);
    var line := "### " + u;
    assert !("# " <= line) by { assert line[1] == '#'; }
    assert !("## " <= line) by { assert line[2] == '#'; }
    ConcatSingleLine("### ", u, "");
    assert "### " + u + "" == line;
    LinesIdentity(line, "# ", H1Open, H1Close, true);
    LinesIdentity(line, "## ", H2Open, H2Close, true);
    LinesWholeLine("### ", u, H3Open, H3Close);
    var v := H3Open + u + H3Close;
    ConcatSingleLine(H3Open, u, H3Close);
    TagLineUnchanged(v, "* ", BulletOpen, BulletClose);
  }

  /** Text whose only opening or closing character is its first one has no match. */
  lemma {:induction false} DelimitedUnclosed(s: string, opens: seq<string>, closes: seq<string>, before: string, after: string)
    requires Delimiters(opens) && Delimiters(closes)
    requires s != []
    requires forall i, k :: 1 <= i < |s| && 0 <= k < |opens| ==> s[i] != opens[k][0]
    requires forall i, k :: 1 <= i < |s| && 0 <= k < |closes| ==> s[i] != closes[k][0]
    ensures ReplaceDelimited(s, opens, closes, before, after) == s
  {
    forall k, e | 0 <= k < |opens| && |opens[k]| < e < |s|
      ensures !AnyPrefix(closes, s[e..])
    {
      forall m | 0 <= m < |closes| ensures !(closes[m] <= s[e..]) {
        assert s[e..][0] == s[e];
      }
    }
    forall m | 0 <= m < |closes| ensures !(closes[m] <= s[|s|..]) {
      assert |closes[m]| > 0;
    }
    MatchFromSpec(s, opens, closes, 0);
    assert MatchFrom(s, opens, closes, 0).None?;
    DelimitedStep(s, opens, closes, before, after);
    assert s[1..] + [] == s[1..];
    DelimitedPrefix(s[1..], [], opens, closes, before, after);
  }

  /** `* text`, when the text holds no `*` or `_`, is a list item with a bullet glyph
      around the text as it is. */
  lemma BulletPlain(t: string)
    requires SingleLine(t) && t != []
    requires forall i :: 0 <= i < |t| ==> t[i] != '*' && t[i] != '_'
    ensures FormatMarkdownText("* " + t) == BulletOpen + t + BulletClose
  {
    DelimiterGroups();
    var line := "* " + t;
    assert forall i :: 1 <= i < |line| ==> line[i] != '*' && line[i] != '_';
    DelimitedUnclosed(line, BoldDelimiters, BoldDelimiters, StrongOpen, StrongClose);
    assert line + [] == line;
    DelimitedPrefix(line, [], ItalicDelimiters, ItalicDelimiters, EmOpen, EmClose);
    ConcatSingleLine("* ", t, "");
    assert "* " + t + "" == line;
    LinesIdentity(line, "# ", H1Open, H1Close, true);
    LinesIdentity(line, "## ", H2Open, H2Close, true);
    LinesIdentity(line, "### ", H3Open, H3Close, true);
    LinesWholeLine("* ", t, BulletOpen, BulletClose);
  }

  /** No closing alternative fits at a position whose character starts none of them. */
  lemma NoCloseInside(s: string, start: nat, e: nat, closes: seq<string>)
    requires Delimiters(closes)
    requires e <= |s|
    requires forall i, n :: start < i < e && 0 <= n < |closes| ==> s[i] != closes[n][0]
    ensures forall e' :: start < e' < e ==> !AnyPrefix(closes, s[e'..])
  {
    forall e' | start < e' < e ensures !AnyPrefix(closes, s[e'..]) {
      forall n | 0 <= n < |closes| ensures !(closes[n] <= s[e'..]) {
        assert s[e'..][0] == s[e'];
      }
    }
  }

  /** The first alternative to fit x is the m-th when it fits and no earlier one does. */
  lemma FirstAltAt(alts: seq<string>, x: string, m: nat)
    requires m < |alts| && alts[m] <= x
    requires forall n :: 0 <= n < m ==> !(alts[n] <= x)
    ensures FirstAlt(alts, x) == Some(m)
  {
    FirstAltSpec(alts, x);
  }

  /** The match found at the start of s opens with the k-th alternative and closes at
      e with the m-th, when no earlier opening alternative fits s, the run up to e is a
      single line, no closing alternative fits inside it, and the m-th is the first to
      fit at e. */
  lemma MatchAt(s: string, opens: seq<string>, closes: seq<string>, k: nat, e: nat, m: nat)
    requires k < |opens| && opens[k] <= s
    requires forall j :: 0 <= j < k ==> !(opens[j] <= s)
    requires |opens[k]| < e <= |s| && SingleLine(s[|opens[k]|..e])
    requires forall e' :: |opens[k]| < e' < e ==> !AnyPrefix(closes, s[e'..])
    requires m < |closes| && FirstAlt(closes, s[e..]) == Some(m)
    ensures MatchFrom(s, opens, closes, 0) == Some(Span(|opens[k]|, e, |closes[m]|))
  {
    FirstAltSpec(closes, s[e..]);
    assert Viable(s, opens[k], e, closes);
    assert forall j, e' :: 0 <= j < k ==> !Viable(s, opens[j], e', closes);
    MatchFromSpec(s, opens, closes, 0);
    var r := MatchFrom(s, opens, closes, 0);
    assert r.Some?;
    var k' :| 0 <= k' < |opens| && Chosen(s, opens, closes, 0, k', r.value);
    assert k' == k;
    assert r.value.stop == e;
  }

  /** The match the bold or italic pass finds at the start of `o + t + c + rest`, when
      o is the k-th opening alternative and no earlier one fits the string, c is the
      m-th closing alternative and no earlier one fits `c + rest`, and t is a single
      line holding no first character of a closing alternative after its first
      position: t, between o and c. */
  lemma LeadMatch(o: string, t: string, c: string, rest: string, opens: seq<string>, closes: seq<string>, k: nat, m: nat)
    requires Delimiters(closes)
    requires k < |opens| && opens[k] == o
    requires forall j :: 0 <= j < k ==> !(opens[j] <= o + t + c + rest)
    requires m < |closes| && closes[m] == c
    requires forall n :: 0 <= n < m ==> !(closes[n] <= c + rest)
    requires SingleLine(t) && t != []
    requires forall i, n :: 1 <= i < |t| && 0 <= n < |closes| ==> t[i] != closes[n][0]
    ensures MatchFrom(o + t + c + rest, opens, closes, 0) == Some(Span(|o|, |o| + |t|, |c|))
  {
    var s := o + t + c + rest;
    var e := |o| + |t|;
    assert s[|o|..e] == t;
    assert s[e..] == c + rest;
    assert o <= s;
    assert forall i :: |o| < i < e ==> s[i] == t[i - |o|];
    NoCloseInside(s, |o|, e, closes);
    FirstAltAt(closes, s[e..], m);
    MatchAt(s, opens, closes, k, e, m);
  }

  /** The run and the rest read back from `o + t + c + rest`. */
  lemma LeadPieces(o: string, t: string, c: string, rest: string)
    ensures (o + t + c + rest)[|o|..|o| + |t|] == t
    ensures (o + t + c + rest)[|o| + |t| + |c|..] == rest
  {
  }

  /** A string of that kind becomes `before + t + after` followed by the pass over
      rest. */
  lemma DelimitedLead(o: string, t: string, c: string, rest: string, opens: seq<string>, closes: seq<string>,
                      before: string, after: string, k: nat, m: nat)
    requires Delimiters(opens) && Delimiters(closes)
    requires k < |opens| && opens[k] == o
    requires forall j :: 0 <= j < k ==> !(opens[j] <= o + t + c + rest)
    requires m < |closes| && closes[m] == c
    requires forall n :: 0 <= n < m ==> !(closes[n] <= c + rest)
    requires SingleLine(t) && t != []
    requires forall i, n :: 1 <= i < |t| && 0 <= n < |closes| ==> t[i] != closes[n][0]
    ensures ReplaceDelimited(o + t + c + rest, opens, closes, before, after)
      == before + t + after + ReplaceDelimited(rest, opens, closes, before, after)
  {
    var s := o + t + c + rest;
    LeadMatch(o, t, c, rest, opens, closes, k, m);
    LeadPieces(o, t, c, rest);
    var sp := MatchFrom(s, opens, closes, 0).value;
    assert s[sp.open..sp.stop] == t && s[sp.stop + sp.close..] == rest;
    DelimitedStep(s, opens, closes, before, after);
  }

  /** A whole string `o + t + c` of that kind is one match. */
  lemma DelimitedWhole(o: string, t: string, c: string, opens: seq<string>, closes: seq<string>, before: string, after: string)
    requires Delimiters(opens) && Delimiters(closes)
    requires |opens| > 0 && opens[0] == o && |closes| > 0 && closes[0] == c
    requires SingleLine(t) && t != []
    requires forall i, m :: 0 <= i < |t| && 0 <= m < |closes| ==> t[i] != closes[m][0]
    ensures ReplaceDelimited(o + t + c, opens, closes, before, after) == before + t + after
  {
    DelimitedLead(o, t, c, [], opens, closes, before, after, 0, 0);
    assert o + t + c + [] == o + t + c;
  }

  /** A line that is a tag, its text and a closing tag is left alone by the four line
      passes. */
  lemma TagLineKept(v: string)
    requires SingleLine(v) && v != [] && v[0] == '<'
    ensures Blocks(v) == v
  {
    TagLineUnchanged(v, "# ", H1Open, H1Close);
    TagLineUnchanged(v, "## ", H2Open, H2Close);
    TagLineUnchanged(v, "### ", H3Open, H3Close);
    TagLineUnchanged(v, "* ", BulletOpen, BulletClose);
  }

  /** `**text**`, when the text holds no `*` or `_`, is shown in bold. */
  lemma BoldSpan(t: string)
    requires SingleLine(t) && t != []
    requires forall i :: 0 <= i < |t| ==> t[i] != '*' && t[i] != '_'
    ensures FormatMarkdownText("**" + t + "**") == StrongOpen + t + StrongClose
  {
    DelimiterGroups();
    DelimitedWhole("**", t, "**", BoldDelimiters, BoldDelimiters, StrongOpen, StrongClose);
    var v := StrongOpen + t + StrongClose;
    assert v + [] == v;
    DelimitedPrefix(v, [], ItalicDelimiters, ItalicDelimiters, EmOpen, EmClose);
    InlineTagsSingleLine();
    ConcatSingleLine(StrongOpen, t, StrongClose);
    TagLineKept(v);
  }

  /** `_text_`, when the text holds no `*` or `_`, is shown in italics: the bold pass
      finds no opening delimiter in it. */
  lemma ItalicSpan(t: string)
    requires SingleLine(t) && t != []
    requires forall i :: 0 <= i < |t| ==> t[i] != '*' && t[i] != '_'
    ensures FormatMarkdownText("_" + t + "_") == EmOpen + t + EmClose
  {
    DelimiterGroups();
    var s := "_" + t + "_";
    assert forall j :: 0 <= j < |t| ==> s[j + 1] == t[j];
    forall i, k | 0 <= i <= |s| && 0 <= k < |BoldDelimiters| ensures !(BoldDelimiters[k] <= s[i..]) {
      if i < |s| {
        assert s[i..][0] == s[i];
        if i + 1 < |s| {
          assert s[i..][1] == s[i + 1];
        }
      }
    }
    DelimitedIdentity(s, BoldDelimiters, BoldDelimiters, StrongOpen, StrongClose);
    DelimitedWhole("_", t, "_", ItalicDelimiters, ItalicDelimiters, EmOpen, EmClose);
    var v := EmOpen + t + EmClose;
    InlineTagsSingleLine();
    ConcatSingleLine(EmOpen, t, EmClose);
    TagLineKept(v);
  }

  /** Text holding neither `*` nor `_` is left alone by the inline passes. */
  lemma InlinePlain(t: string)
    requires forall i :: 0 <= i < |t| ==> t[i] != '*' && t[i] != '_'
    ensures Italic(Bold(t)) == t
  {
    InlinePrefix(t, []);
    assert t + [] == t;
  }

  /** The bold, italic and line passes leave a single line of plain text that opens
      with a tag alone. */
  lemma StrongLine(v: string)
    requires SingleLine(v) && v != [] && v[0] == '<' && '_' !in v
    ensures Blocks(Italic(v)) == v
  {
    DelimiterGroups();
    assert v + [] == v;
    DelimitedPrefix(v, [], ItalicDelimiters, ItalicDelimiters, EmOpen, EmClose);
    TagLineKept(v);
  }

  /** Plain text, with no `*` or `_`, is left alone by the bold pass. */
  lemma BoldPlain(p: string)
    requires '*' !in p && '_' !in p
    ensures Bold(p) == p
  {
    DelimiterGroups();
    assert forall i, k :: 0 <= i < |p| && 0 <= k < |BoldDelimiters| ==> p[i] != BoldDelimiters[k][0];
    assert p + [] == p;
    DelimitedPrefix(p, [], BoldDelimiters, BoldDelimiters, StrongOpen, StrongClose);
  }

  /** A line made of one bold match around plain text t, with the k-th opening and
      the m-th closing alternative chosen, followed by plain text, is shown as that
      text in bold followed by the rest. */
  lemma BoldLead(o: string, t: string, c: string, rest: string, k: nat, m: nat)
    requires k < |BoldDelimiters| && BoldDelimiters[k] == o
    requires forall j :: 0 <= j < k ==> !(BoldDelimiters[j] <= o + t + c + rest)
    requires m < |BoldDelimiters| && BoldDelimiters[m] == c
    requires forall n :: 0 <= n < m ==> !(BoldDelimiters[n] <= c + rest)
    requires SingleLine(t) && t != [] && SingleLine(rest)
    requires '*' !in t && '_' !in t && '*' !in rest && '_' !in rest
    ensures FormatMarkdownText(o + t + c + rest) == StrongOpen + t + StrongClose + rest
  {
    DelimiterGroups();
    var s := o + t + c + rest;
    DelimitedLead(o, t, c, rest, BoldDelimiters, BoldDelimiters, StrongOpen, StrongClose, k, m);
    BoldPlain(rest);
    var v := StrongOpen + t + StrongClose + rest;
    assert Bold(s) == v;
    InlineTagsSingleLine();
    ConcatSingleLine(StrongOpen, t, StrongClose);
    SingleLineConcat(StrongOpen + t + StrongClose, rest);
    assert v[0] == '<';
    assert '_' !in StrongOpen && '_' !in StrongClose;
    assert '_' !in v;
    StrongLine(v);
  }

  /** `__text__` is shown in bold: the bold pass tries `**` first, then `__`. */
  lemma UnderscoreBold(t: string)
    requires SingleLine(t) && t != []
    requires '*' !in t && '_' !in t
    ensures FormatMarkdownText("__" + t + "__") == StrongOpen + t + StrongClose
  {
    var s := "__" + t + "__" + [];
    assert s[0] == '_';
    assert ("__" + [])[0] == '_';
    BoldLead("__", t, "__", [], 1, 1);
    assert s == "__" + t + "__";
    assert StrongOpen + t + StrongClose + [] == StrongOpen + t + StrongClose;
  }

  /** The opening and closing delimiters are chosen independently: `**text*` is shown
      in bold, closed by the single `*`. */
  lemma MixedDelimiters(t: string)
    requires SingleLine(t) && t != []
    requires '*' !in t && '_' !in t
    ensures FormatMarkdownText("**" + t + "*") == StrongOpen + t + StrongClose
  {
    assert |"*" + []| == 1;
    BoldLead("**", t, "*", [], 0, 2);
    assert "**" + t + "*" + [] == "**" + t + "*";
    assert StrongOpen + t + StrongClose + [] == StrongOpen + t + StrongClose;
  }

  /** No opening alternative admits a match at the start of t: the scan finds none. */
  lemma NoMatch(t: string, opens: seq<string>, closes: seq<string>)
    requires forall k, e :: 0 <= k < |opens| ==> !Viable(t, opens[k], e, closes)
    ensures MatchFrom(t, opens, closes, 0).None?
  {
    MatchFromSpec(t, opens, closes, 0);
  }

  /** Some opening alternative admits a match at the start of t: the scan finds one. */
  lemma SomeMatch(t: string, opens: seq<string>, closes: seq<string>, k: nat, e: int)
    requires k < |opens| && Viable(t, opens[k], e, closes)
    ensures MatchFrom(t, opens, closes, 0).Some?
  {
    MatchFromSpec(t, opens, closes, 0);
  }

  /** In text with no `*` and no `__`, no bold delimiter fits anywhere. */
  lemma NoBoldDelimiter(t: string)
    requires '*' !in t && !Contains(t, "__")
    ensures forall i, k :: 0 <= i <= |t| && 0 <= k < |BoldDelimiters| ==> !(BoldDelimiters[k] <= t[i..])
  {
    ContainsIff(t, "__");
    forall i, k | 0 <= i <= |t| && 0 <= k < |BoldDelimiters| ensures !(BoldDelimiters[k] <= t[i..]) {
      assert !OccursAt(t, "__", i);
      if i < |t| {
        assert t[i..][0] == t[i];
      }
    }
  }

  /** When every opening alternative that fits is at least n - 1 long and no closing
      alternative fits from position n on, the scan finds no match. */
  lemma NoMatchPast(s: string, opens: seq<string>, closes: seq<string>, n: nat)
    requires forall k :: 0 <= k < |opens| && opens[k] <= s ==> n <= |opens[k]| + 1
    requires forall e :: n <= e <= |s| ==> !AnyPrefix(closes, s[e..])
    ensures MatchFrom(s, opens, closes, 0).None?
  {
    forall k, e | 0 <= k < |opens| ensures !Viable(s, opens[k], e, closes) {
    }
    NoMatch(s, opens, closes);
  }

  /** After `* `, no bold delimiter fits anywhere in text with no `*` and no `__`. */
  lemma BulletRestUnclosed(t: string)
    requires '*' !in t && !Contains(t, "__")
    ensures forall e :: 2 <= e <= |"* " + t| ==> !AnyPrefix(BoldDelimiters, ("* " + t)[e..])
  {
    NoBoldDelimiter(t);
    var s := "* " + t;
    forall e | 2 <= e <= |s| ensures !AnyPrefix(BoldDelimiters, s[e..]) {
      assert s[e..] == t[e - 2..];
    }
  }

  /** The leading `*` of `* ` followed by text with no `*` and no `__` finds no
      closing delimiter, so no bold match starts there. */
  lemma BulletOpenerUnclosed(t: string)
    requires '*' !in t && !Contains(t, "__")
    ensures MatchFrom("* " + t, BoldDelimiters, BoldDelimiters, 0).None?
  {
    var s := "* " + t;
    BulletRestUnclosed(t);
    assert forall k :: 0 <= k < |BoldDelimiters| && BoldDelimiters[k] <= s ==> 2 <= |BoldDelimiters[k]| + 1 by {
      assert s[0] == '*' && s[1] == ' ';
    }
    NoMatchPast(s, BoldDelimiters, BoldDelimiters, 2);
  }

  /** The bold pass copies the leading `*` of `* ` followed by text with no `*` and
      no `__`, and goes on after it. */
  lemma BulletBoldStep(t: string)
    requires '*' !in t && !Contains(t, "__")
    ensures Bold("* " + t) == "*" + Bold(" " + t)
  {
    var s := "* " + t;
    BulletOpenerUnclosed(t);
    DelimitedStep(s, BoldDelimiters, BoldDelimiters, StrongOpen, StrongClose);
    assert s[1..] == " " + t;
  }

  /** The bold pass leaves a space followed by text with no `*` and no `__` alone. */
  lemma SpaceBoldFree(t: string)
    requires '*' !in t && !Contains(t, "__")
    ensures Bold(" " + t) == " " + t
  {
    DelimiterGroups();
    NoBoldDelimiter(t);
    DelimitedIdentity(t, BoldDelimiters, BoldDelimiters, StrongOpen, StrongClose);
    DelimitedPrefix(" ", t, BoldDelimiters, BoldDelimiters, StrongOpen, StrongClose);
  }

  /** The bold pass leaves `* ` followed by text with no `*` and no `__` alone. */
  lemma BulletBoldFree(t: string)
    requires '*' !in t && !Contains(t, "__")
    ensures Bold("* " + t) == "* " + t
  {
    BulletBoldStep(t);
    SpaceBoldFree(t);
  }

  /** `* text`, when the text holds no `*` and no `__`, is a list item with a bullet
      glyph around the text after the italic pass. */
  lemma BulletLine(t: string)
    requires SingleLine(t) && t != []
    requires '*' !in t && !Contains(t, "__")
    ensures FormatMarkdownText("* " + t) == BulletOpen + Italic(t) + BulletClose
  {
    var x := Italic(t);
    assert Italic(Bold("* " + t)) == "* " + x by {
      BulletBoldFree(t);
      ItalicPrefix("* ", t);
    }
    assert SingleLine(x) by {
      InlineTagsSingleLine();
      DelimitedSingleLine(t, ItalicDelimiters, ItalicDelimiters, EmOpen, EmClose);
    }
    BulletBlocks(x);
  }

  /** The line passes turn `* x`, for a non-empty single line x, into one list item. */
  lemma BulletBlocks(x: string)
    requires SingleLine(x) && x != []
    ensures Blocks("* " + x) == BulletOpen + x + BulletClose
  {
    var line := "* " + x;
    SingleLineConcat("* ", x);
    assert line[0] == '*';
    LinesIdentity(line, "# ", H1Open, H1Close, true);
    LinesIdentity(line, "## ", H2Open, H2Close, true);
    LinesIdentity(line, "### ", H3Open, H3Close, true);
    LinesWholeLine("* ", x, BulletOpen, BulletClose);
  }

  /** A pass whose scan finds a match at the start of the text starts with the
      opening tag. */
  lemma MatchOpensTag(s: string, opens: seq<string>, closes: seq<string>, before: string, after: string)
    requires MatchFrom(s, opens, closes, 0).Some?
    ensures before <= ReplaceDelimited(s, opens, closes, before, after)
  {
    DelimitedStep(s, opens, closes, before, after);
  }

  /** The italic pass passes over a prefix with no `_`. */
  lemma ItalicPrefix(p: string, q: string)
    requires '_' !in p
    ensures Italic(p + q) == p + Italic(q)
  {
    DelimiterGroups();
    DelimitedPrefix(p, q, ItalicDelimiters, ItalicDelimiters, EmOpen, EmClose);
  }

  /** A line that the bold pass makes start with the bold tag is shown starting with
      that tag, and so is no list item. */
  lemma BoldLine(s: string)
    requires SingleLine(s) && StrongOpen <= Bold(s)
    ensures StrongOpen <= FormatMarkdownText(s)
    ensures !(BulletOpen <= FormatMarkdownText(s))
  {
    var b := Bold(s);
    var w := b[|StrongOpen|..];
    assert b == StrongOpen + w;
    var v := StrongOpen + Italic(w);
    assert Italic(b) == v by {
      assert '_' !in StrongOpen;
      ItalicPrefix(StrongOpen, w);
    }
    assert SingleLine(v) by {
      InlineSingleLine(s);
    }
    TagLineKept(v);
    assert v[1] == 's' && BulletOpen[1] == 'l';
  }

  /** In `* ` followed by text holding a `*` or a `__` on the same line, the leading
      `*` with the run up to that delimiter is a candidate match. */
  lemma BulletViable(t: string, i: nat)
    requires SingleLine(t) && i < |t|
    requires t[i] == '*' || (i + 1 < |t| && t[i] == '_' && t[i + 1] == '_')
    ensures Viable("* " + t, BoldDelimiters[2], i + 2, BoldDelimiters)
  {
    var s := "* " + t;
    var e := i + 2;
    assert AnyPrefix(BoldDelimiters, s[e..]) by {
      var u := t[i..];
      assert s[e..] == u;
      if t[i] == '*' {
        assert BoldDelimiters[2] <= u;
      } else {
        assert u[..2] == "__";
        assert BoldDelimiters[1] <= u;
      }
    }
    assert SingleLine(s[1..e]) by {
      assert s[1..e] == " " + t[..i];
      SingleLineSlice(t, 0, i);
      SingleLineConcat(" ", t[..i]);
    }
  }

  /** So a bold match starts at that `*`. */
  lemma BulletOpenerCloses(t: string, i: nat)
    requires SingleLine(t) && i < |t|
    requires t[i] == '*' || (i + 1 < |t| && t[i] == '_' && t[i + 1] == '_')
    ensures MatchFrom("* " + t, BoldDelimiters, BoldDelimiters, 0).Some?
  {
    BulletViable(t, i);
    SomeMatch("* " + t, BoldDelimiters, BoldDelimiters, 2, i + 2);
  }

  /** `* text`, when the text holds a `*` or a `__`, is no list item: the bold pass
      takes the leading `*` as an opening delimiter, and the line starts with the bold
      tag when the bullet pass runs. */
  lemma BulletTakenByBold(t: string, i: nat)
    requires SingleLine(t) && i < |t|
    requires t[i] == '*' || (i + 1 < |t| && t[i] == '_' && t[i + 1] == '_')
    ensures StrongOpen <= FormatMarkdownText("* " + t)
    ensures !(BulletOpen <= FormatMarkdownText("* " + t))
  {
    assert StrongOpen <= Bold("* " + t) by {
      BulletOpenerCloses(t, i);
      MatchOpensTag("* " + t, BoldDelimiters, BoldDelimiters, StrongOpen, StrongClose);
    }
    SingleLineConcat("* ", t);
    BoldLine("* " + t);
  }

  /** A line `* text` is a list item exactly when the text holds neither a `*` nor a
      `__`. */
  lemma ListItemIff(t: string)
    requires SingleLine(t) && t != []
    ensures BulletOpen <= FormatMarkdownText("* " + t) <==> '*' !in t && !Contains(t, "__")
  {
    if '*' !in t && !Contains(t, "__") {
      BulletLine(t);
    } else if '*' in t {
      var i :| 0 <= i < |t| && t[i] == '*';
      BulletTakenByBold(t, i);
    } else {
      ContainsIff(t, "__");
      var i :| OccursAt(t, "__", i);
      assert t[i..][..2] == "__";
      BulletTakenByBold(t, i);
    }
  }

  /** A line `* a *b` is not a list item: the bold pass takes its leading `*` as an
      opening delimiter, closed by the later `*`. */
  lemma BulletStarClosed(a: string, b: string)
    requires SingleLine(a) && SingleLine(b)
    requires '*' !in a && '_' !in a && '*' !in b && '_' !in b
    ensures FormatMarkdownText("* " + a + " *" + b) == StrongOpen + (" " + a + " ") + StrongClose + b
  {
    var t := " " + a + " ";
    var s := "*" + t + "*" + b;
    assert "* " + a + " *" + b == s;
    assert s[1] == ' ' && s[0] == '*';
    assert b == [] || b[0] != '*';
    assert ("*" + b)[0] == '*' && (b != [] ==> ("*" + b)[1] == b[0]);
    SingleLineConcat(" ", a);
    SingleLineConcat(" " + a, " ");
    BoldLead("*", t, "*", b, 2, 2);
  }

  /** A lone `**` has nothing between its stars and is left as it is. */
  lemma LoneStars()
    ensures FormatMarkdownText("**") == "**"
  {
    DelimiterGroups();
    assert MatchFrom("**", BoldDelimiters, BoldDelimiters, 0).None?;
    assert MatchFrom("*", BoldDelimiters, BoldDelimiters, 0).None?;
  }

  // ---------------------------------------------------------------------------
  // No pass adds a character its tags do not hold.

  /** A character in none of four strings is not in their concatenation. */
  lemma AbsentConcat(a: string, b: string, d: string, e: string, c: char)
    requires c !in a && c !in b && c !in d && c !in e
    ensures c !in a + b + d + e
  {
  }

  /** A delimited pass adds no character that is in neither tag. */
  lemma {:induction false} DelimitedAbsent(s: string, c: char, opens: seq<string>, closes: seq<string>, before: string, after: string)
    requires c !in s && c !in before && c !in after
    ensures c !in ReplaceDelimited(s, opens, closes, before, after)
    decreases |s|
  {
    if s != [] {
      var m := MatchFrom(s, opens, closes, 0);
      if m.Some? {
        var k := m.value.stop + m.value.close;
        var run, r := s[m.value.open..m.value.stop], ReplaceDelimited(s[k..], opens, closes, before, after);
        assert ReplaceDelimited(s, opens, closes, before, after) == before + run + after + r;
        AbsentSlice(s, c, m.value.open, m.value.stop);
        AbsentSlice(s, c, k, |s|);
        DelimitedAbsent(s[k..], c, opens, closes, before, after);
        AbsentConcat(before, run, after, r, c);
      } else {
        var r := ReplaceDelimited(s[1..], opens, closes, before, after);
        assert ReplaceDelimited(s, opens, closes, before, after) == [s[0]] + r;
        AbsentSlice(s, c, 1, |s|);
        DelimitedAbsent(s[1..], c, opens, closes, before, after);
        assert c !in [s[0]] + r;
      }
    }
  }


  /** A line pass adds no character that is in neither tag. */
  lemma {:induction false} LinesAbsent(s: string, c: char, marker: string, before: string, after: string, atStart: bool)
    requires c !in s && c !in before && c !in after
    ensures c !in ReplaceLines(s, marker, before, after, atStart)
    decreases |s|
  {
    if s == [] {
    } else if atStart && marker <= s && |marker| < |s| && !IsLineTerminator(s[|marker|]) {
      var e := LineEnd(s, |marker|);
      assert forall i :: |marker| <= i < e ==> s[|marker|..e][i - |marker|] == s[i];
      assert forall i :: e <= i < |s| ==> s[e..][i - e] == s[i];
      LinesAbsent(s[e..], c, marker, before, after, false);
    } else {
      assert forall i :: 1 <= i < |s| ==> s[1..][i - 1] == s[i];
      LinesAbsent(s[1..], c, marker, before, after, IsLineTerminator(s[0]));
    }
  }

  /** A single line holds no line feed. */
  lemma SingleLineNoLineFeed(s: string)
    requires SingleLine(s)
    ensures '\n' !in s
  {
    assert forall i :: 0 <= i < |s| ==> s[i] != '\n';
  }

  lemma InlineNoLineFeed(s: string)
    requires '\n' !in s
    ensures '\n' !in Inline(s)
  {
    InlineTagsSingleLine();
    SingleLineNoLineFeed(StrongOpen);
    SingleLineNoLineFeed(StrongClose);
    SingleLineNoLineFeed(EmOpen);
    SingleLineNoLineFeed(EmClose);
    DelimitedAbsent(s, '\n', BoldDelimiters, BoldDelimiters, StrongOpen, StrongClose);
    DelimitedAbsent(Bold(s), '\n', ItalicDelimiters, ItalicDelimiters, EmOpen, EmClose);
  }

  lemma BlocksNoLineFeed(s: string)
    requires '\n' !in s
    ensures '\n' !in Blocks(s)
  {
    TagsSingleLine();
    SingleLineNoLineFeed(H1Open);
    SingleLineNoLineFeed(H1Close);
    SingleLineNoLineFeed(H2Open);
    SingleLineNoLineFeed(H2Close);
    SingleLineNoLineFeed(H3Open);
    SingleLineNoLineFeed(H3Close);
    SingleLineNoLineFeed(BulletOpen);
    SingleLineNoLineFeed(BulletClose);
    LinesAbsent(s, '\n', "# ", H1Open, H1Close, true);
    LinesAbsent(H1(s), '\n', "## ", H2Open, H2Close, true);
    LinesAbsent(H2(H1(s)), '\n', "### ", H3Open, H3Close, true);
    LinesAbsent(H3(H2(H1(s))), '\n', "* ", BulletOpen, BulletClose, true);
  }

  /** The six passes add no line feed. */
  lemma RewriteNoLineFeed(s: string)
    requires '\n' !in s
    ensures '\n' !in Rewrite(s)
  {
    InlineNoLineFeed(s);
    BlocksNoLineFeed(Inline(s));
  }

  /** Formatting a whole text and cutting the result at its line feeds gives the
      formatted lines of the text, one for one. */
  lemma RewriteByLines(s: string)
    ensures Split(Rewrite(s), '\n') == RewriteEach(Split(s, '\n'))
    ensures Count(Rewrite(s), '\n') == Count(s, '\n')
  {
    var lines := Split(s, '\n');
    JoinSplit(s, '\n');
    RewriteLines(lines);
    var r := RewriteEach(lines);
    forall k | 0 <= k < |r| ensures '\n' !in r[k] {
      RewriteNoLineFeed(lines[k]);
    }
    SplitJoin(r, '\n');
  }
}
