/**
 * The list of generated BRDs: the search over project names and summaries, and the
 * short formatted preview each card shows.
 */
module BrdList {
  import opened Strings
  import opened Markdown

  /** One generated BRD as the list endpoint returns it. */
  datatype GeneratedBrd = GeneratedBrd(
    id: string,
    projectId: string,
    projectName: string,
    summary: string,
    createdAt: string,
    brdPreview: string)

  /** The filter's test: the lower-cased search term occurs in the lower-cased project
      name or in the lower-cased summary. */
  predicate Matches(brd: GeneratedBrd, searchTerm: string)
    ensures searchTerm == "" ==> Matches(brd, searchTerm)
  {
    ContainsEmpty(Lower(brd.projectName));
    var searchLower := Lower(searchTerm);
    Contains(Lower(brd.projectName), searchLower) || Contains(Lower(brd.summary), searchLower)
  }

  /** `brds.filter(brd => Matches(brd, searchTerm))` */
  function FilterBrds(brds: seq<GeneratedBrd>, searchTerm: string): (r: seq<GeneratedBrd>)
    ensures |r| <= |brds|
    ensures forall i :: 0 <= i < |r| ==> Matches(r[i], searchTerm)
  {
    if brds == [] then []
    else (if Matches(brds[0], searchTerm) then [brds[0]] else []) + FilterBrds(brds[1..], searchTerm)
  }

  /** A BRD is listed exactly when it is in the list and matches; no more BRDs are
      listed than there are. */
  lemma {:induction false} FilterSpec(brds: seq<GeneratedBrd>, searchTerm: string)
    ensures forall b :: b in FilterBrds(brds, searchTerm) <==> b in brds && Matches(b, searchTerm)
    ensures |FilterBrds(brds, searchTerm)| <= |brds|
  {
    if brds != [] {
      FilterSpec(brds[1..], searchTerm);
      assert brds == [brds[0]] + brds[1..];
    }
  }

  /** The filter keeps the list's order: it works piece by piece. */
  lemma {:induction false} FilterAppend(a: seq<GeneratedBrd>, b: seq<GeneratedBrd>, searchTerm: string)
    ensures FilterBrds(a + b, searchTerm) == FilterBrds(a, searchTerm) + FilterBrds(b, searchTerm)
  {
    if a == [] {
      assert a + b == b;
    } else {
      assert (a + b)[1..] == a[1..] + b;
      FilterAppend(a[1..], b, searchTerm);
    }
  }

  /** A BRD every one of which matches is kept whole. */
  lemma {:induction false} FilterAllMatch(brds: seq<GeneratedBrd>, searchTerm: string)
    requires forall i :: 0 <= i < |brds| ==> Matches(brds[i], searchTerm)
    ensures FilterBrds(brds, searchTerm) == brds
  {
    if brds != [] {
      FilterAllMatch(brds[1..], searchTerm);
      assert brds == [brds[0]] + brds[1..];
    }
  }

  /** An empty search term lists every BRD. */
  lemma FilterEmptyTerm(brds: seq<GeneratedBrd>)
    ensures FilterBrds(brds, "") == brds
  {
    forall i | 0 <= i < |brds| ensures Matches(brds[i], "") {
      ContainsEmpty(Lower(brds[i].projectName));
    }
    FilterAllMatch(brds, "");
  }

  /** Lower-casing is idempotent. */
  lemma LowerTwice(s: string)
    ensures Lower(Lower(s)) == Lower(s)
  {
  }

  /** The search ignores the case of the term. */
  lemma {:induction false} FilterIgnoresCase(brds: seq<GeneratedBrd>, searchTerm: string)
    ensures FilterBrds(brds, Lower(searchTerm)) == FilterBrds(brds, searchTerm)
  {
    LowerTwice(searchTerm);
    if brds != [] {
      FilterIgnoresCase(brds[1..], searchTerm);
    }
  }

  /** A match of a longer term is a match of any term it contains. */
  lemma MatchesNarrow(brd: GeneratedBrd, shorter: string, longer: string)
    requires Contains(longer, shorter)
    ensures Matches(brd, longer) ==> Matches(brd, shorter)
  {
    ContainsLower(longer, shorter);
    if Contains(Lower(brd.projectName), Lower(longer)) {
      ContainsTransitive(Lower(shorter), Lower(longer), Lower(brd.projectName));
    } else if Contains(Lower(brd.summary), Lower(longer)) {
      ContainsTransitive(Lower(shorter), Lower(longer), Lower(brd.summary));
    }
  }

  /** Typing more of a search term never brings a BRD back: the results for the longer
      term are the results for the shorter one, filtered again. */
  lemma {:induction false} FilterNarrows(brds: seq<GeneratedBrd>, shorter: string, longer: string)
    requires Contains(longer, shorter)
    ensures FilterBrds(brds, longer) == FilterBrds(FilterBrds(brds, shorter), longer)
  {
    if brds != [] {
      FilterNarrows(brds[1..], shorter, longer);
      var rest := FilterBrds(brds[1..], shorter);
      if Matches(brds[0], shorter) {
        assert FilterBrds(brds, shorter) == [brds[0]] + rest;
        assert FilterBrds([brds[0]] + rest, longer)
          == (if Matches(brds[0], longer) then [brds[0]] else []) + FilterBrds(rest, longer);
      } else {
        MatchesNarrow(brds[0], shorter, longer);
        assert FilterBrds(brds, shorter) == rest;
        assert FilterBrds(brds, longer) == FilterBrds(brds[1..], longer);
      }
    }
  }

  /** The preview block of a card: the first 200 characters of the preview with `...`
      after them, formatted, or a fixed notice when there is no preview. */
  function PreviewHtml(preview: string): (r: string)
    ensures r != []
    ensures preview != "" ==> |r| >= |Substring(preview, 0, 200)| + 3
  {
    if preview == "" then "No preview available"
    else FormatMarkdownText(Substring(preview, 0, 200) + "...")
  }

  /** An empty preview shows the notice; any other is cut to at most 200 characters
      and always gets `...`, even when nothing was cut. */
  lemma PreviewSpec(preview: string)
    ensures preview == "" ==> PreviewHtml(preview) == "No preview available"
    ensures preview != "" && |preview| <= 200 ==> PreviewHtml(preview) == Rewrite(preview + "...")
    ensures 200 < |preview| ==> PreviewHtml(preview) == Rewrite(preview[..200] + "...")
  {
    SubstringSpec(preview, 0, 200);
  }

  /** A plain preview, without `*`, `_` or `#`, is shown as its cut text and `...`. */
  lemma PlainPreview(preview: string)
    requires preview != ""
    requires forall i :: 0 <= i < |preview| ==> preview[i] != '*' && preview[i] != '_' && preview[i] != '#'
    ensures |preview| <= 200 ==> PreviewHtml(preview) == preview + "..."
    ensures 200 < |preview| ==> PreviewHtml(preview) == preview[..200] + "..."
  {
    SubstringSpec(preview, 0, 200);
    var cut := Substring(preview, 0, 200);
    PlainTextUnchanged(cut + "...");
  }

  /** What the page shows once loaded. */
  datatype ListView = NoBrdsYet | Cards(brds: seq<GeneratedBrd>)

  /** The empty-state card when there are no BRDs at all, the filtered cards otherwise. */
  function View(brds: seq<GeneratedBrd>, searchTerm: string): ListView {
    if |brds| == 0 then NoBrdsYet else Cards(FilterBrds(brds, searchTerm))
  }

  /** The empty state depends on the BRDs alone, never on the search: a search that
      matches nothing shows an empty list of cards. */
  lemma ViewSpec(brds: seq<GeneratedBrd>, searchTerm: string)
    ensures View(brds, searchTerm).NoBrdsYet? <==> brds == []
    ensures brds != [] && (forall b :: b in brds ==> !Matches(b, searchTerm)) ==> View(brds, searchTerm) == Cards([])
  {
    if forall b :: b in brds ==> !Matches(b, searchTerm) {
      FilterNoMatch(brds, searchTerm);
    }
  }

  /** A search that matches no BRD lists none. */
  lemma {:induction false} FilterNoMatch(brds: seq<GeneratedBrd>, searchTerm: string)
    requires forall b :: b in brds ==> !Matches(b, searchTerm)
    ensures FilterBrds(brds, searchTerm) == []
  {
    if brds != [] {
      assert brds[0] in brds;
      FilterNoMatch(brds[1..], searchTerm);
    }
  }
}
