/**
 * The BRD editor component: one text buffer shown either rendered, line by line, or
 * raw in a textarea with a formatting toolbar, plus an export of the buffer as a
 * standalone HTML file.
 */
module Editor {
  import opened Wrappers
  import opened Strings
  import opened Markdown

  // ---------------------------------------------------------------------------
  // The toolbar's formatting command.

  /** The textarea's selection, `selectionStart` and `selectionEnd`. */
  datatype Selection = Selection(start: nat, end: nat)

  /** A selection the textarea can report on a buffer: ordered and inside it. */
  predicate InBuffer(content: string, sel: Selection) {
    sel.start <= sel.end <= |content|
  }

  /** The text put in place of the selection, and how far past the selection's start
      the caret goes when nothing was selected. */
  datatype Insertion = Insertion(text: string, cursorOffset: nat)

  /** The buffer after a formatting command and the caret position it asks for. */
  datatype Formatted = Formatted(content: string, caret: nat)

  /** The cases of the switch in `handleFormat`: the five formats the toolbar's
      buttons name, and the default case. */
  datatype FormatKind = BoldFormat | ItalicFormat | H1Format | H2Format | ListFormat | NoFormat

  /** The case a format name selects. */
  function ParseFormat(format: string): (k: FormatKind)
    ensures k == NoFormat <==> format !in ["bold", "italic", "h1", "h2", "list"]
  {
    if format == "bold" then BoldFormat
    else if format == "italic" then ItalicFormat
    else if format == "h1" then H1Format
    else if format == "h2" then H2Format
    else if format == "list" then ListFormat
    else NoFormat
  }

  /** The switch on the format: the selected text wrapped in, or prefixed with, the
      format's markers; the default case gives no text. */
  function Template(kind: FormatKind, selected: string): Insertion {
    match kind
    case BoldFormat => Insertion("**" + selected + "**", 2)
    case ItalicFormat => Insertion("_" + selected + "_", 1)
    case H1Format => Insertion("# " + selected, 2)
    case H2Format => Insertion("## " + selected, 3)
    case ListFormat => Insertion("* " + selected, 2)
    case NoFormat => Insertion("", 0)
  }

  /** For a named format the selected text sits in the insertion right after the
      opening marker, whose length is the cursor offset, and the markers around it do
      not depend on the selection; the default case inserts nothing. */
  lemma TemplateShape(kind: FormatKind, selected: string)
    ensures var ins, empty := Template(kind, selected), Template(kind, "");
      kind != NoFormat ==> (
        && 0 < ins.cursorOffset == empty.cursorOffset
        && ins.cursorOffset + |selected| <= |ins.text|
        && ins.text[ins.cursorOffset..ins.cursorOffset + |selected|] == selected
        && ins.text[..ins.cursorOffset] == empty.text[..empty.cursorOffset]
        && ins.text[ins.cursorOffset + |selected|..] == empty.text[empty.cursorOffset..])
    ensures kind == NoFormat ==> Template(kind, selected) == Insertion("", 0)
  {
  }

  /** What each button inserts around a plain selection is shown, once rendered, as the
      element the button names. */
  lemma TemplateRenders(kind: FormatKind, t: string)
    requires SingleLine(t) && t != []
    requires forall i :: 0 <= i < |t| ==> t[i] != '*' && t[i] != '_'
    ensures kind == BoldFormat ==> FormatMarkdownText(Template(kind, t).text) == StrongOpen + t + StrongClose
    ensures kind == ItalicFormat ==> FormatMarkdownText(Template(kind, t).text) == EmOpen + t + EmClose
    ensures kind == H1Format ==> FormatMarkdownText(Template(kind, t).text) == H1Open + t + H1Close
    ensures kind == H2Format ==> FormatMarkdownText(Template(kind, t).text) == H2Open + t + H2Close
    ensures kind == ListFormat ==> FormatMarkdownText(Template(kind, t).text) == BulletOpen + t + BulletClose
  {
    match kind {
      case BoldFormat => BoldSpan(t);
      case ItalicFormat => ItalicSpan(t);
      case H1Format => Heading1(t); InlinePlain(t);
      case H2Format => Heading2(t); InlinePlain(t);
      case ListFormat => BulletPlain(t);
      case NoFormat =>
    }
  }

  /** `handleFormat(format)` once the textarea is found: the selected text is replaced
      by its insertion, and the caret goes after the insertion when text was selected,
      or `cursorOffset` past the start when none was. */
  function ApplyFormat(content: string, kind: FormatKind, sel: Selection): (r: Formatted)
    ensures InBuffer(content, sel) ==> sel.start <= r.caret <= |r.content|
  {
    var selected := Substring(content, sel.start, sel.end);
    var ins := Template(kind, selected);
    var newContent := Substring(content, 0, sel.start) + ins.text + SubstringFrom(content, sel.end);
    Formatted(newContent, if selected != "" then sel.start + |ins.text| else sel.start + ins.cursorOffset)
  }

  /** On a selection inside the buffer the command changes nothing before the selection
      and nothing after it, puts the insertion for the selected text in between, and
      asks for a caret inside the new buffer: after the insertion when text was
      selected, after the opening marker when none was. */
  lemma ApplyFormatSplice(content: string, kind: FormatKind, sel: Selection)
    requires InBuffer(content, sel)
    ensures var r, ins := ApplyFormat(content, kind, sel), Template(kind, content[sel.start..sel.end]);
      && |r.content| == |content| - (sel.end - sel.start) + |ins.text|
      && r.content[..sel.start] == content[..sel.start]
      && r.content[sel.start..sel.start + |ins.text|] == ins.text
      && r.content[sel.start + |ins.text|..] == content[sel.end..]
      && sel.start <= r.caret <= sel.start + |ins.text| <= |r.content|
      && (sel.start < sel.end ==> r.content[r.caret..] == content[sel.end..])
      && (sel.start == sel.end ==> r.content[..r.caret] == content[..sel.start] + ins.text[..ins.cursorOffset])
  {
    SubstringSpec(content, sel.start, sel.end);
    SubstringSpec(content, 0, sel.start);
    var ins := Template(kind, content[sel.start..sel.end]);
    var r := ApplyFormat(content, kind, sel);
    assert r.content == content[..sel.start] + ins.text + content[sel.end..];
  }

  /** A buffer rebuilt as `p + m + q` around a middle `m` that holds `piece` at `off`:
      the piece reads back from it, and with the outer parts around it gives
      `p + piece + q` again. */
  lemma SliceOfConcat(x: string, p: string, m: string, q: string, off: nat, piece: string)
    requires x == p + m + q
    requires off + |piece| <= |m| && m[off..off + |piece|] == piece
    ensures |p| + off + |piece| <= |x|
    ensures x[|p| + off..|p| + off + |piece|] == piece
    ensures x[..|p|] + x[|p| + off..|p| + off + |piece|] + x[|x| - |q|..] == p + piece + q
  {
    assert x[..|p|] == p;
    assert x[|x| - |q|..] == q;
    assert x[|p| + off..|p| + off + |piece|] == m[off..off + |piece|];
  }

  /** The selected text can be read back between the markers, and taking the markers
      out again gives back the original buffer. */
  lemma ApplyFormatUndo(content: string, kind: FormatKind, sel: Selection)
    requires InBuffer(content, sel) && kind != NoFormat
    ensures var r, off := ApplyFormat(content, kind, sel), Template(kind, "").cursorOffset;
      var close := sel.start + off + (sel.end - sel.start);
      && close <= |r.content|
      && r.content[sel.start + off..close] == content[sel.start..sel.end]
      && r.content[..sel.start] + r.content[sel.start + off..close]
         + r.content[|r.content| - (|content| - sel.end)..] == content
  {
    var p, selected, q := content[..sel.start], content[sel.start..sel.end], content[sel.end..];
    var ins := Template(kind, selected);
    ApplyFormatSplice(content, kind, sel);
    var r := ApplyFormat(content, kind, sel);
    assert r.content == p + ins.text + q by {
      assert r.content == r.content[..sel.start] + r.content[sel.start..sel.start + |ins.text|]
        + r.content[sel.start + |ins.text|..];
    }
    TemplateShape(kind, selected);
    SliceOfConcat(r.content, p, ins.text, q, ins.cursorOffset, selected);
    ThreeSlices(content, sel.start, sel.end);
  }

  /** An unknown format deletes the selected text and leaves the caret at the start. */
  lemma ApplyFormatUnknown(content: string, sel: Selection)
    requires InBuffer(content, sel)
    ensures ApplyFormat(content, NoFormat, sel) == Formatted(content[..sel.start] + content[sel.end..], sel.start)
    ensures ApplyFormat(content, NoFormat, sel).content == content <==> sel.start == sel.end
  {
    SubstringSpec(content, sel.start, sel.end);
    SubstringSpec(content, 0, sel.start);
    assert sel.start == sel.end ==> content[..sel.start] + content[sel.end..] == content;
  }

  /** Each button grows the buffer by the length of its markers, whatever is selected:
      4 for bold, 2 for italic, 2 for heading 1, 3 for heading 2 and 2 for a list
      item; with nothing selected the caret lands after the opening marker, at 2, 1,
      2, 3 and 2 past the start. */
  lemma ApplyFormatGrowth(content: string, kind: FormatKind, sel: Selection)
    requires InBuffer(content, sel)
    ensures var r, n := ApplyFormat(content, kind, sel), |content|;
      && (kind == BoldFormat ==> |r.content| == n + 4)
      && (kind == ItalicFormat ==> |r.content| == n + 2)
      && (kind == H1Format ==> |r.content| == n + 2)
      && (kind == H2Format ==> |r.content| == n + 3)
      && (kind == ListFormat ==> |r.content| == n + 2)
    ensures var r, c := ApplyFormat(content, kind, sel), sel.start;
      sel.start == sel.end ==> (
        && (kind == BoldFormat ==> r.caret == c + 2)
        && (kind == ItalicFormat ==> r.caret == c + 1)
        && (kind == H1Format ==> r.caret == c + 2)
        && (kind == H2Format ==> r.caret == c + 3)
        && (kind == ListFormat ==> r.caret == c + 2)
        && (kind == NoFormat ==> r.caret == c))
  {
    ApplyFormatSplice(content, kind, sel);
    SubstringSpec(content, sel.start, sel.end);
  }

  /** Bold on a selected word wraps it in `**` and puts the caret after the closing
      marker; heading 1 with nothing selected inserts `# ` at the caret and puts the
      caret after it. */
  lemma ApplyFormatExamples(before: string, t: string, after: string)
    requires t != []
    ensures ApplyFormat(before + t + after, BoldFormat, Selection(|before|, |before| + |t|))
      == Formatted(before + "**" + t + "**" + after, |before| + |t| + 4)
    ensures ApplyFormat(before + after, H1Format, Selection(|before|, |before|))
      == Formatted(before + "# " + after, |before| + 2)
  {
    var c := before + t + after;
    assert ApplyFormat(c, BoldFormat, Selection(|before|, |before| + |t|))
      == Formatted(before + "**" + t + "**" + after, |before| + |t| + 4) by {
      assert c[..|before|] == before && c[|before|..|before| + |t|] == t && c[|before| + |t|..] == after;
      SubstringSpec(c, |before|, |before| + |t|);
      SubstringSpec(c, 0, |before|);
      assert before + ("**" + t + "**") + after == before + "**" + t + "**" + after;
    }
    var d := before + after;
    assert ApplyFormat(d, H1Format, Selection(|before|, |before|)) == Formatted(before + "# " + after, |before| + 2) by {
      assert d[..|before|] == before && d[|before|..] == after;
      SubstringSpec(d, |before|, |before|);
      SubstringSpec(d, 0, |before|);
    }
  }

  // ---------------------------------------------------------------------------
  // The export to a standalone HTML file.

  /** The export's own tags: plain elements, styled by the document's style sheet. */
  const ExportBold: seq<string> := ["**"]
  const ExportItalic: seq<string> := ["_"]

  lemma ExportDelimiters()
    ensures Delimiters(ExportBold) && Delimiters(ExportItalic)
  {
  }

  lemma ExportTagsSingleLine()
    ensures SingleLine("<strong>") && SingleLine("</strong>") && SingleLine("<em>") && SingleLine("</em>")
    ensures SingleLine("<h1>") && SingleLine("</h1>") && SingleLine("<h2>") && SingleLine("</h2>")
    ensures SingleLine("<li>") && SingleLine("</li>")
  {
  }

  /** `**…**` and then `_…_` spans, each a lazy single-line run. */
  function ExportInline(s: string): string {
    ReplaceDelimited(ReplaceDelimited(s, ExportBold, ExportBold, "<strong>", "</strong>"), ExportItalic, ExportItalic, "<em>", "</em>")
  }

  /** `# `, `## ` and `* ` lines, in that order. */
  function ExportBlocks(s: string): string {
    ReplaceLines(ReplaceLines(ReplaceLines(s, "# ", "<h1>", "</h1>", true), "## ", "<h2>", "</h2>", true), "* ", "<li>", "</li>", true)
  }

  /** The five replacements of the export, in order. */
  function ExportRewrite(s: string): string {
    ExportBlocks(ExportInline(s))
  }

  /** The replacements, then every line feed turned into `<br>`. */
  function ExportFormat(s: string): string {
    Join(Split(ExportRewrite(s), '\n'), "<br>")
  }

  const DocumentHead: string :=
    "\n"
    + "      <!DOCTYPE html>\n"
    + "      <html>\n"
    + "      <head>\n"
    + "        <meta charset=\"utf-8\">\n"
    + "        <title>BRD Document</title>\n"
    + "        <style>\n"
    + "          body {\n"
    + "            font-family: Arial, sans-serif;\n"
    + "            line-height: 1.6;\n"
    + "            color: #000000;\n"
    + "            max-width: 800px;\n"
    + "            margin: 0 auto;\n"
    + "            padding: 20px;\n"
    + "          }\n"
    + "          h1, h2, h3, h4, h5, h6 {\n"
    + "            color: #000000;\n"
    + "            margin-top: 20px;\n"
    + "            margin-bottom: 10px;\n"
    + "          }\n"
    + "          h1 {\n"
    + "            font-size: 24px;\n"
    + "            border-bottom: 1px solid #000000;\n"
    + "            padding-bottom: 5px;\n"
    + "          }\n"
    + "          h2 {\n"
    + "            font-size: 20px;\n"
    + "          }\n"
    + "          strong {\n"
    + "            font-weight: bold;\n"
    + "          }\n"
    + "          em {\n"
    + "            font-style: italic;\n"
    + "          }\n"
    + "          li {\n"
    + "            margin: 5px 0;\n"
    + "            list-style-type: disc;\n"
    + "            margin-left: 20px;\n"
    + "          }\n"
    + "        </style>\n"
    + "      </head>\n"
    + "      <body>\n"
    + "        <div class=\"document\">"

  const DocumentTail: string := "</div>\n      </body>\n      </html>\n    "

  /** The file the export writes: the converted buffer inside the fixed scaffold. */
  function ExportDocument(s: string): (r: string)
    ensures r == DocumentHead + Join(ExportEach(Split(s, '\n')), "<br>") + DocumentTail
  {
    ExportByLines(s);
    DocumentHead + ExportFormat(s) + DocumentTail
  }

  /** A download the page hands to the browser. */
  datatype Download = Download(fileName: string, mimeType: string, body: string)

  const ExportFileName := "BRD_Document.html"
  const ExportMimeType := "text/html"

  lemma ExportInlineSplit(x: string, c: char, y: string)
    requires IsLineTerminator(c)
    ensures ExportInline(x + [c] + y) == ExportInline(x) + [c] + ExportInline(y)
  {
    ExportDelimiters();
    var b := ReplaceDelimited(x + [c] + y, ExportBold, ExportBold, "<strong>", "</strong>");
    DelimitedSplit(x, c, y, ExportBold, ExportBold, "<strong>", "</strong>");
    DelimitedSplit(ReplaceDelimited(x, ExportBold, ExportBold, "<strong>", "</strong>"), c,
      ReplaceDelimited(y, ExportBold, ExportBold, "<strong>", "</strong>"), ExportItalic, ExportItalic, "<em>", "</em>");
  }

  lemma ExportBlocksSplit(x: string, c: char, y: string)
    requires IsLineTerminator(c)
    ensures ExportBlocks(x + [c] + y) == ExportBlocks(x) + [c] + ExportBlocks(y)
  {
    LinesSplit(x, c, y, "# ", "<h1>", "</h1>", true);
    var x1, y1 := ReplaceLines(x, "# ", "<h1>", "</h1>", true), ReplaceLines(y, "# ", "<h1>", "</h1>", true);
    LinesSplit(x1, c, y1, "## ", "<h2>", "</h2>", true);
    var x2, y2 := ReplaceLines(x1, "## ", "<h2>", "</h2>", true), ReplaceLines(y1, "## ", "<h2>", "</h2>", true);
    LinesSplit(x2, c, y2, "* ", "<li>", "</li>", true);
  }

  /** The export's replacements work line by line. */
  lemma ExportSplit(x: string, c: char, y: string)
    requires IsLineTerminator(c)
    ensures ExportRewrite(x + [c] + y) == ExportRewrite(x) + [c] + ExportRewrite(y)
  {
    ExportInlineSplit(x, c, y);
    ExportBlocksSplit(ExportInline(x), c, ExportInline(y));
  }

  /** The export's replacements add no line feed. */
  lemma ExportNoLineFeed(s: string)
    requires '\n' !in s
    ensures '\n' !in ExportRewrite(s)
  {
    ExportTagsSingleLine();
    SingleLineNoLineFeed("<strong>");
    SingleLineNoLineFeed("</strong>");
    SingleLineNoLineFeed("<em>");
    SingleLineNoLineFeed("</em>");
    SingleLineNoLineFeed("<h1>");
    SingleLineNoLineFeed("</h1>");
    SingleLineNoLineFeed("<h2>");
    SingleLineNoLineFeed("</h2>");
    SingleLineNoLineFeed("<li>");
    SingleLineNoLineFeed("</li>");
    var b := ReplaceDelimited(s, ExportBold, ExportBold, "<strong>", "</strong>");
    DelimitedAbsent(s, '\n', ExportBold, ExportBold, "<strong>", "</strong>");
    DelimitedAbsent(b, '\n', ExportItalic, ExportItalic, "<em>", "</em>");
    var i := ExportInline(s);
    LinesAbsent(i, '\n', "# ", "<h1>", "</h1>", true);
    var h1 := ReplaceLines(i, "# ", "<h1>", "</h1>", true);
    LinesAbsent(h1, '\n', "## ", "<h2>", "</h2>", true);
    LinesAbsent(ReplaceLines(h1, "## ", "<h2>", "</h2>", true), '\n', "* ", "<li>", "</li>", true);
  }

  /** The export's replacements applied to each line of a list. */
  function ExportEach(lines: seq<string>): (r: seq<string>)
    ensures |r| == |lines|
  {
    if lines == [] then [] else [ExportRewrite(lines[0])] + ExportEach(lines[1..])
  }

  lemma {:induction false} ExportRewriteLines(lines: seq<string>)
    ensures ExportRewrite(Join(lines, "\n")) == Join(ExportEach(lines), "\n")
    decreases |lines|
  {
    if |lines| >= 2 {
      var rest := Join(lines[1..], "\n");
      assert Join(lines, "\n") == lines[0] + ['\n'] + rest;
      ExportSplit(lines[0], '\n', rest);
      ExportRewriteLines(lines[1..]);
      var r := ExportEach(lines);
      assert r[1..] == ExportEach(lines[1..]);
      assert Join(r, "\n") == r[0] + "\n" + Join(r[1..], "\n");
    }
  }

  /** Every line of the buffer is converted on its own, and the converted lines are
      joined by `<br>`: the result is one line. */
  lemma {:induction false} ExportByLines(s: string)
    ensures ExportFormat(s) == Join(ExportEach(Split(s, '\n')), "<br>")
    ensures '\n' !in ExportFormat(s)
  {
    var lines := Split(s, '\n');
    JoinSplit(s, '\n');
    ExportRewriteLines(lines);
    var r := ExportEach(lines);
    forall k | 0 <= k < |r| ensures '\n' !in r[k] {
      ExportEachAt(lines, k);
      ExportNoLineFeed(lines[k]);
    }
    SplitJoin(r, '\n');
    JoinAbsent(r, "<br>", '\n');
  }

  lemma {:induction false} ExportEachAt(lines: seq<string>, k: nat)
    requires k < |lines|
    ensures ExportEach(lines)[k] == ExportRewrite(lines[k])
    decreases k
  {
    if k > 0 {
      ExportEachAt(lines[1..], k - 1);
    }
  }

  /** `# text` is exported as a level-1 heading around the text's spans. */
  lemma ExportHeading1(t: string)
    requires SingleLine(t) && t != []
    ensures ExportRewrite("# " + t) == "<h1>" + ExportInline(t) + "</h1>"
  {
    ExportDelimiters();
    ExportTagsSingleLine();
    var b := ReplaceDelimited(t, ExportBold, ExportBold, "<strong>", "</strong>");
    DelimitedPrefix("# ", t, ExportBold, ExportBold, "<strong>", "</strong>");
    DelimitedPrefix("# ", b, ExportItalic, ExportItalic, "<em>", "</em>");
    var u := ExportInline(t);
    DelimitedSingleLine(t, ExportBold, ExportBold, "<strong>", "</strong>");
    DelimitedSingleLine(b, ExportItalic, ExportItalic, "<em>", "</em>");
    ReplaceDelimitedGrows(t, ExportBold, ExportBold, "<strong>", "</strong>");
    ReplaceDelimitedGrows(b, ExportItalic, ExportItalic, "<em>", "</em>");
    LinesWholeLine("# ", u, "<h1>", "</h1>");
    var v := "<h1>" + u + "</h1>";
    ConcatSingleLine("<h1>", u, "</h1>");
    TagLineUnchanged(v, "## ", "<h2>", "</h2>");
    TagLineUnchanged(v, "* ", "<li>", "</li>");
  }

  /** `* text`, when the text holds no `*` or `_`, is exported as a list item. */
  lemma ExportListItem(t: string)
    requires SingleLine(t) && t != []
    requires forall i :: 0 <= i < |t| ==> t[i] != '*' && t[i] != '_'
    ensures ExportRewrite("* " + t) == "<li>" + t + "</li>"
  {
    ExportDelimiters();
    var line := "* " + t;
    assert forall i :: 1 <= i < |line| ==> line[i] != '*' && line[i] != '_';
    DelimitedUnclosed(line, ExportBold, ExportBold, "<strong>", "</strong>");
    assert line + [] == line;
    DelimitedPrefix(line, [], ExportItalic, ExportItalic, "<em>", "</em>");
    ConcatSingleLine("* ", t, "");
    assert "* " + t + "" == line;
    LinesIdentity(line, "# ", "<h1>", "</h1>", true);
    LinesIdentity(line, "## ", "<h2>", "</h2>", true);
    LinesWholeLine("* ", t, "<li>", "</li>");
  }

  /** Two lines export as their conversions with a `<br>` between them. */
  lemma ExportTwoLines(x: string, y: string)
    requires '\n' !in x && '\n' !in y
    ensures ExportFormat(x + "\n" + y) == ExportRewrite(x) + "<br>" + ExportRewrite(y)
  {
    ExportSplit(x, '\n', y);
    var h, l := ExportRewrite(x), ExportRewrite(y);
    ExportNoLineFeed(x);
    ExportNoLineFeed(y);
    SplitAtFirst(h, '\n', l);
    SplitNoSeparator(l, '\n');
    assert Join([h, l], "<br>") == h + "<br>" + l;
  }

  /** `# text`, when the text holds no `*` or `_`, is exported as a bare heading. */
  lemma ExportPlainHeading(t: string)
    requires SingleLine(t) && t != []
    requires forall k :: 0 <= k < |t| ==> t[k] != '*' && t[k] != '_'
    ensures ExportRewrite("# " + t) == "<h1>" + t + "</h1>"
  {
    ExportDelimiters();
    ExportHeading1(t);
    assert t + [] == t;
    DelimitedPrefix(t, [], ExportBold, ExportBold, "<strong>", "</strong>");
    DelimitedPrefix(t, [], ExportItalic, ExportItalic, "<em>", "</em>");
  }

  /** A title line and a list item, neither holding `*` or `_`, export as a heading, a
      break and a list item (`# Title` and `* item` give
      `<h1>Title</h1><br><li>item</li>`). */
  lemma ExportHeadingAndItem(t: string, item: string)
    requires SingleLine(t) && t != [] && SingleLine(item) && item != []
    requires forall k :: 0 <= k < |t| ==> t[k] != '*' && t[k] != '_'
    requires forall k :: 0 <= k < |item| ==> item[k] != '*' && item[k] != '_'
    ensures ExportFormat("# " + t + "\n" + "* " + item) == "<h1>" + t + "</h1>" + "<br>" + "<li>" + item + "</li>"
  {
    ExportPlainHeading(t);
    ExportListItem(item);
    SingleLineNoLineFeed(t);
    SingleLineNoLineFeed(item);
    ExportTwoLines("# " + t, "* " + item);
    assert "# " + t + "\n" + "* " + item == ("# " + t) + "\n" + ("* " + item);
    assert ("<h1>" + t + "</h1>") + "<br>" + ("<li>" + item + "</li>")
      == "<h1>" + t + "</h1>" + "<br>" + "<li>" + item + "</li>";
  }

  /** A line whose spans make it start with a tag is left alone by the line
      replacements and holds no line break: it is exported as its spans give it. */
  lemma ExportTagLine(s: string)
    requires var v := ExportInline(s); SingleLine(v) && v != [] && v[0] == '<'
    ensures ExportFormat(s) == ExportInline(s)
  {
    var v := ExportInline(s);
    TagLineUnchanged(v, "# ", "<h1>", "</h1>");
    TagLineUnchanged(v, "## ", "<h2>", "</h2>");
    TagLineUnchanged(v, "* ", "<li>", "</li>");
    SingleLineNoLineFeed(v);
    SplitNoSeparator(v, '\n');
  }

  /** The export's bold pass leaves text without `*` alone. */
  lemma ExportBoldPlain(s: string)
    requires '*' !in s
    ensures ReplaceDelimited(s, ExportBold, ExportBold, "<strong>", "</strong>") == s
  {
    ExportDelimiters();
    assert forall k :: 0 <= k < |s| ==> s[k] != '*';
    assert s + [] == s;
    DelimitedPrefix(s, [], ExportBold, ExportBold, "<strong>", "</strong>");
  }

  /** The export's inline passes leave a line holding no `*` or `_` alone. */
  lemma ExportInlinePlain(s: string)
    requires forall k :: 0 <= k < |s| ==> s[k] != '*' && s[k] != '_'
    ensures ExportInline(s) == s
  {
    ExportDelimiters();
    assert s + [] == s;
    DelimitedPrefix(s, [], ExportBold, ExportBold, "<strong>", "</strong>");
    DelimitedPrefix(s, [], ExportItalic, ExportItalic, "<em>", "</em>");
  }

  /** `## text`, when the text holds no `*` or `_`, is exported as a level-2 heading:
      the `# ` replacement does not take it, since its second character is `#`. */
  lemma ExportHeading2(t: string)
    requires SingleLine(t) && t != []
    requires forall k :: 0 <= k < |t| ==> t[k] != '*' && t[k] != '_'
    ensures ExportRewrite("## " + t) == "<h2>" + t + "</h2>"
  {
    var line := "## " + t;
    ExportInlinePlain(line);
    ExportTagsSingleLine();
    ConcatSingleLine("## ", t, "");
    assert "## " + t + "" == line;
    LinesIdentity(line, "# ", "<h1>", "</h1>", true);
    LinesWholeLine("## ", t, "<h2>", "</h2>");
    ConcatSingleLine("<h2>", t, "</h2>");
    TagLineUnchanged("<h2>" + t + "</h2>", "* ", "<li>", "</li>");
  }

  /** `### text`, which the view shows as a level-3 heading, is left as it is by the
      export: no replacement of the export handles a third level. */
  lemma ExportHeading3Kept(t: string)
    requires SingleLine(t)
    requires forall k :: 0 <= k < |t| ==> t[k] != '*' && t[k] != '_'
    ensures ExportRewrite("### " + t) == "### " + t
  {
    var line := "### " + t;
    ExportInlinePlain(line);
    ConcatSingleLine("### ", t, "");
    assert "### " + t + "" == line;
    assert line[1] == '#' && line[2] == '#';
    LinesIdentity(line, "# ", "<h1>", "</h1>", true);
    LinesIdentity(line, "## ", "<h2>", "</h2>", true);
    LinesIdentity(line, "* ", "<li>", "</li>", true);
  }

  /** `*text*`, which the view shows in bold, is left as it is by the export: the
      export's bold pass opens only at `**`. */
  lemma ExportSingleStarsKept(t: string)
    requires SingleLine(t) && t != [] && t[0] != ' '
    requires forall k :: 0 <= k < |t| ==> t[k] != '*' && t[k] != '_'
    ensures ExportRewrite("*" + t + "*") == "*" + t + "*"
  {
    ExportDelimiters();
    var s := "*" + t + "*";
    assert forall i :: 1 <= i < |s| - 1 ==> s[i] == t[i - 1];
    forall i, k | 0 <= i <= |s| && 0 <= k < |ExportBold|
      ensures !(ExportBold[k] <= s[i..])
    {
      if i == 0 {
        assert s[1] == t[0];
      } else if i < |s| - 1 {
        assert s[i] == t[i - 1];
      }
    }
    DelimitedIdentity(s, ExportBold, ExportBold, "<strong>", "</strong>");
    assert s + [] == s;
    DelimitedPrefix(s, [], ExportItalic, ExportItalic, "<em>", "</em>");
    ConcatSingleLine("*", t, "*");
    assert s[1] == t[0];
    LinesIdentity(s, "# ", "<h1>", "</h1>", true);
    LinesIdentity(s, "## ", "<h2>", "</h2>", true);
    LinesIdentity(s, "* ", "<li>", "</li>", true);
  }

  /** The export's italic pass on `__text__`: the run opens after the first
      underscore and closes at the third. */
  lemma ExportItalicDoubleUnderscore(x: string)
    requires SingleLine(x) && x != []
    requires forall k :: 0 <= k < |x| ==> x[k] != '_'
    ensures ReplaceDelimited("_" + ("_" + x) + "_" + "_", ExportItalic, ExportItalic, "<em>", "</em>")
      == "<em>" + ("_" + x) + "</em>" + "_"
  {
    var t := "_" + x;
    assert t[1..] == x;
    ExportDelimiters();
    SingleLineConcat("_", x);
    DelimitedLead("_", t, "_", "_", ExportItalic, ExportItalic, "<em>", "</em>", 0, 0);
    DelimitedUnclosed("_", ExportItalic, ExportItalic, "<em>", "</em>");
  }

  /** The inline passes take `__text__` as one italic run holding the second
      underscore, followed by a stray underscore. */
  lemma ExportInlineDoubleUnderscore(x: string)
    requires SingleLine(x) && x != []
    requires forall k :: 0 <= k < |x| ==> x[k] != '*' && x[k] != '_'
    ensures ExportInline("__" + x + "__") == "<em>_" + x + "</em>_"
  {
    var s := "__" + x + "__";
    assert s == "_" + ("_" + x) + "_" + "_";
    assert '*' !in x;
    ExportBoldPlain(s);
    ExportItalicDoubleUnderscore(x);
    assert "<em>" + ("_" + x) + "</em>" + "_" == "<em>_" + x + "</em>_";
  }

  /** `__text__`, which the view shows in bold, is exported as an italic run that takes
      in the second underscore, followed by a stray underscore: the export's bold
      covers `**` only. */
  lemma ExportDoubleUnderscore(x: string)
    requires SingleLine(x) && x != []
    requires forall k :: 0 <= k < |x| ==> x[k] != '*' && x[k] != '_'
    ensures ExportFormat("__" + x + "__") == "<em>_" + x + "</em>_"
  {
    ExportInlineDoubleUnderscore(x);
    assert SingleLine("<em>_") && SingleLine("</em>_");
    ConcatSingleLine("<em>_", x, "</em>_");
    ExportTagLine("__" + x + "__");
  }

  // ---------------------------------------------------------------------------
  // The rendered view.

  /** One line of the view: its formatted text, or a non-breaking space when that is
      empty. */
  function RenderLine(line: string): string {
    var f := FormatMarkdownText(line);
    if f == "" then Placeholder else f
  }

  /** The view: the buffer cut at its line feeds, each line rendered on its own. */
  function RenderView(content: string): (v: seq<string>)
    ensures |v| == Count(content, '\n') + 1
    ensures forall i :: 0 <= i < |v| ==> v[i] != []
  {
    var lines := Split(content, '\n');
    seq(|lines|, i requires 0 <= i < |lines| => RenderLine(lines[i]))
  }

  /** An empty line shows a non-breaking space; any other line shows its formatted
      text, which is never empty. */
  lemma RenderLineSpec(line: string)
    ensures line == "" ==> RenderLine(line) == Placeholder
    ensures line != "" ==> RenderLine(line) == Rewrite(line) && RenderLine(line) != ""
  {
  }

  /** The view has one entry per line of the buffer, and rendering it line by line is
      formatting the whole buffer and cutting the result at its line feeds, with a
      placeholder where a line is empty. */
  lemma RenderViewSpec(content: string)
    ensures var v, lines := RenderView(content), Split(content, '\n');
      && |v| == Count(content, '\n') + 1
      && (forall i :: 0 <= i < |v| ==> v[i] != "")
      && |Split(Rewrite(content), '\n')| == |v|
      && (forall i :: 0 <= i < |v| ==>
        v[i] == (if lines[i] == "" then Placeholder else Split(Rewrite(content), '\n')[i]))
  {
    RewriteByLines(content);
  }

  // ---------------------------------------------------------------------------
  // The component's state and its event handlers.

  /** The editor: the buffer, seeded once from the initial content, and whether the
      raw textarea (rather than the rendered view) is shown. */
  class BrdEditor {
    var content: string
    var editMode: bool

    /** Mounting: the buffer takes the initial content, and the view is shown. */
    constructor(initialContent: string)
      ensures content == initialContent && !editMode
    {
      content := initialContent;
      editMode := false;
    }

    /** A toolbar button. `textarea` is the selection of the element with id
        `brd-editor`, absent when no such element exists; the result is the caret
        position the command asks for once the buffer is updated. */
    method HandleFormat(format: string, textarea: Option<Selection>) returns (caret: Option<nat>)
      modifies this
      ensures textarea.None? ==> content == old(content) && caret.None?
      ensures textarea.Some? ==>
        var r := ApplyFormat(old(content), ParseFormat(format), textarea.value);
        content == r.content && caret == Some(r.caret)
      ensures editMode == old(editMode)
    {
      if textarea.None? {
        return None;
      }
      var r := ApplyFormat(content, ParseFormat(format), textarea.value);
      content := r.content;
      caret := Some(r.caret);
    }

    /** Save: the buffer goes to the page's `onSave` (the result) and the view is shown. */
    method HandleSave() returns (saved: string)
      modifies this
      ensures saved == old(content) && content == old(content) && !editMode
    {
      saved := content;
      editMode := false;
    }

    /** Cancel: the view is shown again, and the buffer keeps the unsaved edits. */
    method Cancel()
      modifies this
      ensures content == old(content) && !editMode
    {
      editMode := false;
    }

    /** Edit Document: the textarea is shown on the current buffer. */
    method StartEditing()
      modifies this
      ensures content == old(content) && editMode
    {
      editMode := true;
    }

    /** Typing in the textarea: the buffer becomes the textarea's value. */
    method Change(value: string)
      modifies this
      ensures content == value && editMode == old(editMode)
    {
      content := value;
    }

    /** Download: the buffer converted and wrapped in the document scaffold, offered
        as `BRD_Document.html`; the editor does not change. */
    method ExportToPdf() returns (file: Download)
      ensures file.fileName == ExportFileName && file.mimeType == ExportMimeType
      ensures file.body == DocumentHead + Join(ExportEach(Split(content, '\n')), "<br>") + DocumentTail
      ensures '\n' !in file.body[|DocumentHead|..|file.body| - |DocumentTail|]
    {
      ExportByLines(content);
      file := Download(ExportFileName, ExportMimeType, ExportDocument(content));
      assert file.body[|DocumentHead|..|file.body| - |DocumentTail|] == ExportFormat(content);
    }

    /** What the view shows: one entry per line of the buffer. */
    function View(): (v: seq<string>)
      reads this
      ensures |v| == Count(content, '\n') + 1
      ensures forall i :: 0 <= i < |v| ==> v[i] != ""
    {
      RenderViewSpec(content);
      RenderView(content)
    }
  }
}
