/** The summary renderer of components/SummaryDisplay.tsx: it turns the
    text the language model returns into a sequence of display blocks —
    level-3 headings, paragraphs and bullet lists — with `**` bold spans
    resolved inside bullet items and paragraphs. React keys, CSS classes
    and the HTML the blocks become are not part of this model. */
module SummaryDisplay {
  import opened Wrappers
  import opened JsString

  /** An inline fragment: a `<span>` (or bare paragraph text) or a `<strong>`. */
  datatype Inline = Plain(text: string) | Bold(text: string)

  /** One `<li>`: the fragments of one bullet line. */
  type Item = seq<Inline>

  /** One element pushed onto `elements`: an `<h3>`, a `<p>` or a `<ul>`. */
  datatype Block =
    | Heading(text: string)
    | Paragraph(spans: seq<Inline>)
    | List(items: seq<Item>)

  /** The text of the fragments, without any markup. */
  function TextOf(spans: seq<Inline>): string
    decreases |spans|
  {
    if spans == [] then "" else spans[0].text + TextOf(spans[1..])
  }

  /** The texts of the fragments, one per fragment. */
  function Texts(spans: seq<Inline>): seq<string> {
    seq(|spans|, i requires 0 <= i < |spans| => spans[i].text)
  }

  lemma {:induction false} TextOfConcat(spans: seq<Inline>)
    ensures TextOf(spans) == Concat(Texts(spans))
    decreases |spans|
  {
    if spans != [] {
      TextOfConcat(spans[1..]);
      assert Texts(spans)[1..] == Texts(spans[1..]);
    }
  }

  // ---------------------------------------------------------------------
  // Bullet items: `content.split('**')`, odd-indexed parts bold.
  // ---------------------------------------------------------------------

  /** The fragments of the parts: the part at an odd index is bold, the
      others are plain (`i % 2 === 1`). */
  function Alternate(parts: seq<string>): (item: Item)
    ensures |item| == |parts| && Texts(item) == parts
    ensures forall i :: 0 <= i < |item| ==> (item[i].Bold? <==> i % 2 == 1)
  {
    seq(|parts|, i requires 0 <= i < |parts| => if i % 2 == 1 then Bold(parts[i]) else Plain(parts[i]))
  }

  /** The item a bullet line's content (the text after `* `) becomes. */
  function BulletItem(content: string): Item {
    Alternate(Split(content, "**"))
  }

  /** A bullet item has one fragment more than the content has `**`
      delimiters; the fragments alternate plain, bold, plain, …; no
      fragment holds `**`; and the fragments' text is the content with
      every `**` removed (nothing else is lost). Empty fragments are kept,
      as the source maps every part of the split. */
  lemma BulletItemShape(content: string)
    ensures |BulletItem(content)| == CountOccurrences(content, "**") + 1
    ensures forall i :: 0 <= i < |BulletItem(content)| ==>
      (BulletItem(content)[i].Bold? <==> i % 2 == 1)
    ensures forall i :: 0 <= i < |BulletItem(content)| ==>
      IndexOf(BulletItem(content)[i].text, "**").None?
    ensures TextOf(BulletItem(content)) == RemoveAll(content, "**")
  {
    var parts := Split(content, "**");
    SplitPieces(content, "**");
    SplitJoinRoundTrip(content, "**");
    TextOfConcat(BulletItem(content));
  }

  // ---------------------------------------------------------------------
  // Paragraphs: `line.replace(/\*\*(.*?)\*\*/g, '<strong>$1</strong>')`.
  // ---------------------------------------------------------------------

  /** `s` holds the delimiter `**` at index `k`: the same fact as
      `OccursAt(s, "**", k)`, written out character by character so the
      scan below can test it one index at a time. */
  predicate PairAt(s: string, k: int) {
    0 <= k && k + 2 <= |s| && s[k] == '*' && s[k + 1] == '*'
  }

  /** `PairAt` and `OccursAt` with the pattern `**` agree everywhere. */
  lemma PairAtIsOccursAt(s: string, k: int)
    ensures PairAt(s, k) <==> OccursAt(s, "**", k)
  {
    if 0 <= k && k + 2 <= |s| {
      assert s[k..k + 2] == [s[k], s[k + 1]];
    }
  }

  /** The lazy `(.*?)\*\*` part of the pattern, tried from index `j`: the
      first `**` at or after `j`, provided no line terminator (which `.`
      does not match) comes before it. */
  function CloseFrom(s: string, j: nat): (r: Option<nat>)
    ensures r.Some? ==> j <= r.value && PairAt(s, r.value)
    ensures r.Some? ==> forall m :: j <= m < r.value ==> !PairAt(s, m) && !IsLineTerminator(s[m])
    ensures r.None? ==> forall m :: j <= m && PairAt(s, m) ==>
      exists t :: j <= t < m && IsLineTerminator(s[t])
    decreases |s| - j
  {
    if j + 2 > |s| then None
    else if PairAt(s, j) then Some(j)
    else if IsLineTerminator(s[j]) then None
    else CloseFrom(s, j + 1)
  }

  /** A plain fragment for `t`, or none when `t` is empty. */
  function PlainRun(t: string): seq<Inline> {
    if t == [] then [] else [Plain(t)]
  }

  /** The match the pattern finds when tried at index `i`: the index of
      its closing `**`, or none. */
  function MatchAt(s: string, i: nat): (r: Option<nat>)
    ensures r.Some? ==> PairAt(s, i) && CloseFrom(s, i + 2) == r
    ensures r.Some? ==> i + 2 <= r.value && r.value + 2 <= |s|
  {
    if PairAt(s, i) then CloseFrom(s, i + 2) else None
  }

  /** The global replacement, scanning from index `i`; `s[start..i]` is
      the plain text passed over since the last match. At each index a
      match is tried (`**`, then the lazy inner part, then `**`); on a
      match the scan resumes after it, otherwise one index further on. */
  function ScanBold(s: string, i: nat, start: nat): seq<Inline>
    requires start <= i <= |s|
    decreases |s| - i
  {
    if i == |s| then PlainRun(s[start..])
    else
      match MatchAt(s, i)
      case Some(k) => PlainRun(s[start..i]) + [Bold(s[i + 2..k])] + ScanBold(s, k + 2, k + 2)
      case None => ScanBold(s, i + 1, start)
  }

  /** The fragments of a paragraph line. */
  function ParseBold(line: string): seq<Inline> {
    ScanBold(line, 0, 0)
  }

  /** The markdown one fragment stands for: bold text between `**`. */
  function SpanMarkup(span: Inline): string {
    match span
    case Plain(t) => t
    case Bold(t) => "**" + t + "**"
  }

  /** The markdown a fragment sequence stands for. */
  function Markup(spans: seq<Inline>): string
    decreases |spans|
  {
    if spans == [] then "" else SpanMarkup(spans[0]) + Markup(spans[1..])
  }

  lemma {:induction false} MarkupAppend(a: seq<Inline>, b: seq<Inline>)
    ensures Markup(a + b) == Markup(a) + Markup(b)
    decreases |a|
  {
    if a == [] {
      assert a + b == b;
    } else {
      calc {
        Markup(a + b);
        SpanMarkup(a[0]) + Markup((a + b)[1..]);
        { assert (a + b)[1..] == a[1..] + b; }
        SpanMarkup(a[0]) + Markup(a[1..] + b);
        { MarkupAppend(a[1..], b); }
        SpanMarkup(a[0]) + (Markup(a[1..]) + Markup(b));
      }
    }
  }

  lemma MarkupPlainRun(t: string)
    ensures Markup(PlainRun(t)) == t
  {
    if t != [] {
      assert Markup([Plain(t)]) == t + Markup([]);
    }
  }

  lemma MarkupBold(x: string)
    ensures Markup([Bold(x)]) == "**" + x + "**"
  {
    assert Markup([Bold(x)]) == SpanMarkup(Bold(x)) + Markup([]);
  }

  /** A scan step at a match emits the plain text before it, then the
      bold span, then goes on after the closing `**`. */
  lemma ScanBoldMatch(s: string, i: nat, start: nat, k: nat)
    requires start <= i < |s| && MatchAt(s, i) == Some(k)
    ensures ScanBold(s, i, start) == PlainRun(s[start..i]) + [Bold(s[i + 2..k])] + ScanBold(s, k + 2, k + 2)
  {
  }

  lemma MarkupThree(before: seq<Inline>, x: string, after: seq<Inline>)
    ensures Markup(before + [Bold(x)] + after) == Markup(before) + ("**" + x + "**") + Markup(after)
  {
    MarkupAppend(before + [Bold(x)], after);
    MarkupAppend(before, [Bold(x)]);
    MarkupBold(x);
  }

  lemma MarkupStep(before: string, x: string, rest: seq<Inline>, tail: string)
    requires Markup(rest) == tail
    ensures Markup(PlainRun(before) + [Bold(x)] + rest) == before + "**" + x + "**" + tail
  {
    MarkupThree(PlainRun(before), x, rest);
    MarkupPlainRun(before);
    assert before + ("**" + x + "**") == before + "**" + x + "**";
  }

  /** One match step of the scan: the plain text before the match, the
      bold span and the markup of the rest give back the text. */
  lemma MatchMarkup(s: string, i: nat, start: nat, k: nat)
    requires start <= i < |s| && MatchAt(s, i) == Some(k)
    requires Markup(ScanBold(s, k + 2, k + 2)) == s[k + 2..]
    ensures Markup(ScanBold(s, i, start)) == s[start..]
  {
    var rest := ScanBold(s, k + 2, k + 2);
    ScanBoldMatch(s, i, start, k);
    MarkupStep(s[start..i], s[i + 2..k], rest, s[k + 2..]);
    SliceAt(s, start, i, k);
  }

  lemma {:induction false} ScanBoldMarkup(s: string, i: nat, start: nat)
    requires start <= i <= |s|
    ensures Markup(ScanBold(s, i, start)) == s[start..]
    decreases |s| - i
  {
    if i == |s| {
      assert ScanBold(s, i, start) == PlainRun(s[start..]);
      MarkupPlainRun(s[start..]);
    } else {
      match MatchAt(s, i)
      case Some(k) =>
        ScanBoldMarkup(s, k + 2, k + 2);
        MatchMarkup(s, i, start, k);
      case None =>
        assert ScanBold(s, i, start) == ScanBold(s, i + 1, start);
        ScanBoldMarkup(s, i + 1, start);
    }
  }

  lemma SliceAt(s: string, start: nat, i: nat, k: nat)
    requires start <= i && PairAt(s, i) && i + 2 <= k && PairAt(s, k)
    ensures s[start..] == s[start..i] + "**" + s[i + 2..k] + "**" + s[k + 2..]
  {
    assert s[i..i + 2] == "**";
    assert s[k..k + 2] == "**";
    assert s[start..] == s[start..i] + s[i..i + 2] + s[i + 2..k] + s[k..k + 2] + s[k + 2..];
  }

  /** Nothing of a paragraph line is lost: writing the fragments back as
      markdown gives the line. */
  lemma ParseBoldRoundTrip(line: string)
    ensures Markup(ParseBold(line)) == line
  {
    ScanBoldMarkup(line, 0, 0);
  }

  /** The inner text of a bold span is the shortest the lazy `.*?` can
      take: it holds no `**`, no line terminator, and does not end with
      `*` (else the `**` would have closed one index earlier). */
  predicate ShortestInner(x: string) {
    && (forall m :: 0 <= m < |x| ==> !PairAt(x, m))
    && (forall m :: 0 <= m < |x| ==> !IsLineTerminator(x[m]))
    && (x == [] || x[|x| - 1] != '*')
  }

  /** Plain fragments are never empty, no two plain fragments are
      adjacent, and bold fragments hold the shortest inner text. */
  predicate WellFormedSpans(spans: seq<Inline>) {
    && (forall i :: 0 <= i < |spans| && spans[i].Plain? ==> spans[i].text != [])
    && (forall i :: 0 <= i < |spans| && spans[i].Bold? ==> ShortestInner(spans[i].text))
    && (forall i :: 0 <= i < |spans| - 1 ==> !(spans[i].Plain? && spans[i + 1].Plain?))
  }

  lemma InnerIsShortest(s: string, i: nat, k: nat)
    requires MatchAt(s, i) == Some(k)
    ensures ShortestInner(s[i + 2..k])
  {
    var x := s[i + 2..k];
    forall m | 0 <= m < |x| ensures !PairAt(x, m) {
      if m + 2 <= |x| {
        assert x[m] == s[i + 2 + m] && x[m + 1] == s[i + 3 + m];
      }
      assert !PairAt(s, i + 2 + m);
    }
    if x != [] {
      assert x[|x| - 1] == s[k - 1];
      assert !PairAt(s, k - 1);
    }
  }

  lemma BoldStepWellFormed(p: string, x: string, rest: seq<Inline>)
    requires ShortestInner(x) && WellFormedSpans(rest)
    ensures WellFormedSpans(PlainRun(p) + [Bold(x)] + rest)
  {
    var spans := PlainRun(p) + [Bold(x)] + rest;
    var n := |PlainRun(p)|;
    assert spans[n] == Bold(x);
    forall i | n < i < |spans| ensures spans[i] == rest[i - n - 1] {
    }
  }

  lemma {:induction false} ScanBoldWellFormed(s: string, i: nat, start: nat)
    requires start <= i <= |s|
    ensures WellFormedSpans(ScanBold(s, i, start))
    decreases |s| - i
  {
    if i == |s| {
      assert ScanBold(s, i, start) == PlainRun(s[start..]);
    } else {
      match MatchAt(s, i)
      case Some(k) =>
        var rest := ScanBold(s, k + 2, k + 2);
        assert ScanBold(s, i, start) == PlainRun(s[start..i]) + [Bold(s[i + 2..k])] + rest;
        InnerIsShortest(s, i, k);
        ScanBoldWellFormed(s, k + 2, k + 2);
        BoldStepWellFormed(s[start..i], s[i + 2..k], rest);
      case None =>
        assert ScanBold(s, i, start) == ScanBold(s, i + 1, start);
        ScanBoldWellFormed(s, i + 1, start);
    }
  }

  /** The fragments of a paragraph line are well formed: no empty or
      adjacent plain fragments, and every bold fragment is the shortest
      text between two `**`. */
  lemma ParseBoldWellFormed(line: string)
    ensures WellFormedSpans(ParseBold(line))
  {
    ScanBoldWellFormed(line, 0, 0);
  }

  /** Where no `**` has a closing `**` after it on the line (only an
      unmatched `**`, or none), the scan passes over everything. */
  lemma {:induction false} ScanBoldUnmatched(s: string, i: nat, start: nat)
    requires start <= i <= |s|
    requires forall k :: i <= k ==> MatchAt(s, k).None?
    ensures ScanBold(s, i, start) == PlainRun(s[start..])
    decreases |s| - i
  {
    if i < |s| {
      ScanBoldUnmatched(s, i + 1, start);
    }
  }

  /** An unmatched `**` stays literal text: a paragraph line in which no
      `**` is followed by a closing `**` is one plain fragment. */
  lemma ParseBoldUnmatched(line: string)
    requires line != []
    requires forall k :: 0 <= k ==> MatchAt(line, k).None?
    ensures ParseBold(line) == [Plain(line)]
  {
    ScanBoldUnmatched(line, 0, 0);
    assert line[0..] == line;
  }

  /** The scan passes over indexes where no match starts, carrying the
      plain text along. */
  lemma {:induction false} ScanBoldSkip(s: string, start: nat, j: nat, i: nat)
    requires start <= j <= i <= |s|
    requires forall m :: j <= m < i ==> MatchAt(s, m).None?
    ensures ScanBold(s, j, start) == ScanBold(s, i, start)
    decreases i - j
  {
    if j < i {
      assert MatchAt(s, j).None?;
      ScanBoldSkip(s, start, j + 1, i);
    }
  }

  /** The first match at or after `j`, at `i` with its closing `**` at
      `k`, becomes a bold fragment: the text from `j` up to it stays
      plain, and the search resumes right after the closing `**` (the
      global regular expression's `lastIndex`). With `ScanBoldUnmatched`
      this fixes the fragments of every line: each scan from `j` either
      meets a first match or meets none. */
  lemma ScanBoldFirstMatch(s: string, j: nat, i: nat, k: nat)
    requires j <= i && MatchAt(s, i) == Some(k)
    requires forall m :: j <= m < i ==> MatchAt(s, m).None?
    ensures ScanBold(s, j, j) == PlainRun(s[j..i]) + [Bold(s[i + 2..k])] + ScanBold(s, k + 2, k + 2)
  {
    ScanBoldSkip(s, j, j, i);
    ScanBoldMatch(s, i, j, k);
  }

  /** The first match of a paragraph line becomes bold, the text before
      it plain, and the rest of the line after the closing `**` is
      scanned afresh. */
  lemma ParseBoldFirstMatch(line: string, i: nat, k: nat)
    requires MatchAt(line, i) == Some(k)
    requires forall m :: 0 <= m < i ==> MatchAt(line, m).None?
    ensures ParseBold(line) == PlainRun(line[..i]) + [Bold(line[i + 2..k])] + ScanBold(line, k + 2, k + 2)
  {
    ScanBoldFirstMatch(line, 0, i, k);
    assert line[0..i] == line[..i];
  }

  /** A `**` after the last match that has no closing `**` stays literal
      text: in `a **b** c **d` only the first pair is bold. */
  lemma ParseBoldTrailingUnmatched()
    ensures ParseBold("a **b** c **d") == [Plain("a "), Bold("b"), Plain(" c **d")]
  {
    var line := "a **b** c **d";
    assert MatchAt(line, 2) == Some(5);
    assert MatchAt(line, 0).None? && MatchAt(line, 1).None?;
    ParseBoldFirstMatch(line, 2, 5);
    forall m | 7 <= m ensures MatchAt(line, m).None? {
      if m != 10 {
        assert !PairAt(line, m);
      } else {
        assert CloseFrom(line, 12) == None;
      }
    }
    ScanBoldUnmatched(line, 7, 7);
    assert line[..2] == "a " && line[4..5] == "b" && line[7..] == " c **d";
  }

  // ---------------------------------------------------------------------
  // Lines.
  // ---------------------------------------------------------------------

  /** What one line of the text contributes, after `line.trim()`. */
  datatype LineKind =
    | HeadingLine(text: string)
    | BulletLine(item: Item)
    | ParagraphLine(spans: seq<Inline>)
    | BlankLine

  /** The branch the loop body takes for one line: a `### ` line is a
      heading whose text is the line with its first `### ` replaced by
      nothing (not inline-parsed); a `* ` line is a bullet item made of
      the content after the first two characters; any other non-empty
      line is a paragraph; an empty line is nothing. */
  function Classify(raw: string): LineKind {
    var line := Trim(raw);
    if StartsWith(line, "### ") then HeadingLine(ReplaceFirst(line, "### ", ""))
    else if StartsWith(line, "* ") then BulletLine(BulletItem(line[2..]))
    else if line != [] then ParagraphLine(ParseBold(line))
    else BlankLine
  }

  /** The classification in full: the heading test comes first (the two
      markers cannot both start a line), a heading's text is the trimmed
      line without its leading `### `, a bullet's item is made from the
      trimmed line without its leading `* `, and a line is blank exactly
      when trimming leaves nothing, i.e. it is all white space. */
  lemma ClassifyCases(raw: string)
    ensures Classify(raw).HeadingLine? <==> StartsWith(Trim(raw), "### ")
    ensures Classify(raw).HeadingLine? ==> Classify(raw).text == Trim(raw)[4..]
    ensures Classify(raw).BulletLine? <==> StartsWith(Trim(raw), "* ")
    ensures Classify(raw).BulletLine? ==> Classify(raw).item == BulletItem(Trim(raw)[2..])
    ensures Classify(raw).ParagraphLine? <==>
      Trim(raw) != [] && !StartsWith(Trim(raw), "### ") && !StartsWith(Trim(raw), "* ")
    ensures Classify(raw).BlankLine? <==> forall k :: 0 <= k < |raw| ==> IsTrimmable(raw[k])
  {
    var line := Trim(raw);
    if StartsWith(line, "### ") {
      ReplacePrefix(line, "### ");
      assert line[0] == '#';
    }
    TrimEmptyIff(raw);
  }

  /** Trimming comes first, so a marker with nothing after it — `###` or
      `*`, with or without trailing spaces — is a paragraph holding just
      the marker. */
  lemma BareMarkerIsParagraph(raw: string)
    requires Trim(raw) == "###" || Trim(raw) == "*"
    ensures Classify(raw) == ParagraphLine([Plain(Trim(raw))])
  {
    var line := Trim(raw);
    ParseBoldUnmatched(line);
  }

  // ---------------------------------------------------------------------
  // Blocks: the reference grouping of classified lines.
  // ---------------------------------------------------------------------

  /** The line kinds of `lines`, one per line. */
  function Kinds(lines: seq<string>): (ks: seq<LineKind>)
    ensures |ks| == |lines|
  {
    seq(|lines|, i requires 0 <= i < |lines| => Classify(lines[i]))
  }

  /** Pending bullet items seen as the bullet lines they came from. */
  function AsBullets(items: seq<Item>): (ks: seq<LineKind>)
    ensures |ks| == |items|
  {
    seq(|items|, i requires 0 <= i < |items| => BulletLine(items[i]))
  }

  /** The length of the longest prefix of `ks` made only of bullet and
      blank lines. */
  function BulletRun(ks: seq<LineKind>): (n: nat)
    ensures n <= |ks|
    decreases |ks|
  {
    if ks != [] && (ks[0].BulletLine? || ks[0].BlankLine?) then 1 + BulletRun(ks[1..]) else 0
  }

  /** The items of the bullet lines among `ks`, in order. */
  function ItemsOf(ks: seq<LineKind>): seq<Item>
    decreases |ks|
  {
    if ks == [] then []
    else (if ks[0].BulletLine? then [ks[0].item] else []) + ItemsOf(ks[1..])
  }

  /** The blocks the classified lines stand for, stated without an
      accumulator: a heading or paragraph line is one block; a blank line
      is none; a bullet line opens a list made of the items of the whole
      run of bullet and blank lines that starts with it. */
  function Layout(ks: seq<LineKind>): seq<Block>
    decreases |ks|
  {
    if ks == [] then []
    else
      match ks[0]
      case BlankLine => Layout(ks[1..])
      case HeadingLine(t) => [Heading(t)] + Layout(ks[1..])
      case ParagraphLine(p) => [Paragraph(p)] + Layout(ks[1..])
      case BulletLine(_) =>
        var n := BulletRun(ks);
        [List(ItemsOf(ks[..n]))] + Layout(ks[n..])
  }

  /** What the renderer shows for `text`: the layout of its lines, split
      on `\n`. */
  function Blocks(text: string): seq<Block> {
    Layout(Kinds(Split(text, "\n")))
  }

  lemma {:induction false} BulletRunAfterBullets(items: seq<Item>, ks: seq<LineKind>)
    ensures BulletRun(AsBullets(items) + ks) == |items| + BulletRun(ks)
    decreases |items|
  {
    if items != [] {
      assert (AsBullets(items) + ks)[1..] == AsBullets(items[1..]) + ks;
      BulletRunAfterBullets(items[1..], ks);
    } else {
      assert AsBullets(items) + ks == ks;
    }
  }

  lemma {:induction false} ItemsOfAfterBullets(items: seq<Item>, ks: seq<LineKind>)
    ensures ItemsOf(AsBullets(items) + ks) == items + ItemsOf(ks)
    decreases |items|
  {
    if items != [] {
      assert (AsBullets(items) + ks)[1..] == AsBullets(items[1..]) + ks;
      ItemsOfAfterBullets(items[1..], ks);
      assert items == [items[0]] + items[1..];
    } else {
      assert AsBullets(items) + ks == ks;
    }
  }

  /** Cutting `a + b` at `|a| + r` cuts `b` at `r`. */
  lemma SliceAfter<T>(a: seq<T>, b: seq<T>, r: nat)
    requires r <= |b|
    ensures (a + b)[..|a| + r] == a + b[..r]
    ensures (a + b)[|a| + r..] == b[r..]
  {
  }

  /** With bullet items pending, the pending items and the items of the
      bullet-and-blank run that follows form one list. */
  lemma LayoutPending(items: seq<Item>, ks: seq<LineKind>)
    requires items != []
    ensures Layout(AsBullets(items) + ks) ==
      [List(items + ItemsOf(ks[..BulletRun(ks)]))] + Layout(ks[BulletRun(ks)..])
  {
    var pre := AsBullets(items);
    var all := pre + ks;
    var r := BulletRun(ks);
    BulletRunAfterBullets(items, ks);
    assert all[0] == BulletLine(items[0]);
    LayoutAtBullet(all);
    SliceAfter(pre, ks, r);
    ItemsOfAfterBullets(items, ks[..r]);
    var n := |pre| + r;
    assert BulletRun(all) == n;
    var front := all[..n];
    var back := all[n..];
    assert front == pre + ks[..r];
    assert back == ks[r..];
    calc {
      Layout(all);
      [List(ItemsOf(front))] + Layout(back);
      { assert ItemsOf(front) == items + ItemsOf(ks[..r]); }
      [List(items + ItemsOf(ks[..r]))] + Layout(ks[r..]);
    }
  }

  /** Laying out pending items alone gives one list, or nothing when no
      item is pending. */
  lemma LayoutOfPending(items: seq<Item>)
    ensures Layout(AsBullets(items)) == if items == [] then [] else [List(items)]
  {
    if items != [] {
      var none: seq<LineKind> := [];
      LayoutPending(items, none);
      assert none[..0] == none && none[0..] == none;
      assert AsBullets(items) + none == AsBullets(items);
      assert ItemsOf(none) == [] && Layout(none) == [];
      assert items + [] == items;
    }
  }

  /** A heading or paragraph line (or the end of the text) closes the
      pending list before its own block. */
  lemma LayoutBreak(items: seq<Item>, ks: seq<LineKind>)
    requires ks == [] || ks[0].HeadingLine? || ks[0].ParagraphLine?
    ensures Layout(AsBullets(items) + ks) == Layout(AsBullets(items)) + Layout(ks)
  {
    LayoutOfPending(items);
    if items == [] {
      assert AsBullets(items) + ks == ks;
    } else {
      LayoutPending(items, ks);
      assert BulletRun(ks) == 0;
      assert ks[..0] == [] && ItemsOf(ks[..0]) == [];
      assert ks[0..] == ks;
      assert items + [] == items;
    }
  }

  /** A blank line neither closes the pending list nor emits anything. */
  lemma LayoutBlank(items: seq<Item>, ks: seq<LineKind>)
    ensures Layout(AsBullets(items) + ([BlankLine] + ks)) == Layout(AsBullets(items) + ks)
  {
    var bks := [BlankLine] + ks;
    if items == [] {
      assert AsBullets(items) + bks == bks;
      assert AsBullets(items) + ks == ks;
      assert bks[1..] == ks;
    } else {
      var r := BulletRun(ks);
      assert bks[1..] == ks;
      assert BulletRun(bks) == 1 + r;
      assert bks[..1 + r] == [BlankLine] + ks[..r];
      assert ItemsOf(bks[..1 + r]) == ItemsOf(ks[..r]) by {
        assert ([BlankLine] + ks[..r])[1..] == ks[..r];
      }
      assert bks[1 + r..] == ks[r..];
      LayoutPending(items, bks);
      LayoutPending(items, ks);
    }
  }

  /** A bullet line adds its item to the pending ones. */
  lemma BulletJoinsPending(items: seq<Item>, item: Item, ks: seq<LineKind>)
    ensures AsBullets(items) + ([BulletLine(item)] + ks) == AsBullets(items + [item]) + ks
  {
  }

  /** The loop body on a heading or paragraph line: flush, then push
      the line's block; `block` is that block. */
  lemma BreakStep(elements: seq<Block>, items: seq<Item>, k: LineKind, rest: seq<LineKind>, block: Block)
    requires (k.HeadingLine? && block == Heading(k.text)) || (k.ParagraphLine? && block == Paragraph(k.spans))
    ensures elements + Layout(AsBullets(items) + ([k] + rest)) ==
      (elements + Layout(AsBullets(items)) + [block]) + Layout(AsBullets([]) + rest)
  {
    LayoutBreak(items, [k] + rest);
    assert ([k] + rest)[1..] == rest;
    assert AsBullets([]) + rest == rest;
  }

  // ---------------------------------------------------------------------
  // What the layout promises.
  // ---------------------------------------------------------------------

  /** The run of bullet and blank lines is maximal: everything in it is a
      bullet or blank line, and the line after it is neither. */
  lemma {:induction false} BulletRunMaximal(ks: seq<LineKind>)
    ensures forall j :: 0 <= j < BulletRun(ks) ==> ks[j].BulletLine? || ks[j].BlankLine?
    ensures BulletRun(ks) < |ks| ==> !ks[BulletRun(ks)].BulletLine? && !ks[BulletRun(ks)].BlankLine?
    decreases |ks|
  {
    if ks != [] && (ks[0].BulletLine? || ks[0].BlankLine?) {
      BulletRunMaximal(ks[1..]);
    }
  }

  lemma {:induction false} ItemsOfAppend(a: seq<LineKind>, b: seq<LineKind>)
    ensures ItemsOf(a + b) == ItemsOf(a) + ItemsOf(b)
    decreases |a|
  {
    if a == [] {
      assert a + b == b;
    } else {
      assert (a + b)[1..] == a[1..] + b;
      ItemsOfAppend(a[1..], b);
    }
  }

  /** Every block is a list, or no block is: the items of the lists, in order. */
  function AllItems(blocks: seq<Block>): seq<Item>
    decreases |blocks|
  {
    if blocks == [] then []
    else (if blocks[0].List? then blocks[0].items else []) + AllItems(blocks[1..])
  }

  /** The heading and paragraph blocks, in order. */
  function NonListBlocks(blocks: seq<Block>): seq<Block>
    decreases |blocks|
  {
    if blocks == [] then []
    else (if blocks[0].List? then [] else [blocks[0]]) + NonListBlocks(blocks[1..])
  }

  /** The block each heading and paragraph line stands for, in line order. */
  function LineBlocks(ks: seq<LineKind>): seq<Block>
    decreases |ks|
  {
    if ks == [] then []
    else
      (match ks[0]
       case HeadingLine(t) => [Heading(t)]
       case ParagraphLine(p) => [Paragraph(p)]
       case _ => []) + LineBlocks(ks[1..])
  }

  lemma {:induction false} LineBlocksAppend(a: seq<LineKind>, b: seq<LineKind>)
    ensures LineBlocks(a + b) == LineBlocks(a) + LineBlocks(b)
    decreases |a|
  {
    if a == [] {
      assert a + b == b;
    } else {
      assert (a + b)[1..] == a[1..] + b;
      LineBlocksAppend(a[1..], b);
    }
  }

  /** A run of bullet and blank lines stands for no heading or paragraph. */
  lemma {:induction false} LineBlocksOfRun(ks: seq<LineKind>)
    requires forall j :: 0 <= j < |ks| ==> ks[j].BulletLine? || ks[j].BlankLine?
    ensures LineBlocks(ks) == []
    decreases |ks|
  {
    if ks != [] {
      LineBlocksOfRun(ks[1..]);
    }
  }

  /** A list block is never empty, and two lists are never adjacent: a
      list ends only at a heading, a paragraph or the end of the text. */
  predicate WellGrouped(blocks: seq<Block>) {
    && (forall j :: 0 <= j < |blocks| && blocks[j].List? ==> blocks[j].items != [])
    && (forall j :: 0 <= j < |blocks| - 1 ==> !(blocks[j].List? && blocks[j + 1].List?))
  }

  /** Layout of text that does not start in a bullet run opens with a
      heading or a paragraph. */
  lemma LayoutStartsPlain(ks: seq<LineKind>)
    requires ks != [] && !ks[0].BulletLine? && !ks[0].BlankLine?
    ensures Layout(ks) != [] && !Layout(ks)[0].List?
    ensures ks[0].HeadingLine? ==> Layout(ks)[0] == Heading(ks[0].text)
    ensures ks[0].ParagraphLine? ==> Layout(ks)[0] == Paragraph(ks[0].spans)
  {
  }

  /** The layout is well grouped: no empty list and no two lists in a
      row. */
  lemma {:induction false} LayoutWellGrouped(ks: seq<LineKind>)
    ensures WellGrouped(Layout(ks))
    decreases |ks|
  {
    if ks != [] {
      match ks[0]
      case BlankLine =>
        LayoutWellGrouped(ks[1..]);
      case HeadingLine(t) =>
        LayoutWellGrouped(ks[1..]);
      case ParagraphLine(p) =>
        LayoutWellGrouped(ks[1..]);
      case BulletLine(item) =>
        var n := BulletRun(ks);
        BulletRunMaximal(ks);
        LayoutWellGrouped(ks[n..]);
        assert ks[..n] == [ks[0]] + ks[..n][1..];
        assert ItemsOf(ks[..n]) != [];
        if n < |ks| {
          LayoutStartsPlain(ks[n..]);
        }
    }
  }

  /** Every bullet line's item lands in exactly one list, in line order:
      the lists' items, read in order, are the bullet lines' items. */
  lemma {:induction false} LayoutItems(ks: seq<LineKind>)
    ensures AllItems(Layout(ks)) == ItemsOf(ks)
    decreases |ks|
  {
    if ks != [] {
      match ks[0]
      case BlankLine =>
        LayoutItems(ks[1..]);
      case HeadingLine(t) =>
        LayoutItems(ks[1..]);
      case ParagraphLine(p) =>
        LayoutItems(ks[1..]);
      case BulletLine(item) =>
        var n := BulletRun(ks);
        LayoutItems(ks[n..]);
        assert ks == ks[..n] + ks[n..];
        ItemsOfAppend(ks[..n], ks[n..]);
    }
  }

  /** Every heading and paragraph line gives exactly one block, in line
      order: leaving the lists out, the blocks are the line blocks. */
  lemma {:induction false} LayoutLineBlocks(ks: seq<LineKind>)
    ensures NonListBlocks(Layout(ks)) == LineBlocks(ks)
    decreases |ks|
  {
    if ks != [] {
      match ks[0]
      case BlankLine =>
        LayoutLineBlocks(ks[1..]);
      case HeadingLine(t) =>
        LayoutLineBlocks(ks[1..]);
      case ParagraphLine(p) =>
        LayoutLineBlocks(ks[1..]);
      case BulletLine(item) =>
        var n := BulletRun(ks);
        LayoutLineBlocks(ks[n..]);
        BulletRunMaximal(ks);
        LineBlocksOfRun(ks[..n]);
        assert ks == ks[..n] + ks[n..];
        LineBlocksAppend(ks[..n], ks[n..]);
    }
  }

  /** The lines that are not blank. */
  function WithoutBlanks(ks: seq<LineKind>): seq<LineKind>
    decreases |ks|
  {
    if ks == [] then []
    else (if ks[0].BlankLine? then [] else [ks[0]]) + WithoutBlanks(ks[1..])
  }

  lemma {:induction false} WithoutBlanksAppend(a: seq<LineKind>, b: seq<LineKind>)
    ensures WithoutBlanks(a + b) == WithoutBlanks(a) + WithoutBlanks(b)
    decreases |a|
  {
    if a == [] {
      assert a + b == b;
    } else {
      assert (a + b)[1..] == a[1..] + b;
      WithoutBlanksAppend(a[1..], b);
    }
  }

  /** Without its blank lines, a run of bullet and blank lines is the
      bullet lines of its items. */
  lemma {:induction false} WithoutBlanksOfRun(ks: seq<LineKind>)
    requires forall j :: 0 <= j < |ks| ==> ks[j].BulletLine? || ks[j].BlankLine?
    ensures WithoutBlanks(ks) == AsBullets(ItemsOf(ks))
    decreases |ks|
  {
    if ks != [] {
      WithoutBlanksOfRun(ks[1..]);
      if ks[0].BulletLine? {
        assert AsBullets([ks[0].item] + ItemsOf(ks[1..])) == [ks[0]] + AsBullets(ItemsOf(ks[1..]));
      }
    }
  }

  /** A bullet line opens the list of its run. */
  lemma LayoutAtBullet(ks: seq<LineKind>)
    requires ks != [] && ks[0].BulletLine?
    ensures Layout(ks) == [List(ItemsOf(ks[..BulletRun(ks)]))] + Layout(ks[BulletRun(ks)..])
  {
  }

  /** Without blanks, text that opens with a bullet run is that run's
      items as bullet lines, followed by the rest without blanks, which
      is empty or opens with a heading or paragraph. */
  lemma WithoutBlanksAtBullet(ks: seq<LineKind>)
    requires ks != [] && ks[0].BulletLine?
    ensures ItemsOf(ks[..BulletRun(ks)]) != []
    ensures WithoutBlanks(ks) ==
      AsBullets(ItemsOf(ks[..BulletRun(ks)])) + WithoutBlanks(ks[BulletRun(ks)..])
    ensures var rest := WithoutBlanks(ks[BulletRun(ks)..]);
      rest == [] || rest[0].HeadingLine? || rest[0].ParagraphLine?
  {
    var n := BulletRun(ks);
    BulletRunMaximal(ks);
    assert ks == ks[..n] + ks[n..];
    WithoutBlanksAppend(ks[..n], ks[n..]);
    WithoutBlanksOfRun(ks[..n]);
    assert ks[..n] == [ks[0]] + ks[..n][1..];
  }

  /** Blank lines change nothing: the layout of the lines is the layout
      of the non-blank lines alone. In particular a blank line does not
      end a list. */
  lemma {:induction false} LayoutIgnoresBlanks(ks: seq<LineKind>)
    ensures Layout(ks) == Layout(WithoutBlanks(ks))
    decreases |ks|
  {
    if ks != [] {
      match ks[0]
      case BlankLine =>
        LayoutIgnoresBlanks(ks[1..]);
        assert Layout(ks) == Layout(ks[1..]);
        assert WithoutBlanks(ks) == WithoutBlanks(ks[1..]);
      case HeadingLine(t) =>
        LayoutIgnoresBlanks(ks[1..]);
      case ParagraphLine(p) =>
        LayoutIgnoresBlanks(ks[1..]);
      case BulletLine(item) =>
        var n := BulletRun(ks);
        var items := ItemsOf(ks[..n]);
        var rest := WithoutBlanks(ks[n..]);
        LayoutIgnoresBlanks(ks[n..]);
        LayoutAtBullet(ks);
        WithoutBlanksAtBullet(ks);
        LayoutBreak(items, rest);
        LayoutOfPending(items);
    }
  }

  lemma KindsAppend(a: seq<string>, b: seq<string>)
    ensures Kinds(a + b) == Kinds(a) + Kinds(b)
  {
    var l := Kinds(a + b);
    var r := Kinds(a) + Kinds(b);
    forall j | 0 <= j < |l| ensures l[j] == r[j] {
      if j < |a| {
        assert (a + b)[j] == a[j];
      } else {
        assert (a + b)[j] == b[j - |a|];
      }
    }
  }

  /** A blank line between two runs of line kinds changes no block. */
  lemma BlankBetweenKinds(kl: seq<LineKind>, kr: seq<LineKind>)
    ensures Layout(kl + [BlankLine] + kr) == Layout(kl + kr)
  {
    WithoutBlanksAppend(kl + [BlankLine], kr);
    WithoutBlanksAppend(kl, [BlankLine]);
    WithoutBlanksAppend(kl, kr);
    assert WithoutBlanks([BlankLine]) == [];
    assert WithoutBlanks(kl) + [] == WithoutBlanks(kl);
    LayoutIgnoresBlanks(kl + [BlankLine] + kr);
    LayoutIgnoresBlanks(kl + kr);
  }

  /** A blank line between two runs of lines changes no block. */
  lemma BlankBetweenLines(left: seq<string>, w: string, right: seq<string>)
    requires Classify(w) == BlankLine
    ensures Layout(Kinds(left + [w] + right)) == Layout(Kinds(left + right))
  {
    KindsAppend(left + [w], right);
    KindsAppend(left, [w]);
    KindsAppend(left, right);
    assert Kinds([w]) == [BlankLine];
    BlankBetweenKinds(Kinds(left), Kinds(right));
  }

  /** The lines of two parts of text with a line `w` between them. */
  lemma LinesAround(a: string, w: string, b: string)
    requires '\n' !in w
    ensures Split(a + "\n" + w + "\n" + b, "\n") == Split(a, "\n") + [w] + Split(b, "\n")
  {
    assert a + "\n" + w + "\n" + b == a + ['\n'] + (w + ['\n'] + b);
    SplitAppend(a, '\n', w + ['\n'] + b);
    SplitAppend(w, '\n', b);
    SplitNone(w, '\n');
  }

  /** At the level of the text: inserting a blank line (white space only)
      between two parts of the text changes no block, so bullet lines
      separated only by blank lines stay in one list. */
  lemma BlankLineKeepsBlocks(a: string, w: string, b: string)
    requires forall k :: 0 <= k < |w| ==> IsTrimmable(w[k]) && w[k] != '\n'
    ensures Blocks(a + "\n" + w + "\n" + b) == Blocks(a + "\n" + b)
  {
    assert '\n' !in w;
    LinesAround(a, w, b);
    SplitAppend(a, '\n', b);
    ClassifyCases(w);
    BlankBetweenLines(Split(a, "\n"), w, Split(b, "\n"));
  }

  // ---------------------------------------------------------------------
  // The renderer as the source runs it.
  // ---------------------------------------------------------------------

  /** The branch of `Classify` each trimmed line takes, one equation per
      branch, in the order the renderer tests them. */
  lemma ClassifyBranches(raw: string)
    ensures StartsWith(Trim(raw), "### ") ==>
      Classify(raw) == HeadingLine(ReplaceFirst(Trim(raw), "### ", ""))
    ensures !StartsWith(Trim(raw), "### ") && StartsWith(Trim(raw), "* ") ==>
      Classify(raw) == BulletLine(BulletItem(Trim(raw)[2..]))
    ensures !StartsWith(Trim(raw), "### ") && !StartsWith(Trim(raw), "* ") && Trim(raw) != [] ==>
      Classify(raw) == ParagraphLine(ParseBold(Trim(raw)))
    ensures Trim(raw) == [] ==> Classify(raw) == BlankLine
  {
  }

  /** `flushList`: when items are pending, push one list holding them;
      then no item is pending. */
  method FlushList(elements: seq<Block>, listItems: seq<Item>)
    returns (elements': seq<Block>, listItems': seq<Item>)
    ensures listItems' == []
    ensures elements' == elements + Layout(AsBullets(listItems))
    ensures listItems != [] ==> elements' == elements + [List(listItems)]
    ensures elements' == elements <==> listItems == []
  {
    LayoutOfPending(listItems);
    elements' := elements;
    if |listItems| > 0 {
      elements' := elements' + [List(listItems)];
    }
    listItems' := [];
  }

  /** The `forEach` callback: one line of the text, trimmed, either
      flushes the pending items and pushes a heading or a paragraph,
      becomes a pending bullet item, or (blank) changes nothing. Whatever
      lines follow (`rest`), the blocks pushed so far followed by the
      layout of what is still pending are unchanged by the step. */
  method RenderLine(elements: seq<Block>, listItems: seq<Item>, raw: string, ghost rest: seq<LineKind>)
    returns (elements': seq<Block>, listItems': seq<Item>)
    ensures elements' + Layout(AsBullets(listItems') + rest) ==
      elements + Layout(AsBullets(listItems) + ([Classify(raw)] + rest))
    ensures Classify(raw).BulletLine? ==> elements' == elements && listItems' == listItems + [Classify(raw).item]
    ensures Classify(raw).BlankLine? ==> elements' == elements && listItems' == listItems
    ensures Classify(raw).HeadingLine? || Classify(raw).ParagraphLine? ==> listItems' == []
  {
    ghost var k := Classify(raw);
    var line := Trim(raw);
    ClassifyBranches(raw);
    elements', listItems' := elements, listItems;
    if StartsWith(line, "### ") {
      var block := Heading(ReplaceFirst(line, "### ", ""));
      assert k == HeadingLine(block.text);
      BreakStep(elements', listItems', k, rest, block);
      elements', listItems' := FlushList(elements', listItems');
      elements' := elements' + [block];
    } else if StartsWith(line, "* ") {
      var content := line[2..];
      var parts := Split(content, "**");
      assert k == BulletLine(Alternate(parts));
      BulletJoinsPending(listItems', Alternate(parts), rest);
      listItems' := listItems' + [Alternate(parts)];
    } else if line != [] {
      var block := Paragraph(ParseBold(line));
      assert k == ParagraphLine(block.spans);
      BreakStep(elements', listItems', k, rest, block);
      elements', listItems' := FlushList(elements', listItems');
      elements' := elements' + [block];
    } else {
      assert k == BlankLine;
      LayoutBlank(listItems', rest);
    }
  }

  /** Before the first line nothing is pushed or pending. */
  lemma LayoutStart(ks: seq<LineKind>)
    ensures [] + Layout(AsBullets([]) + ks[0..]) == Layout(ks)
  {
    assert AsBullets([]) + ks[0..] == ks;
  }

  /** After the last line, what is still to lay out is the pending items. */
  lemma LayoutEnd(elements: seq<Block>, items: seq<Item>, ks: seq<LineKind>)
    requires elements + Layout(AsBullets(items) + ks[|ks|..]) == Layout(ks)
    ensures elements + Layout(AsBullets(items)) == Layout(ks)
  {
    assert AsBullets(items) + ks[|ks|..] == AsBullets(items);
  }

  /** The suffix from `i` is the element at `i` followed by the suffix
      after it. */
  lemma SuffixCons<T>(s: seq<T>, i: nat)
    requires i < |s|
    ensures s[i..] == [s[i]] + s[i + 1..]
  {
  }

  /** `SummaryRenderer`: one pass over the lines of `text`, pushing blocks
      onto `elements` and bullet items onto `listItems`, flushing the
      pending items before every heading and paragraph and once at the
      end. Its result is the layout of the classified lines. */
  method SummaryRenderer(text: string) returns (elements: seq<Block>)
    ensures elements == Blocks(text)
  {
    var lines := Split(text, "\n");
    ghost var kinds := Kinds(lines);
    elements := [];
    var listItems: seq<Item> := [];
    var i := 0;
    LayoutStart(kinds);
    while i < |lines|
      invariant 0 <= i <= |lines|
      invariant elements + Layout(AsBullets(listItems) + kinds[i..]) == Layout(kinds)
    {
      ghost var rest := kinds[i + 1..];
      SuffixCons(kinds, i);
      assert kinds[i] == Classify(lines[i]);
      elements, listItems := RenderLine(elements, listItems, lines[i], rest);
      i := i + 1;
    }
    LayoutEnd(elements, listItems, kinds);
    elements, listItems := FlushList(elements, listItems);
  }
}
