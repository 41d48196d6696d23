/**
  * The card renderer. popup.js (`generateMarkdown`, `generateHTML`) and
  * options.js (`copyCard`, `exportAllCards`) all carry the same per-card
  * template; it is defined once here and every call site uses it.
  */
module Render {
  import opened Wrappers
  import opened Text
  import opened Sentences
  import opened Cards

  datatype Format = Markdown | Html

  /** options.js compares the requested format with `'markdown'`; anything else renders HTML. */
  function FormatNamed(name: string): (f: Format)
    ensures f == Markdown <==> name == "markdown"
  {
    if name == "markdown" then Markdown else Html
  }

  /** What a rendering reads of a card or of the popup's draft. */
  datatype CardFields = CardFields(
    claim: string,
    authorLine: string,
    mla: string,
    evidenceFull: string,
    highlights: seq<int>,
    impact: string)

  /** What the renderer reads of a saved card; a card without highlights has none. */
  function CardView(c: Card): CardFields {
    CardFields(c.claim, c.authorLine, c.mla, c.evidence.fullText, c.evidence.highlights.GetOr([]), c.impact)
  }

  const Dash := "\U{2014}"
  const SmallSpanOpen := "<span style=\"font-size:8pt\">"

  /**
    * One trimmed sentence, emphasised when highlighted and (in HTML) shrunk when
    * not. The emphasised form is produced exactly for a highlighted sentence.
    */
  function Mark(t: string, highlighted: bool, fmt: Format): (m: string)
    ensures fmt == Markdown ==> (m == "**__" + t + "__**" <==> highlighted) && (!highlighted ==> m == t)
    ensures fmt == Html ==>
      (m == "<b><u>" + t + "</u></b>" <==> highlighted) && (!highlighted ==> m == SmallSpanOpen + t + "</span>")
  {
    assert |"**__" + t + "__**"| != |t|;
    assert |SmallSpanOpen + t + "</span>"| != |"<b><u>" + t + "</u></b>"|;
    match fmt
    case Markdown => if highlighted then "**__" + t + "__**" else t
    case Html => if highlighted then "<b><u>" + t + "</u></b>" else SmallSpanOpen + t + "</span>"
  }

  /**
    * One piece per sentence. Piece `i` is the emphasised trimmed sentence exactly
    * when `i` occurs in `highlights`, and the plain (in HTML, shrunk) trimmed
    * sentence otherwise.
    */
  function MarkAll(sents: seq<string>, highlights: seq<int>, fmt: Format): (r: seq<string>)
    ensures |r| == |sents|
    ensures forall i :: 0 <= i < |sents| ==> var t := Trim(sents[i]);
      (fmt == Markdown ==> (r[i] == "**__" + t + "__**" <==> i in highlights) && (i !in highlights ==> r[i] == t))
      && (fmt == Html ==> ((r[i] == "<b><u>" + t + "</u></b>" <==> i in highlights)
        && (i !in highlights ==> r[i] == SmallSpanOpen + t + "</span>")))
  {
    seq(|sents|, i requires 0 <= i < |sents| => Mark(Trim(sents[i]), i in highlights, fmt))
  }

  /** The evidence paragraph: the marked sentences joined by single spaces. */
  function EvidenceText(text: string, highlights: seq<int>, fmt: Format): string {
    Join(MarkAll(SentenceSplit(text), highlights, fmt), " ")
  }

  function Paragraph(body: string): string {
    "<p>" + body + "</p>"
  }

  /**
    * The five blocks of a card, claim to impact, with the fields verbatim: in
    * Markdown separated by blank lines, in HTML as `<p>` paragraphs, one per line.
    */
  function RenderCard(v: CardFields, fmt: Format): (r: string)
    ensures fmt == Markdown ==> r == Join([
      "CLAIM " + Dash + " " + v.claim,
      v.authorLine,
      v.mla,
      EvidenceText(v.evidenceFull, v.highlights, Markdown),
      "IMPACT " + Dash + " " + v.impact], "\n\n")
    ensures fmt == Html ==> r == Join([
      Paragraph("<b>CLAIM " + Dash + "</b> " + v.claim),
      Paragraph(v.authorLine),
      Paragraph(v.mla),
      Paragraph(EvidenceText(v.evidenceFull, v.highlights, Html)),
      Paragraph("<b>IMPACT " + Dash + "</b> " + v.impact)], "\n")
  {
    var ev := EvidenceText(v.evidenceFull, v.highlights, fmt);
    match fmt
    case Markdown =>
      var claimLine := "CLAIM " + Dash + " " + v.claim;
      var impactLine := "IMPACT " + Dash + " " + v.impact;
      Join5(claimLine, v.authorLine, v.mla, ev, impactLine, "\n\n");
      claimLine + "\n\n" + v.authorLine + "\n\n" + v.mla + "\n\n" + ev + "\n\n" + impactLine
    case Html =>
      var claimPara := Paragraph("<b>CLAIM " + Dash + "</b> " + v.claim);
      var impactPara := Paragraph("<b>IMPACT " + Dash + "</b> " + v.impact);
      Join5(claimPara, Paragraph(v.authorLine), Paragraph(v.mla), Paragraph(ev), impactPara, "\n");
      claimPara + "\n" + Paragraph(v.authorLine) + "\n" + Paragraph(v.mla) + "\n" + Paragraph(ev) + "\n" + impactPara
  }

  /**
    * Only which in-range indices occur in `highlights` matters: their order,
    * repetitions and any index past the last sentence change nothing.
    */
  lemma HighlightsActAsSet(text: string, h1: seq<int>, h2: seq<int>, fmt: Format)
    requires forall i :: 0 <= i < |SentenceSplit(text)| ==> (i in h1 <==> i in h2)
    ensures EvidenceText(text, h1, fmt) == EvidenceText(text, h2, fmt)
  {
    var sents := SentenceSplit(text);
    assert MarkAll(sents, h1, fmt) == MarkAll(sents, h2, fmt);
  }

  lemma Join5(b0: string, b1: string, b2: string, b3: string, b4: string, sep: string)
    ensures Join([b0, b1, b2, b3, b4], sep) == b0 + sep + b1 + sep + b2 + sep + b3 + sep + b4
  {
    var bs := [b0, b1, b2, b3, b4];
    assert bs[1..][1..] == bs[2..];
    assert bs[2..][1..] == bs[3..];
    assert bs[3..][1..] == bs[4..];
    assert Join(bs[3..], sep) == b3 + sep + b4;
    assert Join(bs[2..], sep) == b2 + sep + (b3 + sep + b4);
    assert Join(bs[1..], sep) == b1 + sep + (b2 + sep + (b3 + sep + b4));
    assert Join(bs, sep) == b0 + sep + (b1 + sep + (b2 + sep + (b3 + sep + b4)));
  }

  /** One card of the export-all output. */
  function CardBlock(v: CardFields, fmt: Format): string {
    match fmt
    case Markdown => RenderCard(v, Markdown) + "\n\n---"
    case Html => "<div class=\"card\">\n" + RenderCard(v, Html) + "\n</div>"
  }

  function Blocks(views: seq<CardFields>, fmt: Format): seq<string> {
    seq(|views|, k requires 0 <= k < |views| => CardBlock(views[k], fmt))
  }

  const MarkdownHeading := "# Card Library Export\n\n"
  const HtmlHead := "<html><head><title>Card Library Export</title></head><body>"
  const HtmlTail := "</body></html>"

  /** `exportAllCards`: nothing for an empty library, else every card's block under one heading. */
  function ExportAll(views: seq<CardFields>, fmt: Format): (r: Option<string>)
    ensures r.None? <==> views == []
    ensures r.Some? && fmt == Markdown ==> MarkdownHeading <= r.value
    ensures r.Some? && fmt == Html ==> HtmlHead <= r.value && EndsWith(r.value, HtmlTail)
  {
    if views == [] then None
    else
      var body := Join(Blocks(views, fmt), "\n\n");
      match fmt
      case Markdown =>
        ConcatEnds(MarkdownHeading, body);
        Some(MarkdownHeading + body)
      case Html =>
        ConcatEnds(HtmlHead, body);
        ConcatEnds(HtmlHead + body, HtmlTail);
        Some(HtmlHead + body + HtmlTail)
  }

  /** Exporting one more card adds a blank line and that card's block, and leaves the rest as it was. */
  lemma {:induction false} ExportAppend(views: seq<CardFields>, v: CardFields, fmt: Format)
    requires views != []
    ensures Join(Blocks(views + [v], fmt), "\n\n")
         == Join(Blocks(views, fmt), "\n\n") + "\n\n" + CardBlock(v, fmt)
  {
    var bs := Blocks(views, fmt);
    var more := Blocks(views + [v], fmt);
    forall k | 0 <= k < |more|
      ensures more[k] == (bs + [CardBlock(v, fmt)])[k]
    {
      if k < |bs| {
        assert (views + [v])[k] == views[k];
      }
    }
    assert more == bs + [CardBlock(v, fmt)];
    JoinAppend(Blocks(views, fmt), CardBlock(v, fmt), "\n\n");
  }

  /**
    * Exporting one more card: the Markdown export gains a blank line and that
    * card's block at its end; the HTML export gains them just before its
    * closing `</body></html>`. Everything before stays as it was.
    */
  lemma ExportAllAppend(views: seq<CardFields>, v: CardFields)
    requires views != []
    ensures ExportAll(views + [v], Markdown).value
         == ExportAll(views, Markdown).value + "\n\n" + CardBlock(v, Markdown)
    ensures var e := ExportAll(views, Html).value;
      EndsWith(e, HtmlTail)
      && ExportAll(views + [v], Html).value
         == e[..|e| - |HtmlTail|] + "\n\n" + CardBlock(v, Html) + HtmlTail
  {
    ExportAppend(views, v, Markdown);
    AppendAssoc(MarkdownHeading, Join(Blocks(views, Markdown), "\n\n"), "\n\n");
    AppendAssoc(MarkdownHeading, Join(Blocks(views, Markdown), "\n\n") + "\n\n", CardBlock(v, Markdown));
    ExportAppend(views, v, Html);
    AppendAssoc(Join(Blocks(views, Html), "\n\n"), "\n\n", CardBlock(v, Html));
    InsertBeforeTail(HtmlHead, Join(Blocks(views, Html), "\n\n"), "\n\n" + CardBlock(v, Html), HtmlTail);
    AppendAssoc(ExportAll(views, Html).value[..|ExportAll(views, Html).value| - |HtmlTail|], "\n\n", CardBlock(v, Html));
  }

  /** A one-card Markdown export is the heading, the card and the closing rule. */
  lemma ExportOne(v: CardFields)
    ensures ExportAll([v], Markdown) == Some(MarkdownHeading + (RenderCard(v, Markdown) + "\n\n---"))
    ensures ExportAll([v], Html)
         == Some(HtmlHead + ("<div class=\"card\">\n" + RenderCard(v, Html) + "\n</div>") + HtmlTail)
  {
    assert Blocks([v], Markdown) == [CardBlock(v, Markdown)];
    assert Blocks([v], Html) == [CardBlock(v, Html)];
  }
}
