/**
  * The popup (popup.js): the draft card being edited, the sentence checkboxes
  * that choose its highlighted sentences, its live previews and saving it to
  * the library. The draft is an object whose fields the page's handlers update
  * in place, so it is a class here.
  */
module Popup {
  import opened Wrappers
  import opened Seqs
  import opened Text
  import opened Cards
  import opened Citation
  import opened Render

  /**
    * The checkbox handler: checking sentence `i` adds it once (duplicates are
    * dropped, first occurrences kept in order); unchecking removes every copy.
    */
  function SetHighlight(highlights: seq<int>, i: int, checked: bool): (r: seq<int>)
    ensures checked ==> NoDuplicates(r) && forall x :: x in r <==> x in highlights || x == i
    ensures !checked ==> IsSubsequence(r, highlights) && forall x :: x in r <==> x in highlights && x != i
    ensures !checked ==> forall x :: x != i ==> multiset(r)[x] == multiset(highlights)[x]
    ensures NoDuplicates(highlights) ==> NoDuplicates(r)
  {
    if checked then Dedup(highlights + [i])
    else
      FilterCounts(highlights, x => x != i);
      FilterNoDuplicates(highlights, x => x != i);
      Filter(highlights, x => x != i)
  }

  /**
    * On a list without duplicates (the only kind the handler builds), checking
    * appends `i` when it is absent and changes nothing when it is present.
    */
  lemma CheckAppends(highlights: seq<int>, i: int)
    requires NoDuplicates(highlights)
    ensures SetHighlight(highlights, i, true) == if i in highlights then highlights else highlights + [i]
  {
    var h := highlights + [i];
    assert h[..|h| - 1] == highlights;
  }

  /** Checking and then unchecking a sentence that was not highlighted restores the list. */
  lemma {:induction false} CheckThenUncheck(highlights: seq<int>, i: int)
    requires NoDuplicates(highlights) && i !in highlights
    ensures SetHighlight(SetHighlight(highlights, i, true), i, false) == highlights
  {
    CheckAppends(highlights, i);
    FilterKeepsAll(highlights, x => x != i);
    FilterAppendDropped(highlights, i);
  }

  lemma {:induction false} FilterAppendDropped(s: seq<int>, i: int)
    ensures Filter(s + [i], x => x != i) == Filter(s, x => x != i)
  {
    if s == [] {
      assert Filter([i], x => x != i) == Filter([i][1..], x => x != i);
    } else {
      assert (s + [i])[1..] == s[1..] + [i];
      FilterAppendDropped(s[1..], i);
    }
  }

  /** Unchecking a sentence highlighted once removes it and keeps the others in their order. */
  lemma UncheckRemovesOnly(before: seq<int>, i: int, after: seq<int>)
    requires i !in before && i !in after
    ensures SetHighlight(before + [i] + after, i, false) == before + after
  {
    FilterDropsOne(before, i, after, x => x != i);
  }

  /** What the draft slot carries as text: `payload?.text || ''`. */
  function PayloadText(payload: Option<Payload>): string {
    if payload.Some? && payload.value.text.Some? then payload.value.text.value else ""
  }

  /** What the draft slot carries as metadata: `payload?.meta || {}`. */
  function PayloadMeta(payload: Option<Payload>): Meta {
    if payload.Some? && payload.value.meta.Some? then payload.value.meta.value else NoMeta
  }

  /** The popup's `state`. */
  class Draft {
    var claim: string
    var authorLine: string
    var mla: string
    var evidenceFull: string
    var highlights: seq<int>
    var impact: string
    var topicTags: seq<string>
    var source: Meta

    /** The checkbox handler never lets an index into the highlights twice. */
    predicate Valid()
      reads this
    {
      NoDuplicates(highlights)
    }

    /** The state before `init` has run: every field empty. */
    constructor ()
      ensures claim == "" && authorLine == "" && mla == "" && evidenceFull == ""
      ensures highlights == [] && impact == "" && topicTags == [] && source == NoMeta
      ensures Valid()
    {
      claim := "";
      authorLine := "";
      mla := "";
      evidenceFull := "";
      highlights := [];
      impact := "";
      topicTags := [];
      source := NoMeta;
    }

    /**
      * `init`: fill the draft from the capture waiting in the draft slot (or from
      * nothing): its text becomes the evidence, its metadata the source, and the
      * author line and citation are derived from that metadata. The claim, the
      * highlights, the impact and the tags are left as they were.
      */
    method Init(payload: Option<Payload>, currentYear: string, today: string, formatDate: string -> string)
      modifies this
      ensures evidenceFull == PayloadText(payload)
      ensures source == PayloadMeta(payload)
      ensures authorLine == AuthorLine(source.author, source.datePublished, currentYear)
      ensures mla == MlaWeb(source, formatDate, today)
      ensures payload.None? ==> evidenceFull == "" && source == NoMeta
      ensures claim == old(claim) && highlights == old(highlights) && impact == old(impact)
      ensures topicTags == old(topicTags)
      ensures old(Valid()) ==> Valid()
    {
      var meta := PayloadMeta(payload);
      evidenceFull := PayloadText(payload);
      source := meta;
      authorLine := AuthorLine(meta.author, meta.datePublished, currentYear);
      mla := MlaWeb(meta, formatDate, today);
    }

    /** The claim box's input handler. */
    method OnClaimInput(value: string)
      modifies this`claim
      ensures claim == value
    {
      claim := value;
    }

    /** The author-line box's input handler. */
    method OnAuthorLineInput(value: string)
      modifies this`authorLine
      ensures authorLine == value
    {
      authorLine := value;
    }

    /** The citation box's input handler. */
    method OnMlaInput(value: string)
      modifies this`mla
      ensures mla == value
    {
      mla := value;
    }

    /** The impact box's input handler. */
    method OnImpactInput(value: string)
      modifies this`impact
      ensures impact == value
    {
      impact := value;
    }

    /** The handler of sentence `i`'s checkbox. */
    method OnCheckboxChange(i: int, checked: bool)
      modifies this`highlights
      ensures highlights == SetHighlight(old(highlights), i, checked)
      ensures checked ==> Valid()
      ensures old(Valid()) ==> Valid()
    {
      highlights := SetHighlight(highlights, i, checked);
    }

    /** What the previews read of the draft. */
    function View(): CardFields
      reads this
    {
      CardFields(claim, authorLine, mla, evidenceFull, highlights, impact)
    }

    /**
      * `generateMarkdown`: the Markdown preview, the draft's five blocks from
      * claim to impact separated by blank lines.
      */
    function GenerateMarkdown(): (r: string)
      reads this
      ensures r == Join([
        "CLAIM " + Dash + " " + claim,
        authorLine,
        mla,
        EvidenceText(evidenceFull, highlights, Markdown),
        "IMPACT " + Dash + " " + impact], "\n\n")
    {
      RenderCard(View(), Markdown)
    }

    /** `generateHTML`: the HTML preview, the same five blocks as paragraphs, one per line. */
    function GenerateHtml(): (r: string)
      reads this
      ensures r == Join([
        Paragraph("<b>CLAIM " + Dash + "</b> " + claim),
        Paragraph(authorLine),
        Paragraph(mla),
        Paragraph(EvidenceText(evidenceFull, highlights, Html)),
        Paragraph("<b>IMPACT " + Dash + "</b> " + impact)], "\n")
    {
      RenderCard(View(), Html)
    }

    /**
      * The card `save` builds from the draft, with no topic tags: it renders
      * exactly as the draft's previews do, and keeps the draft's source.
      */
    function NewCard(id: string, createdAt: int): (c: Card)
      reads this
      ensures CardView(c) == View()
      ensures c.id == id && c.createdAt == createdAt && c.source == source && c.topicTags == []
    {
      Card(id, createdAt, claim, authorLine, mla, source,
        Evidence(evidenceFull, Some(highlights)), impact, [])
    }

    /**
      * `save`: append the draft as a new card to the stored list (a missing list
      * reads as empty). The id and the creation instant come from the caller.
      */
    method Save(store: Store, id: string, createdAt: int)
      modifies store
      ensures store.cards == old(store.cards) + [NewCard(id, createdAt)]
    {
      var card := NewCard(id, createdAt);
      store.cards := store.cards + [card];
    }
  }
}
