/**
  * The library page (options.js): the saved cards newest first, the search
  * over them, copying one card, exporting all of them, deleting one, clearing
  * the library and sending a card back to the popup for editing. The page keeps
  * `allCards` and `filteredCards` in variables its handlers reassign, so they
  * are the fields of a class here; what the handlers compute from them is a
  * function of the card list.
  */
module Library {
  import opened Wrappers
  import opened Text
  import opened Seqs
  import opened Cards
  import opened Sentences
  import opened Render
  import opened Popup

  function CreatedAt(c: Card): int {
    c.createdAt
  }

  /** `loadCards`' sort: the most recent first; cards created at the same instant keep their stored order. */
  function NewestFirst(cards: seq<Card>): (r: seq<Card>)
    ensures multiset(r) == multiset(cards)
    ensures forall i, j :: 0 <= i < j < |r| ==> r[i].createdAt >= r[j].createdAt
  {
    var r := SortDesc(cards, CreatedAt);
    assert SortedDesc(r, CreatedAt);
    r
  }

  /** The sort is stable: the cards created at instant `t` appear in their stored order. */
  lemma NewestFirstStable(cards: seq<Card>, t: int)
    ensures Filter(NewestFirst(cards), HasKey(CreatedAt, t)) == Filter(cards, HasKey(CreatedAt, t))
  {
    SortDescStable(cards, CreatedAt, t);
  }

  /**
    * A card matches a (lower-cased) search term when its claim, its citation,
    * its source title or its source author contains the term, ignoring case.
    * Every card matches the empty term.
    */
  function Matches(c: Card, term: string): (r: bool)
    ensures term == "" ==> r
  {
    ContainsEmpty(ToLower(c.claim));
    Contains(ToLower(c.claim), term)
    || Contains(ToLower(c.mla), term)
    || Contains(ToLower(c.source.title.GetOr("")), term)
    || Contains(ToLower(c.source.author.GetOr("")), term)
  }

  /** `filterCards`: the cards matching the lower-cased search box, in their order. */
  function Search(cards: seq<Card>, search: string): (r: seq<Card>)
    ensures IsSubsequence(r, cards)
    ensures forall c :: c in r <==> c in cards && Matches(c, ToLower(search))
    ensures forall c :: multiset(r)[c] == if Matches(c, ToLower(search)) then multiset(cards)[c] else 0
  {
    FilterCounts(cards, c => Matches(c, ToLower(search)));
    Filter(cards, c => Matches(c, ToLower(search)))
  }

  lemma ContainsEmpty(s: string)
    ensures Contains(s, "")
  {
    assert OccursAt(s, "", 0);
  }

  /** An empty search box shows every card, in order. */
  lemma EmptySearchShowsAll(cards: seq<Card>)
    ensures Search(cards, "") == cards
  {
    assert ToLower("") == "";
    FilterKeepsAll(cards, c => Matches(c, ToLower("")));
  }

  /** `allCards.find(c => c.id === cardId)`: the first card with that id. */
  function FindCard(cards: seq<Card>, id: string): (r: Option<Card>)
    ensures r.None? <==> forall c :: c in cards ==> c.id != id
    ensures r.Some? ==> exists k :: (0 <= k < |cards| && cards[k] == r.value && r.value.id == id
      && forall j :: 0 <= j < k ==> cards[j].id != id)
  {
    if cards == [] then None
    else if cards[0].id == id then Some(cards[0])
    else
      var r := FindCard(cards[1..], id);
      assert r.Some? ==> exists k :: (0 < k < |cards| && cards[k] == r.value && r.value.id == id
        && forall j :: 0 <= j < k ==> cards[j].id != id) by {
        if r.Some? {
          var k :| 0 <= k < |cards[1..]| && cards[1..][k] == r.value && r.value.id == id
            && forall j :: 0 <= j < k ==> cards[1..][j].id != id;
          assert cards[k + 1] == r.value;
          assert forall j :: 0 < j < k + 1 ==> cards[j].id == cards[1..][j - 1].id;
        }
      }
      assert r.None? ==> forall c :: c in cards ==> c.id != id by {
        if r.None? {
          assert forall c :: c in cards ==> c == cards[0] || c in cards[1..];
        }
      }
      r
  }

  /**
    * `copyCard`: the card with the given id rendered in the named format
    * (`'markdown'`, anything else HTML), or nothing when no card has that id.
    */
  function CopyCard(cards: seq<Card>, id: string, format: string): (r: Option<string>)
    ensures r.None? <==> forall c :: c in cards ==> c.id != id
    ensures r.Some? ==> exists k :: (0 <= k < |cards| && cards[k].id == id
      && (forall j :: 0 <= j < k ==> cards[j].id != id)
      && r.value == RenderCard(CardView(cards[k]), FormatNamed(format)))
  {
    match FindCard(cards, id)
    case None => None
    case Some(c) => Some(RenderCard(CardView(c), FormatNamed(format)))
  }

  /** A card stored without highlights is copied with every sentence plain. */
  lemma MissingHighlightsArePlain(c: Card, i: nat)
    requires c.evidence.highlights.None? && i < |SentenceSplit(c.evidence.fullText)|
    ensures var sents := SentenceSplit(c.evidence.fullText);
      MarkAll(sents, CardView(c).highlights, Markdown)[i] == Trim(sents[i])
      && MarkAll(sents, CardView(c).highlights, Html)[i] == SmallSpanOpen + Trim(sents[i]) + "</span>"
  {
  }

  /** `exportAllCards`: nothing for an empty library, else every card in order under one heading. */
  function ExportAllCards(cards: seq<Card>, format: string): (r: Option<string>)
    ensures r.None? <==> cards == []
  {
    ExportAll(Views(cards), FormatNamed(format))
  }

  /**
    * Export agrees with copy: a library of one card exports the card exactly as
    * copying it renders it, wrapped in the export's heading and card frame.
    */
  lemma ExportOneIsCopy(c: Card)
    ensures CopyCard([c], c.id, "markdown").Some?
    ensures ExportAllCards([c], "markdown")
         == Some(MarkdownHeading + (CopyCard([c], c.id, "markdown").value + "\n\n---"))
    ensures ExportAllCards([c], "html")
         == Some(HtmlHead + ("<div class=\"card\">\n" + CopyCard([c], c.id, "html").value + "\n</div>") + HtmlTail)
  {
    assert Views([c]) == [CardView(c)];
    ExportOne(CardView(c));
  }

  /** The card views `exportAllCards` renders, one per card, in order. */
  function Views(cards: seq<Card>): seq<CardFields> {
    seq(|cards|, k requires 0 <= k < |cards| => CardView(cards[k]))
  }

  /**
    * Exporting a library with one more card: in Markdown the card's block
    * follows a blank line at the end; in HTML it comes just before the
    * closing `</body></html>`. With `ExportOneIsCopy` this fixes the export
    * of every library.
    */
  lemma ExportAllCardsAppend(cards: seq<Card>, c: Card, format: string)
    requires cards != []
    ensures format == "markdown" ==>
      ExportAllCards(cards + [c], format).value
      == ExportAllCards(cards, format).value + "\n\n" + CardBlock(CardView(c), Markdown)
    ensures format != "markdown" ==> var e := ExportAllCards(cards, format).value;
      EndsWith(e, HtmlTail)
      && ExportAllCards(cards + [c], format).value
         == e[..|e| - |HtmlTail|] + "\n\n" + CardBlock(CardView(c), Html) + HtmlTail
  {
    assert Views(cards + [c]) == Views(cards) + [CardView(c)];
    ExportAllAppend(Views(cards), CardView(c));
  }

  /**
    * `editCard`: the draft the popup reopens with, the card's evidence text and
    * source. Its claim, highlights and impact are not carried over.
    */
  function EditPayload(cards: seq<Card>, id: string): (r: Option<Payload>)
    ensures r.None? <==> forall c :: c in cards ==> c.id != id
    ensures r.Some? ==> exists k :: (0 <= k < |cards| && cards[k].id == id
      && (forall j :: 0 <= j < k ==> cards[j].id != id)
      && r.value == Payload(Some(cards[k].evidence.fullText), Some(cards[k].source)))
  {
    match FindCard(cards, id)
    case None => None
    case Some(c) => Some(Payload(Some(c.evidence.fullText), Some(c.source)))
  }

  /** `deleteCard`'s filter: every card with the id goes, every other card stays, in order. */
  function WithoutId(cards: seq<Card>, id: string): (r: seq<Card>)
    ensures IsSubsequence(r, cards)
    ensures forall c :: c in r <==> c in cards && c.id != id
    ensures forall c: Card :: c.id != id ==> multiset(r)[c] == multiset(cards)[c]
  {
    FilterCounts(cards, (c: Card) => c.id != id);
    Filter(cards, (c: Card) => c.id != id)
  }

  /** Deleting a card that is not there changes nothing. */
  lemma DeleteAbsent(cards: seq<Card>, id: string)
    requires forall c :: c in cards ==> c.id != id
    ensures WithoutId(cards, id) == cards
  {
    FilterKeepsAll(cards, (c: Card) => c.id != id);
  }

  /**
    * A card saved from the popup is copied from the library exactly as the
    * popup previewed it, provided its id is new: from the stored list, where
    * the save appended it, and from the page's newest-first list.
    */
  lemma SavedCardCopiesAsPreviewed(cards: seq<Card>, d: Draft, id: string, createdAt: int)
    requires forall c :: c in cards ==> c.id != id
    ensures var stored := cards + [d.NewCard(id, createdAt)];
      CopyCard(stored, id, "markdown") == Some(d.GenerateMarkdown())
      && CopyCard(stored, id, "html") == Some(d.GenerateHtml())
      && CopyCard(NewestFirst(stored), id, "markdown") == Some(d.GenerateMarkdown())
      && CopyCard(NewestFirst(stored), id, "html") == Some(d.GenerateHtml())
  {
    var c := d.NewCard(id, createdAt);
    assert CardView(c) == d.View();
    FindAppended(cards, c);
  }

  /** A card appended under a fresh id is found, in the stored order and newest first. */
  lemma FindAppended(cards: seq<Card>, c: Card)
    requires forall x :: x in cards ==> x.id != c.id
    ensures FindCard(cards + [c], c.id) == Some(c)
    ensures FindCard(NewestFirst(cards + [c]), c.id) == Some(c)
  {
    var stored := cards + [c];
    FindOnly(stored, c);
    var sorted := NewestFirst(stored);
    assert c in multiset(sorted);
    forall x | x in sorted && x.id == c.id
      ensures x == c
    {
      assert x in multiset(stored);
    }
    FindOnly(sorted, c);
  }

  /** A card that is the only one with its id is the one found, wherever it sits. */
  lemma FindOnly(cards: seq<Card>, c: Card)
    requires c in cards
    requires forall x :: x in cards && x.id == c.id ==> x == c
    ensures FindCard(cards, c.id) == Some(c)
  {
  }

  /** The library page's two lists. */
  class Page {
    var allCards: seq<Card>
    var filteredCards: seq<Card>

    constructor ()
      ensures allCards == [] && filteredCards == []
    {
      allCards := [];
      filteredCards := [];
    }

    /** `filterCards`: recompute the visible cards from the search box. */
    method FilterCards(search: string)
      modifies this`filteredCards
      ensures filteredCards == Search(allCards, search)
    {
      filteredCards := Search(allCards, search);
    }

    /** `loadCards`: read the stored cards, newest first, then filter them. */
    method LoadCards(store: Store, search: string)
      modifies this
      ensures allCards == NewestFirst(store.cards)
      ensures filteredCards == Search(allCards, search)
    {
      allCards := NewestFirst(store.cards);
      FilterCards(search);
    }

    /**
      * `deleteCard`: when the user confirms, drop every card with the id, store
      * the remaining list (in the page's order) and filter again; otherwise do nothing.
      */
    method DeleteCard(store: Store, cardId: string, confirmed: bool, search: string)
      modifies this, store
      ensures !confirmed ==> (allCards == old(allCards) && filteredCards == old(filteredCards)
        && store.cards == old(store.cards))
      ensures confirmed ==> (allCards == WithoutId(old(allCards), cardId) && store.cards == allCards
        && filteredCards == Search(allCards, search))
    {
      if !confirmed {
        return;
      }
      allCards := WithoutId(allCards, cardId);
      store.cards := allCards;
      FilterCards(search);
    }

    /**
      * `clearAllCards`: when the user confirms, empty the store and the page's
      * lists; otherwise do nothing.
      */
    method ClearAllCards(store: Store, confirmed: bool, search: string)
      modifies this, store
      ensures !confirmed ==> (allCards == old(allCards) && filteredCards == old(filteredCards)
        && store.cards == old(store.cards))
      ensures confirmed ==> allCards == [] && store.cards == [] && filteredCards == []
    {
      if !confirmed {
        return;
      }
      store.cards := [];
      allCards := [];
      FilterCards(search);
    }
  }
}
