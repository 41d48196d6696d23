/**
  * Worked cases: concrete inputs and the outputs the model gives for them.
  */
module Scenarios {
  import opened Wrappers
  import opened Text
  import opened Sentences
  import opened Cards
  import opened Citation
  import opened Render
  import opened Popup

  const TwoSentences := "Sentence one. Sentence two."

  lemma FirstSentenceMatch()
    ensures MatchAt(TwoSentences, 0) == Some(14)
  {
    assert NoTerminatorsIn(TwoSentences, 0, 12) && OnlyTerminatorsIn(TwoSentences, 12, 13);
    assert IsWhitespace(TwoSentences[13]);
    MatchAtIff(TwoSentences, 0, 14);
  }

  lemma SecondSentenceMatch()
    ensures MatchAt(TwoSentences, 14) == Some(27)
  {
    assert NoTerminatorsIn(TwoSentences, 14, 26) && OnlyTerminatorsIn(TwoSentences, 26, 27);
    MatchAtIff(TwoSentences, 14, 27);
  }

  lemma ScanTwoSentences()
    ensures Scan(TwoSentences, 0) == [Span(0, 14), Span(14, 27)]
  {
    FirstSentenceMatch();
    SecondSentenceMatch();
    assert Scan(TwoSentences, 27) == [];
    assert Scan(TwoSentences, 14) == [Span(14, 27)];
  }

  lemma SliceTwoSentences()
    ensures Slices(TwoSentences, [Span(0, 14), Span(14, 27)]) == ["Sentence one. ", "Sentence two."]
  {
    var r := Slices(TwoSentences, [Span(0, 14), Span(14, 27)]);
    assert r[0] == TwoSentences[0..14] == "Sentence one. ";
    assert r[1] == TwoSentences[14..27] == "Sentence two.";
  }

  /** Two sentences split after the space that follows the first full stop. */
  lemma SplitTwoSentences()
    ensures SentenceSplit(TwoSentences) == ["Sentence one. ", "Sentence two."]
  {
    ScanTwoSentences();
    SliceTwoSentences();
  }

  lemma TrimSentences()
    ensures Trim("Sentence one. ") == "Sentence one."
    ensures Trim("Sentence two.") == "Sentence two."
  {
    TrimDropsTrailing("Sentence one.", ' ');
    assert "Sentence one." + [' '] == "Sentence one. ";
    TrimKeepsTrimmed("Sentence two.");
  }

  /** Of two sentences, highlighting the first emphasises it and leaves the second plain. */
  lemma MarkFirstOfTwo(a: string, b: string)
    ensures var m := MarkAll([a, b], [0], Markdown);
      |m| == 2 && m[0] == "**__" + Trim(a) + "__**" && m[1] == Trim(b)
  {
    assert 1 !in [0];
  }

  lemma MarkFirstSentence()
    ensures var m := MarkAll(SentenceSplit(TwoSentences), [0], Markdown);
      |m| == 2 && m[0] == "**__" + "Sentence one." + "__**" && m[1] == "Sentence two."
  {
    SplitTwoSentences();
    TrimSentences();
    MarkFirstOfTwo("Sentence one. ", "Sentence two.");
  }

  /** The first sentence highlighted: emphasised in Markdown, the second left plain. */
  lemma HighlightFirstSentence()
    ensures EvidenceText(TwoSentences, [0], Markdown) == "**__" + "Sentence one." + "__**" + " " + "Sentence two."
  {
    MarkFirstSentence();
    var m := MarkAll(SentenceSplit(TwoSentences), [0], Markdown);
    assert Join(m, " ") == m[0] + " " + Join(m[1..], " ");
  }

  const Glued := "a.b. "

  /** The pattern fails at `a` and at `.`, and matches `b. ` at 2. */
  lemma GluedMatches()
    ensures MatchAt(Glued, 0) == None && MatchAt(Glued, 1) == None && MatchAt(Glued, 2) == Some(5)
  {
    assert NonTerminatorRunEnd(Glued, 0) == 1 && TerminatorRunEnd(Glued, 1) == 2;
    assert !IsWhitespace(Glued[2]);
    assert NonTerminatorRunEnd(Glued, 1) == 1;
    assert NoTerminatorsIn(Glued, 2, 3) && OnlyTerminatorsIn(Glued, 3, 4) && IsWhitespace(Glued[4]);
    MatchAtIff(Glued, 2, 5);
  }

  /**
    * Text before a terminator that is not followed by whitespace is dropped:
    * the pieces do not always add up to the input.
    */
  lemma LeadingFragmentDropped()
    ensures SentenceSplit(Glued) == ["b. "]
  {
    GluedMatches();
    assert Scan(Glued, 5) == [];
    assert Scan(Glued, 0) == Scan(Glued, 2) == [Span(2, 5)];
    assert Slices(Glued, [Span(2, 5)])[0] == Glued[2..5] == "b. ";
  }

  const Unpunctuated := "  no stop here  "

  /** Text without terminators comes back as one untrimmed piece. */
  lemma NoTerminatorsUntrimmed()
    ensures SentenceSplit(Unpunctuated) == [Unpunctuated]
  {
    assert NoTerminatorsIn(Unpunctuated, 0, |Unpunctuated|);
    SplitWithoutTerminators(Unpunctuated);
  }

  /** `toAuthorLine("John Smith", "2021-03-15")` */
  lemma AuthorLineOfFullName(author: string, date: string, currentYear: string)
    requires author == "John Smith" && date == "2021-03-15"
    ensures AuthorLine(Some(author), Some(date), currentYear) == "Smith" + " in " + "2021" + " writes,"
  {
    assert "John" + " " + "Smith" == author;
    SurnameAfterLastSpace("John", "Smith");
    assert date[..4] == "2021";
  }

  /** With neither author nor date, the author line falls back to `Author` and the current year. */
  lemma AuthorLineFallback(currentYear: string)
    ensures AuthorLine(None, None, currentYear) == "Author in " + currentYear + " writes,"
  {
  }

  /** A source with every field opens its citation with the author, the quoted title and the site. */
  lemma MlaWebOfFullSource(m: Meta, formatDate: string -> string, today: string)
    requires m == Meta(Some("T"), Some("S"), Some("John Smith"), Some("2021-03-15"), Some("https://example.com"))
    ensures "John Smith" + ". \"" + "T" + ".\" " + "S" + ", " <= MlaWeb(m, formatDate, today)
  {
  }

  /** Checking sentence 1 after 0 and 2 appends it. */
  lemma CheckAppendsLast()
    ensures SetHighlight([0, 2], 1, true) == [0, 2, 1]
  {
    CheckAppends([0, 2], 1);
  }

  /** Unchecking sentence 2 removes it and keeps the others in order. */
  lemma UncheckRemoves()
    ensures SetHighlight([0, 2, 1], 2, false) == [0, 1]
  {
    assert [0] + [2] + [1] == [0, 2, 1];
    UncheckRemovesOnly([0], 2, [1]);
  }
}
