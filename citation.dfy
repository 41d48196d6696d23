/**
  * The two citation helpers of popup.js: the inline author line
  * (`toAuthorLine`) and the MLA web citation (`toMLAWeb`). The clock and the
  * locale are parameters: `currentYear` is the decimal rendering of
  * `new Date().getFullYear()`, `formatDate` is the `en-US` day-month-year
  * rendering of a date string and `today` that rendering of the current date.
  */
module Citation {
  import opened Wrappers
  import opened Text
  import opened Cards

  /**
    * `(date || "").slice(0, 4) || currentYear`: the first four characters of a
    * non-empty date (all of it when shorter), the current year otherwise.
    */
  function Year(date: Option<string>, currentYear: string): (y: string)
    ensures date.Some? && date.value != "" ==>
      y <= date.value && |y| == (if |date.value| < 4 then |date.value| else 4)
    ensures date.None? || date.value == "" ==> y == currentYear
  {
    var head := Prefix(date.GetOr(""), 4);
    if head != "" then head else currentYear
  }

  /**
    * `author?.split(' ').slice(-1)[0] || "Author"`: always one non-empty word
    * without spaces.
    */
  function Surname(author: Option<string>): (r: string)
    ensures r != [] && ' ' !in r
  {
    match author
    case None => "Author"
    case Some(a) =>
      var words := Split(a, ' ');
      var last := words[|words| - 1];
      if last != "" then last else "Author"
  }

  /** The shape of `<n> in <y> writes,` for any name and year. */
  lemma LineShape(n: string, y: string)
    ensures var r := n + " in " + y + " writes,";
      |n| < |r| && r[..|n|] == n && r[|n|] == ' ' && n + " in " <= r
      && EndsWith(r, " in " + y + " writes,") && EndsWith(r, " writes,")
      && |r| == |n| + 4 + |y| + 8
  {
    var r := n + " in " + y + " writes,";
    ConcatEnds(n + " in " + y, " writes,");
    ConcatEnds(n + " in ", y);
    AppendAssoc(n + " in ", y, " writes,");
    AppendAssoc(n, " in ", y + " writes,");
    AppendAssoc(" in ", y, " writes,");
    ConcatEnds(n, " in " + y + " writes,");
    assert r[|n|] == (n + " in ")[|n|];
  }

  /**
    * `toAuthorLine`: `<surname> in <year> writes,`. The first word of the line
    * is the surname, followed by ` in `; the year is the first four characters
    * of a non-empty date, and the current one without a date.
    */
  function AuthorLine(author: Option<string>, date: Option<string>, currentYear: string): (r: string)
    ensures var n := Surname(author); |n| < |r| && r[..|n|] == n && r[|n|] == ' ' && ' ' !in n
    ensures Surname(author) + " in " <= r
    ensures date.Some? && date.value != "" ==> EndsWith(r, " in " + Prefix(date.value, 4) + " writes,")
    ensures EndsWith(r, " writes,")
    ensures date.None? || date.value == "" ==> EndsWith(r, " in " + currentYear + " writes,")
    ensures |r| == |Surname(author)| + 4 + |Year(date, currentYear)| + 8
  {
    var n, y := Surname(author), Year(date, currentYear);
    LineShape(n, y);
    n + " in " + y + " writes,"
  }

  /**
    * The surname is the word after the last space of the author: a non-empty
    * suffix of it without spaces that is all of the author or follows a space.
    * A missing author, an empty one or one ending in a space gives `Author`.
    */
  lemma {:induction false} SurnameIsLastWord(author: Option<string>)
    ensures author.None? || author.value == [] || author.value[|author.value| - 1] == ' '
      ==> Surname(author) == "Author"
    ensures author.Some? && author.value != [] && author.value[|author.value| - 1] != ' '
      ==> var a, n := author.value, Surname(author);
          n != [] && ' ' !in n && |n| <= |a| && n == a[|a| - |n|..]
          && (|n| < |a| ==> a[|a| - |n| - 1] == ' ')
  {
    if author.Some? {
      var a := author.value;
      SplitLast(a, ' ');
    }
  }

  /** An author whose text after its last space is a non-empty word has that word as surname. */
  lemma SurnameAfterLastSpace(first: string, last: string)
    requires last != [] && ' ' !in last
    ensures Surname(Some(first + " " + last)) == last
  {
    var a := first + " " + last;
    SurnameIsLastWord(Some(a));
    var n := Surname(Some(a));
    assert a[|first|] == ' ';
    assert forall j :: |a| - |n| <= j < |a| ==> a[j] == n[j - (|a| - |n|)];
    assert |n| == |last|;
    assert a[|a| - |last|..] == last;
  }

  /** What a template literal prints for a field that may be `undefined`. */
  function Show(v: Option<string>): string {
    v.GetOr("undefined")
  }

  /** The author segment: the author when non-empty, `N.p.` otherwise. */
  function NameSegment(m: Meta): string {
    if m.author.Some? && m.author.value != "" then m.author.value else "N.p."
  }

  /** The date segment: the formatted publication date when non-empty, `n.d.` otherwise. */
  function DateSegment(m: Meta, formatDate: string -> string): string {
    if m.datePublished.Some? && m.datePublished.value != "" then formatDate(m.datePublished.value) else "n.d."
  }

  /** The shape of `<name>. "<title>." <site>, <date>, <url>. Accessed <today>.` for any segments. */
  lemma MlaShape(name: string, title: string, site: string, date: string, url: string, today: string)
    ensures var head, tail := name + ". \"" + title + ".\" " + site + ", ", date + ", " + url + ". Accessed " + today + ".";
      name + ". \"" <= head + tail && head <= head + tail && EndsWith(head + tail, tail)
      && EndsWith(head + tail, ". Accessed " + today + ".")
  {
    var head := name + ". \"" + title + ".\" " + site + ", ";
    var tail := date + ", " + url + ". Accessed " + today + ".";
    var closing := ". Accessed " + today + ".";
    ConcatEnds(head, tail);
    assert head == name + ". \"" + (title + ".\" " + site + ", ");
    ConcatEnds(name + ". \"", title + ".\" " + site + ", ");
    assert tail == date + ", " + url + closing;
    ConcatEnds(date + ", " + url, closing);
    EndsWithTrans(head + tail, tail, closing);
  }

  /**
    * `toMLAWeb`: `<name>. "<title>." <site>, <date>, <url>. Accessed <today>.`
    * The citation opens with the author, or with `N.p.` when there is none (so
    * `N.p.. "`), carries `n.d.` as its date when the date is missing or empty,
    * and always closes with `Accessed <today>.`
    */
  function MlaWeb(m: Meta, formatDate: string -> string, today: string): (r: string)
    ensures m.author.None? || m.author.value == "" ==> "N.p.. \"" <= r
    ensures m.author.Some? && m.author.value != "" ==> m.author.value + ". \"" <= r
    ensures NameSegment(m) + ". \"" + Show(m.title) + ".\" " + Show(m.site) + ", " <= r
    ensures EndsWith(r, DateSegment(m, formatDate) + ", " + Show(m.url) + ". Accessed " + today + ".")
    ensures m.datePublished.None? || m.datePublished.value == "" ==> DateSegment(m, formatDate) == "n.d."
    ensures EndsWith(r, ". Accessed " + today + ".")
    ensures |r| == |NameSegment(m) + ". \"" + Show(m.title) + ".\" " + Show(m.site) + ", "|
      + |DateSegment(m, formatDate) + ", " + Show(m.url) + ". Accessed " + today + "."|
  {
    var name, date := NameSegment(m), DateSegment(m, formatDate);
    MlaShape(name, Show(m.title), Show(m.site), date, Show(m.url), today);
    name + ". \"" + Show(m.title) + ".\" " + Show(m.site) + ", " + (date + ", " + Show(m.url) + ". Accessed " + today + ".")
  }
}
