/**
  * The capture (background.js): the function the context-menu handler injects
  * into the page to read the selection and the page's metadata. The page is a
  * value here: the selection's text, the `content` of the first `<meta>` tag of
  * each name and property, every JSON-LD script already parsed (nothing where
  * `JSON.parse` throws), the document title and the location.
  */
module Metadata {
  import opened Wrappers
  import opened Text
  import opened Seqs
  import opened Cards

  /** A parsed JSON value. */
  datatype Json = JNull | JBool(b: bool) | JNum(n: real) | JStr(s: string) | JArr(elems: seq<Json>)
    | JObj(fields: map<string, Json>)

  /** JavaScript truthiness of a value that may be `undefined` (None). */
  predicate Truthy(v: Option<Json>) {
    match v
    case None => false
    case Some(JNull) => false
    case Some(JBool(b)) => b
    case Some(JNum(n)) => n != 0.0
    case Some(JStr(s)) => s != ""
    case Some(_) => true
  }

  /** `v[key]` for a value that is not null: only objects have the keys read here. */
  function Get(v: Json, key: string): Option<Json> {
    if v.JObj? && key in v.fields then Some(v.fields[key]) else None
  }

  datatype Doc = Doc(
    selection: string,
    metaByName: map<string, string>,
    metaByProperty: map<string, string>,
    ldJson: seq<Option<Json>>,
    title: string,
    hostname: string,
    href: string)

  /**
    * `m(name, prop)`: the content of the `<meta name>` tag when non-empty, else
    * that of the `<meta property>` tag when non-empty, else the empty string.
    */
  function MetaTag(d: Doc, name: string, prop: string): (r: string)
    ensures name in d.metaByName && d.metaByName[name] != "" ==> r == d.metaByName[name]
    ensures !(name in d.metaByName && d.metaByName[name] != "") && prop in d.metaByProperty
      ==> r == d.metaByProperty[prop]
    ensures r == "" <==> ((name !in d.metaByName || d.metaByName[name] == "")
      && (prop !in d.metaByProperty || d.metaByProperty[prop] == ""))
  {
    if name in d.metaByName && d.metaByName[name] != "" then d.metaByName[name]
    else if prop in d.metaByProperty && d.metaByProperty[prop] != "" then d.metaByProperty[prop]
    else ""
  }

  /**
    * `t?.includes?.("Article") || t === "Article"` on an element's `@type`: a
    * string containing `Article`, or an array holding the string `Article`.
    */
  predicate IsArticleType(t: Option<Json>) {
    match t
    case Some(JStr(s)) => Contains(s, "Article")
    case Some(JArr(xs)) => JStr("Article") in xs
    case _ => false
  }

  /**
    * Calling `includes` on an `@type` that is an object throws when the object
    * has a non-null `includes` member (it is not a function).
    */
  predicate CallThrows(t: Option<Json>) {
    t.Some? && t.value.JObj? && "includes" in t.value.fields && t.value.fields["includes"] != JNull
  }

  /** An element `find` passes over without throwing. */
  predicate Passed(e: Json) {
    !Throwing(e) && !IsArticleType(Get(e, "@type"))
  }

  /** The outcome of `find` on a JSON-LD array: it throws, or it yields an element or nothing. */
  datatype Found = Throws | Found(article: Option<Json>)

  /** Reading `@type` of the element throws: it is `null`, or its `includes` is not callable. */
  predicate Throwing(e: Json) {
    e == JNull || CallThrows(Get(e, "@type"))
  }

  /** The element `find` stops at without throwing. */
  predicate IsArticle(e: Json) {
    !Throwing(e) && IsArticleType(Get(e, "@type"))
  }

  /** `find` passes over every element before index `k`. */
  predicate PassedBefore(elems: seq<Json>, k: nat)
    requires k <= |elems|
  {
    forall j :: 0 <= j < k ==> Passed(elems[j])
  }

  /**
    * `obj.find(o => …)`: the first element whose `@type` names an article. Reading
    * `@type` of a `null` element throws, as does a non-callable `includes`.
    */
  function FindArticle(elems: seq<Json>): (r: Found)
    ensures r.Found? && r.article.Some? ==>
      exists k :: 0 <= k < |elems| && elems[k] == r.article.value && IsArticle(elems[k]) && PassedBefore(elems, k)
    ensures forall k :: 0 <= k < |elems| && IsArticle(elems[k]) && PassedBefore(elems, k) ==> r == Found(Some(elems[k]))
    ensures r == Throws <==> exists k :: 0 <= k < |elems| && Throwing(elems[k]) && PassedBefore(elems, k)
    ensures r == Found(None) <==> PassedBefore(elems, |elems|)
  {
    if elems == [] then Found(None)
    else if Throwing(elems[0]) then Throws
    else if IsArticleType(Get(elems[0], "@type")) then Found(Some(elems[0]))
    else
      var rest := elems[1..];
      var r := FindArticle(rest);
      assert forall i :: 0 <= i < |rest| ==> rest[i] == elems[i + 1];
      assert forall k :: 0 <= k < |rest| ==> (PassedBefore(rest, k) <==> PassedBefore(elems, k + 1));
      assert forall k :: 1 <= k <= |elems| ==> (PassedBefore(elems, k) <==> PassedBefore(rest, k - 1));
      r
  }

  /** An article contributes when it is an object with a truthy `datePublished`, `author` or `headline`. */
  predicate Contributes(a: Json) {
    a.JObj? && (Truthy(Get(a, "datePublished")) || Truthy(Get(a, "author")) || Truthy(Get(a, "headline")))
  }

  /**
    * What one JSON-LD script contributes: the article it describes (the value
    * itself, or the article found in an array) when that has a truthy
    * `datePublished`, `author` or `headline`. A script that does not parse, or
    * whose search throws, contributes nothing.
    */
  function Accept(blob: Option<Json>): (r: Option<map<string, Json>>)
    ensures r.Some? ==> (Truthy(Get(JObj(r.value), "datePublished")) || Truthy(Get(JObj(r.value), "author"))
      || Truthy(Get(JObj(r.value), "headline")))
    ensures blob.None? ==> r.None?
    ensures blob.Some? && !blob.value.JArr? ==>
      (r.Some? <==> Contributes(blob.value)) && (r.Some? ==> r.value == blob.value.fields)
    ensures blob.Some? && blob.value.JArr? ==> var f := FindArticle(blob.value.elems);
      (r.Some? <==> f.Found? && f.article.Some? && Contributes(f.article.value))
      && (r.Some? ==> r.value == f.article.value.fields)
  {
    match blob
    case None => None
    case Some(obj) =>
      var art := if obj.JArr? then FindArticle(obj.elems) else Found(Some(obj));
      match art
      case Throws => None
      case Found(None) => None
      case Found(Some(a)) => if Contributes(a) then Some(a.fields) else None
  }

  /**
    * The JSON-LD the capture uses: that of the first script that contributes one,
    * `{}` if none does.
    */
  function FirstAccepted(blobs: seq<Option<Json>>): (r: map<string, Json>)
    ensures r == map[] <==> forall k :: 0 <= k < |blobs| ==> Accept(blobs[k]).None?
    ensures r != map[] ==>
      exists k :: 0 <= k < |blobs| && Accept(blobs[k]) == Some(r) && forall j :: 0 <= j < k ==> Accept(blobs[j]).None?
  {
    if blobs == [] then map[]
    else match Accept(blobs[0])
      case Some(a) =>
        assert "datePublished" in a || "author" in a || "headline" in a;
        a
      case None =>
        var rest := blobs[1..];
        var r := FirstAccepted(rest);
        assert forall i :: 0 <= i < |rest| ==> rest[i] == blobs[i + 1];
        assert forall i :: 1 <= i < |blobs| ==> blobs[i] == rest[i - 1];
        r
  }

  /**
    * The first-wins rule: the JSON-LD used is that of script `k` when script `k`
    * contributes it and no earlier script contributes anything, whatever
    * scripts follow it.
    */
  lemma {:induction false} FirstAcceptedIsFirst(blobs: seq<Option<Json>>, k: nat, later: seq<Option<Json>>)
    requires k < |blobs| && Accept(blobs[k]).Some?
    requires forall j :: 0 <= j < k ==> Accept(blobs[j]).None?
    ensures FirstAccepted(blobs) == Accept(blobs[k]).value
    ensures FirstAccepted(blobs[..k + 1] + later) == Accept(blobs[k]).value
  {
    var more := blobs[..k + 1] + later;
    assert more[0] == blobs[0];
    if k > 0 {
      assert more[1..] == blobs[1..][..k] + later;
      FirstAcceptedIsFirst(blobs[1..], k - 1, later);
    }
  }

  /** When no script contributes, the JSON-LD used is the empty object. */
  lemma {:induction false} NoneAccepted(blobs: seq<Option<Json>>)
    ensures FirstAccepted(blobs) == map[] <== forall j :: 0 <= j < |blobs| ==> Accept(blobs[j]).None?
  {
    if blobs != [] && forall j :: 0 <= j < |blobs| ==> Accept(blobs[j]).None? {
      assert forall j :: 0 <= j < |blobs[1..]| ==> blobs[1..][j] == blobs[j + 1];
      NoneAccepted(blobs[1..]);
    }
  }

  /** Scripts that do not parse are passed over: dropping all of them changes nothing. */
  lemma {:induction false} UnparseableIgnored(blobs: seq<Option<Json>>)
    ensures FirstAccepted(blobs) == FirstAccepted(Filter(blobs, (b: Option<Json>) => b.Some?))
  {
    if blobs != [] {
      UnparseableIgnored(blobs[1..]);
      var rest := Filter(blobs[1..], (b: Option<Json>) => b.Some?);
      if blobs[0].Some? {
        assert Filter(blobs, (b: Option<Json>) => b.Some?) == [blobs[0]] + rest;
        assert ([blobs[0]] + rest)[1..] == rest;
      }
    }
  }

  /**
    * The capture's loop over the JSON-LD scripts: keep the first contribution
    * and stop there.
    */
  method ScanJsonLd(blobs: seq<Option<Json>>) returns (jsonld: map<string, Json>)
    ensures jsonld == FirstAccepted(blobs)
  {
    jsonld := map[];
    var i := 0;
    while i < |blobs|
      invariant 0 <= i <= |blobs|
      invariant jsonld == map[]
      invariant FirstAccepted(blobs) == FirstAccepted(blobs[i..])
    {
      assert blobs[i..][1..] == blobs[i + 1..];
      var accepted := Accept(blobs[i]);
      if accepted.Some? {
        jsonld := accepted.value;
        break;
      }
      i := i + 1;
    }
  }

  /**
    * JavaScript's `a || b || … || z`: the first truthy value, or the last value
    * when none is truthy.
    */
  function Or(vs: seq<Option<Json>>): (r: Option<Json>)
    requires vs != []
    ensures r in vs
    ensures vs[|vs| - 1].Some? ==> r.Some?
    ensures forall k :: (0 <= k < |vs| && Truthy(vs[k]) && (forall j :: 0 <= j < k ==> !Truthy(vs[j]))
      ==> r == vs[k])
    ensures (forall k :: 0 <= k < |vs| ==> !Truthy(vs[k])) ==> r == vs[|vs| - 1]
  {
    if |vs| == 1 || Truthy(vs[0]) then vs[0]
    else
      var rest := vs[1..];
      var r := Or(rest);
      assert forall k :: 1 <= k < |vs| ==> rest[k - 1] == vs[k];
      forall k | 1 <= k < |vs| && Truthy(vs[k]) && (forall j :: 0 <= j < k ==> !Truthy(vs[j]))
        ensures r == vs[k]
      {
        assert forall j :: 0 <= j < k - 1 ==> !Truthy(rest[j]) by {
          forall j | 0 <= j < k - 1 ensures !Truthy(rest[j]) {
            assert rest[j] == vs[j + 1];
          }
        }
      }
      r
  }

  function Str(s: string): Option<Json> {
    Some(JStr(s))
  }

  /** The metadata as the capture returns it: any JSON value the page supplied passes through. */
  datatype Resolved = Resolved(title: Json, site: Json, author: Json, datePublished: Json, url: string)

  /**
    * `(jsonld.author && (jsonld.author.name || jsonld.author))`: the author's
    * truthy `name`, else the author itself (which is falsy when there is none).
    */
  function JsonLdAuthor(jsonld: Json): (r: Option<Json>)
    ensures var a := Get(jsonld, "author");
      r == if Truthy(a) && Truthy(Get(a.value, "name")) then Get(a.value, "name") else a
  {
    var a := Get(jsonld, "author");
    if Truthy(a) then Or([Get(a.value, "name"), a]) else a
  }

  function TitleChain(d: Doc, jsonld: Json): seq<Option<Json>> {
    [Get(jsonld, "headline"), Str(MetaTag(d, "og:title", "og:title")), Str(d.title)]
  }

  function SiteChain(d: Doc): seq<Option<Json>> {
    [Str(MetaTag(d, "og:site_name", "og:site_name")), Str(d.hostname)]
  }

  function AuthorChain(d: Doc, jsonld: Json): seq<Option<Json>> {
    [JsonLdAuthor(jsonld), Str(MetaTag(d, "author", "article:author")), Str("")]
  }

  function DateChain(d: Doc, jsonld: Json): seq<Option<Json>> {
    [Get(jsonld, "datePublished"), Str(MetaTag(d, "article:published_time", "article:published_time")), Str("")]
  }

  /** The injected function's result, as written: `{ text, meta }`. */
  function Resolve(d: Doc): (r: (string, Resolved))
    ensures r.0 == d.selection && r.1.url == d.href
  {
    var jsonld := JObj(FirstAccepted(d.ldJson));
    var title := Or(TitleChain(d, jsonld));
    var site := Or(SiteChain(d));
    var author := Or(AuthorChain(d, jsonld));
    var date := Or(DateChain(d, jsonld));
    (d.selection, Resolved(title.value, site.value, author.value, date.value, d.href))
  }

  /** The injected function itself: the scan over the scripts, then the fallbacks. */
  method CaptureAsWritten(d: Doc) returns (text: string, meta: Resolved)
    ensures (text, meta) == Resolve(d)
  {
    var found := ScanJsonLd(d.ldJson);
    var jsonld := JObj(found);
    text := d.selection;
    meta := Resolved(Or(TitleChain(d, jsonld)).value, Or(SiteChain(d)).value,
      Or(AuthorChain(d, jsonld)).value, Or(DateChain(d, jsonld)).value, d.href);
  }

  /**
    * Title precedence: the JSON-LD headline when truthy, else a non-empty
    * `og:title`, else the document title.
    */
  lemma TitlePrecedence(d: Doc)
    ensures var jsonld := JObj(FirstAccepted(d.ldJson)); var h := Get(jsonld, "headline");
      var og := MetaTag(d, "og:title", "og:title");
      Resolve(d).1.title == if Truthy(h) then h.value else if og != "" then JStr(og) else JStr(d.title)
  {
    TitleChainPicks(d, JObj(FirstAccepted(d.ldJson)));
  }

  lemma TitleChainPicks(d: Doc, jsonld: Json)
    ensures var h := Get(jsonld, "headline"); var og := MetaTag(d, "og:title", "og:title");
      Or(TitleChain(d, jsonld)) == if Truthy(h) then h else if og != "" then Str(og) else Str(d.title)
  {
    var vs := TitleChain(d, jsonld);
    assert Truthy(vs[1]) <==> MetaTag(d, "og:title", "og:title") != "";
  }

  /** Site precedence: a non-empty `og:site_name`, else the host name. */
  lemma SitePrecedence(d: Doc)
    ensures var og := MetaTag(d, "og:site_name", "og:site_name");
      Resolve(d).1.site == if og != "" then JStr(og) else JStr(d.hostname)
  {
    var vs := SiteChain(d);
    assert Truthy(vs[0]) <==> MetaTag(d, "og:site_name", "og:site_name") != "";
  }

  /**
    * Author precedence: the JSON-LD author's truthy `name`, else the JSON-LD
    * author itself when truthy, else a non-empty `author`/`article:author`
    * meta tag, else the empty string.
    */
  lemma AuthorPrecedence(d: Doc)
    ensures var jsonld := JObj(FirstAccepted(d.ldJson)); var a := Get(jsonld, "author");
      var tag := MetaTag(d, "author", "article:author");
      Resolve(d).1.author ==
        if Truthy(a) && Truthy(Get(a.value, "name")) then Get(a.value, "name").value
        else if Truthy(a) then a.value
        else if tag != "" then JStr(tag)
        else JStr("")
  {
    AuthorChainPicks(d, JObj(FirstAccepted(d.ldJson)));
  }

  lemma AuthorChainPicks(d: Doc, jsonld: Json)
    ensures var a := Get(jsonld, "author"); var tag := MetaTag(d, "author", "article:author");
      Or(AuthorChain(d, jsonld)) ==
        if Truthy(a) && Truthy(Get(a.value, "name")) then Get(a.value, "name")
        else if Truthy(a) then a
        else if tag != "" then Str(tag)
        else Str("")
  {
    var vs := AuthorChain(d, jsonld);
    assert Truthy(vs[1]) <==> MetaTag(d, "author", "article:author") != "";
    var a := Get(jsonld, "author");
    if Truthy(a) {
      var inner := [Get(a.value, "name"), a];
      assert Truthy(Or(inner));
    }
  }

  /**
    * Date precedence: the JSON-LD `datePublished` when truthy, else a non-empty
    * `article:published_time` meta tag, else the empty string.
    */
  lemma DatePrecedence(d: Doc)
    ensures var jsonld := JObj(FirstAccepted(d.ldJson)); var p := Get(jsonld, "datePublished");
      var tag := MetaTag(d, "article:published_time", "article:published_time");
      Resolve(d).1.datePublished == if Truthy(p) then p.value else if tag != "" then JStr(tag) else JStr("")
  {
    DateChainPicks(d, JObj(FirstAccepted(d.ldJson)));
  }

  lemma DateChainPicks(d: Doc, jsonld: Json)
    ensures var p := Get(jsonld, "datePublished");
      var tag := MetaTag(d, "article:published_time", "article:published_time");
      Or(DateChain(d, jsonld)) == if Truthy(p) then p else if tag != "" then Str(tag) else Str("")
  {
    var vs := DateChain(d, jsonld);
    assert Truthy(vs[1]) <==> MetaTag(d, "article:published_time", "article:published_time") != "";
  }

  /**
    * With no JSON-LD accepted, every field comes from the meta tags and the
    * document: title from `og:title` or the document title, author and date from
    * their meta tags or the empty string.
    */
  lemma NoJsonLdFallsBack(d: Doc)
    requires FirstAccepted(d.ldJson) == map[]
    ensures var og := MetaTag(d, "og:title", "og:title");
      Resolve(d).1.title == if og != "" then JStr(og) else JStr(d.title)
    ensures Resolve(d).1.author == JStr(MetaTag(d, "author", "article:author"))
    ensures Resolve(d).1.datePublished == JStr(MetaTag(d, "article:published_time", "article:published_time"))
  {
    TitlePrecedence(d);
    AuthorPrecedence(d);
    DatePrecedence(d);
  }

  /** A value the rest of the extension can treat as text: a string, or nothing. */
  function AsText(v: Option<Json>): (r: Option<Json>)
    ensures r.Some? ==> r.value.JStr?
    ensures v.Some? && v.value.JStr? ==> r == v
  {
    if v.Some? && v.value.JStr? then v else None
  }

  /** The author's `name` when the JSON-LD author is truthy. */
  function JsonLdAuthorName(jsonld: Json): Option<Json> {
    var a := Get(jsonld, "author");
    if Truthy(a) then Get(a.value, "name") else None
  }

  function TextTitleChain(d: Doc, jsonld: Json): seq<Option<Json>> {
    [AsText(Get(jsonld, "headline")), Str(MetaTag(d, "og:title", "og:title")), Str(d.title)]
  }

  function TextAuthorChain(d: Doc, jsonld: Json): seq<Option<Json>> {
    [AsText(JsonLdAuthorName(jsonld)), AsText(Get(jsonld, "author")), Str(MetaTag(d, "author", "article:author")), Str("")]
  }

  function TextDateChain(d: Doc, jsonld: Json): seq<Option<Json>> {
    [AsText(Get(jsonld, "datePublished")), Str(MetaTag(d, "article:published_time", "article:published_time")), Str("")]
  }

  /** The text of a value known to be a string. */
  function TextOf(v: Json): string {
    if v.JStr? then v.s else ""
  }

  /**
    * The capture with every metadata field kept as text: a JSON-LD value that is
    * not a string (an array of authors, an object, a number) is passed over
    * like a missing one, so the next source in the chain supplies the field.
    */
  function ResolveText(d: Doc): (r: Meta)
    ensures r.title.Some? && r.site.Some? && r.author.Some? && r.datePublished.Some? && r.url == Some(d.href)
  {
    var jsonld := JObj(FirstAccepted(d.ldJson));
    Meta(Some(TextOf(Or(TextTitleChain(d, jsonld)).value)), Some(TextOf(Or(SiteChain(d)).value)),
      Some(TextOf(Or(TextAuthorChain(d, jsonld)).value)), Some(TextOf(Or(TextDateChain(d, jsonld)).value)),
      Some(d.href))
  }

  /** Where the capture as written yields a string title, the text capture yields the same title. */
  lemma TitleAgrees(d: Doc)
    ensures Resolve(d).1.title.JStr? ==> ResolveText(d).title == Some(Resolve(d).1.title.s)
  {
    TitleChainsAgree(d, JObj(FirstAccepted(d.ldJson)));
  }

  lemma TitleChainsAgree(d: Doc, jsonld: Json)
    ensures var w := Or(TitleChain(d, jsonld)); w.value.JStr? ==> Or(TextTitleChain(d, jsonld)) == w
  {
    var tv := TextTitleChain(d, jsonld);
    var tw := TitleChain(d, jsonld);
    assert tv[1..] == tw[1..];
    assert Truthy(tv[0]) ==> tv[0] == tw[0];
  }

  /** The site needs no correction: both captures take it from the same strings. */
  lemma SiteAgrees(d: Doc)
    ensures Resolve(d).1.site.JStr? && ResolveText(d).site == Some(Resolve(d).1.site.s)
  {
  }

  /** Where the capture as written yields a string author, the text capture yields the same author. */
  lemma AuthorAgrees(d: Doc)
    ensures Resolve(d).1.author.JStr? ==> ResolveText(d).author == Some(Resolve(d).1.author.s)
  {
    AuthorChainsAgree(d, JObj(FirstAccepted(d.ldJson)));
  }

  /** The two author chains pick the same value whenever the first picks a string. */
  lemma AuthorChainsAgree(d: Doc, jsonld: Json)
    ensures var w := Or(AuthorChain(d, jsonld)); w.value.JStr? ==> Or(TextAuthorChain(d, jsonld)) == w
  {
    var a := Get(jsonld, "author");
    var tv := TextAuthorChain(d, jsonld);
    var tw := AuthorChain(d, jsonld);
    if Truthy(a) {
      var name := Get(a.value, "name");
      if Truthy(name) {
        assert tw[0] == name;
        assert Or(tw) == name;
        assert name.value.JStr? ==> tv[0] == name;
      } else {
        assert tw[0] == a;
        assert Or(tw) == a;
        assert !Truthy(tv[0]);
        assert a.value.JStr? ==> tv[1] == a;
      }
    } else {
      assert !Truthy(tw[0]) && !Truthy(tv[0]) && !Truthy(tv[1]);
      assert tv[2..] == tw[1..];
      assert Truthy(tw[1]) ==> Or(tw) == tw[1] && Or(tv) == tv[2];
      assert !Truthy(tw[1]) ==> Or(tw) == tw[2] && Or(tv) == tv[3];
    }
  }

  /** Where the capture as written yields a string date, the text capture yields the same date. */
  lemma DateAgrees(d: Doc)
    ensures Resolve(d).1.datePublished.JStr? ==> ResolveText(d).datePublished == Some(Resolve(d).1.datePublished.s)
  {
    DateChainsAgree(d, JObj(FirstAccepted(d.ldJson)));
  }

  lemma DateChainsAgree(d: Doc, jsonld: Json)
    ensures var w := Or(DateChain(d, jsonld)); w.value.JStr? ==> Or(TextDateChain(d, jsonld)) == w
  {
    var tv := TextDateChain(d, jsonld);
    var tw := DateChain(d, jsonld);
    assert tv[1..] == tw[1..];
    assert Truthy(tv[0]) ==> tv[0] == tw[0];
  }

  /** A value the text capture takes: a non-empty string. */
  predicate NonEmptyStr(v: Option<Json>) {
    v.Some? && v.value.JStr? && v.value.s != ""
  }

  /**
    * Text title precedence: the JSON-LD headline when it is a non-empty string,
    * else a non-empty `og:title`, else the document title. A headline of any
    * other type is passed over like a missing one.
    */
  lemma TextTitlePrecedence(d: Doc)
    ensures var h := Get(JObj(FirstAccepted(d.ldJson)), "headline");
      var og := MetaTag(d, "og:title", "og:title");
      ResolveText(d).title == Some(if NonEmptyStr(h) then h.value.s else if og != "" then og else d.title)
  {
    TextTitleChainPicks(d, JObj(FirstAccepted(d.ldJson)));
  }

  lemma TextTitleChainPicks(d: Doc, jsonld: Json)
    ensures var h := Get(jsonld, "headline"); var og := MetaTag(d, "og:title", "og:title");
      Or(TextTitleChain(d, jsonld)) == if NonEmptyStr(h) then h else if og != "" then Str(og) else Str(d.title)
  {
    var vs := TextTitleChain(d, jsonld);
    assert Truthy(vs[0]) <==> NonEmptyStr(Get(jsonld, "headline"));
    assert Truthy(vs[1]) <==> MetaTag(d, "og:title", "og:title") != "";
  }

  /**
    * Text author precedence: the JSON-LD author's `name` when it is a non-empty
    * string, else the author itself when it is a non-empty string, else a
    * non-empty `author`/`article:author` meta tag, else the empty string. An
    * author list, an author object without a string name, or a number is passed
    * over like a missing one.
    */
  lemma TextAuthorPrecedence(d: Doc)
    ensures var a := Get(JObj(FirstAccepted(d.ldJson)), "author");
      var tag := MetaTag(d, "author", "article:author");
      ResolveText(d).author == Some(
        if Truthy(a) && NonEmptyStr(Get(a.value, "name")) then Get(a.value, "name").value.s
        else if NonEmptyStr(a) then a.value.s
        else if tag != "" then tag
        else "")
  {
    TextAuthorChainPicks(d, JObj(FirstAccepted(d.ldJson)));
  }

  lemma TextAuthorChainPicks(d: Doc, jsonld: Json)
    ensures var a := Get(jsonld, "author"); var tag := MetaTag(d, "author", "article:author");
      Or(TextAuthorChain(d, jsonld)) ==
        if Truthy(a) && NonEmptyStr(Get(a.value, "name")) then Get(a.value, "name")
        else if NonEmptyStr(a) then a
        else if tag != "" then Str(tag)
        else Str("")
  {
    var a := Get(jsonld, "author");
    var vs := TextAuthorChain(d, jsonld);
    assert Truthy(vs[0]) <==> Truthy(a) && NonEmptyStr(Get(a.value, "name"));
    assert Truthy(vs[1]) <==> NonEmptyStr(a);
    assert Truthy(vs[2]) <==> MetaTag(d, "author", "article:author") != "";
  }

  /**
    * Text date precedence: the JSON-LD `datePublished` when it is a non-empty
    * string, else a non-empty `article:published_time`, else the empty string.
    */
  lemma TextDatePrecedence(d: Doc)
    ensures var p := Get(JObj(FirstAccepted(d.ldJson)), "datePublished");
      var tag := MetaTag(d, "article:published_time", "article:published_time");
      ResolveText(d).datePublished == Some(if NonEmptyStr(p) then p.value.s else if tag != "" then tag else "")
  {
    TextDateChainPicks(d, JObj(FirstAccepted(d.ldJson)));
  }

  lemma TextDateChainPicks(d: Doc, jsonld: Json)
    ensures var p := Get(jsonld, "datePublished");
      var tag := MetaTag(d, "article:published_time", "article:published_time");
      Or(TextDateChain(d, jsonld)) == if NonEmptyStr(p) then p else if tag != "" then Str(tag) else Str("")
  {
    var vs := TextDateChain(d, jsonld);
    assert Truthy(vs[0]) <==> NonEmptyStr(Get(jsonld, "datePublished"));
    assert Truthy(vs[1]) <==> MetaTag(d, "article:published_time", "article:published_time") != "";
  }

  /** A JSON-LD author list: one `Person` object with a name. */
  const AuthorList := JArr([JObj(map["@type" := JStr("Person"), "name" := JStr("Jane Doe")])])

  const AuthorListArticle := map["@type" := JStr("NewsArticle"), "author" := AuthorList]

  /** A news article page whose JSON-LD lists its authors as an array of `Person` objects. */
  const AuthorListPage := Doc("Some text.", map[], map[], [Some(JObj(AuthorListArticle))],
    "Page", "example.com", "https://example.com/a")

  /** The page's one script is an article with a truthy author, so it is the JSON-LD used. */
  lemma AuthorListAccepted()
    ensures FirstAccepted(AuthorListPage.ldJson) == AuthorListArticle
  {
    assert Truthy(Get(JObj(AuthorListArticle), "author"));
    assert Accept(AuthorListPage.ldJson[0]) == Some(AuthorListArticle);
  }

  /**
    * As written, the capture hands such a page's author array on as the author,
    * where the popup expects a string; the text capture passes over it and,
    * with no author meta tag, falls back to the empty string.
    */
  lemma AuthorListPassesThrough()
    ensures Resolve(AuthorListPage).1.author == AuthorList
    ensures ResolveText(AuthorListPage).author == Some("")
  {
    AuthorListAccepted();
    AuthorListChains(AuthorListPage, JObj(AuthorListArticle));
  }

  /** The author chains of the example page, with its JSON-LD as a parameter. */
  lemma AuthorListChains(d: Doc, jsonld: Json)
    requires d == AuthorListPage && jsonld == JObj(AuthorListArticle)
    ensures Or(AuthorChain(d, jsonld)) == Some(AuthorList)
    ensures Or(TextAuthorChain(d, jsonld)) == Str("")
  {
    assert Get(jsonld, "author") == Some(AuthorList) && Get(AuthorList, "name") == None;
    AuthorChainPicks(d, jsonld);
    var tv := TextAuthorChain(d, jsonld);
    assert !Truthy(tv[0]) && !Truthy(tv[1]) && !Truthy(tv[2]);
  }

  /**
    * What the capture stores in the draft slot for the popup: the selection and
    * the text capture of the metadata, whose fields agree with the capture as
    * written wherever that yields a string.
    */
  function CapturePayload(d: Doc): (p: Payload)
    ensures p.text == Some(d.selection) && p.meta.Some? && p.meta.value.url == Some(d.href)
    ensures p.meta == Some(ResolveText(d))
  {
    Payload(Some(d.selection), Some(ResolveText(d)))
  }
}
