/** `BlogService.parseRSS` and its helpers `stripHtml` and
    `extractImageFromContent`: from a parsed feed document to the list of
    articles, one per `item`, each field found through its fallback chain. */
module BlogService {
  import opened Wrappers
  import opened Dom
  import opened Decimal
  import opened Articles
  import ImgPattern

  const ExcerptLength: nat := 200
  const DefaultTitle: string := "Untitled"
  const DefaultAuthor: string := "codecentric Team"
  const DefaultUrl: string := "#"
  const IdPrefix: string := "article-"
  const PlaceholderPrefix: string := "https://picsum.photos/seed/"
  const PlaceholderSuffix: string := "/400/250"

  const Thumbnail: Selector := Type("media:thumbnail")
  const MediaContent: Selector := Type("media:content")
  const ImageEnclosure: Selector := TypeWithAttrPrefix("enclosure", "type", "image")

  /** A string-or-missing value is truthy in JavaScript when it is present and
      not the empty string. */
  predicate Truthy(x: Option<string>) { x.Some? && x.value != "" }

  /** `x || y` where both sides may be missing. */
  function OrElse(x: Option<string>, y: Option<string>): (r: Option<string>)
    ensures Truthy(x) ==> r == x
    ensures !Truthy(x) ==> r == y
    ensures Truthy(r) <==> Truthy(x) || Truthy(y)
  {
    if Truthy(x) then x else y
  }

  /** `x || d` with a string default `d`. */
  function OrDefault(x: Option<string>, d: string): (r: string)
    ensures Truthy(x) ==> r == x.value
    ensures !Truthy(x) ==> r == d
    ensures d != "" ==> r != ""
  {
    if Truthy(x) then x.value else d
  }

  /** `item.querySelector(tag)?.textContent`: the text of a descendant with
      that name, missing when there is none. */
  function TextOf(item: Element, tag: string): (r: Option<string>)
    ensures r.Some? ==> exists d :: d in Descendants(item) && d.name == tag && d.text == r
    ensures (forall d :: d in Descendants(item) ==> d.name != tag) ==> r.None?
  {
    var e := QuerySelector(item, Type(tag));
    if e.Some? then e.value.text else None
  }

  /** `s.substring(0, n)`. */
  function Substring0(s: string, n: nat): (r: string)
    ensures r <= s
    ensures |r| == if |s| <= n then |s| else n
  {
    if |s| <= n then s else s[..n]
  }

  /** `stripHtml(html)`: `renderText` stands for what the browser reads back
      from a detached `div` whose `innerHTML` is `html` (tags removed,
      entities decoded); the result is cut to its first 200 characters
      (Unicode scalar values). */
  function StripHtml(renderText: string -> string, html: string): (r: string)
    ensures |r| <= ExcerptLength
    ensures r <= renderText(html)
    ensures |renderText(html)| <= ExcerptLength ==> r == renderText(html)
    ensures |renderText(html)| >= ExcerptLength ==> |r| == ExcerptLength
  {
    Substring0(renderText(html), ExcerptLength)
  }

  /** `element.getAttribute('url') || undefined`: a non-empty `url` attribute
      value, missing when there is no `url` attribute or it is empty. */
  function UrlOf(e: Element): (r: Option<string>)
    ensures r.Some? ==> r.value != "" && Attr("url", r.value) in e.attrs
    ensures r.None? <==> (forall a :: a in e.attrs ==> a.name != "url") || GetAttribute(e, "url") == Some("")
  {
    var u := GetAttribute(e, "url");
    if Truthy(u) then u else None
  }

  /** The text the regular expression scans: the `content:encoded` text when
      non-empty, else the `description` text when non-empty, else empty. */
  function ScannedText(item: Element): (r: string)
    ensures Truthy(TextOf(item, "content:encoded")) ==> r == TextOf(item, "content:encoded").value
    ensures !Truthy(TextOf(item, "content:encoded")) && Truthy(TextOf(item, "description")) ==>
              r == TextOf(item, "description").value
    ensures !Truthy(TextOf(item, "content:encoded")) && !Truthy(TextOf(item, "description")) ==>
              r == ""
  {
    OrDefault(OrElse(TextOf(item, "content:encoded"), TextOf(item, "description")), "")
  }

  /** `extractImageFromContent(item)`: the first present kind of element among
      `media:thumbnail`, `media:content` and an image `enclosure` decides, even
      when it has no `url`; only when none is present is the text scanned. */
  function ExtractImageFromContent(item: Element): (r: Option<string>)
    ensures r.Some? ==> r.value != ""
  {
    var thumbnail := QuerySelector(item, Thumbnail);
    if thumbnail.Some? then UrlOf(thumbnail.value)
    else
      var media := QuerySelector(item, MediaContent);
      if media.Some? then UrlOf(media.value)
      else
        var enclosure := QuerySelector(item, ImageEnclosure);
        if enclosure.Some? then UrlOf(enclosure.value)
        else
          ImgPattern.FirstImgSrc(ScannedText(item))
  }

  /** The placeholder image for the item at `index`: the picsum address with
      the index, readable back from it, as the seed. */
  function PlaceholderImage(index: nat): (r: string)
    ensures PlaceholderPrefix <= r
    ensures |r| > |PlaceholderPrefix| + |PlaceholderSuffix|
    ensures r[|r| - |PlaceholderSuffix|..] == PlaceholderSuffix
    ensures var seed := r[|PlaceholderPrefix|..|r| - |PlaceholderSuffix|];
      IsDigits(seed) && DigitsValue(seed) == index
  {
    var n := NatToString(index);
    var r := PlaceholderPrefix + n + PlaceholderSuffix;
    assert r[|PlaceholderPrefix|..|r| - |PlaceholderSuffix|] == n;
    DigitsValueOfNatToString(index);
    r
  }

  /** The texts of the `category` elements, `''` for a missing text. */
  function CategoryTexts(cats: seq<Element>): (r: seq<string>)
    ensures |r| == |cats|
  {
    seq(|cats|, k requires 0 <= k < |cats| => OrDefault(cats[k].text, ""))
  }

  /** The `map` callback of `parseRSS`: the article for `item` at `index`.
      Every field has a value: the strings are non-empty (the excerpt aside,
      which is at most 200 units), and the image and categories are present. */
  function NormalizeItem(renderText: string -> string, item: Element, index: nat): (a: Article)
    ensures a.id != "" && a.title != "" && a.author != "" && a.url != ""
    ensures |a.excerpt| <= ExcerptLength
    ensures a.featuredImage.Some? && a.featuredImage.value != ""
    ensures a.categories.Some?
    ensures a.categories.value == CategoryTexts(QuerySelectorAll(item, Type("category")))
  {
    var pubDate := TextOf(item, "pubDate");
    Article(
      id := OrDefault(TextOf(item, "guid"), IdPrefix + NatToString(index)),
      title := OrDefault(TextOf(item, "title"), DefaultTitle),
      author := OrDefault(OrElse(TextOf(item, "author"), TextOf(item, "dc:creator")), DefaultAuthor),
      publishDate := if Truthy(pubDate) then PubDateText(pubDate.value) else CallTime,
      excerpt := StripHtml(renderText, OrDefault(TextOf(item, "description"), "")),
      url := OrDefault(TextOf(item, "link"), DefaultUrl),
      featuredImage := Some(OrDefault(ExtractImageFromContent(item), PlaceholderImage(index))),
      categories := Some(CategoryTexts(QuerySelectorAll(item, Type("category")))))
  }

  /** `xmlDoc.querySelectorAll('item')`: the `item` elements of the document,
      in document order. */
  function Items(doc: Document): (r: seq<Element>)
    ensures forall x :: x in r <==> x in DocumentOrder(doc) && x.name == "item"
  {
    DocQuerySelectorAll(doc, Type("item"))
  }

  /** `parseRSS` on the document the parser produced: no articles when the
      document holds a `parsererror` element, else one per `item`. */
  function ParseRss(renderText: string -> string, doc: Document): (r: seq<Article>)
    ensures r == [] || |r| == |Items(doc)|
    ensures forall k :: 0 <= k < |r| ==> r[k] == NormalizeItem(renderText, Items(doc)[k], k)
  {
    if DocQuerySelector(doc, Type("parsererror")).Some? then []
    else
      var items := Items(doc);
      seq(|items|, k requires 0 <= k < |items| => NormalizeItem(renderText, items[k], k))
  }

  /** The document holds the error element a failed XML parse leaves. */
  ghost predicate HasParserError(doc: Document)
  {
    exists k :: 0 <= k < |DocumentOrder(doc)| && DocumentOrder(doc)[k].name == "parsererror"
  }

  // ---------------------------------------------------------------------
  // The list of articles

  /** A parse error anywhere in the document yields no articles. */
  lemma ParseErrorYieldsNoArticles(renderText: string -> string, doc: Document)
    requires HasParserError(doc)
    ensures ParseRss(renderText, doc) == []
  {
    var k :| 0 <= k < |DocumentOrder(doc)| && DocumentOrder(doc)[k].name == "parsererror";
    assert Matches(Type("parsererror"), DocumentOrder(doc)[k]);
  }

  /** Without a parse error there is exactly one article per `item` element,
      in document order, and the k-th is built from the k-th item with index k. */
  lemma OneArticlePerItem(renderText: string -> string, doc: Document)
    requires !HasParserError(doc)
    ensures |ParseRss(renderText, doc)| == |Items(doc)|
    ensures forall k :: 0 <= k < |Items(doc)| ==>
              Items(doc)[k].name == "item" && Items(doc)[k] in DocumentOrder(doc)
              && ParseRss(renderText, doc)[k] == NormalizeItem(renderText, Items(doc)[k], k)
  {
    forall d | d in DocumentOrder(doc) ensures !Matches(Type("parsererror"), d) {
      var k :| 0 <= k < |DocumentOrder(doc)| && DocumentOrder(doc)[k] == d;
    }
    forall k | 0 <= k < |Items(doc)|
      ensures Items(doc)[k].name == "item" && Items(doc)[k] in DocumentOrder(doc)
    {
      assert Items(doc)[k] in Items(doc);
    }
  }

  /** The output is empty exactly when the parse failed or there is no item. */
  lemma NoArticlesIff(renderText: string -> string, doc: Document)
    ensures ParseRss(renderText, doc) == [] <==> HasParserError(doc) || Items(doc) == []
  {
    if HasParserError(doc) {
      ParseErrorYieldsNoArticles(renderText, doc);
    } else {
      OneArticlePerItem(renderText, doc);
    }
  }

  /** A document root that is itself an `item` gives the first article. */
  lemma RootItemComesFirst(renderText: string -> string, doc: Document)
    requires !HasParserError(doc) && doc.root.name == "item"
    ensures ParseRss(renderText, doc) != []
    ensures ParseRss(renderText, doc)[0] == NormalizeItem(renderText, doc.root, 0)
  {
    OneArticlePerItem(renderText, doc);
    SelectFirst(DocumentOrder(doc), Type("item"), 0);
  }

  // ---------------------------------------------------------------------
  // Scalar fields

  /** `id`: the `guid` text when non-empty, else `article-<index>`; never empty. */
  lemma IdFallback(renderText: string -> string, item: Element, index: nat)
    ensures var a := NormalizeItem(renderText, item, index);
      a.id != ""
      && (Truthy(TextOf(item, "guid")) ==> a.id == TextOf(item, "guid").value)
      && (!Truthy(TextOf(item, "guid")) ==> a.id == "article-" + NatToString(index))
  {
  }

  /** Items without a usable `guid` at different positions get different ids. */
  lemma {:induction false} FallbackIdsDistinct(renderText: string -> string, x: Element, j: nat, y: Element, k: nat)
    requires !Truthy(TextOf(x, "guid")) && !Truthy(TextOf(y, "guid")) && j != k
    ensures NormalizeItem(renderText, x, j).id != NormalizeItem(renderText, y, k).id
  {
    var a, b := NatToString(j), NatToString(k);
    if IdPrefix + a == IdPrefix + b {
      assert a == (IdPrefix + a)[|IdPrefix|..];
      assert b == (IdPrefix + b)[|IdPrefix|..];
      NatToStringInjective(j, k);
    }
  }

  /** `title`: the `title` text when non-empty, else `Untitled`. */
  lemma TitleFallback(renderText: string -> string, item: Element, index: nat)
    ensures var a := NormalizeItem(renderText, item, index);
      a.title != ""
      && (Truthy(TextOf(item, "title")) ==> a.title == TextOf(item, "title").value)
      && (!Truthy(TextOf(item, "title")) ==> a.title == "Untitled")
  {
  }

  /** `url`: the `link` text when non-empty, else `#`. */
  lemma UrlFallback(renderText: string -> string, item: Element, index: nat)
    ensures var a := NormalizeItem(renderText, item, index);
      a.url != ""
      && (Truthy(TextOf(item, "link")) ==> a.url == TextOf(item, "link").value)
      && (!Truthy(TextOf(item, "link")) ==> a.url == "#")
  {
  }

  /** `author`: the first non-empty of the `author` and `dc:creator` texts, else
      the team default; a non-empty `author` wins whatever `dc:creator` holds. */
  lemma AuthorChain(renderText: string -> string, item: Element, index: nat)
    ensures var a := NormalizeItem(renderText, item, index);
      a.author != ""
      && (Truthy(TextOf(item, "author")) ==> a.author == TextOf(item, "author").value)
      && (!Truthy(TextOf(item, "author")) && Truthy(TextOf(item, "dc:creator")) ==>
            a.author == TextOf(item, "dc:creator").value)
      && (!Truthy(TextOf(item, "author")) && !Truthy(TextOf(item, "dc:creator")) ==>
            a.author == "codecentric Team")
  {
  }

  /** `publishDate` is built from the `pubDate` text when non-empty, else from
      the clock. */
  lemma PublishDateSource(renderText: string -> string, item: Element, index: nat)
    ensures var a := NormalizeItem(renderText, item, index);
      (Truthy(TextOf(item, "pubDate")) <==> a.publishDate.PubDateText?)
      && (a.publishDate.PubDateText? ==> a.publishDate.text == TextOf(item, "pubDate").value)
  {
  }

  /** `excerpt`: at most 200 units, a prefix of the rendered description, all
      of it when it is short; no description renders as `renderText("")`. */
  lemma ExcerptBounds(renderText: string -> string, item: Element, index: nat)
    ensures var a := NormalizeItem(renderText, item, index);
      var text := renderText(OrDefault(TextOf(item, "description"), ""));
      |a.excerpt| <= 200 && a.excerpt <= text
      && (|text| <= 200 ==> a.excerpt == text)
      && (|text| >= 200 ==> |a.excerpt| == 200)
      && (!Truthy(TextOf(item, "description")) && renderText("") == "" ==> a.excerpt == "")
  {
  }

  /** `featuredImage` is always defined and non-empty: the extracted image,
      else the placeholder for the item's index. */
  lemma FeaturedImageTotal(renderText: string -> string, item: Element, index: nat)
    ensures var a := NormalizeItem(renderText, item, index);
      a.featuredImage.Some? && a.featuredImage.value != ""
      && (ExtractImageFromContent(item).Some? ==> a.featuredImage == ExtractImageFromContent(item))
      && (ExtractImageFromContent(item).None? ==>
            a.featuredImage.value == "https://picsum.photos/seed/" + NatToString(index) + "/400/250")
  {
  }

  /** Placeholders of different positions differ. */
  lemma PlaceholdersDistinct(j: nat, k: nat)
    requires j != k
    ensures PlaceholderImage(j) != PlaceholderImage(k)
  {
  }


  /** `categories` is always defined: one entry per `category` descendant, in
      document order, `""` for one without text. */
  lemma CategoriesInOrder(renderText: string -> string, item: Element, index: nat)
    ensures var a := NormalizeItem(renderText, item, index);
      var cats := QuerySelectorAll(item, Type("category"));
      a.categories.Some? && |a.categories.value| == |cats|
      && forall k :: 0 <= k < |cats| ==>
           cats[k].name == "category" && cats[k] in Descendants(item)
           && a.categories.value[k] == (if Truthy(cats[k].text) then cats[k].text.value else "")
  {
    var cats := QuerySelectorAll(item, Type("category"));
    forall k | 0 <= k < |cats| ensures cats[k].name == "category" && cats[k] in Descendants(item) {
      assert cats[k] in cats;
    }
  }

  // ---------------------------------------------------------------------
  // The image discovery chain

  /** The first `media:thumbnail` descendant decides the image, whatever
      `media:content`, enclosures or the text hold. */
  lemma ThumbnailDecides(item: Element, k: nat)
    requires k < |Descendants(item)| && Descendants(item)[k].name == "media:thumbnail"
    requires forall j :: 0 <= j < k ==> Descendants(item)[j].name != "media:thumbnail"
    ensures ExtractImageFromContent(item) == UrlOf(Descendants(item)[k])
  {
    QuerySelectorIsFirst(item, Thumbnail, k);
  }

  /** A `media:thumbnail` without a usable `url` ends the chain with no image,
      so the article gets the placeholder. */
  lemma ThumbnailWithoutUrlGivesPlaceholder(renderText: string -> string, item: Element, index: nat)
    requires QuerySelector(item, Thumbnail).Some?
    requires !Truthy(GetAttribute(QuerySelector(item, Thumbnail).value, "url"))
    ensures ExtractImageFromContent(item).None?
    ensures NormalizeItem(renderText, item, index).featuredImage == Some(PlaceholderImage(index))
  {
  }

  /** With no `media:thumbnail`, the first `media:content` decides. */
  lemma MediaContentDecides(item: Element, k: nat)
    requires forall d :: d in Descendants(item) ==> d.name != "media:thumbnail"
    requires k < |Descendants(item)| && Descendants(item)[k].name == "media:content"
    requires forall j :: 0 <= j < k ==> Descendants(item)[j].name != "media:content"
    ensures ExtractImageFromContent(item) == UrlOf(Descendants(item)[k])
  {
    QuerySelectorIsFirst(item, MediaContent, k);
  }

  /** With neither, the first `enclosure` whose `type` starts with `image`
      decides; other enclosures are passed over. */
  lemma EnclosureDecides(item: Element, k: nat)
    requires forall d :: d in Descendants(item) ==> d.name != "media:thumbnail" && d.name != "media:content"
    requires k < |Descendants(item)| && Matches(ImageEnclosure, Descendants(item)[k])
    requires forall j :: 0 <= j < k ==> !Matches(ImageEnclosure, Descendants(item)[j])
    ensures ExtractImageFromContent(item) == UrlOf(Descendants(item)[k])
  {
    QuerySelectorIsFirst(item, ImageEnclosure, k);
  }

  /** With none of the three, the image is the `src` of the first match of
      the `<img ... src="...">` pattern in the scanned text: a non-empty value
      without `"` or `>` that occurs there as a match, and the leftmost one. */
  lemma TextScanDecides(item: Element)
    requires forall d :: d in Descendants(item) ==>
               d.name != "media:thumbnail" && d.name != "media:content" && !Matches(ImageEnclosure, d)
    ensures var s := ScannedText(item);
      var r := ExtractImageFromContent(item);
      r == ImgPattern.FirstImgSrc(s)
      && (r.None? <==> forall i: nat, q: nat, v :: !ImgPattern.MatchAt(s, i, q, v))
      && (r.Some? ==> |r.value| > 0 && '"' !in r.value && '>' !in r.value)
      && (r.Some? ==> exists i: nat, q: nat :: ImgPattern.MatchAt(s, i, q, r.value))
  {
    var s := ScannedText(item);
    var r := ExtractImageFromContent(item);
    if r.Some? {
      var i: nat, q: nat :| ImgPattern.MatchAt(s, i, q, r.value);
      ImgPattern.CapturedValueShape(s, i, q, r.value);
    }
  }
}
