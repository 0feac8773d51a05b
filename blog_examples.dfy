/** Worked feeds: what the normalisation gives for small concrete items. */
module BlogExamples {
  import opened Wrappers
  import opened Dom
  import opened Articles
  import opened BlogService
  import opened Decimal
  import ImgPattern

  function Leaf(name: string, text: string): Element
  {
    Element(name, [], Some(text), [])
  }

  /** An item with only `guid` and `title` gets every other field's default. */
  lemma GuidAndTitleOnly(renderText: string -> string)
    requires renderText("") == ""
    ensures NormalizeItem(renderText, Element("item", [], None, [Leaf("guid", "42"), Leaf("title", "Hello")]), 0)
         == Article("42", "Hello", "codecentric Team", CallTime, "", "#",
                    Some("https://picsum.photos/seed/0/400/250"), Some([]))
  {
    var item := Element("item", [], None, [Leaf("guid", "42"), Leaf("title", "Hello")]);
    GuidAndTitleQueries(item);
    GuidAndTitleImage(item);
    PlaceholderZero();
    var a := NormalizeItem(renderText, item, 0);
    assert a.id == "42" && a.title == "Hello";
    assert a.author == "codecentric Team" && a.publishDate == CallTime;
    assert a.excerpt == "" && a.url == "#";
    assert a.featuredImage == Some("https://picsum.photos/seed/0/400/250");
    assert a.categories == Some([]);
  }

  /** What the lookups of `parseRSS` find in the guid-and-title item. */
  lemma GuidAndTitleQueries(item: Element)
    requires item == Element("item", [], None, [Leaf("guid", "42"), Leaf("title", "Hello")])
    ensures TextOf(item, "guid") == Some("42") && TextOf(item, "title") == Some("Hello")
    ensures TextOf(item, "author") == None && TextOf(item, "dc:creator") == None
    ensures TextOf(item, "pubDate") == None && TextOf(item, "description") == None
    ensures TextOf(item, "link") == None && TextOf(item, "content:encoded") == None
    ensures QuerySelectorAll(item, Type("category")) == []
  {
    assert Descendants(item) == [Leaf("guid", "42"), Leaf("title", "Hello")];
    SelectFirst(Descendants(item), Type("guid"), 0);
    SelectFirst(Descendants(item), Type("title"), 1);
  }

  /** The guid-and-title item has no image of its own. */
  lemma GuidAndTitleImage(item: Element)
    requires item == Element("item", [], None, [Leaf("guid", "42"), Leaf("title", "Hello")])
    ensures ExtractImageFromContent(item) == None
  {
    assert Descendants(item) == [Leaf("guid", "42"), Leaf("title", "Hello")];
    assert ScannedText(item) == "";
    assert ImgPattern.FirstImgSrc("") == None;
  }

  /** The placeholder for the first item. */
  lemma PlaceholderZero()
    ensures PlaceholderImage(0) == "https://picsum.photos/seed/0/400/250"
  {
    assert NatToString(0) == "0";
  }

  /** A thumbnail beats an image enclosure that comes first. */
  lemma ThumbnailBeatsEnclosure(renderText: string -> string)
    ensures NormalizeItem(renderText, Element("item", [], None, [
              Element("enclosure", [Attr("type", "image/png"), Attr("url", "B")], None, []),
              Element("media:thumbnail", [Attr("url", "A")], None, [])]), 7).featuredImage
         == Some("A")
  {
    var enc := Element("enclosure", [Attr("type", "image/png"), Attr("url", "B")], None, []);
    var thumb := Element("media:thumbnail", [Attr("url", "A")], None, []);
    var item := Element("item", [], None, [enc, thumb]);
    assert Descendants(item) == [enc, thumb];
  }

  /** Categories keep document order. */
  lemma CategoriesKeepOrder(renderText: string -> string)
    ensures NormalizeItem(renderText, Element("item", [], None, [Leaf("category", "A"), Leaf("category", "B")]), 0).categories
         == Some(["A", "B"])
  {
    var item := Element("item", [], None, [Leaf("category", "A"), Leaf("category", "B")]);
    var cats := [Leaf("category", "A"), Leaf("category", "B")];
    assert Descendants(item) == cats;
    assert QuerySelectorAll(item, Type("category")) == cats;
    assert CategoryTexts(cats) == ["A", "B"];
  }

  /** A document whose root is the parser's error element gives no articles,
      even when items follow it. */
  lemma ParserErrorDocument(renderText: string -> string)
    ensures ParseRss(renderText, Document(Element("parsererror", [], Some("unclosed tag"),
              [Element("item", [], None, [])]))) == []
  {
  }

  /** Within one tag the greedy `[^>]+` reaches the LAST `src="`: a `data-src`
      after `src` supplies the value. */
  lemma LaterSrcInTagWins()
    ensures ImgPattern.FirstImgSrc("<img src=\"a\" data-src=\"b\">") == Some("b")
  {
    var s := "<img src=\"a\" data-src=\"b\">";
    assert s[0..4] == ImgPattern.ImgOpen && s[18..23] == ImgPattern.SrcOpen && s[23..24] == "b";
    assert ImgPattern.InValue("b"[0]);
    assert ImgPattern.MatchAt(s, 0, 18, "b");
    ImgPattern.FirstImgSrcIsFirst(s, 0, 18, "b");
    var w := ImgPattern.FirstImgSrc(s).value;
    var i0: nat, q0: nat :| ImgPattern.MatchAt(s, i0, q0, w) && (i0 < 0 || (i0 == 0 && 18 <= q0));
    assert q0 == 18;
    ImgPattern.MatchValueUnique(s, 0, 18, w, "b");
  }

  /** The pattern cannot cross a `>`: of two tags, the first one's `src` is taken. */
  lemma FirstTagWins()
    ensures ImgPattern.FirstImgSrc("<img src=\"a\"><img src=\"b\">") == Some("a")
  {
    var s := "<img src=\"a\"><img src=\"b\">";
    assert s[0..4] == ImgPattern.ImgOpen;
    assert s[5..10] == ImgPattern.SrcOpen by {
      assert s[5] == 's' && s[6] == 'r' && s[7] == 'c' && s[8] == '=' && s[9] == '"';
    }
    assert s[10..11] == "a";
    assert ImgPattern.InValue("a"[0]);
    assert ImgPattern.MatchAt(s, 0, 5, "a");
    ImgPattern.FirstImgSrcIsFirst(s, 0, 5, "a");
    var w := ImgPattern.FirstImgSrc(s).value;
    var i0: nat, q0: nat :| ImgPattern.MatchAt(s, i0, q0, w) && (i0 < 0 || (i0 == 0 && 5 <= q0));
    OnlySrcInFirstTag(s, q0, w);
    ImgPattern.MatchValueUnique(s, 0, 5, w, "a");
  }

  lemma OnlySrcInFirstTag(s: string, q: nat, w: string)
    requires s == "<img src=\"a\"><img src=\"b\">"
    requires ImgPattern.MatchAt(s, 0, q, w)
    ensures q == 5
  {
    assert q <= 12 by {
      assert s[12] == '>';
    }
    assert s[q] == 's' by {
      assert s[q..q + 5][0] == ImgPattern.SrcOpen[0];
    }
  }

  /** A tag whose only attribute is `src` needs some character before it:
      `<imgsrc="x">` does not match, as `[^>]+` cannot be empty. */
  lemma SrcRightAfterImgDoesNotMatch()
    ensures ImgPattern.FirstImgSrc("<imgsrc=\"x\">").None?
  {
    var s := "<imgsrc=\"x\">";
    assert forall i: nat, q: nat, v :: !ImgPattern.MatchAt(s, i, q, v);
  }
}
