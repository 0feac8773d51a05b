# RSS feed to article normalisation

A Dafny model of how the blog dashboard's `BlogService` turns a parsed RSS
document into its list of `Article` records (`parseRSS`, `stripHtml`,
`extractImageFromContent` in `blog.service.ts`).

The whole core is a pure function, so the model is made of datatypes,
functions and lemmas:

- `wrappers.dfy`: `Option`, which stands for `undefined` and `null`.
- `dom.dfy`: the document the browser's `DOMParser` produces, as an element tree. Each element has
  - a qualified name,
  - its attributes,
  - its `textContent`, which is `string | null`,
  - its children.

  It also holds the three DOM calls the code makes:
  - `querySelector`: the first matching descendant in pre-order;
  - `querySelectorAll`: all matching descendants in pre-order;
  - `getAttribute`.

  On a document, both queries include the root element. On an element, they
  cover only its proper descendants.
- `decimal.dfy`: how `${index}` writes a non-negative integer, with its inverse.
- `img_pattern.dfy`: the regular expression `/<img[^>]+src="([^">]+)"/`, written out as a scan. It follows JavaScript's backtracking order:
  - the leftmost start position wins;
  - at that start, the greedy `[^>]+` is tried from longest to shortest.

  The scan is proved against a separate predicate, `MatchAt`, that defines
  what a match is.
- `article.dfy`: the `Article` record.
- `blog_service.dfy`: each field's fallback chain, the image discovery chain, the 200-unit excerpt cut, and the list of articles. There is one lemma per property the code promises.
- `blog_examples.dfy`: small concrete feeds and the articles they produce.

Two browser services are passed in, not modelled:
- The parser's verdict is part of the document it returns. A malformed feed
  comes back as a tree with a `parsererror` element in it, and `parseRSS`
  returns `[]` for it.
- The HTML-to-text conversion in `stripHtml` is the parameter
  `renderText: string -> string`. The model covers only the `substring(0, 200)`
  applied after it.

JavaScript's `||` counts an empty string as missing. The predicate `Truthy`
models this.

## Model

| member | source | states |
|---|---|---|
| `Dom.AttrLookup` | bmad-demo-app/src/app/core/services/blog.service.ts:63 | `getAttribute` finds a value iff some attribute has that name; the value is that of the first such attribute |
| `Dom.GetAttribute` | bmad-demo-app/src/app/core/services/blog.service.ts:63 | `element.getAttribute(name)` is null iff the element has no attribute of that name; a value it returns is one of that name's attribute values (AttrLookup: the first) |
| `Dom.Matches` | bmad-demo-app/src/app/core/services/blog.service.ts:73 | an element matches a type selector iff it has that name; `enclosure[type^="image"]` also needs a `type` attribute, the first one decides by a case-sensitive prefix test, and an empty prefix matches nothing |
| `Dom.Select` | bmad-demo-app/src/app/core/services/blog.service.ts:36 | selecting keeps exactly the elements the selector stands for, and never adds any |
| `Dom.QuerySelector` | bmad-demo-app/src/app/core/services/blog.service.ts:40 | `item.querySelector` returns a matching proper descendant; it returns null iff no descendant matches |
| `Dom.DocQuerySelector` | bmad-demo-app/src/app/core/services/blog.service.ts:30 | `xmlDoc.querySelector` returns a matching node of the document, root included; it returns null iff no node matches |
| `Dom.SelectFirst` | bmad-demo-app/src/app/core/services/blog.service.ts:40 | the head of a selection is the first element in order that matches |
| `Dom.QuerySelectorAll` | bmad-demo-app/src/app/core/services/blog.service.ts:49 | `item.querySelectorAll(sel)` holds exactly the matching proper descendants, in document order (SelectAppend, SelectFirst) |
| `Dom.DocQuerySelectorAll` | bmad-demo-app/src/app/core/services/blog.service.ts:36 | `xmlDoc.querySelectorAll(sel)` holds exactly the matching nodes of the document, with the root first when it matches |
| `Dom.QuerySelectorIsFirst` | bmad-demo-app/src/app/core/services/blog.service.ts:40 | `querySelector` returns the first matching descendant in document order |
| `Dom.SelectAppend` | bmad-demo-app/src/app/core/services/blog.service.ts:36 | `querySelectorAll` keeps document order: selecting from `s + t` is the selection from `s` followed by the selection from `t` |
| `Dom.DescendantOfChild` | bmad-demo-app/src/app/core/services/blog.service.ts:61 | the lookups search the whole subtree: a child, and anything below a child, is a descendant |
| `Decimal.NatToString` | bmad-demo-app/src/app/core/services/blog.service.ts:40 | `${index}` is a non-empty string of decimal digits with no leading zero; it has one digit iff `index < 10` |
| `Decimal.DigitsValueOfNatToString` | bmad-demo-app/src/app/core/services/blog.service.ts:40 | reading the numeral back gives the index (round trip) |
| `Decimal.NatToStringInjective` | bmad-demo-app/src/app/core/services/blog.service.ts:48 | distinct indices give distinct numerals |
| `ImgPattern.GtFreeEnd` | bmad-demo-app/src/app/core/services/blog.service.ts:81 | the greedy run of `[^>]` stops at the first `>` or at the end of the text |
| `ImgPattern.ValueEnd` | bmad-demo-app/src/app/core/services/blog.service.ts:81 | the greedy run of `[^">]` stops at the first `"` or `>`, or at the end of the text |
| `ImgPattern.SrcCaptureAtSpec` | bmad-demo-app/src/app/core/services/blog.service.ts:81 | after `<img` and a run with no `>`, the scan of `src="([^">]+)"` at q captures v iff `MatchAt` holds for q and v |
| `ImgPattern.Backtrack` | bmad-demo-app/src/app/core/services/blog.service.ts:81 | backtracking `[^>]+` downward from q finds the match with the largest `src="` position up to q; it finds none iff no such match exists |
| `ImgPattern.MatchFrom` | bmad-demo-app/src/app/core/services/blog.service.ts:81 | at an `<img`, the pattern matches with the longest possible `[^>]+`; it fails iff no match starts there |
| `ImgPattern.FindFrom` | bmad-demo-app/src/app/core/services/blog.service.ts:81 | the result is the leftmost match from `from` on, taking the latest `src="` at that start; it is none iff no match starts at or after `from` |
| `ImgPattern.FirstImgSrc` | bmad-demo-app/src/app/core/services/blog.service.ts:81-83 | `content.match(...)` and `imgMatch[1]`: a value is found iff the text has a match; the value is captured by some match in the text, is non-empty and holds no `"` and no `>` (FirstImgSrcIsFirst: it is the first match) |
| `ImgPattern.FirstImgSrcIsFirst` | bmad-demo-app/src/app/core/services/blog.service.ts:81-83 | if any match exists, the one returned is no later in the text, and at the same start its `src="` is no earlier |
| `ImgPattern.CapturedValueShape` | bmad-demo-app/src/app/core/services/blog.service.ts:81 | a captured `src` value is non-empty and holds no `"` and no `>` |
| `ImgPattern.MatchValueUnique` | bmad-demo-app/src/app/core/services/blog.service.ts:81 | once the match position and the `src="` position are fixed, the captured value is fixed |
| `BlogService.Substring0` | bmad-demo-app/src/app/core/services/blog.service.ts:56 | `substring(0, n)` gives a prefix of length `min(length, n)` |
| `BlogService.StripHtml` | bmad-demo-app/src/app/core/services/blog.service.ts:53-57 | the result has at most 200 units and is a prefix of the rendered text; it is all of that text when the text has at most 200 units and exactly 200 units otherwise |
| `BlogService.OrElse` | bmad-demo-app/src/app/core/services/blog.service.ts:42-43 | `x \|\| y` on two optional texts: `x` when it is a non-empty text, else `y`; the result is a non-empty text iff one of them is (also the `\|\|` at lines 79-80) |
| `BlogService.OrDefault` | bmad-demo-app/src/app/core/services/blog.service.ts:40-47 | `x \|\| d` with a default: the text of `x` when it is non-empty, else `d`; a non-empty default gives a non-empty result |
| `BlogService.TextOf` | bmad-demo-app/src/app/core/services/blog.service.ts:40 | `item.querySelector(tag)?.textContent` is the text of a descendant with that name, and missing when no descendant has it (QuerySelectorIsFirst: the first) |
| `BlogService.UrlOf` | bmad-demo-app/src/app/core/services/blog.service.ts:63 | `getAttribute('url') \|\| undefined` is a non-empty `url` attribute value; it is missing iff there is no `url` attribute or it is empty |
| `BlogService.ExtractImageFromContent` | bmad-demo-app/src/app/core/services/blog.service.ts:59-87 | an image the chain returns is never the empty string; which source decides is stated by the four `*Decides` lemmas |
| `BlogService.PlaceholderImage` | bmad-demo-app/src/app/core/services/blog.service.ts:48 | the placeholder is `https://picsum.photos/seed/` + a digit string + `/400/250`, and the digit string reads back as the index |
| `BlogService.NormalizeItem` | bmad-demo-app/src/app/core/services/blog.service.ts:39-50 | every field of the article has a value: id, title, author and url are non-empty, the excerpt has at most 200 units, the image is present and non-empty, and the categories are present (its fields' chains: IdFallback … CategoriesInOrder) |
| `BlogService.Items` | bmad-demo-app/src/app/core/services/blog.service.ts:36 | `xmlDoc.querySelectorAll('item')` holds exactly the document's `item` elements |
| `BlogService.ParseRss` | bmad-demo-app/src/app/core/services/blog.service.ts:25-51 | the list is empty or has one article per `item`, and its k-th article is the k-th item normalised with index k (OneArticlePerItem, ParseErrorYieldsNoArticles, NoArticlesIff) |
| `BlogService.CategoryTexts` | bmad-demo-app/src/app/core/services/blog.service.ts:49 | one text per `category` element |
| `BlogService.ParseErrorYieldsNoArticles` | bmad-demo-app/src/app/core/services/blog.service.ts:30-34 | a `parsererror` node anywhere in the document, root included, gives the empty list |
| `BlogService.OneArticlePerItem` | bmad-demo-app/src/app/core/services/blog.service.ts:36-39 | without a parse error, there is exactly one article per `item` element of the document, in document order; the k-th article is the k-th item normalised with index k |
| `BlogService.NoArticlesIff` | bmad-demo-app/src/app/core/services/blog.service.ts:30-39 | the list is empty iff the document holds a `parsererror` or has no `item` |
| `BlogService.RootItemComesFirst` | bmad-demo-app/src/app/core/services/blog.service.ts:36-39 | `xmlDoc.querySelectorAll('item')` counts the root element: an `item` root gives article 0 |
| `BlogService.IdFallback` | bmad-demo-app/src/app/core/services/blog.service.ts:40 | `id` is the `guid` text if that is non-empty, else `article-<index>`; `id` is never empty |
| `BlogService.FallbackIdsDistinct` | bmad-demo-app/src/app/core/services/blog.service.ts:40 | two items without a usable `guid` at different positions get different ids |
| `BlogService.TitleFallback` | bmad-demo-app/src/app/core/services/blog.service.ts:41 | `title` is the `title` text if that is non-empty, else `Untitled` |
| `BlogService.AuthorChain` | bmad-demo-app/src/app/core/services/blog.service.ts:42-44 | `author` is the first non-empty text of `author`, then `dc:creator`, else `codecentric Team`; a non-empty `author` always beats `dc:creator` |
| `BlogService.PublishDateSource` | bmad-demo-app/src/app/core/services/blog.service.ts:45 | the date comes from the `pubDate` text iff that text is non-empty, and otherwise from the clock |
| `BlogService.ExcerptBounds` | bmad-demo-app/src/app/core/services/blog.service.ts:46-56 | `excerpt` has at most 200 units and is a prefix of the rendered description. It is the whole rendered text when that text has at most 200 units, and exactly 200 units otherwise. A missing or empty description gives `""` when `""` renders to `""` |
| `BlogService.UrlFallback` | bmad-demo-app/src/app/core/services/blog.service.ts:47 | `url` is the `link` text if that is non-empty, else `#` |
| `BlogService.FeaturedImageTotal` | bmad-demo-app/src/app/core/services/blog.service.ts:48 | `featuredImage` is always present and non-empty: the extracted image if there is one, else `https://picsum.photos/seed/<index>/400/250` |
| `BlogService.PlaceholdersDistinct` | bmad-demo-app/src/app/core/services/blog.service.ts:48 | placeholder images for different positions differ |
| `BlogService.CategoriesInOrder` | bmad-demo-app/src/app/core/services/blog.service.ts:49 | `categories` is always present, with one entry per `category` descendant in document order, and `""` for an element with no text |
| `BlogService.ThumbnailDecides` | bmad-demo-app/src/app/core/services/blog.service.ts:61-64 | the first `media:thumbnail` descendant decides the image (its non-empty `url`, or none), whatever the later sources hold |
| `BlogService.ThumbnailWithoutUrlGivesPlaceholder` | bmad-demo-app/src/app/core/services/blog.service.ts:61-64 | a thumbnail with no `url`, or an empty one, ends the chain with no image, so the article gets the placeholder |
| `BlogService.MediaContentDecides` | bmad-demo-app/src/app/core/services/blog.service.ts:66-70 | with no thumbnail, the first `media:content` decides the image |
| `BlogService.EnclosureDecides` | bmad-demo-app/src/app/core/services/blog.service.ts:72-76 | with neither of those, the first `enclosure` whose `type` starts with `image` decides |
| `BlogService.TextScanDecides` | bmad-demo-app/src/app/core/services/blog.service.ts:78-86 | with none of the three, the image is the regular-expression capture in the scanned text. It is none iff the pattern does not match. Any value it returns is non-empty, holds no `"` or `>`, and occurs in the text as a match |
| `BlogService.ScannedText` | bmad-demo-app/src/app/core/services/blog.service.ts:79-80 | the scanned text is the `content:encoded` text if non-empty, else the `description` text if non-empty, else `""` |
| `BlogExamples.GuidAndTitleOnly` | bmad-demo-app/src/app/core/services/blog.service.ts:39-50 | an item with only `<guid>42</guid><title>Hello</title>` gives id `42`, title `Hello`, the default author, the clock date, excerpt `""`, url `#`, placeholder seed 0 and no categories |
| `BlogExamples.ThumbnailBeatsEnclosure` | bmad-demo-app/src/app/core/services/blog.service.ts:61-76 | a thumbnail with url `A` beats an image enclosure with url `B`, even when the enclosure comes first |
| `BlogExamples.CategoriesKeepOrder` | bmad-demo-app/src/app/core/services/blog.service.ts:49 | `<category>A</category><category>B</category>` give `["A", "B"]` |
| `BlogExamples.ParserErrorDocument` | bmad-demo-app/src/app/core/services/blog.service.ts:30-34 | a `parsererror` root gives no articles, even with an `item` under it |
| `BlogExamples.LaterSrcInTagWins` | bmad-demo-app/src/app/core/services/blog.service.ts:81 | because `[^>]+` is greedy, `<img src="a" data-src="b">` yields `b` |
| `BlogExamples.FirstTagWins` | bmad-demo-app/src/app/core/services/blog.service.ts:81 | `<img src="a"><img src="b">` yields `a`, because the pattern cannot cross a `>` |
| `BlogExamples.SrcRightAfterImgDoesNotMatch` | bmad-demo-app/src/app/core/services/blog.service.ts:81 | `<imgsrc="x">` does not match, because `[^>]+` needs at least one character |

Three facts about the code that the model keeps:
- The code queries the escaped qualified names `dc\:creator`, `media\:thumbnail`, `media\:content` and `content\:encoded` (lines 43, 61, 67 and 79), never their bare local names. The model matches those names exactly.
- The `||` at line 79 treats an empty `content:encoded` text like a missing one, so the scan then falls back to `description`.
- The image chain stops at the first kind of element that is present, even when its `url` is missing. That case gives the placeholder (`ThumbnailWithoutUrlGivesPlaceholder`).

## Left out

- `getArticles`: the HTTP request, the rxjs pipeline and the empty list on a transport error are asynchronous plumbing around `parseRSS`.
- XML well-formedness: the checks of `DOMParser.parseFromString` are a browser service. The model takes the document the parser returns, with any `parsererror` element it inserted.
- `stripHtml`'s conversion from HTML to text (the `innerHTML`, `textContent` and `innerText` of a detached `div`): this is browser DOM behaviour. It is the parameter `renderText`, which stands for `tmp.textContent || tmp.innerText || ''` as a whole.
- The `textContent` of an element is an independent field of the tree. The model does not derive it from the descendants' text.
- `publishDate`: the model keeps only what `new Date(...)` receives, either the `pubDate` text or the clock. Date parsing, invalid dates and `Date.now()` are environment-dependent.
- Selector matching is exact equality of qualified names. The model does not cover how a browser resolves namespace prefixes when an escaped-colon selector such as `dc\:creator` is run on an XML document. Nor does it cover that an unprefixed selector (`title`, `description`, `category`, `guid`, `link`) also matches an element with that local name in any namespace, so that `item.querySelector('title')` can return an earlier `<media:title>`, which exact equality never finds.
- Strings are sequences of Dafny `char`, which are Unicode scalar values, while JavaScript's `length` and `substring` count UTF-16 code units. The two agree for text made of characters of the Basic Multilingual Plane only; for other text (emoji, say) the model counts such a character once where JavaScript counts it twice, and a surrogate pair split by `substring` cannot arise.
- Substring0: its bound `n` counts Unicode scalar values, not UTF-16 code units; they coincide for text inside the Basic Multilingual Plane only.
- StripHtml: the 200-unit cut counts Unicode scalar values; 150 ASCII characters followed by 60 emoji keep 150 + 50 characters in the model but 150 + 25 in JavaScript.
- ExcerptBounds: the bound of 200 is in Unicode scalar values, for the same reason.
- `console.log` and `console.error` diagnostics produce no value.
- The Angular components are display glue with no logic: the dashboard's signals and subscription, the tile's `window.open`, the grid input and the skeleton array.
- Atom `entry` elements: the code does not read them, so neither does the model.
