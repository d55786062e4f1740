/**
 * The blog feed renderer: given the answer of the rss2json service, one card per item
 * (up to `count`, 6 by default) with a thumbnail, a tag-free excerpt of at
 * most 120 characters cut at a space, up to three category tags and an
 * escaped `alt` text; any failure renders a single fallback message.
 */
module BlogFeed {
  import opened Common

  const ExcerptLimit: nat := 120
  const Ellipsis: string := "..."
  const DefaultCount: int := 6
  const MaxTags: nat := 3
  const FallbackImage: string := "https://miro.medium.com/max/1200/1*jfdwtvU6V6g99q3G7gq7dQ.png"
  const QuoteEntity: string := "&quot;"

  /**
   * One feed item. `imageSrc` is what the `<img … src="…">` pattern captured
   * from the description, if it matched.
   */
  datatype Item = Item(title: string, link: string, description: string,
                       imageSrc: Option<string>, categories: Option<seq<string>>)

  /** The parts of one rendered card; `position` drives the staggered reveal delay. */
  datatype Card = Card(position: nat, image: string, alt: string, excerpt: string,
                       tags: seq<string>, title: string, link: string)

  /** What the fetch produced: a transport or parse error, or a JSON body. */
  datatype Fetched = NetworkError | Malformed | Body(status: string, items: seq<Item>)

  /** What the container ends up holding. */
  datatype Rendered = Cards(cards: seq<Card>) | FallbackMessage

  // ----- Tag stripping: `replace(/<[^>]*>/g, '')` -----

  /** Index of the first `>` at or after `i`. */
  function CloseAt(s: string, i: nat): (j: nat)
    requires i <= |s| && '>' in s[i..]
    ensures i <= j < |s| && s[j] == '>'
    ensures forall k :: i <= k < j ==> s[k] != '>'
    decreases |s| - i
  {
    if s[i] == '>' then i
    else
      assert s[i..] == [s[i]] + s[i + 1..];
      CloseAt(s, i + 1)
  }

  /** Removes, left to right, every `<` together with everything up to the first `>` after it. */
  function StripTags(s: string): (r: string)
    ensures |r| <= |s|
    ensures forall c :: c in r ==> c in s
    decreases |s|
  {
    if s == [] then []
    else if s[0] == '<' && '>' in s[1..] then
      var j := CloseAt(s, 1);
      assert forall c :: c in s[j + 1..] ==> c in s;
      StripTags(s[j + 1..])
    else
      assert forall c :: c in s[1..] ==> c in s;
      [s[0]] + StripTags(s[1..])
  }

  /** No `<` is followed, anywhere later, by a `>`: nothing the pattern could match. */
  predicate NoTagRun(s: string) {
    forall i, j :: 0 <= i < j < |s| && s[i] == '<' ==> s[j] != '>'
  }

  lemma {:induction false} StripTagsLeavesNoTag(s: string)
    ensures NoTagRun(StripTags(s))
    decreases |s|
  {
    if s == [] {
    } else if s[0] == '<' && '>' in s[1..] {
      StripTagsLeavesNoTag(s[CloseAt(s, 1) + 1..]);
    } else {
      StripTagsLeavesNoTag(s[1..]);
      var rest := StripTags(s[1..]);
      var r := [s[0]] + rest;
      forall i, j | 0 <= i < j < |r| && r[i] == '<'
        ensures r[j] != '>'
      {
        if i == 0 {
          assert r[j] == rest[j - 1] && r[j] in rest;
        } else {
          assert r[i] == rest[i - 1] && r[j] == rest[j - 1];
        }
      }
    }
  }

  /** Text without a tag run is left alone. */
  lemma {:induction false} StripTagsKeepsPlainText(s: string)
    requires NoTagRun(s)
    ensures StripTags(s) == s
    decreases |s|
  {
    if s != [] {
      if s[0] == '<' {
        assert '>' !in s[1..] by {
          forall k | 0 <= k < |s| - 1 ensures s[1..][k] != '>' {
            assert s[1..][k] == s[k + 1];
          }
        }
      }
      assert NoTagRun(s[1..]) by {
        forall i, j | 0 <= i < j < |s| - 1 && s[1..][i] == '<' ensures s[1..][j] != '>' {
          assert s[1..][i] == s[i + 1] && s[1..][j] == s[j + 1];
        }
      }
      StripTagsKeepsPlainText(s[1..]);
      assert s == [s[0]] + s[1..];
    }
  }

  /** Stripping twice is stripping once. */
  lemma StripTagsIdempotent(s: string)
    ensures StripTags(StripTags(s)) == StripTags(s)
  {
    StripTagsLeavesNoTag(s);
    StripTagsKeepsPlainText(StripTags(s));
  }

  /** Text before the first `<` passes through untouched. */
  lemma {:induction false} StripTagsKeepsHead(a: string, s: string)
    requires '<' !in a
    ensures StripTags(a + s) == a + StripTags(s)
    decreases |a|
  {
    if a == [] {
      assert a + s == s;
    } else {
      assert (a + s)[0] == a[0] && (a + s)[1..] == a[1..] + s;
      StripTagsKeepsHead(a[1..], s);
      assert a == [a[0]] + a[1..];
    }
  }

  /** A `<`, the text up to the next `>`, and that `>` go away together. */
  lemma {:induction false} StripTagsDropsTag(t: string, b: string)
    requires '>' !in t
    ensures StripTags(['<'] + t + ['>'] + b) == StripTags(b)
  {
    var s := ['<'] + t + ['>'] + b;
    assert forall k :: 1 <= k <= |t| ==> s[k] == t[k - 1];
    assert s[|t| + 1] == '>' && s[1..][|t|] == '>';
    assert CloseAt(s, 1) == |t| + 1;
    assert s[|t| + 2..] == b;
  }

  /** Stripping removes exactly the tag run and keeps the plain text around it. */
  lemma {:induction false} StripTagsDropsRun(a: string, t: string, b: string)
    requires '<' !in a && '>' !in t
    ensures StripTags(a + ['<'] + t + ['>'] + b) == a + StripTags(b)
  {
    StripTagsKeepsHead(a, ['<'] + t + ['>'] + b);
    StripTagsDropsTag(t, b);
    assert a + ['<'] + t + ['>'] + b == a + (['<'] + t + ['>'] + b);
  }

  // ----- Excerpt: `text.substr(0, text.lastIndexOf(' ', 120)) + '...'` -----

  /** The last index at or before `from` holding `c`, or -1. */
  function SearchBack(s: string, c: char, from: int): (r: int)
    requires -1 <= from < |s|
    ensures -1 <= r <= from
    ensures r >= 0 ==> s[r] == c
    ensures forall k :: r < k <= from && 0 <= k ==> s[k] != c
    decreases from + 1
  {
    if from < 0 then -1
    else if s[from] == c then from
    else SearchBack(s, c, from - 1)
  }

  /** `s.lastIndexOf(c, from)`: the start position is clamped into the string. */
  function LastIndexOf(s: string, c: char, from: int): (r: int)
    ensures -1 <= r < |s|
    ensures r >= 0 ==> s[r] == c && r <= if from < 0 then 0 else from
    ensures forall k :: r < k < |s| && k <= from ==> s[k] != c
    ensures from < 0 && r < 0 && |s| > 0 ==> s[0] != c
  {
    if |s| == 0 then -1
    else SearchBack(s, c, if from < 0 then 0 else Min(from, |s| - 1))
  }

  function Excerpt(text: string): (r: string)
    // short text is shown as it is
    ensures |text| <= ExcerptLimit ==> r == text
    // long text: the part before the last space at index <= 120, then the ellipsis
    ensures |text| > ExcerptLimit ==>
      exists k :: 0 <= k <= ExcerptLimit && r == text[..k] + Ellipsis
        && (forall j :: k < j <= ExcerptLimit ==> text[j] != ' ')
        && (text[k] == ' ' || (k == 0 && forall j :: 0 <= j <= ExcerptLimit ==> text[j] != ' '))
    ensures |r| <= ExcerptLimit + |Ellipsis|
  {
    if |text| > ExcerptLimit then
      var cut := LastIndexOf(text, ' ', ExcerptLimit);
      var k := if cut < 0 then 0 else cut;
      assert Prefix(text, cut) == text[..k];
      Prefix(text, cut) + Ellipsis
    else text
  }

  /** A long text without a space in its first 121 characters becomes just the ellipsis. */
  lemma NoSpaceGivesEllipsis(text: string)
    requires |text| > ExcerptLimit
    requires forall j :: 0 <= j <= ExcerptLimit ==> text[j] != ' '
    ensures Excerpt(text) == Ellipsis
  {
    var cut := LastIndexOf(text, ' ', ExcerptLimit);
    assert cut == -1;
  }

  /** A prefix of a tag-free text followed by the ellipsis is tag-free. */
  lemma CutKeepsNoTag(text: string, k: nat)
    requires NoTagRun(text) && k <= |text|
    ensures NoTagRun(text[..k] + Ellipsis)
  {
    var r := text[..k] + Ellipsis;
    forall i, j | 0 <= i < j < |r| && r[i] == '<'
      ensures r[j] != '>'
    {
      assert i < k && r[i] == text[i];
      if j < k {
        assert r[j] == text[j];
      } else {
        assert r[j] == Ellipsis[j - k];
      }
    }
  }

  /** Cutting a tag-free text keeps it tag-free: the excerpt shows no markup. */
  lemma ExcerptKeepsNoTag(text: string)
    requires NoTagRun(text)
    ensures NoTagRun(Excerpt(text))
  {
    if |text| > ExcerptLimit {
      var cut := LastIndexOf(text, ' ', ExcerptLimit);
      var k := if cut < 0 then 0 else cut;
      assert Excerpt(text) == text[..k] + Ellipsis;
      CutKeepsNoTag(text, k);
    }
  }

  // ----- Tags, card count, alt text -----

  /** `(item.categories || []).slice(0, 3)`: the first categories, in order. */
  function Tags(categories: Option<seq<string>>): (r: seq<string>)
    ensures |r| == Min(MaxTags, |categories.GetOr([])|)
    ensures r <= categories.GetOr([])
  {
    var all := categories.GetOr([]);
    if |all| <= MaxTags then all else all[..MaxTags]
  }

  /** The end index `slice(0, end)` uses on a list of length `len`: negative ends count from the back. */
  function SliceEnd(len: nat, end: int): (r: nat)
    ensures r <= len
    ensures end >= 0 ==> r == Min(end, len)
    ensures end < 0 ==> r == if len + end < 0 then 0 else len + end
  {
    if end < 0 then (if len + end < 0 then 0 else len + end)
    else if end < len then end else len
  }

  /** `count = count || 6`: a missing or zero count means the default. */
  function EffectiveCount(count: Option<int>): (c: int)
    ensures count.None? || count.value == 0 ==> c == DefaultCount
    ensures count.Some? && count.value != 0 ==> c == count.value
  {
    if count.None? || count.value == 0 then DefaultCount else count.value
  }

  /** Number of cards rendered for `n` items: `min(count, n)` for a positive count, `min(6, n)` by default. */
  function CardCount(count: Option<int>, n: nat): (k: nat)
    ensures k <= n
    ensures count.None? || count.value == 0 ==> k == Min(DefaultCount, n)
    ensures count.Some? && count.value > 0 ==> k == Min(count.value, n)
  {
    SliceEnd(n, EffectiveCount(count))
  }

  /** `title.replace(/"/g, '&quot;')` */
  function EscapeQuotes(s: string): (r: string)
    ensures '"' !in r
    ensures '"' !in s ==> r == s
    decreases |s|
  {
    if s == [] then []
    else (if s[0] == '"' then QuoteEntity else [s[0]]) + EscapeQuotes(s[1..])
  }

  /** Turns each `&quot;` back into a double quote. */
  function UnescapeQuotes(s: string): string
    decreases |s|
  {
    if |s| >= |QuoteEntity| && s[..|QuoteEntity|] == QuoteEntity then ['"'] + UnescapeQuotes(s[|QuoteEntity|..])
    else if s == [] then []
    else [s[0]] + UnescapeQuotes(s[1..])
  }

  /** An entity at the front unescapes to one quote. */
  lemma UnescapeEntity(rest: string)
    ensures UnescapeQuotes(QuoteEntity + rest) == ['"'] + UnescapeQuotes(rest)
  {
    var t := QuoteEntity + rest;
    assert t[..|QuoteEntity|] == QuoteEntity;
    assert t[|QuoteEntity|..] == rest;
  }

  /** Any character other than `&` at the front is kept as it is. */
  lemma UnescapeOther(c: char, rest: string)
    requires c != '&'
    ensures UnescapeQuotes([c] + rest) == [c] + UnescapeQuotes(rest)
  {
    var t := [c] + rest;
    assert t[0] == c;
    assert t[1..] == rest;
  }

  /** Escaping loses nothing for titles without `&`: unescaping gives the title back. */
  lemma {:induction false} EscapeRoundTrip(s: string)
    requires '&' !in s
    ensures UnescapeQuotes(EscapeQuotes(s)) == s
    decreases |s|
  {
    if s != [] {
      assert '&' !in s[1..] by { assert forall c :: c in s[1..] ==> c in s; }
      EscapeRoundTrip(s[1..]);
      var rest := EscapeQuotes(s[1..]);
      if s[0] == '"' {
        assert EscapeQuotes(s) == QuoteEntity + rest;
        UnescapeEntity(rest);
      } else {
        assert EscapeQuotes(s) == [s[0]] + rest;
        UnescapeOther(s[0], rest);
      }
      assert s == [s[0]] + s[1..];
    }
  }

  /** The thumbnail: the captured source, or the fixed fallback when nothing (or nothing non-empty) was captured. */
  function Thumbnail(captured: Option<string>): (src: string)
    ensures src != []
    ensures captured.Some? && captured.value != [] ==> src == captured.value
    ensures !(captured.Some? && captured.value != []) ==> src == FallbackImage
  {
    if captured.Some? && captured.value != [] then captured.value else FallbackImage
  }

  /**
   * One card: the item's own title and link, an image that is never empty, an
   * `alt` without double quotes, a tag-free excerpt of bounded length and the
   * first categories as tags.
   */
  function MakeCard(item: Item, position: nat): (card: Card)
    ensures card.position == position && card.title == item.title && card.link == item.link
    // each part is built from its own field of the item
    ensures card.image == Thumbnail(item.imageSrc) && card.alt == EscapeQuotes(item.title)
    ensures card.excerpt == Excerpt(StripTags(item.description)) && card.tags == Tags(item.categories)
    ensures card.image != []
    ensures item.imageSrc.Some? && item.imageSrc.value != [] ==> card.image == item.imageSrc.value
    ensures '"' !in card.alt
    ensures NoTagRun(card.excerpt) && |card.excerpt| <= ExcerptLimit + |Ellipsis|
    ensures |card.tags| <= MaxTags && card.tags <= item.categories.GetOr([])
  {
    StripTagsLeavesNoTag(item.description);
    ExcerptKeepsNoTag(StripTags(item.description));
    Card(position, Thumbnail(item.imageSrc), EscapeQuotes(item.title),
         Excerpt(StripTags(item.description)), Tags(item.categories), item.title, item.link)
  }

  /** The cards for the first `CardCount` items, in feed order. */
  function RenderItems(items: seq<Item>, count: Option<int>): (cards: seq<Card>)
    ensures |cards| == CardCount(count, |items|)
    ensures forall i :: 0 <= i < |cards| ==> cards[i] == MakeCard(items[i], i)
  {
    var k := CardCount(count, |items|);
    seq(k, i requires 0 <= i < k => MakeCard(items[i], i))
  }

  /** `loadBlogFeed(containerId, count)`: `None` when the container is missing (nothing happens). */
  function LoadBlogFeed(hasGrid: bool, count: Option<int>, fetched: Fetched): (r: Option<Rendered>)
    ensures r.None? <==> !hasGrid
    ensures hasGrid && fetched.Body? && fetched.status == "ok" ==> r == Some(Cards(RenderItems(fetched.items, count)))
    ensures hasGrid && !(fetched.Body? && fetched.status == "ok") ==> r == Some(FallbackMessage)
  {
    if !hasGrid then None
    else match fetched
      case Body(status, items) =>
        if status == "ok" then Some(Cards(RenderItems(items, count))) else Some(FallbackMessage)
      case _ => Some(FallbackMessage)
  }

  /**
   * The shape of a successful load: `min(count, n)` cards (6 by default),
   * card `i` built from item `i`, every excerpt the item's stripped
   * description cut at a word boundary, free of tag runs and at most 123
   * characters long, every `alt` free of double quotes, and exactly the first
   * `min(3, |categories|)` categories as tags.
   */
  lemma LoadedCards(count: Option<int>, items: seq<Item>)
    ensures var r := LoadBlogFeed(true, count, Body("ok", items));
      r.Some? && r.value.Cards? &&
      var cards := r.value.cards;
      |cards| == CardCount(count, |items|)
      && (count.None? || count.value == 0 ==> |cards| == Min(DefaultCount, |items|))
      && (count.Some? && count.value > 0 ==> |cards| == Min(count.value, |items|))
      && forall i :: 0 <= i < |cards| ==>
           cards[i].position == i && cards[i].title == items[i].title && cards[i].link == items[i].link
           && cards[i].excerpt == Excerpt(StripTags(items[i].description))
           && |cards[i].excerpt| <= ExcerptLimit + |Ellipsis| && NoTagRun(cards[i].excerpt)
           && '"' !in cards[i].alt
           && |cards[i].tags| == Min(MaxTags, |items[i].categories.GetOr([])|)
           && cards[i].tags <= items[i].categories.GetOr([])
  {
  }

  /** Any failure, whatever the count, renders the single fallback message. */
  lemma FailureRendersFallback(count: Option<int>, fetched: Fetched)
    requires !(fetched.Body? && fetched.status == "ok")
    ensures LoadBlogFeed(true, count, fetched) == Some(FallbackMessage)
  {
  }
}
