/** The publisher: admin-key validation, the weighted category classifier, the HTML
    paragraph formatter and the parser of generated-article text files. */
module GhostPublisher {
  import opened Wrappers
  import opened Strings
  import NewsWriter

  // ---------------------------------------------------------------------------
  // Configuration: the admin key "id:secret"
  // ---------------------------------------------------------------------------

  datatype ConfigError =
    | KeyNotSet          // the key variable is unset, so splitting it fails
    | InvalidKeyFormat   // the key does not split on ':' into exactly two parts
    | MissingCredentials // the API URL is unset or empty

  datatype Credentials = Credentials(apiUrl: string, keyId: string, keySecret: string)

  /** The posts endpoint under the configured site URL. */
  function PostsEndpoint(ghostUrl: string): string {
    ghostUrl + "/ghost/api/admin/posts"
  }

  /** The key check of the publisher's constructor: the key must split on ':' into
      exactly two parts, the id and the secret; the URL must be set and non-empty. */
  function Configure(ghostUrl: Option<string>, adminKey: Option<string>): (r: Result<Credentials, ConfigError>)
    ensures adminKey.None? ==> r == Failure(KeyNotSet)
    ensures adminKey.Some? ==>
      (r == Failure(InvalidKeyFormat) <==> |Split(adminKey.value, ":")| != 2)
    ensures adminKey.Some? && |Split(adminKey.value, ":")| == 2 && (ghostUrl.None? || ghostUrl.value == "") ==>
      r == Failure(MissingCredentials)
    ensures r.Success? ==>
      && adminKey == Some(r.value.keyId + ":" + r.value.keySecret)
      && ghostUrl.Some? && ghostUrl.value != ""
      && r.value.apiUrl == PostsEndpoint(ghostUrl.value)
  {
    match adminKey
    case None => Failure(KeyNotSet)
    case Some(key) =>
      var parts := Split(key, ":");
      if |parts| != 2 then Failure(InvalidKeyFormat)
      else if ghostUrl.None? || ghostUrl.value == "" then Failure(MissingCredentials)
      else
        JoinSplit(key, ":");
        assert parts == [parts[0]] + parts[1..] && parts[1..] == [parts[1]];
        Success(Credentials(PostsEndpoint(ghostUrl.value), parts[0], parts[1]))
  }

  /** A key made of an id and a secret without ':' is accepted and split back into them. */
  lemma {:induction false} AdminKeyRoundTrip(url: string, id: string, secret: string)
    requires url != ""
    requires ':' !in id && ':' !in secret
    ensures Configure(Some(url), Some(id + ":" + secret))
         == Success(Credentials(PostsEndpoint(url), id, secret))
  {
    SplitCharAppend(id, ':', secret);
    SplitCharNoSep(secret, ':');
    assert id + ":" + secret == id + [':'] + secret;
  }

  /** A key with no ':' at all, or with a second ':', is rejected. */
  lemma {:induction false} AdminKeyRejected(url: Option<string>, id: string, mid: string, rest: string)
    requires ':' !in id && ':' !in mid
    ensures Configure(url, Some(id)) == Failure(InvalidKeyFormat)
    ensures Configure(url, Some(id + ":" + mid + ":" + rest)) == Failure(InvalidKeyFormat)
  {
    SplitCharNoSep(id, ':');
    var key := id + ":" + mid + ":" + rest;
    assert key == id + [':'] + (mid + [':'] + rest);
    SplitCharAppend(id, ':', mid + [':'] + rest);
    SplitCharAppend(mid, ':', rest);
  }

  // ---------------------------------------------------------------------------
  // Category classification
  // ---------------------------------------------------------------------------

  /** A category with its weight-2 and weight-1 keywords. */
  datatype Category = Category(name: string, primary: seq<string>, secondary: seq<string>)

  const PrimaryWeight: nat := 2
  const SecondaryWeight: nat := 1

  /** The category table, in declaration order. */
  const Categories: seq<Category> := [
    Category("Arts & Entertainment",
      ["entertainment", "movie", "film", "music", "concert", "actor", "actress", "celebrity"],
      ["performance", "award", "director", "artist", "song", "album", "theater", "show"]),
    Category("Finance",
      ["finance", "market", "economy", "stock", "investment", "business", "trade"],
      ["dollar", "profit", "revenue", "growth", "company", "industry", "price"]),
    Category("Food",
      ["food", "restaurant", "chef", "cuisine", "dining"],
      ["recipe", "meal", "menu", "cooking", "dish", "taste", "flavor"]),
    Category("Lifestyle",
      ["lifestyle", "fashion", "health", "wellness", "fitness"],
      ["trend", "style", "design", "beauty", "travel", "living"]),
    Category("Politics",
      ["politics", "government", "president", "congress", "election", "biden", "trump"],
      ["policy", "senator", "democrat", "republican", "vote", "campaign"]),
    Category("Sports",
      ["sports", "game", "team", "player", "championship"],
      ["win", "score", "season", "league", "coach", "match", "tournament"])
  ]

  const DefaultCategory := "News"

  /** How many of `keywords` occur in `text`; a keyword counts once however often it occurs. */
  function Hits(keywords: seq<string>, text: string): (n: nat)
    ensures n <= |keywords|
  {
    if keywords == [] then 0
    else
      var last := keywords[|keywords| - 1];
      Hits(keywords[..|keywords| - 1], text) + (if Contains(text, Lower(last)) then 1 else 0)
  }

  /** The weighted score of one category against already lower-cased text. */
  function Score(text: string, c: Category): nat {
    PrimaryWeight * Hits(c.primary, text) + SecondaryWeight * Hits(c.secondary, text)
  }

  /** The score `determine_category` gives category `i` for `content`. */
  function ScoreOf(content: string, i: nat): nat
    requires i < |Categories|
  {
    Score(Lower(content), Categories[i])
  }

  /** Category `k` has a maximal score and every category declared before it scores less. */
  predicate IsFirstMaximum(content: string, k: nat)
    requires k < |Categories|
  {
    && (forall j :: 0 <= j < |Categories| ==> ScoreOf(content, j) <= ScoreOf(content, k))
    && (forall j :: 0 <= j < k ==> ScoreOf(content, j) < ScoreOf(content, k))
  }

  predicate AllScoresZero(content: string) {
    forall i :: 0 <= i < |Categories| ==> ScoreOf(content, i) == 0
  }

  /** What `determine_category` promises: the default when every category scores 0,
      otherwise the name of the first category with the highest score. */
  predicate IsCategoryFor(content: string, category: string) {
    if AllScoresZero(content) then category == DefaultCategory
    else exists k :: 0 <= k < |Categories| && category == Categories[k].name && IsFirstMaximum(content, k)
  }

  /** One keyword loop of `determine_category`: adds `weight` to the score of category
      `c` for each of `keywords` that occurs in `text`. */
  method AddKeywordWeights(scores: seq<nat>, c: nat, keywords: seq<string>, weight: nat, text: string)
    returns (updated: seq<nat>)
    requires c < |scores|
    ensures |updated| == |scores|
    ensures updated[c] == scores[c] + weight * Hits(keywords, text)
    ensures forall j :: 0 <= j < |scores| && j != c ==> updated[j] == scores[j]
  {
    updated := scores;
    ghost var hits := 0;
    for k := 0 to |keywords|
      invariant hits == Hits(keywords[..k], text)
      invariant updated == scores[c := scores[c] + weight * hits]
    {
      HitsStep(keywords, k, text);
      if Contains(text, Lower(keywords[k])) {
        updated := updated[c := updated[c] + weight];
        MulSucc(weight, hits);
        hits := hits + 1;
      }
    }
    assert keywords[..|keywords|] == keywords;
  }

  lemma MulSucc(w: nat, n: nat)
    ensures w * (n + 1) == w * n + w
  {
  }

  /** Adding one more keyword adds one hit exactly when it occurs in `text`. */
  lemma {:induction false} HitsStep(keywords: seq<string>, k: nat, text: string)
    requires k < |keywords|
    ensures Hits(keywords[..k + 1], text)
         == Hits(keywords[..k], text) + (if Contains(text, Lower(keywords[k])) then 1 else 0)
  {
    assert keywords[..k + 1][..k] == keywords[..k];
  }

  /** The score loop of `determine_category`: every category of `table`, in order,
      starting from 0 and adding the weights of its primary and secondary keywords. */
  method ScoreTable(table: seq<Category>, text: string) returns (scores: seq<nat>)
    ensures |scores| == |table|
    ensures forall j :: 0 <= j < |table| ==> scores[j] == Score(text, table[j])
  {
    scores := seq(|table|, _ => 0);
    for c := 0 to |table|
      invariant |scores| == |table|
      invariant forall j :: 0 <= j < c ==> scores[j] == Score(text, table[j])
      invariant forall j :: c <= j < |table| ==> scores[j] == 0
    {
      scores := AddKeywordWeights(scores, c, table[c].primary, PrimaryWeight, text);
      scores := AddKeywordWeights(scores, c, table[c].secondary, SecondaryWeight, text);
    }
  }

  /** Scores every category against the lower-cased content, then picks the first
      category holding the maximum, or the default when the maximum is 0. */
  method DetermineCategory(content: string) returns (category: string)
    ensures IsCategoryFor(content, category)
    ensures category == DefaultCategory <==> AllScoresZero(content)
  {
    var scores := ScoreTable(Categories, Lower(content));
    assert forall j :: 0 <= j < |Categories| ==> scores[j] == ScoreOf(content, j);

    var maxScore := MaxScore(scores);
    if maxScore > 0 {
      var best := FirstMaxIndex(scores);
      category := Categories[best].name;
      NamesAreNotDefault();
      assert category != DefaultCategory;
      assert IsFirstMaximum(content, best);
      assert !AllScoresZero(content) by {
        assert ScoreOf(content, best) == scores[best] >= maxScore > 0;
      }
    } else {
      category := DefaultCategory;
      assert AllScoresZero(content);
    }
  }

  /** No category of the table is called like the default. */
  lemma NamesAreNotDefault()
    ensures forall k :: 0 <= k < |Categories| ==> Categories[k].name != DefaultCategory
  {
  }

  /** `max(scores.values())` */
  method MaxScore(scores: seq<nat>) returns (m: nat)
    requires scores != []
    ensures forall j :: 0 <= j < |scores| ==> scores[j] <= m
    ensures m in scores
  {
    m := scores[0];
    for i := 1 to |scores|
      invariant forall j :: 0 <= j < i ==> scores[j] <= m
      invariant m in scores[..i]
    {
      if scores[i] > m {
        m := scores[i];
      }
    }
    assert scores[..|scores|] == scores;
  }

  /** `max(scores, key=scores.get)` over an insertion-ordered dictionary: the first
      position holding the maximum. */
  method FirstMaxIndex(scores: seq<nat>) returns (best: nat)
    requires scores != []
    ensures best < |scores|
    ensures forall j :: 0 <= j < |scores| ==> scores[j] <= scores[best]
    ensures forall j :: 0 <= j < best ==> scores[j] < scores[best]
  {
    best := 0;
    for i := 1 to |scores|
      invariant best < i
      invariant forall j :: 0 <= j < i ==> scores[j] <= scores[best]
      invariant forall j :: 0 <= j < best ==> scores[j] < scores[best]
    {
      if scores[i] > scores[best] {
        best := i;
      }
    }
  }

  /** The result of classification is unique: category names are distinct and differ
      from the default. */
  lemma {:induction false} CategoryUnique(content: string, x: string, y: string)
    requires IsCategoryFor(content, x) && IsCategoryFor(content, y)
    ensures x == y
  {
    if !AllScoresZero(content) {
      var kx :| 0 <= kx < |Categories| && x == Categories[kx].name && IsFirstMaximum(content, kx);
      var ky :| 0 <= ky < |Categories| && y == Categories[ky].name && IsFirstMaximum(content, ky);
      assert kx == ky;
    }
  }

  /** Classification ignores letter case. */
  lemma {:induction false} CategoryCaseInsensitive(content: string, category: string)
    ensures IsCategoryFor(Lower(content), category) <==> IsCategoryFor(content, category)
  {
    LowerIdempotent(content);
    assert forall i :: 0 <= i < |Categories| ==> ScoreOf(Lower(content), i) == ScoreOf(content, i);
  }

  /** The set of `keywords` that occur in `text`. */
  function Matched(keywords: seq<string>, text: string): set<string> {
    set k | k in keywords && Contains(text, Lower(k))
  }

  /** Each keyword of a duplicate-free list adds its weight once: the hit count is the
      number of distinct keywords that occur. */
  lemma {:induction false} HitsCountsMatched(keywords: seq<string>, text: string)
    requires Distinct(keywords)
    ensures Hits(keywords, text) == |Matched(keywords, text)|
    decreases |keywords|
  {
    if keywords != [] {
      var init := keywords[..|keywords| - 1];
      var last := keywords[|keywords| - 1];
      HitsCountsMatched(init, text);
      assert keywords == init + [last];
      assert last !in init;
      if Contains(text, Lower(last)) {
        assert Matched(keywords, text) == Matched(init, text) + {last};
      } else {
        assert Matched(keywords, text) == Matched(init, text);
      }
    }
  }

  lemma ArtsKeywordsDistinct()
    ensures Distinct(Categories[0].primary) && Distinct(Categories[0].secondary)
  {
  }

  lemma FinanceKeywordsDistinct()
    ensures Distinct(Categories[1].primary) && Distinct(Categories[1].secondary)
  {
  }

  lemma FoodKeywordsDistinct()
    ensures Distinct(Categories[2].primary) && Distinct(Categories[2].secondary)
  {
  }

  lemma LifestyleKeywordsDistinct()
    ensures Distinct(Categories[3].primary) && Distinct(Categories[3].secondary)
  {
  }

  lemma PoliticsKeywordsDistinct()
    ensures Distinct(Categories[4].primary) && Distinct(Categories[4].secondary)
  {
  }

  lemma SportsKeywordsDistinct()
    ensures Distinct(Categories[5].primary) && Distinct(Categories[5].secondary)
  {
  }

  /** No keyword is listed twice within one list of the category table. */
  lemma TableKeywordsDistinct()
    ensures forall i :: 0 <= i < |Categories| ==>
      Distinct(Categories[i].primary) && Distinct(Categories[i].secondary)
  {
    ArtsKeywordsDistinct();
    FinanceKeywordsDistinct();
    FoodKeywordsDistinct();
    LifestyleKeywordsDistinct();
    PoliticsKeywordsDistinct();
    SportsKeywordsDistinct();
  }

  /** A category's score is twice the number of its primary keywords found plus the
      number of its secondary keywords found. */
  lemma {:induction false} ScoreCountsKeywords(content: string, i: nat)
    requires i < |Categories|
    ensures ScoreOf(content, i)
         == 2 * |Matched(Categories[i].primary, Lower(content))|
          + |Matched(Categories[i].secondary, Lower(content))|
  {
    TableKeywordsDistinct();
    HitsCountsMatched(Categories[i].primary, Lower(content));
    HitsCountsMatched(Categories[i].secondary, Lower(content));
  }

  /** Only which keywords occur matters, not how often: two texts with the same keyword
      presence get the same scores. */
  lemma {:induction false} HitsDependOnPresence(keywords: seq<string>, t1: string, t2: string)
    requires forall k :: k in keywords ==> (Contains(t1, Lower(k)) <==> Contains(t2, Lower(k)))
    ensures Hits(keywords, t1) == Hits(keywords, t2)
    decreases |keywords|
  {
    if keywords != [] {
      HitsDependOnPresence(keywords[..|keywords| - 1], t1, t2);
    }
  }

  /** A text containing another text scores at least as high in every category. */
  lemma {:induction false} HitsMonotone(keywords: seq<string>, t1: string, t2: string)
    requires Contains(t2, t1)
    ensures Hits(keywords, t1) <= Hits(keywords, t2)
    decreases |keywords|
  {
    if keywords != [] {
      var last := keywords[|keywords| - 1];
      HitsMonotone(keywords[..|keywords| - 1], t1, t2);
      if Contains(t1, Lower(last)) {
        ContainsTransitive(t2, t1, Lower(last));
      }
    }
  }

  lemma {:induction false} ScoreMonotone(c1: string, c2: string, i: nat)
    requires i < |Categories|
    requires Contains(Lower(c2), Lower(c1))
    ensures ScoreOf(c1, i) <= ScoreOf(c2, i)
  {
    HitsMonotone(Categories[i].primary, Lower(c1), Lower(c2));
    HitsMonotone(Categories[i].secondary, Lower(c1), Lower(c2));
  }

  // ---------------------------------------------------------------------------
  // HTML formatting of the generated text
  // ---------------------------------------------------------------------------

  const ParagraphBreak := "\n\n"

  function Paragraph(text: string): string {
    "<p>" + text + "</p>"
  }

  /** Every chunk is empty once stripped. */
  predicate AllBlank(chunks: seq<string>) {
    forall i :: 0 <= i < |chunks| ==> Strip(chunks[i]) == ""
  }

  /** `f"<p>{p.strip()}</p>"` for one chunk, or nothing when it is blank once stripped. */
  function ChunkParagraph(chunk: string): seq<string> {
    var p := Strip(chunk);
    if p != "" then [Paragraph(p)] else []
  }

  /** The non-blank chunks, stripped and wrapped, in order. */
  function HtmlParagraphs(chunks: seq<string>): (ps: seq<string>)
    ensures |ps| <= |chunks|
  {
    if chunks == [] then [] else ChunkParagraph(chunks[0]) + HtmlParagraphs(chunks[1..])
  }

  /** A single chunk gives its stripped text wrapped in a paragraph element, or nothing
      when it is blank. */
  lemma {:induction false} HtmlParagraphsOne(c: string)
    ensures HtmlParagraphs([c]) == if Strip(c) == "" then [] else [Paragraph(Strip(c))]
  {
    assert [c][1..] == [];
  }

  /** Chunks are handled one at a time and in order: formatting two stretches of chunks
      one after the other gives the two results one after the other. */
  lemma {:induction false} HtmlParagraphsAppend(a: seq<string>, b: seq<string>)
    ensures HtmlParagraphs(a + b) == HtmlParagraphs(a) + HtmlParagraphs(b)
    decreases |a|
  {
    if a == [] {
      assert a + b == b;
    } else {
      assert (a + b)[0] == a[0];
      assert (a + b)[1..] == a[1..] + b;
      HtmlParagraphsAppend(a[1..], b);
    }
  }

  /** No paragraph element comes out exactly when every chunk is blank. */
  lemma {:induction false} HtmlParagraphsEmpty(chunks: seq<string>)
    ensures HtmlParagraphs(chunks) == [] <==> AllBlank(chunks)
  {
    if chunks != [] {
      HtmlParagraphsEmpty(chunks[1..]);
      if Strip(chunks[0]) == "" {
        assert HtmlParagraphs(chunks) == HtmlParagraphs(chunks[1..]);
        assert forall i :: 0 < i < |chunks| ==> chunks[i] == chunks[1..][i - 1];
      } else {
        assert !AllBlank(chunks);
      }
    }
  }

  /** The first paragraph element produced is never empty. */
  lemma {:induction false} FirstParagraphNonEmpty(chunks: seq<string>)
    requires HtmlParagraphs(chunks) != []
    ensures HtmlParagraphs(chunks)[0] != ""
  {
    if Strip(chunks[0]) != "" {
      assert HtmlParagraphs(chunks)[0] == Paragraph(Strip(chunks[0]));
      assert Paragraph(Strip(chunks[0]))[0] == '<';
    } else {
      FirstParagraphNonEmpty(chunks[1..]);
    }
  }

  lemma {:induction false} JoinNonEmpty(parts: seq<string>, sep: string)
    requires parts != [] && parts[0] != ""
    ensures Join(parts, sep) != ""
  {
  }

  /** The content split at blank lines, each non-blank chunk stripped and wrapped in a
      paragraph element, joined by newlines; all-blank content gives "". */
  function FormatContentHtml(content: string): (html: string)
    ensures html == "" <==> AllBlank(Split(content, ParagraphBreak))
  {
    var chunks := Split(content, ParagraphBreak);
    var ps := HtmlParagraphs(chunks);
    HtmlParagraphsEmpty(chunks);
    if ps == [] then
      ""
    else
      FirstParagraphNonEmpty(chunks);
      JoinNonEmpty(ps, "\n");
      Join(ps, "\n")
  }

  /** What the formatter expects of a paragraph: non-empty, stripped, no blank line inside. */
  predicate IsParagraph(p: string) {
    p != "" && IsStripped(p) && !Contains(p, ParagraphBreak)
  }

  lemma {:induction false} ParagraphBreakAfter(p: string, rest: string)
    requires IsParagraph(p)
    ensures NoSepBefore(p + ParagraphBreak + rest, ParagraphBreak, |p|)
  {
    var s := p + ParagraphBreak + rest;
    forall i | 0 <= i < |p| && i <= |s|
      ensures !HasPrefix(s[i..], ParagraphBreak)
    {
      if i == |p| - 1 {
        assert s[i] == p[i] && !IsSpace(p[i]);
        assert |s[i..]| >= 2 && s[i..][0] == s[i];
      } else {
        assert !HasPrefix(p[i..], ParagraphBreak);
        assert s[i..][..2] == p[i..][..2];
      }
    }
  }

  /** Splitting paragraphs joined by blank lines gives them back. */
  lemma {:induction false} SplitJoinedParagraphs(ps: seq<string>)
    requires ps != []
    requires forall p :: p in ps ==> IsParagraph(p)
    ensures Split(Join(ps, ParagraphBreak), ParagraphBreak) == ps
    decreases |ps|
  {
    assert ps[0] in ps;
    if |ps| == 1 {
      SplitNoSep(ps[0], ParagraphBreak);
    } else {
      var rest := Join(ps[1..], ParagraphBreak);
      ParagraphBreakAfter(ps[0], rest);
      SplitAppend(ps[0], ParagraphBreak, rest);
      SplitJoinedParagraphs(ps[1..]);
      assert ps == [ps[0]] + ps[1..];
    }
  }

  /** Each paragraph wrapped in a paragraph element, in order. */
  function Wrapped(ps: seq<string>): (ws: seq<string>)
    ensures |ws| == |ps|
  {
    if ps == [] then [] else [Paragraph(ps[0])] + Wrapped(ps[1..])
  }

  lemma {:induction false} HtmlParagraphsOfParagraphs(ps: seq<string>)
    requires forall p :: p in ps ==> IsParagraph(p)
    ensures HtmlParagraphs(ps) == Wrapped(ps)
    decreases |ps|
  {
    if ps != [] {
      assert ps[0] in ps;
      StripFixedPoint(ps[0]);
      assert HtmlParagraphs(ps) == [Paragraph(ps[0])] + HtmlParagraphs(ps[1..]);
      assert forall p :: p in ps[1..] ==> p in ps;
      HtmlParagraphsOfParagraphs(ps[1..]);
    }
  }

  /** Formatting text written as paragraphs separated by blank lines wraps each paragraph,
      in order, one per line. */
  lemma {:induction false} FormatParagraphs(ps: seq<string>)
    requires forall p :: p in ps ==> IsParagraph(p)
    ensures FormatContentHtml(Join(ps, ParagraphBreak)) == Join(Wrapped(ps), "\n")
  {
    if ps == [] {
      assert Split("", ParagraphBreak) == [""];
    } else {
      SplitJoinedParagraphs(ps);
      HtmlParagraphsOfParagraphs(ps);
    }
  }

  // ---------------------------------------------------------------------------
  // Generated-article text files
  // ---------------------------------------------------------------------------

  datatype Article = Article(title: string, content: string)

  const MaxTitleLength: nat := 255

  /** The text-file branch of `read_article`: the first line, stripped and cut to 255
      characters, is the title; the remaining lines, rejoined and stripped, are the body. */
  function ParseArticleText(text: string): (a: Article)
    ensures |a.title| <= MaxTitleLength
    ensures '\n' !in a.title
    ensures a.title == [] || !IsSpace(a.title[0])
    ensures IsStripped(a.content)
  {
    var lines := Split(text, "\n");
    var first := Strip(lines[0]);
    SplitCharFirstPiece(text, '\n');
    StripChars(lines[0]);
    Article(Prefix(first, MaxTitleLength), Strip(Join(lines[1..], "\n")))
  }

  /** The title is the first line, stripped and cut to 255 characters. */
  lemma {:induction false} ParseTitleIsFirstLine(line: string, rest: string)
    requires '\n' !in line
    ensures ParseArticleText(line + "\n" + rest).title == Prefix(Strip(line), MaxTitleLength)
  {
    SplitCharAppend(line, '\n', rest);
  }

  /** The body is everything after the first line break, stripped. */
  lemma {:induction false} ParseBodyIsRest(line: string, rest: string)
    requires '\n' !in line
    ensures ParseArticleText(line + "\n" + rest).content == Strip(rest)
  {
    SplitCharAppend(line, '\n', rest);
    JoinSplit(rest, "\n");
  }

  /** A text without a line break is all title: stripped and cut to 255 characters, with
      an empty body. */
  lemma {:induction false} ParseOneLine(line: string)
    requires '\n' !in line
    ensures ParseArticleText(line) == Article(Prefix(Strip(line), MaxTitleLength), "")
  {
    SplitCharNoSep(line, '\n');
    assert Split(line, "\n")[1..] == [];
    assert Strip("") == "";
  }

  lemma {:induction false} ParseKeepsStrippedTitle(title: string, rest: string)
    requires '\n' !in title && IsStripped(title) && |title| <= MaxTitleLength
    ensures ParseArticleText(title + "\n" + rest).title == title
  {
    ParseTitleIsFirstLine(title, rest);
    StripFixedPoint(title);
  }

  lemma {:induction false} ParseKeepsStrippedBody(title: string, body: string)
    requires '\n' !in title && IsStripped(body)
    ensures ParseArticleText(title + "\n" + ("\n" + body)).content == body
  {
    var rest := "\n" + body;
    ParseBodyIsRest(title, rest);
    StripBlankLineBefore(body);
  }

  lemma {:induction false} StripBlankLineBefore(body: string)
    requires IsStripped(body)
    ensures Strip("\n" + body) == body
  {
    StripAfterSpaces("\n", body);
  }

  /** Parsing the file the article generator writes gives back its title and body. A
      carriage return would be turned into a line break when the file is read in text
      mode, so neither holds one. */
  lemma {:induction false} ParseSerializedArticle(title: string, body: string)
    requires '\n' !in title && IsStripped(title) && |title| <= MaxTitleLength
    requires IsStripped(body)
    requires '\r' !in title && '\r' !in body
    ensures ParseArticleText(NewsWriter.SerializeArticle(title, body)) == Article(title, body)
  {
    assert NewsWriter.SerializeArticle(title, body) == title + "\n" + ("\n" + body);
    ParseKeepsStrippedTitle(title, "\n" + body);
    ParseKeepsStrippedBody(title, body);
  }
}
