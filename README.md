# A verified model of the Ghost publishing pipeline's core

The pipeline turns a scraped news article into a rewritten article and publishes it
to a Ghost site. This project models, in Dafny, the parts of it that decide what gets
published:

- **The article file** (`NewsWriter`). The article generator writes a text file with
  the title, a blank line and the body.
- **The publisher** (`GhostPublisher`):
  - checks the Ghost admin key (`id:secret`) and the site URL;
  - reads the article file back into a title and a body;
  - formats the body as HTML paragraphs;
  - classifies the article into one of six categories by weighted keyword hits.
- **The first SEO analyser** (`SeoPerson`):
  - tokenises the title and content and counts word frequencies with a counter;
  - removes generic terms and ranks the rest like `Counter.most_common`;
  - picks a primary keyword, preferring local place names, and up to five supporting
    keywords;
  - cuts the meta title and meta description to length;
  - builds the tag list.
- **The second SEO analyser** (`SeoPostPublish`):
  - strips HTML tags from the content and flattens it onto one line;
  - caps the keyword list to ten distinct entity and noun-chunk texts;
  - asks a language model for a meta title, a meta description and an excerpt. It
    retries while a reply is too long, and falls back to cutting the excerpt at its
    last full stop.

Shared string operations live in `Strings`: ASCII letter case, `strip`, `split`/`join`,
substring search and `title()`. `Wrappers` holds `Option` and `Result`.

Errors the source raises are modelled as values:

- a missing or malformed admin key is a `Failure`;
- the `IndexError` raised when no keyword can be chosen is a `Failure`;
- a failed model call is a `Failure`.

The language model is a sequence of replies, one sequence per generator. Each request
consumes the next reply. The prompt of each request is recorded, so the contracts can
state what was asked.

## Model

| member | source | states |
|---|---|---|
| NewsWriter.SerializeArticle | src/news_writer.py:152 | The file is the title, two line breaks and the body. When the title holds no line break, the first line of the file is the title. |
| GhostPublisher.Configure | src/publish_to_ghost.py:20-35 | An unset key fails. A key that does not split on ':' into exactly two parts is rejected before the URL is looked at. A well-formed key with an unset or empty URL gives the missing-credentials error. On success, the key is `id + ":" + secret` and the endpoint is the URL followed by `/ghost/api/admin/posts`. |
| GhostPublisher.AdminKeyRoundTrip | src/publish_to_ghost.py:24-29 | A key built from an id and a secret without ':' is accepted and split back into exactly that id and secret. |
| GhostPublisher.AdminKeyRejected | src/publish_to_ghost.py:24-26 | A key with no ':' and a key with two ':' are both rejected as malformed. |
| GhostPublisher.AddKeywordWeights | src/publish_to_ghost.py:169-176 | One keyword loop adds the weight once for each keyword whose lower-cased form occurs in the text. No other category's score changes. |
| GhostPublisher.ScoreTable | src/publish_to_ghost.py:164-176 | After the loops, every category's score is 2 × its primary hits + 1 × its secondary hits. |
| GhostPublisher.MaxScore | src/publish_to_ghost.py:182 | The result is one of the scores and no score exceeds it. |
| GhostPublisher.FirstMaxIndex | src/publish_to_ghost.py:184 | The chosen position holds a maximal score, and every earlier position scores strictly less, as `max` over an insertion-ordered dict does. |
| GhostPublisher.DetermineCategory | src/publish_to_ghost.py:162-190 | The result is "News" exactly when every category scores 0. Otherwise it is the first category, in declaration order, with the highest score. |
| GhostPublisher.CategoryUnique | src/publish_to_ghost.py:182-190 | The classification is a function of the content: at most one category name satisfies it. |
| GhostPublisher.CategoryCaseInsensitive | src/publish_to_ghost.py:164 | Content and its lower-cased form get the same category. |
| GhostPublisher.Hits | src/publish_to_ghost.py:169-171 | At most one hit per keyword. `HitsCountsMatched` states the count exactly. |
| GhostPublisher.HitsCountsMatched | src/publish_to_ghost.py:169-171 | For a duplicate-free keyword list, the hit count is the number of distinct keywords that occur in the text. |
| GhostPublisher.TableKeywordsDistinct | src/publish_to_ghost.py:38-63 | No keyword list of the category table repeats a keyword, so no keyword is counted twice. |
| GhostPublisher.ScoreCountsKeywords | src/publish_to_ghost.py:164-176 | A category's score is 2 × the number of its distinct primary keywords found plus the number of its distinct secondary keywords found. |
| GhostPublisher.HitsDependOnPresence | src/publish_to_ghost.py:170-175 | Two texts in which the same keywords occur get the same hit count. How often a keyword occurs does not matter. |
| GhostPublisher.HitsMonotone | src/publish_to_ghost.py:170-175 | A text that contains another text as a substring scores at least as many hits. |
| GhostPublisher.ScoreMonotone | src/publish_to_ghost.py:164-176 | Content whose lower-cased form contains another content's lower-cased form scores at least as high in each category. |
| GhostPublisher.FormatContentHtml | src/publish_to_ghost.py:156-160 | The HTML is empty exactly when every blank-line-separated chunk is blank once stripped. Otherwise it is the paragraph elements `HtmlParagraphs` gives, joined by line breaks; `HtmlParagraphsOne` and `HtmlParagraphsAppend` pin those elements for any mix of chunks. |
| GhostPublisher.HtmlParagraphs | src/publish_to_ghost.py:159 | At most one element per chunk. With `HtmlParagraphsOne` and `HtmlParagraphsAppend`: each chunk, in order, gives its stripped text wrapped in `<p>…</p>`, or nothing when it is blank. |
| GhostPublisher.HtmlParagraphsOne | src/publish_to_ghost.py:159 | A single chunk gives `<p>` + its stripped text + `</p>`, or no element when it strips to "". |
| GhostPublisher.HtmlParagraphsAppend | src/publish_to_ghost.py:159 | Chunks are handled one at a time and in order: the elements for `a + b` are those for `a` followed by those for `b`. |
| GhostPublisher.HtmlParagraphsEmpty | src/publish_to_ghost.py:159 | No paragraph element comes out exactly when all chunks are blank. |
| GhostPublisher.FirstParagraphNonEmpty | src/publish_to_ghost.py:159 | The first paragraph element produced is never empty. |
| GhostPublisher.SplitJoinedParagraphs | src/publish_to_ghost.py:158 | Splitting paragraphs that were joined by blank lines gives back exactly those paragraphs. |
| GhostPublisher.HtmlParagraphsOfParagraphs | src/publish_to_ghost.py:159 | Stripped, non-empty paragraphs are each wrapped in `<p>…</p>`, in order, and none is dropped. |
| GhostPublisher.FormatParagraphs | src/publish_to_ghost.py:156-160 | Formatting paragraphs separated by blank lines yields one `<p>` element per paragraph, in order, joined by line breaks. |
| GhostPublisher.ParseArticleText | src/publish_to_ghost.py:89-95 | The title has at most 255 characters, holds no line break and does not start with whitespace. The body is stripped. |
| GhostPublisher.ParseTitleIsFirstLine | src/publish_to_ghost.py:92-93 | The title is the first line, stripped and cut to 255 characters. |
| GhostPublisher.ParseBodyIsRest | src/publish_to_ghost.py:94 | The body is everything after the first line break, stripped. |
| GhostPublisher.ParseOneLine | src/publish_to_ghost.py:92-94 | A text without a line break is all title: the whole text stripped and cut to 255 characters, with an empty body. |
| GhostPublisher.ParseKeepsStrippedTitle | src/publish_to_ghost.py:93 | A stripped one-line title of at most 255 characters is read back unchanged. |
| GhostPublisher.ParseKeepsStrippedBody | src/publish_to_ghost.py:94 | A stripped body after a blank line is read back unchanged. |
| GhostPublisher.StripBlankLineBefore | src/publish_to_ghost.py:94 | Stripping removes the blank line in front of a stripped body and nothing else. |
| GhostPublisher.ParseSerializedArticle | src/publish_to_ghost.py:89-95 | Reading the file the generator writes gives back its title and body. This holds for a stripped one-line title of at most 255 characters and a stripped body, neither holding a carriage return. |
| SeoPerson.Words | src/seo_person.py:79 | Every token is a non-empty run of word characters. |
| SeoPerson.WordsOfWord | src/seo_person.py:79 | A non-empty string of word characters is exactly one token, itself. |
| SeoPerson.WordsOfSeparators | src/seo_person.py:79 | A string without word characters has no token. |
| SeoPerson.RunLength | src/seo_person.py:79 | The token starting a string is its longest prefix of word characters. |
| SeoPerson.RunLengthBeforeSeparator | src/seo_person.py:79 | A run of word characters stops at the first non-word character. |
| SeoPerson.WordsAroundSeparator | src/seo_person.py:79 | A non-word character splits the token list: the tokens of `a + c + b` are the tokens of `a` followed by those of `b`. |
| SeoPerson.WordsChars | src/seo_person.py:79 | Every character of a token comes from the text it was found in. |
| SeoPerson.Tokens | src/seo_person.py:79 | The tokens of the lower-cased `f"{title} {content}"`: each a non-empty run of word characters with no upper-case letter. |
| SeoPerson.TokensOfTitleAndContent | src/seo_person.py:79 | The tokens of `f"{title} {content}"` are the title's tokens followed by the content's. The joining space never glues two words together. |
| SeoPerson.Bump | src/seo_person.py:80 | Counting one more word adds at most one entry. |
| SeoPerson.BumpShape | src/seo_person.py:80 | Existing entries keep their positions. A new word is appended at the end, as in an insertion-ordered dict. |
| SeoPerson.BumpCounts | src/seo_person.py:80 | Only the counted word's entry goes up, by exactly one. A new entry starts at 1. |
| SeoPerson.BumpDistinct | src/seo_person.py:80 | Counting keeps one entry per word. |
| SeoPerson.CountWords | src/seo_person.py:80 | `Counter(words)` built one word at a time: at most one entry per token. `CountWordsSpec` and `CounterInFirstSeenOrder` state its entries, counts and order. |
| SeoPerson.CountWordsSpec | src/seo_person.py:80 | The counter has one entry per distinct token, an entry for every token, and each entry's count is the token's number of occurrences. |
| SeoPerson.CounterInFirstSeenOrder | src/seo_person.py:80 | Entries are in first-occurrence order: an earlier entry's word occurs before any occurrence of a later entry's word. |
| SeoPerson.Without | src/seo_person.py:83-84 | Removing words never adds entries. |
| SeoPerson.WithoutNothing | src/seo_person.py:83-84 | Removing no words leaves the counter unchanged. |
| SeoPerson.WithoutKeeps | src/seo_person.py:83-84 | After removal, the counter holds exactly the entries whose word is not removed. |
| SeoPerson.WithoutDistinct | src/seo_person.py:83-84 | Removal keeps one entry per word. |
| SeoPerson.WithoutTwice | src/seo_person.py:83-84 | Removing one list of words and then another is the same as removing both at once. |
| SeoPerson.KeptAt | src/seo_person.py:83-84 | Each entry left after removal is the entry at some position of the original counter. |
| SeoPerson.WithoutKeepsOrder | src/seo_person.py:83-84 | Removal keeps the order of the remaining entries: a later remaining entry comes from a later position. |
| SeoPerson.Pop | src/seo_person.py:84 | `pop(term, None)` removes that word's entry and leaves everything else in order, including when the word is absent. |
| SeoPerson.RemoveGenericTerms | src/seo_person.py:83-84 | Popping the eleven generic terms one at a time removes exactly their entries. |
| SeoPerson.GenericTermsRemoved | src/seo_person.py:79-84 | After popping, the counter holds one entry for each non-generic token, with that token's number of occurrences, and nothing else. |
| SeoPerson.FreqInFirstSeenOrder | src/seo_person.py:79-84 | After the generic terms are popped the counter is still in first-seen order: an earlier entry's word occurs before any occurrence of a later entry's word. |
| SeoPerson.RankedCons | src/seo_person.py:91 | Putting an entry that precedes every ranked entry at the front keeps the order ranked. |
| SeoPerson.Insert | src/seo_person.py:91 | Insertion into a ranked order keeps it ranked and adds exactly the new position. |
| SeoPerson.RankPrefix | src/seo_person.py:91 | The first `n` entries, ranked, hold exactly the positions below `n`. |
| SeoPerson.MostCommon | src/seo_person.py:91 | `most_common(n)` returns min(n, size) positions, ranked by count (higher first) and then by first occurrence. Every position it leaves out ranks after every position it returns. |
| SeoPerson.SignificantPositions | src/seo_person.py:90-92 | The kept positions are exactly those of the top list whose word has more than 3 characters and is not generic, in their ranked order. |
| SeoPerson.WordsAt | src/seo_person.py:91 | The words of the listed entries, in order. |
| SeoPerson.SignificantTermsProperties | src/seo_person.py:90-92 | At most ten significant terms: the long, non-generic words among the ten most common, in ranked order. |
| SeoPerson.SignificantTerms | src/seo_person.py:90-92 | At most ten words, each longer than 3 characters and not generic, each the word of a counter entry among the ten most common, in the order of the ranked positions. |
| SeoPerson.LocalLower | src/seo_person.py:87 | The thirteen local terms, lower-cased, in order. |
| SeoPerson.LocalRelevance | src/seo_person.py:87 | A token is kept exactly when it equals a lower-cased local term. Order and repetitions are those of the tokens. |
| SeoPerson.LocalRelevanceAppend | src/seo_person.py:87 | The filter keeps the tokens' order: filtering two stretches of tokens one after the other gives the two filtered stretches one after the other. |
| SeoPerson.LocalRelevanceFirst | src/seo_person.py:87 | The first relevant token is the first token that equals a lower-cased local term. |
| SeoPerson.LocalTermsSplit | src/seo_person.py:34-38 | Every local term is either a single word or contains a non-word character. |
| SeoPerson.OnlySingleWordLocalTermsMatch | src/seo_person.py:87 | Only single-word local terms can ever match a token. Multi-word and hyphenated terms ("Main Street", "Mid-Atlantic") never do. |
| SeoPerson.TitledExcept | src/seo_person.py:98 | At most as many words as given. The result holds exactly the title-cased words that differ from the primary keyword. |
| SeoPerson.TitledExceptAppend | src/seo_person.py:98 | The secondary keywords keep the order of the terms they come from. |
| SeoPerson.ExtractKeywords | src/seo_person.py:76-100 | The extraction fails (the source's `IndexError`) exactly when there is no local token and no significant term. Otherwise the primary keyword is the title-cased first local token, or else the top significant term. The secondary keywords are the title-cased significant terms 2 to 6 that differ from the primary. |
| SeoPerson.SecondaryKeywordsBounded | src/seo_person.py:98 | At most five secondary keywords. None equals the primary keyword. Each is a title-cased significant term at rank 2 to 6. |
| SeoPerson.PrimaryPrefersLocal | src/seo_person.py:95 | When there is a local token, the primary keyword comes from a token equal to a lower-cased single-word local term. |
| SeoPerson.NoTokensNoKeywords | src/seo_person.py:87-95 | Title and content without tokens give no local token and no term, so extraction fails. |
| SeoPerson.MetaTitle | src/seo_person.py:105 | A title of at most 60 characters is kept. A longer one becomes its first 57 characters plus "..." (60 characters). |
| SeoPerson.FirstLine | src/seo_person.py:108 | The first line is a prefix of the content and holds no line break. It ends at the content's first line break, or at the end of the content when there is none. |
| SeoPerson.MetaDescription | src/seo_person.py:108-109 | A first line of at most 145 characters is kept. A longer one becomes its first 142 characters plus "..." (145 characters). |
| SeoPerson.GenerateMeta | src/seo_person.py:102-111 | The meta title is at most 60 characters and is the title itself exactly when that fits. The description is at most 145 characters, has no line break, and is the first line itself exactly when that fits. |
| SeoPerson.MetaLengthsExceedComments | src/seo_person.py:104-109 | A 61-character title gives a 60-character meta title and a 146-character first line gives a 145-character description. Both are one more than the 59 and 144 the comments name. |
| SeoPerson.LocalPrimaryLower | src/seo_person.py:119 | The five primary local terms, lower-cased, in order. |
| SeoPerson.DetermineTags | src/seo_person.py:113-122 | The category is always "News". The tags are the primary keyword, then the first three secondary keywords, then "Delaware News" exactly when a primary local term occurs in the content, ignoring case. That makes one to five tags. |
| SeoPerson.AnalyzeContent | src/seo_person.py:55-74 | Analysis fails exactly when keyword extraction does. On success: the meta title and description are the cut versions and within 60 and 145 characters; the category is "News"; the first tag is the primary keyword; there are one to five tags; the last tag is the local tag when a local place is mentioned; there are at most five supporting keywords and none equals the primary. The primary and supporting keywords are the ones keyword extraction picks. The tags are the primary keyword, the first three supporting keywords and the local tag when a primary local term occurs in the content. |
| SeoPostPublish.CloseFrom | src/seo_post_publish.py:60 | Finds the first '>' with no '<' before it. If there is none, every '>' has a '<' before it. |
| SeoPostPublish.TagAt | src/seo_post_publish.py:60 | A match of `<[^<]+?>` starts with '<' and holds at least one character before its closing '>'. No '<' lies inside it, and it ends at the first '>' after its first inner character. There is no match exactly when the text is too short, does not start with '<' followed by a non-'<', or has a '<' before every later '>'. |
| SeoPostPublish.RemoveTags | src/seo_post_publish.py:60 | Tag removal never lengthens the text. |
| SeoPostPublish.RemoveTagsKeepsText | src/seo_post_publish.py:60 | Text with no '<' in front of the rest is kept as it is, and the rest is cleaned on its own. |
| SeoPostPublish.RemoveTagsNoTag | src/seo_post_publish.py:60 | Text without '<' is left unchanged. |
| SeoPostPublish.RemoveTagsAroundTag | src/seo_post_publish.py:60 | The text before a tag is kept, the tag is deleted, and the text after it is cleaned on its own. |
| SeoPostPublish.RemoveTagsDropsTag | src/seo_post_publish.py:60 | A leading tag `<…>` is removed entirely and the rest is processed the same way. |
| SeoPostPublish.CloseReaches | src/seo_post_publish.py:60 | The search for the closing '>' stops at the first '>' when no '<' or '>' comes earlier. |
| SeoPostPublish.RemoveTagsKeepsStrayBracket | src/seo_post_publish.py:60 | A '<' that starts no tag is kept: "a < b" comes through unchanged, and "<<b>" becomes "<" because the tag's inside cannot begin with '<'. |
| SeoPostPublish.RemoveTagsNotIdempotent | src/seo_post_publish.py:60 | One pass over "<a<b>>" leaves "<a>", and a second pass removes that. Cleaning is not idempotent. |
| SeoPostPublish.ReplaceChar | src/seo_post_publish.py:60 | `replace` of one character: every occurrence is replaced and nothing else changes. |
| SeoPostPublish.Flatten | src/seo_post_publish.py:60 | Each '\n' and '\r' becomes ' ', and every other character stays in place, so none remains. Stripped text stays stripped. |
| SeoPostPublish.FlattenSingleLine | src/seo_post_publish.py:60 | Text on one line is unchanged by flattening. |
| SeoPostPublish.CleanHtml | src/seo_post_publish.py:58-60 | Character for character, the cleaned content is the tag-free text after `strip()`, with each '\n' and '\r' turned into ' '. So it is one stripped line of the same length. |
| SeoPostPublish.CleanPlainText | src/seo_post_publish.py:60 | Text without any '<' cleans to `Flatten(Strip(content))`: stripped, then its line breaks turned into spaces. A single line is only stripped. |
| SeoPostPublish.LongTexts | src/seo_post_publish.py:75-76 | Keeps exactly the texts longer than 3 characters. |
| SeoPostPublish.Dedup | src/seo_post_publish.py:79 | Deduplication keeps each text once and loses none. |
| SeoPostPublish.KeywordCap | src/seo_post_publish.py:75-79 | The keywords are distinct, and each is an entity or noun-chunk text longer than 3 characters. There are exactly min(10, number of distinct such texts) of them. When there are at most ten such texts, all of them are kept. |
| SeoPostPublish.FirstShort | src/seo_post_publish.py:110-113 | Asking again stops at the first reply that is not over the limit, and every earlier reply was over it. There is none exactly when every reply is over the limit. |
| SeoPostPublish.Attempts | src/seo_post_publish.py:87-117 | The number of requests is at most the number of replies available, and at least one whenever any reply is available. |
| SeoPostPublish.Retried | src/seo_post_publish.py:87-117 | The result is "exhausted" exactly when every reply is over the limit. Otherwise it is the answer to the last request: its text, within the limit, or the API failure. |
| SeoPostPublish.FirstReplyShort | src/seo_post_publish.py:110-114 | A first reply within the limit is returned after a single request. |
| SeoPostPublish.RetryUntilShort | src/seo_post_publish.py:87-117 | The requests are the prompt repeated once per attempt. The result is the retry policy's result, every reply before the last was too long, and an "exhausted" result has used up every reply. |
| SeoPostPublish.CreateMetaTitle | src/seo_post_publish.py:81-117 | The requests are the title prompt repeated once per attempt. The result is the retry policy's result with limit 59, and every reply before the last was over 59 characters. |
| SeoPostPublish.CreateMetaDescription | src/seo_post_publish.py:119-166 | The requests are the description prompt repeated once per attempt. The result is the retry policy's result with limit 144, and every reply before the last was over 144 characters. |
| SeoPostPublish.LastIndexOf | src/seo_post_publish.py:219 | The position of the last occurrence of a character, or none when it does not occur. |
| SeoPostPublish.TruncateExcerpt | src/seo_post_publish.py:219 | The result always ends in '.'. If the first 249 characters contain a '.', the result is the prefix up to and including the last one. Otherwise it is all 249 characters plus '.'. In every case it has at most 250 characters. |
| SeoPostPublish.TruncationCanOvershoot | src/seo_post_publish.py:219 | Without a '.' in the first 249 characters, the truncated excerpt has 250 characters, one over the limit. |
| SeoPostPublish.ExcerptAttempts | src/seo_post_publish.py:168-224 | One to four excerpt requests are made. |
| SeoPostPublish.Excerpted | src/seo_post_publish.py:211-221 | The excerpt is never "exhausted". A returned excerpt has at most 250 characters. |
| SeoPostPublish.CreateExcerpt | src/seo_post_publish.py:168-224 | One to four requests, all the excerpt prompt, every earlier reply too long. If the fourth reply is still too long, the result is that reply truncated. Otherwise it is the last reply, or its API error. A returned excerpt has at most 250 characters. The requests and the result are those `ExcerptAttempts` and `Excerpted` give. |
| SeoPostPublish.AnalyzeContent | src/seo_post_publish.py:46-56 | Every request is the title prompt (first two keywords), the description prompt (first three keywords, cleaned content) or the excerpt prompt (cleaned content). On success, the keywords are the capped list and the three texts are within 59, 144 and 250 characters. The requests are the title attempts, then the description attempts if the title succeeded, then the excerpt attempts if both succeeded. The result is the first generator failure, in that order; without one, it holds the three generated texts. |
| Strings.Lower | src/publish_to_ghost.py:164 | Lower-casing keeps the length and maps each character on its own, ASCII only. |
| Strings.TitleCase | src/seo_person.py:95-98 | `str.title()` on ASCII keeps the length. A letter after a letter is lower-cased, any other letter is upper-cased, and every other character is kept, so digits and `_` end a word. |
| Strings.TitleFromPointwise | src/seo_person.py:95-98 | Each title-cased character depends only on itself and on whether the character before it is a letter. |
| Strings.TitleCaseDigitBreaksWord | src/seo_person.py:95 | "ab1cd" title-cases to "Ab1Cd", and "news" to "News". |
| Strings.LeadingSpace | src/publish_to_ghost.py:93 | The count of leading whitespace characters: all of them are whitespace and the next one is not. |
| Strings.TrailingSpace | src/publish_to_ghost.py:93 | The count of trailing whitespace characters: all of them are whitespace and the one before them is not. |
| Strings.Strip | src/publish_to_ghost.py:93 | `strip()` returns the middle of the input, with no whitespace at either end. Everything before and after it is whitespace. |
| Strings.StripFixedPoint | src/publish_to_ghost.py:93 | `strip()` leaves a string unchanged exactly when it has no outer whitespace. |
| Strings.StripAfterSpaces | src/publish_to_ghost.py:94 | Whitespace in front of a stripped string is all that `strip()` removes. |
| Strings.StripChars | src/seo_post_publish.py:60 | Every character `strip()` keeps comes from the input. |
| Strings.JoinSplit | src/publish_to_ghost.py:92-94 | Joining the pieces of a split with the same separator gives back the text. |
| Strings.SplitAppend | src/publish_to_ghost.py:158 | `a + sep + b` splits into `a` followed by the pieces of `b` when no separator starts inside `a`. |
| Strings.SplitCharFirstPiece | src/publish_to_ghost.py:92-93 | The first piece of a split on one character does not contain that character. |
| Strings.SplitFirstPieceIsPrefix | src/seo_person.py:108 | The first piece of a split is a prefix of the text. It runs up to the first separator, or to the end when there is none. |

## Left out

- The HTTP calls are left out: the post request to Ghost, and the calls to the language model, which become reply sequences. The JWT token, reading and writing files, `.env` loading, logging and the `main` functions are left out too; they are I/O.
- The `publish_article` glue is left out: assembling the mobiledoc and post payload, and the article-path substitutions. It only moves values between the modelled operations and the network.
- ParseArticleText: takes the text after Python's text-mode read. That read turns "\r\n" and "\r" into "\n", and this translation is not modelled. So `ParseSerializedArticle` is stated only for a title and body without carriage returns.
- The JSON branch of `read_article` is not modelled: JSON decoding is I/O. Its title rule (strip, then cut to 255) is the one `ParseArticleText` uses.
- The spaCy pipeline is not modelled. Its named entities and noun chunks are inputs to `KeywordCap` and `SeoPostPublish.AnalyzeContent`.
- The four byline-removal regular expressions of `SEOPostPublisher.analyze_content` are not modelled. `SeoPostPublish.AnalyzeContent` takes the content after those substitutions.
- The word-frequency table in `SEOPostPublisher._extract_keywords` (stop-word filter) is not modelled. Its result is never used.
- Characters are ASCII. Unicode letter case, Unicode `\w` and Unicode whitespace are not modelled.
- KeywordCap: `list(set(...))` has an order Python does not fix. The model keeps first-occurrence order, so which ten keywords survive the cap is one possible choice, not the only one.
- RetryUntilShort: the source retries without bound, by recursion, until Python's recursion limit. The model stops when its replies run out, with an "exhausted" failure, and proves nothing about a reply that never comes.
- SeoPostPublish.CreateExcerpt: requires at least four replies, as many as the source can ask for. A model that answers every request always has them.
- SeoPostPublish.AnalyzeContent: each generator reads its own reply sequence. The interleaving of requests to one shared model is not captured, only each generator's own requests.
- The writing-style prose returned by `SEOAnalyzer.analyze_content` is constant text. The `Analysis` value leaves it out.
- `SeoPerson.AnalyzeContent` reports the `IndexError` of an article without keywords as a `Failure` instead of an exception.
- `SEOPostPublisher.__init__` is not modelled: it checks the OpenAI key and loads the NLP model, which is configuration I/O.
