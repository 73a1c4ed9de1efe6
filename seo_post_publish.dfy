/** The post-publication SEO pass: HTML cleaning, the keyword cap over entity and
    noun-chunk texts, and the length-constrained generation policy for the meta title,
    the meta description and the excerpt, with the language model as a sequence of
    replies. */
module SeoPostPublish {
  import opened Wrappers
  import opened Strings

  const MetaTitleLimit: nat := 59
  const MetaDescriptionLimit: nat := 144
  const ExcerptLimit: nat := 249
  const MaxRetries: nat := 3
  const KeywordLimit: nat := 10
  const MinKeywordLength: nat := 3
  const TitleKeywords: nat := 2          // keywords[:2] go to the title prompt
  const DescriptionKeywords: nat := 3    // keywords[:3] go to the description prompt

  // ---------------------------------------------------------------------------
  // HTML cleaning
  // ---------------------------------------------------------------------------

  /** Looking from `k` for the `>` that ends a tag: the first `>` before any `<`. */
  function CloseFrom(s: string, k: nat): (r: Option<nat>)
    ensures r.Some? ==> k < r.value <= |s| && s[r.value - 1] == '>'
    ensures r.Some? ==> forall j :: k <= j < r.value - 1 ==> s[j] != '<' && s[j] != '>'
    ensures r.None? ==> forall j :: k <= j < |s| && s[j] == '>' ==> '<' in s[k..j]
    decreases |s| - k
  {
    if k >= |s| then None
    else if s[k] == '>' then Some(k + 1)
    else if s[k] == '<' then None
    else
      var r := CloseFrom(s, k + 1);
      assert r.None? ==> forall j :: k + 1 <= j < |s| && s[j] == '>' ==> s[k + 1..j] <= s[k..j][1..];
      r
  }

  /** The length of the match of `<[^<]+?>` at the start of `s`, if any: a `<`, at least
      one character other than `<`, and the first `>` after that. */
  function TagAt(s: string): (r: Option<nat>)
    ensures r.Some? ==> 3 <= r.value <= |s| && s[0] == '<' && s[r.value - 1] == '>'
    ensures r.Some? ==> forall j :: 1 <= j < r.value - 1 ==> s[j] != '<'
    ensures r.Some? ==> forall j :: 2 <= j < r.value - 1 ==> s[j] != '>'
    ensures r.None? ==>
      || |s| < 3 || s[0] != '<' || s[1] == '<'
      || forall j :: 2 <= j < |s| && s[j] == '>' ==> '<' in s[2..j]
  {
    if |s| >= 3 && s[0] == '<' && s[1] != '<' then CloseFrom(s, 2) else None
  }

  /** `re.sub('<[^<]+?>', '', s)`: every match, scanning from the left, is deleted. */
  function RemoveTags(s: string): (r: string)
    ensures |r| <= |s|
    decreases |s|
  {
    if s == [] then []
    else match TagAt(s)
      case Some(n) => RemoveTags(s[n..])
      case None => [s[0]] + RemoveTags(s[1..])
  }

  /** Text with no `<` in front of the rest comes through unchanged. */
  lemma {:induction false} RemoveTagsKeepsText(a: string, b: string)
    requires '<' !in a
    ensures RemoveTags(a + b) == a + RemoveTags(b)
    decreases |a|
  {
    if a != [] {
      assert (a + b)[0] == a[0] != '<';
      assert (a + b)[1..] == a[1..] + b;
      assert forall c :: c in a[1..] ==> c in a;
      RemoveTagsKeepsText(a[1..], b);
      assert [a[0]] + a[1..] == a;
    } else {
      assert a + b == b;
    }
  }

  /** Text with no `<` has no tag and comes through unchanged. */
  lemma {:induction false} RemoveTagsNoTag(s: string)
    requires '<' !in s
    ensures RemoveTags(s) == s
  {
    RemoveTagsKeepsText(s, []);
    assert s + [] == s;
  }

  /** A tag with a non-empty inside free of `<` and `>` is deleted outright. */
  lemma {:induction false} RemoveTagsDropsTag(inside: string, rest: string)
    requires inside != [] && '<' !in inside && '>' !in inside
    ensures RemoveTags("<" + inside + ">" + rest) == RemoveTags(rest)
  {
    var s := "<" + inside + ">" + rest;
    var n := |inside| + 2;
    assert s[n - 1] == '>';
    assert forall j :: 2 <= j < n - 1 ==> s[j] == inside[j - 1];
    CloseReaches(s, 2, n);
    assert s[n..] == rest;
  }

  /** Text before a tag is kept and the tag itself is deleted. */
  lemma {:induction false} RemoveTagsAroundTag(a: string, inside: string, b: string)
    requires '<' !in a
    requires inside != [] && '<' !in inside && '>' !in inside
    ensures RemoveTags(a + "<" + inside + ">" + b) == a + RemoveTags(b)
  {
    var t := "<" + inside + ">" + b;
    assert a + "<" + inside + ">" + b == a + t;
    RemoveTagsKeepsText(a, t);
    RemoveTagsDropsTag(inside, b);
  }

  lemma {:induction false} CloseReaches(s: string, k: nat, n: nat)
    requires k < n <= |s| && s[n - 1] == '>'
    requires forall j :: k <= j < n - 1 ==> s[j] != '<' && s[j] != '>'
    ensures CloseFrom(s, k) == Some(n)
    decreases n - k
  {
    if k < n - 1 {
      CloseReaches(s, k + 1, n);
    }
  }

  /** A `<` that starts no tag is kept: a lone `<` with no `>` after it, and a `<` directly
      followed by another `<`, which the class `[^<]` cannot take as the tag's inside. */
  lemma {:induction false} RemoveTagsKeepsStrayBracket()
    ensures RemoveTags("a < b") == "a < b"
    ensures RemoveTags("<<b>") == "<"
  {
    RemoveTagsNoTag(" b");
    RemoveTagsKeepsText("a ", "< b");
    assert "a " + "< b" == "a < b";
    var s := "< b";
    assert TagAt(s) == None by {
      assert CloseFrom(s, 3) == None;
      assert CloseFrom(s, 2) == None;
    }
    assert s[1..] == " b";
    var t := "<<b>";
    assert TagAt(t) == None;
    assert t[1..] == "<b>";
    RemoveTagsDropsTag("b", "");
    assert "<" + "b" + ">" + "" == "<b>";
  }

  /** One pass is not enough for nested brackets: `<a<b>>` leaves `<a>` behind. */
  lemma {:induction false} RemoveTagsNotIdempotent()
    ensures RemoveTags("<a<b>>") == "<a>"
    ensures RemoveTags("<a>") == ""
  {
    var s := "<a<b>>";
    assert TagAt(s) == None by {
      assert CloseFrom(s, 2) == None;
    }
    assert s[1..] == "a<b>>";
    assert TagAt("a<b>>") == None;
    assert "a<b>>"[1..] == "<b>>";
    RemoveTagsDropsTag("b", ">");
    assert "<b>>" == "<" + "b" + ">" + ">";
    assert TagAt(">") == None;
    assert ">"[1..] == [];
    RemoveTagsDropsTag("a", "");
    assert "<a>" == "<" + "a" + ">" + "";
  }

  /** `s.replace(c, d)` for single characters. */
  function ReplaceChar(s: string, c: char, d: char): (r: string)
    ensures |r| == |s|
    ensures forall i :: 0 <= i < |s| ==> r[i] == if s[i] == c then d else s[i]
  {
    if s == [] then [] else [if s[0] == c then d else s[0]] + ReplaceChar(s[1..], c, d)
  }

  /** `.replace("\n", " ").replace("\r", " ")`: line breaks become spaces, nothing else
      changes, and stripped text stays stripped. */
  function Flatten(s: string): (r: string)
    ensures |r| == |s|
    ensures '\n' !in r && '\r' !in r
    ensures forall i :: 0 <= i < |s| && s[i] != '\n' && s[i] != '\r' ==> r[i] == s[i]
    ensures forall i :: 0 <= i < |s| && (s[i] == '\n' || s[i] == '\r') ==> r[i] == ' '
    ensures IsStripped(s) ==> IsStripped(r)
  {
    var r := ReplaceChar(ReplaceChar(s, '\n', ' '), '\r', ' ');
    assert forall i :: 0 <= i < |r| ==> r[i] != '\n' && r[i] != '\r';
    r
  }

  /** `_clean_html`: tags removed, the result stripped, then line breaks turned to spaces. */
  function CleanHtml(content: string): (clean: string)
    ensures '\n' !in clean && '\r' !in clean
    ensures IsStripped(clean)
    ensures |clean| == |Strip(RemoveTags(content))|
    ensures var t := Strip(RemoveTags(content));
      forall i :: 0 <= i < |t| ==> clean[i] == if t[i] == '\n' || t[i] == '\r' then ' ' else t[i]
  {
    Flatten(Strip(RemoveTags(content)))
  }

  /** Plain text without a `<` is only stripped and flattened onto one line. */
  lemma {:induction false} CleanPlainText(content: string)
    requires '<' !in content
    ensures CleanHtml(content) == Flatten(Strip(content))
    ensures |CleanHtml(content)| == |Strip(content)|
    ensures '\n' !in content && '\r' !in content ==> CleanHtml(content) == Strip(content)
  {
    RemoveTagsNoTag(content);
    var s := Strip(content);
    StripChars(content);
    if '\n' !in content && '\r' !in content {
      assert '\n' !in s && '\r' !in s;
      FlattenSingleLine(s);
    }
  }

  /** Text on a single line is not changed by flattening. */
  lemma {:induction false} FlattenSingleLine(s: string)
    requires '\n' !in s && '\r' !in s
    ensures Flatten(s) == s
  {
    assert forall i :: 0 <= i < |s| ==> s[i] != '\n' && s[i] != '\r';
  }

  // ---------------------------------------------------------------------------
  // Keyword cap
  // ---------------------------------------------------------------------------

  /** The texts longer than three characters, in order. */
  function LongTexts(xs: seq<string>): (r: seq<string>)
    ensures forall x :: x in r <==> x in xs && |x| > MinKeywordLength
  {
    if xs == [] then []
    else (if |xs[0]| > MinKeywordLength then [xs[0]] else []) + LongTexts(xs[1..])
  }

  /** The distinct elements of `xs` in order of first occurrence. */
  function Dedup(xs: seq<string>): (r: seq<string>)
    ensures Distinct(r)
    ensures forall x :: x in r <==> x in xs
    ensures |r| <= |xs|
  {
    if xs == [] then []
    else
      var init := xs[..|xs| - 1];
      var last := xs[|xs| - 1];
      assert xs == init + [last];
      var d := Dedup(init);
      if last in init then d else d + [last]
  }

  /** `list(set(entities + noun_chunks))[:10]` over the entity and noun-chunk texts longer
      than three characters. */
  function KeywordCap(entities: seq<string>, chunks: seq<string>): (kw: seq<string>)
    ensures var all := Dedup(LongTexts(entities + chunks));
      |kw| == if |all| <= KeywordLimit then |all| else KeywordLimit
    ensures Distinct(kw)
    ensures forall k :: k in kw ==> |k| > MinKeywordLength && (k in entities || k in chunks)
    ensures |Dedup(LongTexts(entities + chunks))| <= KeywordLimit ==>
      forall x :: (x in entities || x in chunks) && |x| > MinKeywordLength ==> x in kw
  {
    var all := Dedup(LongTexts(entities + chunks));
    var kw := Prefix(all, KeywordLimit);
    assert forall k :: k in kw ==> k in all;
    kw
  }

  // ---------------------------------------------------------------------------
  // Length-constrained generation
  // ---------------------------------------------------------------------------

  /** What is sent to the language model. */
  datatype Prompt =
    | TitlePrompt(title: string, keywords: seq<string>)
    | DescriptionPrompt(content: string, keywords: seq<string>)
    | ExcerptPrompt(content: string)

  /** What comes back: a completion, or the exception the client raised. */
  datatype Reply = Completion(text: string) | ApiError(message: string)

  datatype GenerationError =
    | ApiFailure(message: string)  // re-raised from the client call
    | Exhausted                    // the replies ran out while every one was too long

  /** A completion that is over the length limit and so asked for again. */
  predicate OverLong(reply: Reply, limit: nat) {
    reply.Completion? && |reply.text| > limit
  }

  /** The result a reply within the limit, or a failed call, gives. */
  function Answer(reply: Reply): Result<string, GenerationError> {
    match reply
    case Completion(text) => Success(text)
    case ApiError(message) => Failure(ApiFailure(message))
  }

  /** Where asking again stops: the first reply that is not over-long, if any. */
  function FirstShort(replies: seq<Reply>, limit: nat): (k: Option<nat>)
    ensures k.Some? ==>
      && k.value < |replies| && !OverLong(replies[k.value], limit)
      && forall i :: 0 <= i < k.value ==> OverLong(replies[i], limit)
    ensures k.None? ==> forall i :: 0 <= i < |replies| ==> OverLong(replies[i], limit)
  {
    if replies == [] then None
    else if !OverLong(replies[0], limit) then Some(0)
    else match FirstShort(replies[1..], limit)
      case Some(k) => Some(k + 1)
      case None => None
  }

  /** How many requests the retry policy makes before it stops. */
  function Attempts(replies: seq<Reply>, limit: nat): (n: nat)
    ensures n <= |replies|
    ensures replies != [] ==> n >= 1
  {
    match FirstShort(replies, limit)
    case Some(k) => k + 1
    case None => |replies|
  }

  /** What the retry policy returns: the first reply within the limit, the error of a
      failed call, or "exhausted" when every reply is too long. */
  function Retried(replies: seq<Reply>, limit: nat): (r: Result<string, GenerationError>)
    ensures r == Failure(Exhausted) <==> forall i :: 0 <= i < |replies| ==> OverLong(replies[i], limit)
    ensures r.Success? ==> |r.value| <= limit
    ensures r != Failure(Exhausted) ==> r == Answer(replies[Attempts(replies, limit) - 1])
  {
    match FirstShort(replies, limit)
    case Some(k) => Answer(replies[k])
    case None => Failure(Exhausted)
  }

  /** `n` copies of `x`. */
  function Repeat<T>(x: T, n: nat): (s: seq<T>)
    ensures |s| == n && forall i :: 0 <= i < n ==> s[i] == x
  {
    seq(n, _ => x)
  }

  /** A first reply within the limit is taken at once: one request, and that reply. */
  lemma {:induction false} FirstReplyShort(replies: seq<Reply>, limit: nat)
    requires replies != [] && replies[0].Completion? && |replies[0].text| <= limit
    ensures Attempts(replies, limit) == 1
    ensures Retried(replies, limit) == Success(replies[0].text)
  {
    assert !OverLong(replies[0], limit);
  }

  /** The "ask again while too long" policy of `_create_meta_title` and
      `_create_meta_description`: the same prompt is sent for each reply in turn until a
      reply is within `limit` or the call fails; the source has no bound on the number of
      requests, so running out of `replies` stands for that. */
  method RetryUntilShort(prompt: Prompt, limit: nat, replies: seq<Reply>)
    returns (r: Result<string, GenerationError>, requests: seq<Prompt>)
    ensures requests == Repeat(prompt, Attempts(replies, limit))
    ensures r == Retried(replies, limit)
    ensures forall i :: 0 <= i < |requests| - 1 ==> OverLong(replies[i], limit)
    ensures r == Failure(Exhausted) ==> |requests| == |replies|
  {
    requests := [];
    var i := 0;
    while i < |replies|
      invariant 0 <= i <= |replies| && requests == Repeat(prompt, i)
      invariant forall j :: 0 <= j < i ==> OverLong(replies[j], limit)
    {
      requests := requests + [prompt];
      var reply := replies[i];
      if !OverLong(reply, limit) {
        r := Answer(reply);
        return;
      }
      i := i + 1;
    }
    r := Failure(Exhausted);
  }

  /** `_create_meta_title`: the title prompt is sent until a reply is at most 59
      characters long or the call fails. */
  method CreateMetaTitle(title: string, keywords: seq<string>, replies: seq<Reply>)
    returns (r: Result<string, GenerationError>, requests: seq<Prompt>)
    ensures requests == Repeat(TitlePrompt(title, keywords), Attempts(replies, MetaTitleLimit))
    ensures r == Retried(replies, MetaTitleLimit)
    ensures forall i :: 0 <= i < |requests| - 1 ==> OverLong(replies[i], MetaTitleLimit)
  {
    r, requests := RetryUntilShort(TitlePrompt(title, keywords), MetaTitleLimit, replies);
  }

  /** `_create_meta_description`: the description prompt is sent until a reply is at
      most 144 characters long or the call fails. */
  method CreateMetaDescription(content: string, keywords: seq<string>, replies: seq<Reply>)
    returns (r: Result<string, GenerationError>, requests: seq<Prompt>)
    ensures requests == Repeat(DescriptionPrompt(content, keywords), Attempts(replies, MetaDescriptionLimit))
    ensures r == Retried(replies, MetaDescriptionLimit)
    ensures forall i :: 0 <= i < |requests| - 1 ==> OverLong(replies[i], MetaDescriptionLimit)
  {
    r, requests := RetryUntilShort(DescriptionPrompt(content, keywords), MetaDescriptionLimit, replies);
  }

  /** Position of the last `c` in `s`, if any. */
  function LastIndexOf(s: string, c: char): (r: Option<nat>)
    ensures r.Some? ==> r.value < |s| && s[r.value] == c && c !in s[r.value + 1..]
    ensures r.None? ==> c !in s
  {
    if s == [] then None
    else if s[|s| - 1] == c then Some(|s| - 1)
    else
      var r := LastIndexOf(s[..|s| - 1], c);
      assert s == s[..|s| - 1] + [s[|s| - 1]];
      if r.Some? then
        assert s[r.value + 1..] == s[..|s| - 1][r.value + 1..] + [s[|s| - 1]];
        r
      else r
  }

  /** `excerpt[:249].rsplit('.', 1)[0] + '.'`: cut back to the last full stop within the
      first 249 characters. */
  function TruncateExcerpt(excerpt: string): (cut: string)
    ensures |cut| >= 1 && cut[|cut| - 1] == '.'
    ensures '.' in Prefix(excerpt, ExcerptLimit) ==>
      |cut| <= ExcerptLimit && HasPrefix(excerpt, cut) && '.' !in Prefix(excerpt, ExcerptLimit)[|cut|..]
    ensures '.' !in Prefix(excerpt, ExcerptLimit) ==> cut == Prefix(excerpt, ExcerptLimit) + "."
    ensures |cut| <= ExcerptLimit + 1
  {
    var head := Prefix(excerpt, ExcerptLimit);
    match LastIndexOf(head, '.')
    case Some(k) =>
      assert head[..k] + "." == head[..k + 1];
      head[..k] + "."
    case None => head + "."
  }

  /** The fallback can return 250 characters, one over the limit it is meant to keep:
      a 249-character opening without a full stop gets one appended. */
  lemma TruncationCanOvershoot(excerpt: string)
    requires |excerpt| >= ExcerptLimit && '.' !in excerpt[..ExcerptLimit]
    ensures |TruncateExcerpt(excerpt)| == ExcerptLimit + 1
  {
  }

  /** How many excerpt requests are made: as for the meta texts, but at most
      `MaxRetries + 1`. */
  function ExcerptAttempts(replies: seq<Reply>): (n: nat)
    requires |replies| > MaxRetries
    ensures 1 <= n <= MaxRetries + 1
  {
    Attempts(replies[..MaxRetries + 1], ExcerptLimit)
  }

  /** What `_create_excerpt` returns: the first reply within 249 characters or the error
      of a failed call, and when all allowed replies are too long, the last one cut back. */
  function Excerpted(replies: seq<Reply>): (r: Result<string, GenerationError>)
    requires |replies| > MaxRetries
    ensures r != Failure(Exhausted)
    ensures r.Success? ==> |r.value| <= ExcerptLimit + 1
  {
    var allowed := replies[..MaxRetries + 1];
    match FirstShort(allowed, ExcerptLimit)
    case Some(k) => Answer(allowed[k])
    case None => Success(TruncateExcerpt(allowed[MaxRetries].text))
  }

  /** `_create_excerpt`: up to `MaxRetries + 1` requests; the first reply within 249
      characters is returned as is, a failed call ends the attempt, and when the last
      allowed reply is still too long it is cut back with `TruncateExcerpt`. */
  method CreateExcerpt(content: string, replies: seq<Reply>)
    returns (r: Result<string, GenerationError>, requests: seq<Prompt>)
    requires |replies| > MaxRetries
    ensures 1 <= |requests| <= MaxRetries + 1
    ensures forall i :: 0 <= i < |requests| ==> requests[i] == ExcerptPrompt(content)
    ensures forall i :: 0 <= i < |requests| - 1 ==> OverLong(replies[i], ExcerptLimit)
    ensures var last := replies[|requests| - 1];
      if OverLong(last, ExcerptLimit) then |requests| == MaxRetries + 1 && r == Success(TruncateExcerpt(last.text))
      else r == Answer(last)
    ensures r.Success? ==> |r.value| <= ExcerptLimit + 1
    ensures requests == Repeat(ExcerptPrompt(content), ExcerptAttempts(replies))
    ensures r == Excerpted(replies)
  {
    ghost var allowed := replies[..MaxRetries + 1];
    requests := [];
    var retryCount := 0;
    while true
      invariant 0 <= retryCount <= MaxRetries && |requests| == retryCount
      invariant forall j :: 0 <= j < retryCount ==> requests[j] == ExcerptPrompt(content) && OverLong(replies[j], ExcerptLimit)
      invariant requests == Repeat(ExcerptPrompt(content), retryCount)
      decreases MaxRetries - retryCount
    {
      requests := requests + [ExcerptPrompt(content)];
      var reply := replies[retryCount];
      assert forall j :: 0 <= j <= retryCount ==> allowed[j] == replies[j];
      if !OverLong(reply, ExcerptLimit) {
        return Answer(reply), requests;
      }
      if retryCount < MaxRetries {
        retryCount := retryCount + 1;
      } else {
        return Success(TruncateExcerpt(reply.text)), requests;
      }
    }
  }

  // ---------------------------------------------------------------------------
  // The whole analysis
  // ---------------------------------------------------------------------------

  datatype PostMetadata = PostMetadata(
    keywords: seq<string>,
    metaTitle: string,
    metaDescription: string,
    excerpt: string)

  /** A prompt `analyze_content` may send: the title with the first two keywords, the
      cleaned content with the first three, or the cleaned content alone. */
  predicate AnalysisPrompt(p: Prompt, title: string, clean: string, keywords: seq<string>) {
    || p == TitlePrompt(title, Prefix(keywords, TitleKeywords))
    || p == DescriptionPrompt(clean, Prefix(keywords, DescriptionKeywords))
    || p == ExcerptPrompt(clean)
  }

  /** `analyze_content` on content whose bylines are already removed: the HTML is cleaned,
      the keywords capped, then title, description and excerpt are generated in that order,
      the first failure ending the analysis. `entities` and `chunks` are the texts the
      NLP pipeline finds in the cleaned content. */
  method AnalyzeContent(content: string, title: string, entities: seq<string>, chunks: seq<string>,
                        titleReplies: seq<Reply>, descriptionReplies: seq<Reply>, excerptReplies: seq<Reply>)
    returns (r: Result<PostMetadata, GenerationError>, requests: seq<Prompt>)
    requires |excerptReplies| > MaxRetries
    ensures forall p :: p in requests ==>
      AnalysisPrompt(p, title, CleanHtml(content), KeywordCap(entities, chunks))
    ensures r.Success? ==>
      && r.value.keywords == KeywordCap(entities, chunks)
      && |r.value.metaTitle| <= MetaTitleLimit
      && |r.value.metaDescription| <= MetaDescriptionLimit
      && |r.value.excerpt| <= ExcerptLimit + 1
    ensures var clean := CleanHtml(content);
      var keywords := KeywordCap(entities, chunks);
      var t := Retried(titleReplies, MetaTitleLimit);
      var d := Retried(descriptionReplies, MetaDescriptionLimit);
      var e := Excerpted(excerptReplies);
      && requests ==
           Repeat(TitlePrompt(title, Prefix(keywords, TitleKeywords)), Attempts(titleReplies, MetaTitleLimit))
           + (if t.Failure? then []
              else Repeat(DescriptionPrompt(clean, Prefix(keywords, DescriptionKeywords)),
                          Attempts(descriptionReplies, MetaDescriptionLimit)))
           + (if t.Failure? || d.Failure? then []
              else Repeat(ExcerptPrompt(clean), ExcerptAttempts(excerptReplies)))
      && r == if t.Failure? then Failure(t.error)
              else if d.Failure? then Failure(d.error)
              else if e.Failure? then Failure(e.error)
              else Success(PostMetadata(keywords, t.value, d.value, e.value))
  {
    var clean := CleanHtml(content);
    var keywords := KeywordCap(entities, chunks);
    var metaTitle, titleRequests := CreateMetaTitle(title, Prefix(keywords, TitleKeywords), titleReplies);
    requests := titleRequests;
    assert forall p :: p in requests ==> AnalysisPrompt(p, title, clean, keywords);
    if metaTitle.Failure? {
      assert requests == requests + [] + [];
      return Failure(metaTitle.error), requests;
    }
    var description, descriptionRequests :=
      CreateMetaDescription(clean, Prefix(keywords, DescriptionKeywords), descriptionReplies);
    requests := requests + descriptionRequests;
    assert forall p :: p in requests ==> AnalysisPrompt(p, title, clean, keywords);
    if description.Failure? {
      assert requests == requests + [];
      return Failure(description.error), requests;
    }
    var excerpt, excerptRequests := CreateExcerpt(clean, excerptReplies);
    requests := requests + excerptRequests;
    assert forall p :: p in requests ==> AnalysisPrompt(p, title, clean, keywords);
    if excerpt.Failure? {
      return Failure(excerpt.error), requests;
    }
    r := Success(PostMetadata(keywords, metaTitle.value, description.value, excerpt.value));
  }
}
