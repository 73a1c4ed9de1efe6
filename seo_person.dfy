/** The frequency-based SEO analyser: tokenising, the word counter with generic terms
    removed, the ten most common terms, the primary and secondary keywords, the meta
    title and description cut-offs and the tag list. */
module SeoPerson {
  import opened Wrappers
  import opened Strings

  // ---------------------------------------------------------------------------
  // Configuration tables
  // ---------------------------------------------------------------------------

  const LocalPrimary: seq<string> := ["Delaware", "Philadelphia", "Wilmington", "Newark", "Dover"]
  const LocalRegions: seq<string> := ["Mid-Atlantic", "Pennsylvania", "New Jersey", "Maryland"]
  const LocalPlaces: seq<string> := ["Main Street", "Market Street", "Delaware Valley", "First State"]

  /** All local terms, group after group, as concatenating the table's lists gives them. */
  const LocalTerms: seq<string> := LocalPrimary + LocalRegions + LocalPlaces

  /** The local terms made of one word: only these can ever equal a token. */
  const SingleWordLocalTerms: seq<string> := LocalPrimary + ["Pennsylvania", "Maryland"]

  /** The generic terms; the source keeps them in a set, so their order is immaterial. */
  const GenericTerms: seq<string> := [
    "news", "update", "report", "latest", "breaking", "today",
    "announces", "announced", "says", "stated", "reported"]

  const TopTermCount: nat := 10       // most_common(10)
  const MinTermLength: nat := 3       // a significant term is longer than this
  const LastSecondary: nat := 6       // secondary keywords come from significant_terms[1:6]
  const TaggedSecondary: nat := 3     // tags take secondary[:3]
  const LocalTag := "Delaware News"
  const TagCategory := "News"

  const MetaTitleLimit: nat := 60
  const MetaTitleKeep: nat := 57
  const MetaDescriptionLimit: nat := 145
  const MetaDescriptionKeep: nat := 142
  const Ellipsis := "..."

  // ---------------------------------------------------------------------------
  // Tokenising
  // ---------------------------------------------------------------------------

  /** Length of the run of word characters that starts `s`. */
  function RunLength(s: string): (n: nat)
    ensures n <= |s|
    ensures AllWordChars(s[..n])
    ensures n < |s| ==> !IsWordChar(s[n])
  {
    if s == [] || !IsWordChar(s[0]) then 0 else 1 + RunLength(s[1..])
  }

  /** `re.findall(r'\b\w+\b', s)`: the maximal runs of word characters, in order. */
  function Words(s: string): (ws: seq<string>)
    ensures forall w :: w in ws ==> w != "" && AllWordChars(w)
    decreases |s|
  {
    if s == [] then []
    else if !IsWordChar(s[0]) then Words(s[1..])
    else
      var n := RunLength(s);
      [s[..n]] + Words(s[n..])
  }

  lemma {:induction false} RunLengthBeforeSeparator(a: string, c: char, b: string)
    requires !IsWordChar(c)
    ensures RunLength(a + [c] + b) == RunLength(a)
    decreases |a|
  {
    if a == [] {
      assert (a + [c] + b)[0] == c;
    } else if IsWordChar(a[0]) {
      assert (a + [c] + b)[1..] == a[1..] + [c] + b;
      RunLengthBeforeSeparator(a[1..], c, b);
    }
  }

  /** A non-word character separates tokens: the tokens of `a + [c] + b` are those of
      `a` followed by those of `b`. */
  lemma {:induction false} WordsAroundSeparator(a: string, c: char, b: string)
    requires !IsWordChar(c)
    ensures Words(a + [c] + b) == Words(a) + Words(b)
    decreases |a|
  {
    var s := a + [c] + b;
    if a == [] {
      assert s[1..] == b;
    } else if !IsWordChar(a[0]) {
      assert s[1..] == a[1..] + [c] + b;
      WordsAroundSeparator(a[1..], c, b);
    } else {
      RunLengthBeforeSeparator(a, c, b);
      var n := RunLength(a);
      assert s[..n] == a[..n];
      assert s[n..] == a[n..] + [c] + b;
      WordsAroundSeparator(a[n..], c, b);
    }
  }

  /** A string of word characters only is one token. */
  lemma {:induction false} WordsOfWord(s: string)
    requires s != [] && AllWordChars(s)
    ensures Words(s) == [s]
  {
    var n := RunLength(s);
    assert n == |s|;
    assert s[..n] == s && s[n..] == [];
  }

  /** A string without word characters has no token. */
  lemma {:induction false} WordsOfSeparators(s: string)
    requires forall i :: 0 <= i < |s| ==> !IsWordChar(s[i])
    ensures Words(s) == []
    decreases |s|
  {
    if s != [] {
      WordsOfSeparators(s[1..]);
    }
  }

  /** Every character of a token comes from the text. */
  lemma {:induction false} WordsChars(s: string)
    ensures forall w, j :: w in Words(s) && 0 <= j < |w| ==> w[j] in s
    decreases |s|
  {
    if s != [] {
      WordsChars(s[1..]);
      if IsWordChar(s[0]) {
        var n := RunLength(s);
        WordsChars(s[n..]);
        assert forall j :: 0 <= j < n ==> s[..n][j] == s[j];
        assert forall j :: n <= j < |s| ==> s[n..][j - n] == s[j];
      } else {
        assert forall j :: 1 <= j < |s| ==> s[1..][j - 1] == s[j];
      }
    }
  }

  /** The tokens `_extract_keywords` counts: those of the lower-cased `title + " " + content`,
      so each is a run of word characters without an upper-case letter. */
  function Tokens(content: string, title: string): (ts: seq<string>)
    ensures forall w :: w in ts ==> w != "" && AllWordChars(w)
    ensures forall w, j :: w in ts && 0 <= j < |w| ==> !IsUpper(w[j])
  {
    var s := Lower(title + " " + content);
    WordsChars(s);
    Words(s)
  }

  /** The tokens are the title's tokens followed by the content's: the joining space
      never glues a title word to a content word. */
  lemma {:induction false} TokensOfTitleAndContent(title: string, content: string)
    ensures Tokens(content, title) == Words(Lower(title)) + Words(Lower(content))
  {
    LowerAppend(title + " ", content);
    LowerAppend(title, " ");
    assert Lower(" ") == [' '];
    WordsAroundSeparator(Lower(title), ' ', Lower(content));
  }

  // ---------------------------------------------------------------------------
  // The word counter
  // ---------------------------------------------------------------------------

  /** One counter entry: a word and how often it was seen. */
  datatype Entry = Entry(word: string, count: nat)

  predicate DistinctWords(t: seq<Entry>) {
    forall i, j :: 0 <= i < j < |t| ==> t[i].word != t[j].word
  }

  /** Some entry of `t` is for `w`. */
  predicate HasWord(t: seq<Entry>, w: string) {
    exists i :: 0 <= i < |t| && t[i].word == w
  }

  /** Counting one more occurrence of `w`: its entry goes up by one, or a new entry with
      count 1 goes at the end. */
  function Bump(t: seq<Entry>, w: string): (u: seq<Entry>)
    ensures |t| <= |u| <= |t| + 1
  {
    if t == [] then [Entry(w, 1)]
    else if t[0].word == w then [Entry(w, t[0].count + 1)] + t[1..]
    else [t[0]] + Bump(t[1..], w)
  }

  /** `Bump` keeps every entry's word in place and adds an entry for `w` at the end
      exactly when there was none. */
  lemma {:induction false} BumpShape(t: seq<Entry>, w: string)
    ensures |Bump(t, w)| == if HasWord(t, w) then |t| else |t| + 1
    ensures forall i :: 0 <= i < |t| ==> Bump(t, w)[i].word == t[i].word
    ensures |Bump(t, w)| > |t| ==> Bump(t, w)[|t|].word == w
    decreases |t|
  {
    if t != [] && t[0].word != w {
      BumpShape(t[1..], w);
      assert HasWord(t, w) <==> HasWord(t[1..], w) by {
        if HasWord(t, w) {
          var i :| 0 <= i < |t| && t[i].word == w;
          assert t[1..][i - 1].word == w;
        }
        if HasWord(t[1..], w) {
          var i :| 0 <= i < |t[1..]| && t[1..][i].word == w;
          assert t[i + 1].word == w;
        }
      }
    } else if t != [] {
      assert HasWord(t, w) by { assert t[0].word == w; }
    }
  }

  /** `Bump` adds one to the count of `w`'s entry and leaves every other count alone. */
  lemma {:induction false} BumpCounts(t: seq<Entry>, w: string)
    requires DistinctWords(t)
    ensures var u := Bump(t, w);
      forall i :: 0 <= i < |u| ==>
        u[i].count == (if i < |t| then t[i].count else 0) + (if u[i].word == w then 1 else 0)
    decreases |t|
  {
    if t != [] {
      BumpShape(t, w);
      if t[0].word != w {
        BumpCounts(t[1..], w);
        var u := Bump(t, w);
        assert forall i :: 1 <= i < |u| ==> u[i] == Bump(t[1..], w)[i - 1];
      }
    }
  }

  lemma {:induction false} BumpDistinct(t: seq<Entry>, w: string)
    requires DistinctWords(t)
    ensures DistinctWords(Bump(t, w))
  {
    BumpShape(t, w);
    var u := Bump(t, w);
    forall i, j | 0 <= i < j < |u|
      ensures u[i].word != u[j].word
    {
      if j == |t| {
        assert !HasWord(t, w);
        assert t[i].word != w;
      }
    }
  }

  /** `Counter(words)`: counts the words one after the other. */
  function CountWords(words: seq<string>): (t: seq<Entry>)
    ensures |t| <= |words|
  {
    if words == [] then []
    else Bump(CountWords(words[..|words| - 1]), words[|words| - 1])
  }

  /** The counter holds one entry per distinct word, with the number of its occurrences. */
  lemma {:induction false} CountWordsSpec(words: seq<string>)
    ensures var t := CountWords(words);
      && DistinctWords(t)
      && (forall w :: HasWord(t, w) <==> w in words)
      && (forall i :: 0 <= i < |t| ==> t[i].count == multiset(words)[t[i].word])
    decreases |words|
  {
    if words != [] {
      var init := words[..|words| - 1];
      var last := words[|words| - 1];
      assert words == init + [last];
      assert multiset(words) == multiset(init) + multiset{last};
      CountWordsSpec(init);
      var t := CountWords(init);
      var u := Bump(t, last);
      BumpShape(t, last);
      BumpCounts(t, last);
      BumpDistinct(t, last);
      forall w
        ensures HasWord(u, w) <==> w in words
      {
        assert w in words <==> w in init || w == last;
        if HasWord(u, w) {
          var i :| 0 <= i < |u| && u[i].word == w;
          if i < |t| {
            assert t[i].word == w;
          }
        }
        if HasWord(t, w) {
          var i :| 0 <= i < |t| && t[i].word == w;
          assert u[i].word == w;
        }
        if w == last && !HasWord(t, w) {
          assert u[|t|].word == w;
        }
      }
      forall i | 0 <= i < |u|
        ensures u[i].count == multiset(words)[u[i].word]
      {
        if i == |t| {
          assert !HasWord(t, last);
          assert last !in init;
        }
      }
    }
  }

  /** The counter lists words in the order they are first seen: for two entries, the
      earlier one's word occurs before any occurrence of the later one's word. */
  lemma {:induction false} CounterInFirstSeenOrder(words: seq<string>, i: nat, j: nat, q: nat)
    requires i < j < |CountWords(words)|
    requires q < |words| && words[q] == CountWords(words)[j].word
    ensures CountWords(words)[i].word in words[..q]
    decreases |words|
  {
    var init := words[..|words| - 1];
    var last := words[|words| - 1];
    assert words == init + [last];
    var t0 := CountWords(init);
    var t := CountWords(words);
    assert t == Bump(t0, last);
    CountWordsSpec(init);
    BumpShape(t0, last);
    if q < |init| {
      assert words[..q] == init[..q];
      assert init[q] == words[q];
      // the word at `q` was already counted, so its entry is not the one added last
      assert init[q] in init;
      assert HasWord(t0, init[q]);
      assert j < |t0|;
      CounterInFirstSeenOrder(init, i, j, q);
    } else {
      assert words[..q] == init;
      assert i < |t0|;
      assert HasWord(t0, t0[i].word);
    }
  }

  /** The entries of `t` whose word is not in `drop`, in order. */
  function Without(t: seq<Entry>, drop: seq<string>): (u: seq<Entry>)
    ensures |u| <= |t|
  {
    if t == [] then []
    else if t[0].word in drop then Without(t[1..], drop)
    else [t[0]] + Without(t[1..], drop)
  }

  lemma {:induction false} WithoutNothing(t: seq<Entry>)
    ensures Without(t, []) == t
    decreases |t|
  {
    if t != [] {
      WithoutNothing(t[1..]);
      assert t == [t[0]] + t[1..];
    }
  }

  /** `Without` keeps exactly the entries whose word is not dropped, and keeps distinct
      words distinct. */
  lemma {:induction false} WithoutKeeps(t: seq<Entry>, drop: seq<string>)
    ensures forall e :: e in Without(t, drop) <==> e in t && e.word !in drop
    decreases |t|
  {
    if t != [] {
      WithoutKeeps(t[1..], drop);
      assert t == [t[0]] + t[1..];
    }
  }

  lemma {:induction false} WithoutDistinct(t: seq<Entry>, drop: seq<string>)
    requires DistinctWords(t)
    ensures DistinctWords(Without(t, drop))
    decreases |t|
  {
    if t != [] {
      assert DistinctWords(t[1..]);
      WithoutDistinct(t[1..], drop);
      if t[0].word !in drop {
        var u := Without(t[1..], drop);
        WithoutKeeps(t[1..], drop);
        forall j | 0 <= j < |u|
          ensures u[j].word != t[0].word
        {
          assert u[j] in u;
          var k :| 0 <= k < |t[1..]| && t[1..][k] == u[j];
          assert t[k + 1] == u[j];
        }
        assert Without(t, drop) == [t[0]] + u;
      }
    }
  }

  lemma {:induction false} WithoutTwice(t: seq<Entry>, a: seq<string>, b: seq<string>)
    ensures Without(Without(t, a), b) == Without(t, a + b)
    decreases |t|
  {
    if t != [] {
      WithoutTwice(t[1..], a, b);
      var w := t[0].word;
      assert w in a + b <==> w in a || w in b;
      if w !in a {
        var wa := Without(t, a);
        assert wa == [t[0]] + Without(t[1..], a);
        assert wa[0] == t[0] && wa[1..] == Without(t[1..], a);
      }
    }
  }

  /** Where in `t` the `i`-th entry `Without` keeps comes from. */
  function KeptAt(t: seq<Entry>, drop: seq<string>, i: nat): (k: nat)
    requires i < |Without(t, drop)|
    ensures k < |t| && t[k] == Without(t, drop)[i]
    decreases |t|
  {
    if t[0].word in drop then 1 + KeptAt(t[1..], drop, i)
    else if i == 0 then 0
    else 1 + KeptAt(t[1..], drop, i - 1)
  }

  /** `Without` keeps the order of the entries it keeps: a later kept entry comes from
      later in `t`. */
  lemma {:induction false} WithoutKeepsOrder(t: seq<Entry>, drop: seq<string>, i: nat, j: nat)
    requires i < j < |Without(t, drop)|
    ensures KeptAt(t, drop, i) < KeptAt(t, drop, j)
    decreases |t|
  {
    if t[0].word in drop {
      WithoutKeepsOrder(t[1..], drop, i, j);
    } else if i > 0 {
      WithoutKeepsOrder(t[1..], drop, i - 1, j - 1);
    }
  }

  /** `word_freq.pop(term, None)`: the entry for `term`, if any, goes. */
  function Pop(t: seq<Entry>, term: string): (u: seq<Entry>)
    ensures u == Without(t, [term])
  {
    if t == [] then []
    else if t[0].word == term then Pop(t[1..], term)
    else [t[0]] + Pop(t[1..], term)
  }

  /** The loop that pops every generic term from the counter. */
  method RemoveGenericTerms(table: seq<Entry>) returns (freq: seq<Entry>)
    ensures freq == Without(table, GenericTerms)
  {
    freq := table;
    WithoutNothing(table);
    assert GenericTerms[..0] == [];
    for i := 0 to |GenericTerms|
      invariant freq == Without(table, GenericTerms[..i])
    {
      WithoutTwice(table, GenericTerms[..i], [GenericTerms[i]]);
      assert GenericTerms[..i + 1] == GenericTerms[..i] + [GenericTerms[i]];
      freq := Pop(freq, GenericTerms[i]);
    }
    assert GenericTerms[..|GenericTerms|] == GenericTerms;
  }

  /** Popping the generic terms keeps the counter in first-seen order: of two remaining
      entries, the earlier one's word occurs before any occurrence of the later one's. */
  lemma {:induction false} FreqInFirstSeenOrder(words: seq<string>, i: nat, j: nat, q: nat)
    requires i < j < |Without(CountWords(words), GenericTerms)|
    requires q < |words| && words[q] == Without(CountWords(words), GenericTerms)[j].word
    ensures Without(CountWords(words), GenericTerms)[i].word in words[..q]
  {
    var t := CountWords(words);
    var freq := Without(t, GenericTerms);
    WithoutKeepsOrder(t, GenericTerms, i, j);
    CounterInFirstSeenOrder(words, KeptAt(t, GenericTerms, i), KeptAt(t, GenericTerms, j), q);
  }

  /** After the generic terms are popped the counter holds one entry for each token that
      is not generic, with that token's number of occurrences, and nothing else. */
  lemma {:induction false} GenericTermsRemoved(words: seq<string>)
    ensures var freq := Without(CountWords(words), GenericTerms);
      && DistinctWords(freq)
      && (forall e :: e in freq ==> e.word in words && e.word !in GenericTerms && e.count == multiset(words)[e.word])
      && (forall w :: w in words && w !in GenericTerms ==> exists e :: e in freq && e.word == w)
  {
    var t := CountWords(words);
    CountWordsSpec(words);
    WithoutKeeps(t, GenericTerms);
    WithoutDistinct(t, GenericTerms);
    forall e | e in Without(t, GenericTerms)
      ensures e.word in words && e.count == multiset(words)[e.word]
    {
      var i :| 0 <= i < |t| && t[i] == e;
      assert HasWord(t, e.word);
    }
    forall w | w in words && w !in GenericTerms
      ensures exists e :: e in Without(t, GenericTerms) && e.word == w
    {
      assert HasWord(t, w);
      var i :| 0 <= i < |t| && t[i].word == w;
      assert t[i] in t;
    }
  }

  // ---------------------------------------------------------------------------
  // most_common
  // ---------------------------------------------------------------------------

  /** Entry `i` is listed before entry `j` by `most_common`: higher count first, equal
      counts in insertion order. */
  predicate Precedes(t: seq<Entry>, i: nat, j: nat)
    requires i < |t| && j < |t|
  {
    t[i].count > t[j].count || (t[i].count == t[j].count && i < j)
  }

  predicate InRange(t: seq<Entry>, order: seq<nat>) {
    forall a :: 0 <= a < |order| ==> order[a] < |t|
  }

  /** Positions listed in `most_common` order (which also makes them distinct). */
  predicate Ranked(t: seq<Entry>, order: seq<nat>)
    requires InRange(t, order)
  {
    forall a, b :: 0 <= a < b < |order| ==> Precedes(t, order[a], order[b])
  }

  lemma {:induction false} RankedCons(t: seq<Entry>, k: nat, rest: seq<nat>)
    requires k < |t| && InRange(t, rest) && Ranked(t, rest)
    requires forall b :: 0 <= b < |rest| ==> Precedes(t, k, rest[b])
    ensures InRange(t, [k] + rest) && Ranked(t, [k] + rest)
  {
    var u := [k] + rest;
    forall a, b | 0 <= a < b < |u|
      ensures Precedes(t, u[a], u[b])
    {
      assert u[b] == rest[b - 1];
      if a > 0 {
        assert u[a] == rest[a - 1];
      }
    }
  }

  /** Puts position `i` into an already ranked list of positions. */
  function Insert(t: seq<Entry>, i: nat, order: seq<nat>): (u: seq<nat>)
    requires i < |t| && InRange(t, order) && Ranked(t, order) && i !in order
    ensures |u| == |order| + 1
    ensures forall k :: k in u <==> k == i || k in order
    ensures InRange(t, u) && Ranked(t, u)
  {
    if order == [] then [i]
    else if Precedes(t, i, order[0]) then
      assert forall b :: 0 <= b < |order| ==> Precedes(t, i, order[b]);
      RankedCons(t, i, order);
      [i] + order
    else
      var head := order[0];
      assert forall b :: 0 <= b < |order[1..]| ==> order[1..][b] == order[b + 1];
      var rest := Insert(t, i, order[1..]);
      assert Precedes(t, head, i);
      assert forall b :: 0 <= b < |rest| ==> Precedes(t, head, rest[b]) by {
        forall b | 0 <= b < |rest|
          ensures Precedes(t, head, rest[b])
        {
          assert rest[b] in rest;
          if rest[b] != i {
            var c :| 0 <= c < |order[1..]| && order[1..][c] == rest[b];
            assert order[c + 1] == rest[b];
          }
        }
      }
      RankedCons(t, head, rest);
      [head] + rest
  }

  /** The first `n` positions of `t` in `most_common` order. */
  function RankPrefix(t: seq<Entry>, n: nat): (order: seq<nat>)
    requires n <= |t|
    ensures |order| == n
    ensures forall k: nat :: k in order <==> k < n
    ensures InRange(t, order) && Ranked(t, order)
  {
    if n == 0 then [] else Insert(t, n - 1, RankPrefix(t, n - 1))
  }

  /** `most_common(n)`, as positions into the counter: the first `n` (or all) entries by
      descending count, ties in insertion order, each of them listed before every entry
      left out. */
  function MostCommon(t: seq<Entry>, n: nat): (top: seq<nat>)
    ensures |top| == if n <= |t| then n else |t|
    ensures InRange(t, top) && Ranked(t, top)
    ensures forall k, a :: 0 <= k < |t| && k !in top && 0 <= a < |top| ==> Precedes(t, top[a], k)
  {
    var order := RankPrefix(t, |t|);
    var top := Prefix(order, n);
    assert forall a :: 0 <= a < |top| ==> top[a] == order[a];
    assert forall k, a :: 0 <= k < |t| && k !in top && 0 <= a < |top| ==> Precedes(t, top[a], k) by {
      forall k, a | 0 <= k < |t| && k !in top && 0 <= a < |top|
        ensures Precedes(t, top[a], k)
      {
        assert k in order;
        var p :| 0 <= p < |order| && order[p] == k;
        assert forall c :: 0 <= c < |top| ==> top[c] in top;
        assert p >= |top|;
      }
    }
    top
  }

  // ---------------------------------------------------------------------------
  // Keywords
  // ---------------------------------------------------------------------------

  predicate IsSignificant(word: string) {
    |word| > MinTermLength && word !in GenericTerms
  }

  /** The positions of `top` whose word is longer than three characters and not generic. */
  function SignificantPositions(t: seq<Entry>, top: seq<nat>): (sig: seq<nat>)
    requires InRange(t, top)
    ensures forall k :: k in sig <==> k in top && k < |t| && IsSignificant(t[k].word)
    ensures |sig| <= |top|
    ensures InRange(t, sig)
    ensures Ranked(t, top) ==> Ranked(t, sig)
  {
    if top == [] then []
    else
      RankedTail(t, top);
      var rest := SignificantPositions(t, top[1..]);
      var k := top[0];
      if IsSignificant(t[k].word) then
        RankedConsMembers(t, k, rest, Ranked(t, top));
        [k] + rest
      else
        rest
  }

  /** Dropping the first position keeps a ranked list ranked, and the first position
      precedes every later one. */
  lemma RankedTail(t: seq<Entry>, top: seq<nat>)
    requires top != [] && InRange(t, top)
    ensures InRange(t, top[1..])
    ensures Ranked(t, top) ==> Ranked(t, top[1..])
    ensures Ranked(t, top) ==> forall x :: x in top[1..] ==> Precedes(t, top[0], x)
  {
    assert forall b :: 0 <= b < |top[1..]| ==> top[1..][b] == top[b + 1];
  }

  /** `[k] + rest` is ranked when `rest` is and `k` precedes each of its positions. */
  lemma RankedConsMembers(t: seq<Entry>, k: nat, rest: seq<nat>, ranked: bool)
    requires k < |t| && InRange(t, rest)
    requires ranked ==> Ranked(t, rest) && forall x :: x in rest ==> Precedes(t, k, x)
    ensures InRange(t, [k] + rest)
    ensures ranked ==> Ranked(t, [k] + rest)
  {
    assert forall b :: 0 <= b < |rest| ==> rest[b] in rest;
    if ranked {
      RankedCons(t, k, rest);
    }
    assert forall b :: 0 <= b < |[k] + rest| ==> ([k] + rest)[b] < |t|;
  }

  function WordsAt(t: seq<Entry>, positions: seq<nat>): (ws: seq<string>)
    requires InRange(t, positions)
    ensures |ws| == |positions|
    ensures forall i :: 0 <= i < |positions| ==> ws[i] == t[positions[i]].word
  {
    if positions == [] then []
    else
      assert forall b :: 0 <= b < |positions[1..]| ==> positions[1..][b] == positions[b + 1];
      [t[positions[0]].word] + WordsAt(t, positions[1..])
  }

  /** `[word for word, _ in freq.most_common(10) if len(word) > 3 and word not in generic]`,
      as positions into the counter. */
  function Significant(t: seq<Entry>): (sig: seq<nat>)
    ensures InRange(t, sig)
  {
    SignificantPositions(t, MostCommon(t, TopTermCount))
  }

  /** The significant terms are at most ten, come from the ten most common, are longer
      than three characters, are not generic, keep `most_common` order, and are every
      such entry among the ten most common. */
  lemma SignificantTermsProperties(t: seq<Entry>)
    ensures var sig := Significant(t);
      && |sig| <= TopTermCount
      && (forall k :: k in sig <==> k in MostCommon(t, TopTermCount) && k < |t| && IsSignificant(t[k].word))
      && Ranked(t, sig)
  {
  }

  /** The significant terms as words: at most ten, each long and not generic, each the
      word of a counter entry among the ten most common, in ranked order. */
  function SignificantTerms(freq: seq<Entry>): (terms: seq<string>)
    ensures |terms| == |Significant(freq)| <= TopTermCount
    ensures forall i :: 0 <= i < |terms| ==> IsSignificant(terms[i])
    ensures forall i :: 0 <= i < |terms| ==>
      Significant(freq)[i] in MostCommon(freq, TopTermCount) && terms[i] == freq[Significant(freq)[i]].word
  {
    SignificantTermsProperties(freq);
    var sig := Significant(freq);
    assert forall i :: 0 <= i < |sig| ==> sig[i] in sig;
    WordsAt(freq, sig)
  }

  /** The lower-cased local terms the tokens are compared with. */
  function LocalLower(): (ls: seq<string>)
    ensures |ls| == |LocalTerms|
    ensures forall i :: 0 <= i < |LocalTerms| ==> ls[i] == Lower(LocalTerms[i])
  {
    seq(|LocalTerms|, i requires 0 <= i < |LocalTerms| => Lower(LocalTerms[i]))
  }

  /** `[word for word in words if word in local]`: the tokens that are local terms. */
  function LocalRelevance(words: seq<string>): (rel: seq<string>)
    ensures forall w :: w in rel <==> w in words && w in LocalLower()
    ensures |rel| <= |words|
  {
    if words == [] then []
    else (if words[0] in LocalLower() then [words[0]] else []) + LocalRelevance(words[1..])
  }

  /** The filter keeps the tokens' order: filtering two stretches of tokens one after
      the other gives the filtered stretches one after the other. */
  lemma {:induction false} LocalRelevanceAppend(a: seq<string>, b: seq<string>)
    ensures LocalRelevance(a + b) == LocalRelevance(a) + LocalRelevance(b)
    decreases |a|
  {
    if a == [] {
      assert a + b == b;
    } else {
      assert (a + b)[0] == a[0];
      assert (a + b)[1..] == a[1..] + b;
      LocalRelevanceAppend(a[1..], b);
    }
  }

  /** The first local term among the tokens is the first relevant one. */
  lemma {:induction false} LocalRelevanceFirst(words: seq<string>, q: nat)
    requires q < |words| && words[q] in LocalLower()
    requires forall p :: 0 <= p < q ==> words[p] !in LocalLower()
    ensures LocalRelevance(words) != [] && LocalRelevance(words)[0] == words[q]
    decreases q
  {
    if q > 0 {
      LocalRelevanceFirst(words[1..], q - 1);
    }
  }

  /** A term with a non-word character at `p` cannot equal a token, whatever its case. */
  lemma {:induction false} SeparatorBlocksMatch(term: string, p: nat)
    requires p < |term| && !IsWordChar(term[p])
    ensures !AllWordChars(Lower(term))
  {
    assert !IsWordChar(Lower(term)[p]);
  }

  /** Every local term is either a one-word term or holds a space or a hyphen. */
  lemma {:induction false} LocalTermsSplit()
    ensures forall i :: 0 <= i < |LocalTerms| ==>
      LocalTerms[i] in SingleWordLocalTerms || !AllWordChars(Lower(LocalTerms[i]))
  {
    forall i | 0 <= i < |LocalTerms|
      ensures LocalTerms[i] in SingleWordLocalTerms || !AllWordChars(Lower(LocalTerms[i]))
    {
      if i < 5 {
        assert LocalTerms[i] == LocalPrimary[i];
      } else if i == 6 || i == 8 {
        assert LocalTerms[i] == SingleWordLocalTerms[i / 2 + 2];
      } else {
        var p := if i == 5 || i == 7 then 3 else if i == 9 then 4 else if i == 10 then 6
                 else if i == 11 then 8 else 5;
        SeparatorBlocksMatch(LocalTerms[i], p);
      }
    }
  }

  /** Only the one-word local terms can ever be found among the tokens: "Mid-Atlantic",
      "New Jersey" and the street and place names never match. */
  lemma {:induction false} OnlySingleWordLocalTermsMatch(w: string)
    requires AllWordChars(w) && w in LocalLower()
    ensures exists term :: term in SingleWordLocalTerms && w == Lower(term)
  {
    var i :| 0 <= i < |LocalTerms| && w == Lower(LocalTerms[i]);
    LocalTermsSplit();
    assert LocalTerms[i] in SingleWordLocalTerms;
  }

  /** The secondary keywords: the title-cased words, leaving out those equal to the
      primary keyword, in order. */
  function TitledExcept(words: seq<string>, primary: string): (r: seq<string>)
    ensures |r| <= |words|
    ensures primary !in r
    ensures forall x :: x in r <==> exists w :: w in words && x == TitleCase(w) && x != primary
  {
    if words == [] then []
    else
      var rest := TitledExcept(words[1..], primary);
      var x := TitleCase(words[0]);
      assert forall w :: w in words <==> w == words[0] || w in words[1..];
      if x != primary then [x] + rest else rest
  }

  /** The secondary keywords keep the order of the terms they come from. */
  lemma {:induction false} TitledExceptAppend(a: seq<string>, b: seq<string>, primary: string)
    ensures TitledExcept(a + b, primary) == TitledExcept(a, primary) + TitledExcept(b, primary)
    decreases |a|
  {
    if a == [] {
      assert a + b == b;
    } else {
      assert (a + b)[0] == a[0];
      assert (a + b)[1..] == a[1..] + b;
      TitledExceptAppend(a[1..], b, primary);
    }
  }

  datatype Keywords = Keywords(primary: string, secondary: seq<string>)

  /** Indexing the empty list of significant terms. */
  datatype KeywordError = IndexError

  /** The significant terms of the content once generic terms are popped. */
  function TermsOf(content: string, title: string): seq<string> {
    SignificantTerms(Without(CountWords(Tokens(content, title)), GenericTerms))
  }

  /** Tokenises, counts, pops every generic term from the counter, takes the significant
      terms, then picks the primary keyword (the first local token if any, else the top
      significant term) and up to five secondary keywords. */
  method ExtractKeywords(content: string, title: string) returns (r: Result<Keywords, KeywordError>)
    ensures var local := LocalRelevance(Tokens(content, title));
      var terms := TermsOf(content, title);
      && (r.Failure? <==> local == [] && terms == [])
      && (r.Success? ==>
            && r.value.primary == TitleCase(if local != [] then local[0] else terms[0])
            && r.value.secondary == TitledExcept(Slice(terms, 1, LastSecondary), r.value.primary))
  {
    var words := Tokens(content, title);
    var freq := RemoveGenericTerms(CountWords(words));
    var local := LocalRelevance(words);
    var terms := SignificantTerms(freq);
    if local == [] && terms == [] {
      return Failure(IndexError);
    }
    var primary := TitleCase(if local != [] then local[0] else terms[0]);
    var secondary := TitledExcept(Slice(terms, 1, LastSecondary), primary);
    r := Success(Keywords(primary, secondary));
  }

  /** At most five secondary keywords, none equal to the primary one, each the title-cased
      form of one of the second to sixth significant terms. */
  lemma {:induction false} SecondaryKeywordsBounded(terms: seq<string>, primary: string)
    ensures var sec := TitledExcept(Slice(terms, 1, LastSecondary), primary);
      && |sec| <= 5
      && primary !in sec
      && forall x :: x in sec ==> exists i :: 1 <= i < LastSecondary && i < |terms| && x == TitleCase(terms[i])
  {
    var sl := Slice(terms, 1, LastSecondary);
    var sec := TitledExcept(sl, primary);
    forall x | x in sec
      ensures exists i :: 1 <= i < LastSecondary && i < |terms| && x == TitleCase(terms[i])
    {
      var w :| w in sl && x == TitleCase(w);
      var b :| 0 <= b < |sl| && sl[b] == w;
      assert terms[1 + b] == w;
    }
  }

  /** A local token always wins the primary keyword, and it is always one of the one-word
      local terms. */
  lemma {:induction false} PrimaryPrefersLocal(content: string, title: string)
    requires LocalRelevance(Tokens(content, title)) != []
    ensures var local := LocalRelevance(Tokens(content, title));
      local[0] in Tokens(content, title)
      && exists term :: term in SingleWordLocalTerms && local[0] == Lower(term)
  {
    var local := LocalRelevance(Tokens(content, title));
    assert local[0] in local;
    OnlySingleWordLocalTermsMatch(local[0]);
  }

  /** Text without a single token has no keywords: extraction fails with an index error. */
  lemma NoTokensNoKeywords(content: string, title: string)
    requires Tokens(content, title) == []
    ensures LocalRelevance(Tokens(content, title)) == []
    ensures TermsOf(content, title) == []
  {
  }

  // ---------------------------------------------------------------------------
  // Meta title and description
  // ---------------------------------------------------------------------------

  /** `title[:57] + "..."` when the title is longer than 60 characters, else the title. */
  function MetaTitle(title: string): (m: string)
    ensures |m| <= MetaTitleLimit
    ensures m == title <==> |title| <= MetaTitleLimit
    ensures |title| > MetaTitleLimit ==>
      |m| == MetaTitleLimit && m[..MetaTitleKeep] == title[..MetaTitleKeep] && m[MetaTitleKeep..] == Ellipsis
  {
    if |title| > MetaTitleLimit then title[..MetaTitleKeep] + Ellipsis else title
  }

  /** `content.split('\n')[0]`: the text up to the first line break. */
  function FirstLine(content: string): (line: string)
    ensures '\n' !in line
    ensures HasPrefix(content, line)
    ensures |line| == |content| || content[|line|] == '\n'
  {
    SplitCharFirstPiece(content, '\n');
    SplitFirstPieceIsPrefix(content, "\n");
    var line := Split(content, "\n")[0];
    assert |line| < |content| ==> content[|line|..][0] == content[|line|];
    line
  }

  /** The first line cut to 142 characters plus "..." when longer than 145, else the line. */
  function MetaDescription(content: string): (d: string)
    ensures |d| <= MetaDescriptionLimit
    ensures '\n' !in d
    ensures d == FirstLine(content) <==> |FirstLine(content)| <= MetaDescriptionLimit
    ensures |FirstLine(content)| > MetaDescriptionLimit ==>
      && |d| == MetaDescriptionLimit
      && d[..MetaDescriptionKeep] == content[..MetaDescriptionKeep]
      && d[MetaDescriptionKeep..] == Ellipsis
  {
    var first := FirstLine(content);
    if |first| > MetaDescriptionLimit then
      assert first[..MetaDescriptionKeep] == content[..MetaDescriptionKeep];
      first[..MetaDescriptionKeep] + Ellipsis
    else first
  }

  datatype Meta = Meta(title: string, description: string)

  /** `_generate_meta`: the meta title from the title, the meta description from the first
      line of the content, each within its limit and kept whole when it fits. */
  function GenerateMeta(title: string, content: string): (m: Meta)
    ensures |m.title| <= MetaTitleLimit && |m.description| <= MetaDescriptionLimit
    ensures m.title == title <==> |title| <= MetaTitleLimit
    ensures m.description == FirstLine(content) <==> |FirstLine(content)| <= MetaDescriptionLimit
    ensures '\n' !in m.description
  {
    Meta(MetaTitle(title), MetaDescription(content))
  }

  /** The cut-offs let through one character more than the limits their comments name
      (59 and 144): a 61-character title gives a 60-character meta title. */
  lemma MetaLengthsExceedComments(title: string, content: string)
    requires |title| == 61 && |FirstLine(content)| == 146
    ensures |GenerateMeta(title, content).title| == 60
    ensures |GenerateMeta(title, content).description| == 145
  {
  }

  // ---------------------------------------------------------------------------
  // Tags
  // ---------------------------------------------------------------------------

  /** The primary local terms, lower-cased. */
  function LocalPrimaryLower(): (ls: seq<string>)
    ensures |ls| == |LocalPrimary|
    ensures forall i :: 0 <= i < |LocalPrimary| ==> ls[i] == Lower(LocalPrimary[i])
  {
    seq(|LocalPrimary|, i requires 0 <= i < |LocalPrimary| => Lower(LocalPrimary[i]))
  }

  /** `any(term.lower() in content.lower() for term in primary)`: some primary local term
      occurs, ignoring case, in the content. */
  predicate MentionsLocal(content: string) {
    exists i :: 0 <= i < |LocalPrimaryLower()| && Contains(Lower(content), LocalPrimaryLower()[i])
  }

  /** The primary keyword and the first three secondary ones, then the local tag appended
      exactly when some primary local term occurs in the content; the category is always
      "News". */
  method DetermineTags(content: string, keywords: Keywords) returns (category: string, tags: seq<string>)
    ensures category == TagCategory
    ensures tags == [keywords.primary] + Prefix(keywords.secondary, TaggedSecondary)
                    + (if MentionsLocal(content) then [LocalTag] else [])
    ensures 1 <= |tags| <= 5
  {
    tags := [keywords.primary] + Prefix(keywords.secondary, TaggedSecondary);
    if MentionsLocal(content) {
      tags := tags + [LocalTag];
    }
    category := TagCategory;
  }

  // ---------------------------------------------------------------------------
  // The whole analysis
  // ---------------------------------------------------------------------------

  datatype Analysis = Analysis(
    primaryKeyword: string,
    supportingKeywords: seq<string>,
    metaTitle: string,
    metaDescription: string,
    category: string,
    tags: seq<string>)

  /** Keywords, then meta fields, then category and tags. */
  method AnalyzeContent(content: string, title: string) returns (r: Result<Analysis, KeywordError>)
    ensures r.Failure? <==> LocalRelevance(Tokens(content, title)) == [] && TermsOf(content, title) == []
    ensures r.Success? ==>
      && r.value.metaTitle == MetaTitle(title)
      && r.value.metaDescription == MetaDescription(content)
      && |r.value.metaTitle| <= MetaTitleLimit
      && |r.value.metaDescription| <= MetaDescriptionLimit
      && r.value.category == TagCategory
      && 1 <= |r.value.tags| <= 5
      && r.value.tags[0] == r.value.primaryKeyword
      && |r.value.supportingKeywords| <= 5
      && r.value.primaryKeyword !in r.value.supportingKeywords
      && (MentionsLocal(content) ==> r.value.tags[|r.value.tags| - 1] == LocalTag)
    ensures r.Success? ==>
      var local := LocalRelevance(Tokens(content, title));
      var terms := TermsOf(content, title);
      && r.value.primaryKeyword == TitleCase(if local != [] then local[0] else terms[0])
      && r.value.supportingKeywords == TitledExcept(Slice(terms, 1, LastSecondary), r.value.primaryKeyword)
      && r.value.tags == [r.value.primaryKeyword] + Prefix(r.value.supportingKeywords, TaggedSecondary)
                         + (if MentionsLocal(content) then [LocalTag] else [])
  {
    var keywords := ExtractKeywords(content, title);
    if keywords.Failure? {
      return Failure(keywords.error);
    }
    var kw := keywords.value;
    var meta := GenerateMeta(title, content);
    var category, tags := DetermineTags(content, kw);
    SecondaryKeywordsBounded(TermsOf(content, title), kw.primary);
    r := Success(Analysis(kw.primary, kw.secondary, meta.title, meta.description, category, tags));
  }
}
