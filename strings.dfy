/** ASCII models of the Python `str` and slicing operations the SEO and publishing code uses. */
module Strings {

  /** `str.isspace()` on ASCII: tab, line feed, vertical tab, form feed, carriage return,
      the four information separators and space. */
  predicate IsSpace(c: char) {
    c == ' ' || ('\t' <= c <= '\r') || ('\U{1C}' <= c <= '\U{1F}')
  }

  predicate IsUpper(c: char) { 'A' <= c <= 'Z' }
  predicate IsLower(c: char) { 'a' <= c <= 'z' }
  predicate IsLetter(c: char) { IsUpper(c) || IsLower(c) }
  predicate IsDigit(c: char) { '0' <= c <= '9' }

  /** The regular-expression class `\w`, on ASCII. */
  predicate IsWordChar(c: char) { IsLetter(c) || IsDigit(c) || c == '_' }

  predicate AllWordChars(s: string) { forall i :: 0 <= i < |s| ==> IsWordChar(s[i]) }

  function LowerChar(c: char): (d: char)
    ensures !IsUpper(d)
    ensures IsLetter(c) <==> IsLetter(d)
    ensures IsWordChar(c) <==> IsWordChar(d)
    ensures IsSpace(c) <==> IsSpace(d)
    ensures !IsUpper(c) ==> d == c
  {
    if IsUpper(c) then (c as int + 32) as char else c
  }

  function UpperChar(c: char): (d: char)
    ensures !IsLower(d)
    ensures IsLetter(c) <==> IsLetter(d)
    ensures !IsLower(c) ==> d == c
  {
    if IsLower(c) then (c as int - 32) as char else c
  }

  /** `str.lower()`, on ASCII. */
  function Lower(s: string): (r: string)
    ensures |r| == |s|
    ensures forall i :: 0 <= i < |s| ==> r[i] == LowerChar(s[i])
  {
    if s == [] then [] else [LowerChar(s[0])] + Lower(s[1..])
  }

  lemma LowerIdempotent(s: string)
    ensures Lower(Lower(s)) == Lower(s)
  {
  }

  lemma LowerAppend(a: string, b: string)
    ensures Lower(a + b) == Lower(a) + Lower(b)
  {
  }

  /** `str.title()`, on ASCII: the first letter of each run of letters is upper-cased and
      the other letters of the run lower-cased; digits, `_` and every other character are
      kept and end the run (so "ab1cd" becomes "Ab1Cd"). */
  function TitleCase(s: string): (r: string)
    ensures |r| == |s|
    ensures forall i :: 0 <= i < |s| ==>
      r[i] == TitleChar(s[i], if i == 0 then false else IsLetter(s[i - 1]))
  {
    TitleFromPointwise(s, false);
    TitleFrom(s, false)
  }

  /** How `str.title()` writes one character, given whether a letter precedes it. */
  function TitleChar(c: char, afterLetter: bool): (d: char)
    ensures IsLetter(c) <==> IsLetter(d)
    ensures !IsLetter(c) ==> d == c
    ensures IsLetter(c) && afterLetter ==> IsLower(d)
    ensures IsLetter(c) && !afterLetter ==> IsUpper(d)
  {
    if !IsLetter(c) then c else if afterLetter then LowerChar(c) else UpperChar(c)
  }

  /** Title-casing of `s` when the character before it was a letter exactly when `inRun`. */
  function TitleFrom(s: string, inRun: bool): (r: string)
    ensures |r| == |s|
  {
    if s == [] then []
    else
      var c := s[0];
      [if !IsLetter(c) then c else if inRun then LowerChar(c) else UpperChar(c)]
      + TitleFrom(s[1..], IsLetter(c))
  }

  /** Each character of the title-cased text depends only on itself and on whether the
      character before it (or `inRun`, for the first one) is a letter. */
  lemma {:induction false} TitleFromPointwise(s: string, inRun: bool)
    ensures forall i {:trigger TitleFrom(s, inRun)[i]} :: 0 <= i < |s| ==>
      TitleFrom(s, inRun)[i] == TitleChar(s[i], if i == 0 then inRun else IsLetter(s[i - 1]))
  {
    if s != [] {
      var t := s[1..];
      TitleFromPointwise(t, IsLetter(s[0]));
      var r := TitleFrom(s, inRun);
      assert r == [TitleChar(s[0], inRun)] + TitleFrom(t, IsLetter(s[0]));
      forall i | 0 < i < |s|
        ensures r[i] == TitleChar(s[i], IsLetter(s[i - 1]))
      {
        assert r[i] == TitleFrom(t, IsLetter(s[0]))[i - 1];
        assert t[i - 1] == s[i];
        assert i - 1 > 0 ==> t[i - 2] == s[i - 1];
      }
    }
  }

  /** Digits end a run of letters, so the letters after them start a new word. */
  lemma TitleCaseDigitBreaksWord()
    ensures TitleCase("ab1cd") == "Ab1Cd"
    ensures TitleCase("news") == "News"
  {
    assert TitleFrom("d", true) == "d";
    assert TitleFrom("cd", false) == "Cd";
    assert TitleFrom("1cd", true) == "1Cd";
    assert TitleFrom("b1cd", true) == "b1Cd";
    assert TitleFrom("s", true) == "s";
    assert TitleFrom("ws", true) == "ws";
    assert TitleFrom("ews", true) == "ews";
  }


  /** Python's `s[:n]`. */
  function Prefix<T>(s: seq<T>, n: nat): (r: seq<T>)
    ensures |r| == if n <= |s| then n else |s|
    ensures r == s[..|r|]
  {
    if n <= |s| then s[..n] else s
  }

  /** Python's `s[lo:hi]` for `0 <= lo`, `0 <= hi`. */
  function Slice<T>(s: seq<T>, lo: nat, hi: nat): (r: seq<T>)
    ensures |r| <= |s|
    ensures lo <= hi ==> |r| <= hi - lo
    ensures forall i :: 0 <= i < |r| ==> lo + i < |s| && r[i] == s[lo + i]
  {
    var h := if hi <= |s| then hi else |s|;
    if lo <= h then s[lo..h] else []
  }

  predicate HasPrefix(s: string, p: string) {
    |p| <= |s| && s[..|p|] == p
  }

  /** No string occurs twice. */
  predicate Distinct(xs: seq<string>) {
    forall i, j :: 0 <= i < j < |xs| ==> xs[i] != xs[j]
  }

  /** Python's `w in s` on strings: `w` occurs as a contiguous piece of `s`. */
  predicate Contains(s: string, w: string) {
    exists i :: 0 <= i <= |s| && HasPrefix(s[i..], w)
  }

  /** An occurrence inside an occurrence is an occurrence. */
  lemma {:induction false} ContainsTransitive(b: string, a: string, w: string)
    requires Contains(b, a) && Contains(a, w)
    ensures Contains(b, w)
  {
    var i :| 0 <= i <= |b| && HasPrefix(b[i..], a);
    var j :| 0 <= j <= |a| && HasPrefix(a[j..], w);
    assert b[i..][..|a|] == a;
    assert a[j..][..|w|] == w;
    assert b[i + j..][..|w|] == a[j..][..|w|] by {
      forall k | 0 <= k < |w|
        ensures b[i + j..][k] == a[j..][k]
      {
        assert b[i + j..][k] == b[i..][j + k];
        assert b[i..][j + k] == a[j + k];
      }
    }
    assert HasPrefix(b[i + j..], w);
  }

  /** Python's `s.split(sep)` for a non-empty separator: the pieces between the
      non-overlapping occurrences of `sep`, found from the left. */
  function Split(s: string, sep: string): (parts: seq<string>)
    requires sep != []
    ensures |parts| >= 1
    decreases |s|
  {
    if HasPrefix(s, sep) then [""] + Split(s[|sep|..], sep)
    else if s == [] then [""]
    else
      var rest := Split(s[1..], sep);
      [[s[0]] + rest[0]] + rest[1..]
  }

  /** Python's `sep.join(parts)`. */
  function Join(parts: seq<string>, sep: string): (s: string)
  {
    if parts == [] then ""
    else if |parts| == 1 then parts[0]
    else parts[0] + sep + Join(parts[1..], sep)
  }

  lemma {:induction false} JoinConsHead(c: char, head: string, rest: seq<string>, sep: string)
    ensures Join([[c] + head] + rest, sep) == [c] + Join([head] + rest, sep)
  {
    if rest != [] {
      assert ([[c] + head] + rest)[1..] == rest;
      assert ([head] + rest)[1..] == rest;
    }
  }

  lemma {:induction false} JoinCons(head: string, rest: seq<string>, sep: string)
    requires rest != []
    ensures Join([head] + rest, sep) == head + sep + Join(rest, sep)
  {
    assert ([head] + rest)[1..] == rest;
  }

  lemma {:induction false} JoinSplitAtSep(s: string, sep: string)
    requires sep != [] && HasPrefix(s, sep)
    requires Join(Split(s[|sep|..], sep), sep) == s[|sep|..]
    ensures Join(Split(s, sep), sep) == s
  {
    var tail := s[|sep|..];
    var rest := Split(tail, sep);
    assert Split(s, sep) == [""] + rest;
    JoinCons("", rest, sep);
    calc {
      Join(Split(s, sep), sep);
      "" + sep + Join(rest, sep);
      sep + tail;
      { assert s[..|sep|] == sep; assert s == s[..|sep|] + s[|sep|..]; }
      s;
    }
  }

  lemma {:induction false} JoinSplitAtChar(s: string, sep: string)
    requires sep != [] && !HasPrefix(s, sep) && s != []
    requires Join(Split(s[1..], sep), sep) == s[1..]
    ensures Join(Split(s, sep), sep) == s
  {
    var rest := Split(s[1..], sep);
    assert Split(s, sep) == [[s[0]] + rest[0]] + rest[1..];
    JoinConsHead(s[0], rest[0], rest[1..], sep);
    assert [rest[0]] + rest[1..] == rest;
    assert s == [s[0]] + s[1..];
  }

  /** Splitting and joining again with the same separator gives back the string. */
  lemma {:induction false} JoinSplit(s: string, sep: string)
    requires sep != []
    ensures Join(Split(s, sep), sep) == s
    decreases |s|
  {
    if HasPrefix(s, sep) {
      JoinSplit(s[|sep|..], sep);
      JoinSplitAtSep(s, sep);
    } else if s != [] {
      JoinSplit(s[1..], sep);
      JoinSplitAtChar(s, sep);
    }
  }

  /** `sep` starts at none of the first `n` positions of `s`. */
  predicate NoSepBefore(s: string, sep: string, n: nat) {
    forall i :: 0 <= i < n && i <= |s| ==> !HasPrefix(s[i..], sep)
  }

  /** The first piece of `a + sep + b` is `a` when no occurrence of `sep` starts inside `a`. */
  lemma {:induction false} SplitAppend(a: string, sep: string, b: string)
    requires sep != []
    requires NoSepBefore(a + sep + b, sep, |a|)
    ensures Split(a + sep + b, sep) == [a] + Split(b, sep)
    decreases |a|
  {
    var s := a + sep + b;
    if a == [] {
      assert s == sep + b;
      assert HasPrefix(s, sep);
      assert s[|sep|..] == b;
    } else {
      assert !HasPrefix(s[0..], sep);
      assert s[0..] == s;
      assert s[1..] == a[1..] + sep + b;
      forall i | 0 <= i < |a[1..]| && i <= |s[1..]|
        ensures !HasPrefix(s[1..][i..], sep)
      {
        assert s[1..][i..] == s[i + 1..];
      }
      SplitAppend(a[1..], sep, b);
      assert [a[0]] + a[1..] == a;
    }
  }

  /** A string without the separator is one piece. */
  lemma {:induction false} SplitNoSep(s: string, sep: string)
    requires sep != []
    requires !Contains(s, sep)
    ensures Split(s, sep) == [s]
    decreases |s|
  {
    assert s[0..] == s;
    if s != [] {
      forall i | 0 <= i <= |s[1..]|
        ensures !HasPrefix(s[1..][i..], sep)
      {
        assert s[1..][i..] == s[i + 1..];
      }
      SplitNoSep(s[1..], sep);
      assert [s[0]] + s[1..] == s;
    }
  }

  /** Every character of `s` is whitespace. */
  predicate AllSpace(s: string) { forall i :: 0 <= i < |s| ==> IsSpace(s[i]) }

  /** The number of whitespace characters `s` starts with. */
  function LeadingSpace(s: string): (n: nat)
    ensures n <= |s|
    ensures forall i :: 0 <= i < n ==> IsSpace(s[i])
    ensures n == |s| || !IsSpace(s[n])
    decreases |s|
  {
    if s != [] && IsSpace(s[0]) then 1 + LeadingSpace(s[1..]) else 0
  }

  /** The number of whitespace characters `s` ends with. */
  function TrailingSpace(s: string): (n: nat)
    ensures n <= |s|
    ensures forall i :: |s| - n <= i < |s| ==> IsSpace(s[i])
    ensures n == |s| || !IsSpace(s[|s| - n - 1])
    decreases |s|
  {
    if s != [] && IsSpace(s[|s| - 1]) then 1 + TrailingSpace(s[..|s| - 1]) else 0
  }

  /** `str.lstrip()`: drops leading whitespace. */
  function StripLeft(s: string): (r: string)
    ensures r == [] || !IsSpace(r[0])
  {
    s[LeadingSpace(s)..]
  }

  /** `str.rstrip()`: drops trailing whitespace. */
  function StripRight(s: string): (r: string)
    ensures r == [] || !IsSpace(r[|r| - 1])
  {
    s[..|s| - TrailingSpace(s)]
  }

  predicate IsStripped(s: string) {
    s == [] || (!IsSpace(s[0]) && !IsSpace(s[|s| - 1]))
  }

  /** `str.strip()`: the result is the middle of `s`, and only whitespace lies before
      and after it. */
  function Strip(s: string): (r: string)
    ensures IsStripped(r)
    ensures var k := LeadingSpace(s);
      && k + |r| <= |s| && r == s[k..k + |r|]
      && AllSpace(s[..k]) && AllSpace(s[k + |r|..])
  {
    StripRight(StripLeft(s))
  }

  /** `strip` leaves a string alone exactly when it has no outer whitespace. */
  lemma {:induction false} StripFixedPoint(s: string)
    ensures Strip(s) == s <==> IsStripped(s)
  {
    if IsStripped(s) && s != [] {
      assert LeadingSpace(s) == 0;
      assert TrailingSpace(s) == 0;
    }
  }

  /** Leading whitespace in front of a stripped string is all that `strip` removes. */
  lemma {:induction false} StripAfterSpaces(a: string, b: string)
    requires AllSpace(a)
    requires IsStripped(b)
    ensures Strip(a + b) == b
    decreases |a|
  {
    if a == [] {
      assert a + b == b;
      StripFixedPoint(b);
    } else {
      assert (a + b)[1..] == a[1..] + b;
      StripAfterSpaces(a[1..], b);
    }
  }

  /** Every character `strip` keeps is a character of `s`. */
  lemma {:induction false} StripChars(s: string)
    ensures forall c :: c in Strip(s) ==> c in s
  {
    var k := LeadingSpace(s);
    var r := Strip(s);
    forall c | c in r
      ensures c in s
    {
      var i :| 0 <= i < |r| && r[i] == c;
      assert s[k + i] == c;
    }
  }

  /** With a one-character separator, the first piece never holds the separator. */
  lemma {:induction false} SplitCharFirstPiece(s: string, c: char)
    ensures c !in Split(s, [c])[0]
    decreases |s|
  {
    if HasPrefix(s, [c]) {
    } else if s == [] {
    } else {
      SplitCharFirstPiece(s[1..], c);
      assert s[..1] == [s[0]];
    }
  }

  /** With a one-character separator, the first piece ends at its first occurrence. */
  lemma {:induction false} SplitCharAppend(a: string, c: char, b: string)
    requires c !in a
    ensures Split(a + [c] + b, [c]) == [a] + Split(b, [c])
  {
    var s := a + [c] + b;
    forall i | 0 <= i < |a| && i <= |s|
      ensures !HasPrefix(s[i..], [c])
    {
      assert s[i..][..1] == [a[i]];
    }
    SplitAppend(a, [c], b);
  }

  /** With a one-character separator, a string without it is one piece. */
  lemma {:induction false} SplitCharNoSep(s: string, c: char)
    requires c !in s
    ensures Split(s, [c]) == [s]
  {
    forall i | 0 <= i <= |s|
      ensures !HasPrefix(s[i..], [c])
    {
      if i < |s| {
        assert s[i..][..1] == [s[i]];
      }
    }
    SplitNoSep(s, [c]);
  }
  /** The first piece of a split is where the string starts, and it runs up to the
      first separator or to the end. */
  lemma {:induction false} SplitFirstPieceIsPrefix(s: string, sep: string)
    requires sep != []
    ensures HasPrefix(s, Split(s, sep)[0])
    ensures var n := |Split(s, sep)[0]|; n == |s| || HasPrefix(s[n..], sep)
    decreases |s|
  {
    if HasPrefix(s, sep) {
      assert s[0..] == s;
    } else if s != [] {
      SplitFirstPieceIsPrefix(s[1..], sep);
      var rest := Split(s[1..], sep);
      assert Split(s, sep)[0] == [s[0]] + rest[0];
      assert s[..1 + |rest[0]|] == [s[0]] + s[1..][..|rest[0]|];
      assert s[1 + |rest[0]|..] == s[1..][|rest[0]|..];
    }
  }
}
