/** Messages written with explicit separators between them come back out of the
    block form of the parser exactly as they went in (msg.py:92-103). This is
    the sense in which the separators are the only thing the block form splits
    on, in either case of `and`, and whitespace around them is dropped. */
module BlockJoin {
  import opened Text
  import opened Wrappers
  import opened BlockSplit

  /** A separator as an operator writes one: `&`, or the word `and` in any
      ASCII case. */
  predicate IsSeparatorWord(sep: string) {
    sep == "&" || (|sep| == 3 && FoldsTo(sep[0], 'a') && FoldsTo(sep[1], 'n') && FoldsTo(sep[2], 'd'))
  }

  /** The separator with one space on either side. */
  function Gap(sep: string): string {
    " " + sep + " "
  }

  /** The messages written one after another with ` sep ` between them. */
  function JoinMessages(ms: seq<string>, sep: string): string {
    if ms == [] then []
    else if |ms| == 1 then ms[0]
    else ms[0] + Gap(sep) + JoinMessages(ms[1..], sep)
  }

  /** A message the block form can carry unchanged: non-empty, stripped, free
      of ampersand-like characters and of separators. */
  predicate PlainMessage(m: string, isWord: WordClass) {
    m != [] && IsStripped(m) && AllChars(m, c => c !in AmpersandLike) && MatchFree(m, isWord)
  }

  /** The pattern matches nowhere in `m`. */
  predicate MatchFree(m: string, isWord: WordClass) {
    forall j :: 0 <= j <= |m| ==> !MatchAt(m, j, isWord)
  }

  /** Matching nowhere is exactly having no separator for `re.search` to find. */
  lemma MatchFreeIffNoSeparator(m: string, isWord: WordClass)
    ensures MatchFree(m, isWord) <==> !HasSeparator(m, isWord)
  {
    FindMatchLeftmost(m, 0, isWord);
  }

  /** Every message is plain; stated by recursion so that it unfolds one
      message at a time. */
  predicate AllPlain(ms: seq<string>, isWord: WordClass) {
    ms == [] || (PlainMessage(ms[0], isWord) && AllPlain(ms[1..], isWord))
  }

  lemma {:induction false} AllPlainOf(ms: seq<string>, isWord: WordClass)
    requires forall k :: 0 <= k < |ms| ==> PlainMessage(ms[k], isWord)
    ensures AllPlain(ms, isWord)
  {
    if ms != [] {
      AllPlainOf(ms[1..], isWord);
    }
  }

  /** Without a match at `j`, the search simply moves on. */
  lemma FindMatchStep(s: string, j: nat, isWord: WordClass)
    requires j < |s| && !MatchAt(s, j, isWord)
    ensures FindMatch(s, j, isWord) == FindMatch(s, j + 1, isWord)
  {
  }

  /** Without a further match, the rest of the text is the last piece. */
  lemma ReSplitLast(s: string, i: nat, isWord: WordClass)
    requires i <= |s| && FindMatch(s, i, isWord).None?
    ensures ReSplit(s, i, isWord) == [s[i..]]
  {
  }

  /** With a further match, the piece in front of it comes first. */
  lemma ReSplitNext(s: string, i: nat, isWord: WordClass)
    requires i <= |s| && FindMatch(s, i, isWord).Some?
    ensures ReSplit(s, i, isWord) ==
      [s[i..FindMatch(s, i, isWord).value]] + ReSplit(s, MatchEnd(s, FindMatch(s, i, isWord).value, isWord), isWord)
  {
  }

  // ---------------------------------------------------------------------------
  // Matching is unaffected by text in front that ends in a non-word character.

  lemma {:induction false} SpaceRunEndShift(a: string, b: string, j: nat)
    requires j <= |b|
    ensures SpaceRunEnd(a + b, |a| + j) == |a| + SpaceRunEnd(b, j)
    decreases |b| - j
  {
    assert forall k :: 0 <= k < |b| ==> (a + b)[|a| + k] == b[k];
    if j < |b| && IsSpace(b[j]) {
      SpaceRunEndShift(a, b, j + 1);
    }
  }

  lemma WordAtShift(a: string, b: string, k: int, isWord: WordClass)
    requires |a| == 0 || !isWord(a[|a| - 1])
    requires k >= -1
    ensures WordAt(a + b, |a| + k, isWord) == WordAt(b, k, isWord)
  {
    if k == -1 && |a| > 0 {
      assert (a + b)[|a| - 1] == a[|a| - 1];
    } else if 0 <= k < |b| {
      assert (a + b)[|a| + k] == b[k];
    }
  }

  lemma SeparatorLengthShift(a: string, b: string, q: nat, isWord: WordClass)
    requires |a| == 0 || !isWord(a[|a| - 1])
    requires q <= |b|
    ensures SeparatorLength(a + b, |a| + q, isWord) == SeparatorLength(b, q, isWord)
  {
    var s := a + b;
    assert forall k :: 0 <= k < |b| ==> s[|a| + k] == b[k];
    WordAtShift(a, b, q - 1, isWord);
    WordAtShift(a, b, q, isWord);
    WordAtShift(a, b, q + 2, isWord);
    WordAtShift(a, b, q + 3, isWord);
    assert AndWordAt(s, |a| + q, isWord) == AndWordAt(b, q, isWord);
  }

  lemma MatchAtShift(a: string, b: string, j: nat, isWord: WordClass)
    requires |a| == 0 || !isWord(a[|a| - 1])
    requires j <= |b|
    ensures MatchAt(a + b, |a| + j, isWord) == MatchAt(b, j, isWord)
    ensures MatchAt(b, j, isWord) ==> MatchEnd(a + b, |a| + j, isWord) == |a| + MatchEnd(b, j, isWord)
  {
    var q := SpaceRunEnd(b, j);
    SpaceRunEndShift(a, b, j);
    SeparatorLengthShift(a, b, q, isWord);
    if MatchAt(b, j, isWord) {
      SpaceRunEndShift(a, b, q + SeparatorLength(b, q, isWord));
    }
  }

  // ---------------------------------------------------------------------------
  // Matching inside a message is unaffected by a space written after it.

  lemma {:induction false} SpaceRunEndPrefix(m: string, t: string, j: nat)
    requires j < |m| && !IsSpace(m[|m| - 1])
    ensures SpaceRunEnd(m + t, j) == SpaceRunEnd(m, j) < |m|
    decreases |m| - j
  {
    assert (m + t)[j] == m[j];
    if IsSpace(m[j]) {
      SpaceRunEndPrefix(m, t, j + 1);
    }
  }

  lemma MatchAtPrefix(m: string, t: string, j: nat, isWord: WordClass)
    requires j < |m| && !IsSpace(m[|m| - 1])
    requires t != [] && t[0] == ' ' && !isWord(' ')
    ensures MatchAt(m + t, j, isWord) == MatchAt(m, j, isWord)
  {
    var s := m + t;
    var q := SpaceRunEnd(m, j);
    SpaceRunEndPrefix(m, t, j);
    assert forall k :: 0 <= k < |m| ==> s[k] == m[k];
    assert s[|m|] == ' ';
    assert forall k :: -1 <= k <= |m| ==> WordAt(s, k, isWord) == WordAt(m, k, isWord);
    if q + 3 > |m| {
      assert !AndWordAt(s, q, isWord);
    }
    assert SeparatorLength(s, q, isWord) == SeparatorLength(m, q, isWord);
  }

  // ---------------------------------------------------------------------------
  // One separator between a message and the rest.

  lemma SeparatorMatches(s: string, pre: string, sep: string, rest: string, isWord: WordClass)
    requires PythonWordClass(isWord) && IsSeparatorWord(sep)
    requires rest != [] && !IsSpace(rest[0])
    requires s == pre + (Gap(sep) + rest)
    ensures MatchAt(s, |pre|, isWord)
    ensures MatchEnd(s, |pre|, isWord) == |pre| + |sep| + 2
  {
    var n := |pre|;
    assert s[n] == ' ';
    assert forall k :: 0 <= k < |sep| ==> s[n + 1 + k] == sep[k];
    assert s[n + 1 + |sep|] == ' ';
    assert s[n + 2 + |sep|] == rest[0];
    assert !IsSpace(sep[0]);
    assert SpaceRunEnd(s, n + 1) == n + 1;
    assert SpaceRunEnd(s, n) == n + 1;
    if sep != "&" {
      assert IsAsciiAlnum(sep[0]) && IsAsciiAlnum(sep[2]);
      assert AndWordAt(s, n + 1, isWord);
    }
    assert SeparatorLength(s, n + 1, isWord) == |sep|;
    assert SpaceRunEnd(s, n + 2 + |sep|) == n + 2 + |sep|;
    assert SpaceRunEnd(s, n + 1 + |sep|) == n + 2 + |sep|;
  }

  /** The search from `i` stops at `t` when nothing matches in between. */
  lemma {:induction false} FindMatchReaches(s: string, i: nat, t: nat, isWord: WordClass)
    requires i <= t <= |s| && MatchAt(s, t, isWord)
    requires forall j :: i <= j < t ==> !MatchAt(s, j, isWord)
    ensures FindMatch(s, i, isWord) == Some(t)
    decreases t - i
  {
    if i < t {
      FindMatchReaches(s, i + 1, t, isWord);
      FindMatchStep(s, i, isWord);
    }
  }

  /** Nothing matches inside a plain message, wherever it stands, provided the
      text in front ends in a non-word character and the text behind starts
      with a space (or is empty). */
  lemma NoMatchInMessage(s: string, a: string, m: string, t: string, j: nat, isWord: WordClass)
    requires PythonWordClass(isWord) && PlainMessage(m, isWord)
    requires |a| == 0 || !isWord(a[|a| - 1])
    requires t == [] || t[0] == ' '
    requires j < |m| || (j == |m| && t == [])
    requires s == a + m + t
    ensures !MatchAt(s, |a| + j, isWord)
  {
    assert s == a + (m + t);
    MatchAtShift(a, m + t, j, isWord);
    if t == [] {
      assert m + t == m;
    } else {
      assert !isWord(' ') by { assert IsSpace(' '); }
      MatchAtPrefix(m, t, j, isWord);
    }
  }

  lemma NoMatchInMessageRange(s: string, a: string, m: string, t: string, isWord: WordClass)
    requires PythonWordClass(isWord) && PlainMessage(m, isWord)
    requires |a| == 0 || !isWord(a[|a| - 1])
    requires t == [] || t[0] == ' '
    requires s == a + m + t
    ensures forall j :: |a| <= j < |a| + |m| ==> !MatchAt(s, j, isWord)
  {
    forall j | |a| <= j < |a| + |m| ensures !MatchAt(s, j, isWord) {
      NoMatchInMessage(s, a, m, t, j - |a|, isWord);
    }
  }

  lemma JoinMessagesStart(ms: seq<string>, sep: string)
    requires ms != [] && ms[0] != []
    ensures JoinMessages(ms, sep) != [] && JoinMessages(ms, sep)[0] == ms[0][0]
  {
  }

  /** The last message, starting at `i`: nothing matches from there on. */
  lemma ReSplitLastMessage(s: string, a: string, i: nat, m: string, isWord: WordClass)
    requires PythonWordClass(isWord) && PlainMessage(m, isWord)
    requires |a| == 0 || !isWord(a[|a| - 1])
    requires s == a + m && i == |a|
    ensures ReSplit(s, i, isWord) == [m]
  {
    assert s == a + m + [];
    forall j | i <= j <= |s| ensures !MatchAt(s, j, isWord) {
      NoMatchInMessage(s, a, m, [], j - i, isWord);
    }
    FindMatchLeftmost(s, i, isWord);
    ReSplitLast(s, i, isWord);
    assert s[i..] == m;
  }

  /** With the match at `p` ending at `e`, the piece up to `p` comes first. */
  lemma ReSplitAt(s: string, i: nat, p: nat, e: nat, piece: string, isWord: WordClass)
    requires i <= |s| && FindMatch(s, i, isWord) == Some(p)
    requires MatchAt(s, p, isWord) && MatchEnd(s, p, isWord) == e
    requires i <= p <= |s| && s[i..p] == piece
    ensures e <= |s|
    ensures ReSplit(s, i, isWord) == [piece] + ReSplit(s, e, isWord)
  {
  }

  /** In `a + m + Gap(sep) + rest`, the search from `i`, the start of `m`, stops
      at `p`, the end of `m`, and that match ends at `e`, the start of `rest`. */
  lemma SeparatorAfterMessage(s: string, a: string, m: string, sep: string, rest: string, i: nat, p: nat, e: nat, isWord: WordClass)
    requires PythonWordClass(isWord) && IsSeparatorWord(sep) && PlainMessage(m, isWord)
    requires |a| == 0 || !isWord(a[|a| - 1])
    requires rest != [] && !IsSpace(rest[0])
    requires s == (a + m) + (Gap(sep) + rest)
    requires i == |a| && p == i + |m| && e == p + |sep| + 2
    ensures e <= |s|
    ensures FindMatch(s, i, isWord) == Some(p)
    ensures MatchAt(s, p, isWord)
    ensures MatchEnd(s, p, isWord) == e
  {
    SeparatorMatches(s, a + m, sep, rest, isWord);
    NoMatchInMessageRange(s, a, m, Gap(sep) + rest, isWord);
    FindMatchReaches(s, i, p, isWord);
  }

  /** A message followed by a separator: it is the next piece, and splitting
      resumes at `e`, right after the separator and its surrounding spaces. */
  lemma ReSplitMessageThenSeparator(s: string, a: string, m: string, sep: string, rest: string, i: nat, e: nat, isWord: WordClass)
    requires PythonWordClass(isWord) && IsSeparatorWord(sep) && PlainMessage(m, isWord)
    requires |a| == 0 || !isWord(a[|a| - 1])
    requires rest != [] && !IsSpace(rest[0])
    requires s == (a + m) + (Gap(sep) + rest)
    requires i == |a| && e == i + |m| + |sep| + 2
    ensures e <= |s|
    ensures ReSplit(s, i, isWord) == [m] + ReSplit(s, e, isWord)
  {
    var p := i + |m|;
    SeparatorAfterMessage(s, a, m, sep, rest, i, p, e, isWord);
    assert s[i..p] == m;
    ReSplitAt(s, i, p, e, m, isWord);
  }

  lemma Regroup(s: string, a: string, m: string, g: string, rest: string)
    requires s == a + ((m + g) + rest)
    ensures s == (a + m) + (g + rest)
    ensures s == ((a + m) + g) + rest
  {
  }

  /** The first of several joined messages comes off as one piece; the rest
      are written after `a'` and splitting resumes at `e`, the end of `a'`. */
  lemma JoinStep(s: string, a: string, i: nat, ms: seq<string>, sep: string, isWord: WordClass)
      returns (a': string, e: nat)
    requires PythonWordClass(isWord) && IsSeparatorWord(sep)
    requires |ms| >= 2 && PlainMessage(ms[0], isWord) && PlainMessage(ms[1], isWord)
    requires |a| == 0 || !isWord(a[|a| - 1])
    requires s == a + JoinMessages(ms, sep) && i == |a|
    ensures s == a' + JoinMessages(ms[1..], sep) && e == |a'|
    ensures |a'| == 0 || !isWord(a'[|a'| - 1])
    ensures e <= |s| && ReSplit(s, i, isWord) == [ms[0]] + ReSplit(s, e, isWord)
  {
    var m := ms[0];
    var rest := JoinMessages(ms[1..], sep);
    JoinMessagesStart(ms[1..], sep);
    Regroup(s, a, m, Gap(sep), rest);
    e := i + |m| + |sep| + 2;
    ReSplitMessageThenSeparator(s, a, m, sep, rest, i, e, isWord);
    a' := (a + m) + Gap(sep);
    assert !isWord(a'[|a'| - 1]) by { assert IsSpace(' '); }
  }

  lemma ReSplitOfOne(s: string, a: string, i: nat, ms: seq<string>, sep: string, isWord: WordClass)
    requires PythonWordClass(isWord)
    requires |ms| == 1 && AllPlain(ms, isWord)
    requires |a| == 0 || !isWord(a[|a| - 1])
    requires s == a + JoinMessages(ms, sep) && i == |a|
    ensures ReSplit(s, i, isWord) == ms
  {
    ReSplitLastMessage(s, a, i, ms[0], isWord);
  }

  /** Splitting, from `i`, the end of `a`, messages joined with separators gives
      the messages back. */
  lemma {:induction false} ReSplitOfJoin(s: string, a: string, i: nat, ms: seq<string>, sep: string, isWord: WordClass)
    requires PythonWordClass(isWord) && IsSeparatorWord(sep)
    requires ms != [] && AllPlain(ms, isWord)
    requires |a| == 0 || !isWord(a[|a| - 1])
    requires s == a + JoinMessages(ms, sep) && i == |a|
    ensures ReSplit(s, i, isWord) == ms
    decreases |ms|, 1
  {
    if |ms| == 1 {
      ReSplitOfOne(s, a, i, ms, sep, isWord);
    } else {
      ReSplitOfMore(s, a, i, ms, sep, isWord);
    }
  }

  lemma {:induction false} ReSplitOfMore(s: string, a: string, i: nat, ms: seq<string>, sep: string, isWord: WordClass)
    requires PythonWordClass(isWord) && IsSeparatorWord(sep)
    requires |ms| >= 2 && AllPlain(ms, isWord)
    requires |a| == 0 || !isWord(a[|a| - 1])
    requires s == a + JoinMessages(ms, sep) && i == |a|
    ensures ReSplit(s, i, isWord) == ms
    decreases |ms|, 0
  {
    HeadTail(ms);
    var a', e := JoinStep(s, a, i, ms, sep, isWord);
    ReSplitOfJoin(s, a', e, ms[1..], sep, isWord);
  }

  lemma HeadTail(ms: seq<string>)
    requires ms != []
    ensures ms == [ms[0]] + ms[1..]
  {
  }

  lemma {:induction false} JoinMessagesPlain(ms: seq<string>, sep: string, isWord: WordClass)
    requires IsSeparatorWord(sep)
    requires forall k :: 0 <= k < |ms| ==> PlainMessage(ms[k], isWord)
    ensures AllChars(JoinMessages(ms, sep), c => c !in AmpersandLike)
  {
    if |ms| > 1 {
      JoinMessagesPlain(ms[1..], sep, isWord);
      var rest := JoinMessages(ms[1..], sep);
      var s := ms[0] + Gap(sep) + rest;
      forall k | 0 <= k < |s| ensures s[k] !in AmpersandLike {
        if k < |ms[0]| {
          assert s[k] == ms[0][k];
        } else if k >= |ms[0]| + |sep| + 2 {
          assert s[k] == rest[k - |ms[0]| - |sep| - 2];
        }
      }
    }
  }

  /** Writing well-formed messages with one separator `sep` (`&`, or `and` in
      any ASCII case) and one space on either side of it in every gap, and
      parsing the result as a block, gives exactly those messages back, in
      order (msg.py:92-103). */
  lemma SplitBlockOfJoin(ms: seq<string>, sep: string, isWord: WordClass)
    requires PythonWordClass(isWord) && IsSeparatorWord(sep)
    requires forall k :: 0 <= k < |ms| ==> PlainMessage(ms[k], isWord)
    ensures SplitBlock(JoinMessages(ms, sep), isWord) == ms
  {
    var s := JoinMessages(ms, sep);
    JoinMessagesPlain(ms, sep, isWord);
    NormalizeOfPlain(s);
    if ms == [] {
      assert ReSplit(s, 0, isWord) == [[]];
    } else {
      assert s == [] + s;
      AllPlainOf(ms, isWord);
      ReSplitOfJoin(s, [], 0, ms, sep, isWord);
      StripNonEmptyOfClean(ms);
    }
  }

  /** Text holding neither `&` nor any letter `a` cannot contain a separator. */
  lemma NoSeparatorWithoutAmpOrA(m: string, isWord: WordClass)
    requires AllChars(m, c => c != '&' && !FoldsTo(c, 'a'))
    ensures MatchFree(m, isWord)
  {
    forall j: nat | j <= |m| ensures !MatchAt(m, j, isWord) {
      var q := SpaceRunEnd(m, j);
      if q < |m| {
        assert m[q] != '&' && !FoldsTo(m[q], 'a');
      }
    }
  }

  lemma JoinTwo(x: string, y: string, sep: string)
    ensures JoinMessages([x, y], sep) == x + Gap(sep) + y
  {
    assert [x, y][1..] == [y];
  }

  /** A single character that is neither whitespace nor `&`-like is a plain
      message. */
  /** Rejoining parsed messages with a bare `"&".join` and parsing again gives
      them back: `"a&b"` gives `["a", "b"]`. */
  lemma BareAmpersandExample(isWord: WordClass)
    requires PythonWordClass(isWord)
    ensures SplitBlock("a&b", isWord) == ["a", "b"]
  {
    BareAmpersandNormal();
    BareAmpersandSplit(isWord);
    TwoLettersClean();
  }

  lemma BareAmpersandNormal()
    ensures NormalizeAmpersands("a&b") == "a&b"
  {
    NormalizeOfPlain("a&b");
  }

  lemma TwoLettersClean()
    ensures StripNonEmpty(["a", "b"]) == ["a", "b"]
  {
    StripNonEmptyOfClean(["a", "b"]);
  }

  /** `re.split` finds the `&` at position 1 and nothing after it. */
  lemma BareAmpersandSplit(isWord: WordClass)
    requires PythonWordClass(isWord)
    ensures ReSplit("a&b", 0, isWord) == ["a", "b"]
  {
    var s := "a&b";
    BareAmpersandFirst(isWord);
    BareAmpersandRest(isWord);
    assert ReSplit(s, 0, isWord) == [s[0..1]] + ReSplit(s, 2, isWord);
    assert s[0..1] == "a";
  }

  lemma BareAmpersandFirst(isWord: WordClass)
    requires PythonWordClass(isWord)
    ensures FindMatch("a&b", 0, isWord) == Some(1) && MatchEnd("a&b", 1, isWord) == 2
  {
    var s := "a&b";
    assert SpaceRunEnd(s, 0) == 0;
    assert SpaceRunEnd(s, 1) == 1;
    assert SpaceRunEnd(s, 2) == 2;
    assert !MatchAt(s, 0, isWord);
  }

  lemma BareAmpersandRest(isWord: WordClass)
    requires PythonWordClass(isWord)
    ensures ReSplit("a&b", 2, isWord) == ["b"]
  {
    var s := "a&b";
    assert SpaceRunEnd(s, 2) == 2;
    assert SpaceRunEnd(s, 3) == 3;
    assert !MatchAt(s, 2, isWord);
    assert FindMatch(s, 2, isWord) == None;
    assert s[2..] == "b";
  }

  lemma SingleCharPlain(c: char, isWord: WordClass)
    requires !IsSpace(c) && c != '&' && c !in AmpersandLike
    ensures PlainMessage([c], isWord)
  {
    var m := [c];
    assert SpaceRunEnd(m, 0) == 0;
    assert !MatchAt(m, 0, isWord) && !MatchAt(m, 1, isWord);
  }

  /** Lower-case words other than `a...`, with single spaces or newlines
      between them, form a plain message. */
  lemma LowerCasePlain(m: string, isWord: WordClass)
    requires m != [] && 'b' <= m[0] <= 'z' && 'b' <= m[|m| - 1] <= 'z'
    requires AllChars(m, c => ('b' <= c <= 'z') || c == ' ' || c == '\n')
    ensures PlainMessage(m, isWord)
  {
    assert AllChars(m, c => c != '&' && !FoldsTo(c, 'a'));
    NoSeparatorWithoutAmpOrA(m, isWord);
  }

  /** msg.py:100-103: `"a and b"` gives `["a", "b"]`. */
  lemma AndExample(isWord: WordClass)
    requires PythonWordClass(isWord)
    ensures SplitBlock("a and b", isWord) == ["a", "b"]
  {
    SingleCharPlain('a', isWord);
    SingleCharPlain('b', isWord);
    JoinTwo("a", "b", "and");
    assert "a" + Gap("and") + "b" == "a and b";
    SplitBlockOfJoin(["a", "b"], "and", isWord);
  }

  /** msg.py:100-103: the upper-case word also separates: `"a AND b"` gives
      `["a", "b"]`. */
  lemma UpperAndExample(isWord: WordClass)
    requires PythonWordClass(isWord)
    ensures SplitBlock("a AND b", isWord) == ["a", "b"]
  {
    SingleCharPlain('a', isWord);
    SingleCharPlain('b', isWord);
    JoinTwo("a", "b", "AND");
    assert "a" + Gap("AND") + "b" == "a AND b";
    SplitBlockOfJoin(["a", "b"], "AND", isWord);
  }

  /** msg.py:100-103: `"a & b"` gives `["a", "b"]`. */
  lemma AmpersandExample(isWord: WordClass)
    requires PythonWordClass(isWord)
    ensures SplitBlock("a & b", isWord) == ["a", "b"]
  {
    SingleCharPlain('a', isWord);
    SingleCharPlain('b', isWord);
    JoinTwo("a", "b", "&");
    assert "a" + Gap("&") + "b" == "a & b";
    SplitBlockOfJoin(["a", "b"], "&", isWord);
  }

  lemma NewlineJoin()
    ensures JoinMessages(["hi there\nfriend", "good morning"], "&") == "hi there\nfriend & good morning"
  {
    JoinTwo("hi there\nfriend", "good morning", "&");
    assert "hi there\nfriend" + Gap("&") == "hi there\nfriend & ";
  }

  /** msg.py:100-103: a newline inside a message is kept, not split on:
      `"hi there\nfriend & good morning"` gives
      `["hi there\nfriend", "good morning"]`. */
  lemma NewlineExample(isWord: WordClass)
    requires PythonWordClass(isWord)
    ensures SplitBlock("hi there\nfriend & good morning", isWord) == ["hi there\nfriend", "good morning"]
  {
    LowerCasePlain("hi there\nfriend", isWord);
    LowerCasePlain("good morning", isWord);
    NewlineJoin();
    SplitBlockOfJoin(["hi there\nfriend", "good morning"], "&", isWord);
  }
}
