/** The block form of the message parser (msg.py:92-103): ampersand-like
    characters become `&`, then the text is split with the regular expression
    `\s*(?:&|\band\b)\s*` under IGNORECASE, and the stripped non-empty pieces
    are kept in order. The regular expression is modelled by a scanner that
    finds its leftmost match, exactly as `re.split` does. */
module BlockSplit {
  import opened Text
  import opened Wrappers

  // The five code points msg.py:93-97 rewrite to '&'.
  const SmallAmpersand: char := '\U{FE60}'
  const FullwidthAmpersand: char := '\U{FF06}'
  const TurnedAmpersand: char := '\U{214B}'
  const LisuToneMyaTi: char := '\U{A4F8}'
  const VerticalSemicolon: char := '\U{FE14}'

  const AmpersandLike: set<char> :=
    {SmallAmpersand, FullwidthAmpersand, TurnedAmpersand, LisuToneMyaTi, VerticalSemicolon}

  /** Python's `s.replace(from, to)` for one-character `from` and `to`. */
  function Replace(s: string, from: char, to: char): (r: string)
    ensures |r| == |s|
    ensures forall k :: 0 <= k < |s| ==> r[k] == if s[k] == from then to else s[k]
  {
    if s == [] then []
    else [if s[0] == from then to else s[0]] + Replace(s[1..], from, to)
  }

  /** The chained `replace` calls of msg.py:92-98. */
  function NormalizeAmpersands(s: string): (r: string)
    ensures |r| == |s|
    ensures forall k :: 0 <= k < |s| ==> r[k] == if s[k] in AmpersandLike then '&' else s[k]
  {
    Replace(Replace(Replace(Replace(Replace(s,
      SmallAmpersand, '&'), FullwidthAmpersand, '&'), TurnedAmpersand, '&'),
      LisuToneMyaTi, '&'), VerticalSemicolon, '&')
  }

  lemma NormalizeOfPlain(s: string)
    requires AllChars(s, c => c !in AmpersandLike)
    ensures NormalizeAmpersands(s) == s
  {
  }

  /** Python's `\w` as the regular-expression engine classifies a character. It
      depends on Unicode tables and is taken as a parameter of the splitter. */
  type WordClass = char -> bool

  predicate IsAsciiAlnum(c: char) {
    ('a' <= c <= 'z') || ('A' <= c <= 'Z') || ('0' <= c <= '9') || c == '_'
  }

  /** What Python's `\w` certainly does: ASCII letters, digits and `_` are word
      characters; whitespace and `&` are not. */
  predicate PythonWordClass(isWord: WordClass) {
    (forall c :: IsAsciiAlnum(c) ==> isWord(c))
    && (forall c :: IsSpace(c) ==> !isWord(c))
    && !isWord('&')
  }

  /** Under IGNORECASE, `c` matches the lower-case ASCII letter `lower`. No code
      point other than the two ASCII cases folds to `a`, `n` or `d`. */
  predicate FoldsTo(c: char, lower: char)
    requires 'a' <= lower <= 'z'
  {
    c == lower || c as int == lower as int - 32
  }

  /** End of the run of whitespace `\s*` consumes from position `i`. */
  function SpaceRunEnd(s: string, i: nat): (e: nat)
    requires i <= |s|
    ensures i <= e <= |s|
    ensures forall k :: i <= k < e ==> IsSpace(s[k])
    ensures e == |s| || !IsSpace(s[e])
    decreases |s| - i
  {
    if i < |s| && IsSpace(s[i]) then SpaceRunEnd(s, i + 1) else i
  }

  predicate WordAt(s: string, k: int, isWord: WordClass) {
    0 <= k < |s| && isWord(s[k])
  }

  /** `\b` holds at position `k` (between `s[k-1]` and `s[k]`). */
  predicate Boundary(s: string, k: int, isWord: WordClass) {
    WordAt(s, k - 1, isWord) != WordAt(s, k, isWord)
  }

  /** `\band\b` matches at position `q`. */
  predicate AndWordAt(s: string, q: nat, isWord: WordClass) {
    q + 3 <= |s| && FoldsTo(s[q], 'a') && FoldsTo(s[q + 1], 'n') && FoldsTo(s[q + 2], 'd')
    && Boundary(s, q, isWord) && Boundary(s, q + 3, isWord)
  }

  /** Length of the `(?:&|\band\b)` match at position `q`, or 0 when it fails. */
  function SeparatorLength(s: string, q: nat, isWord: WordClass): (n: nat)
    requires q <= |s|
    ensures q + n <= |s|
  {
    if q < |s| && s[q] == '&' then 1
    else if AndWordAt(s, q, isWord) then 3
    else 0
  }

  /** The whole pattern matches at position `p`. Backtracking the leading `\s*`
      cannot help, since a shorter run leaves a whitespace character in front of
      the separator. */
  predicate MatchAt(s: string, p: nat, isWord: WordClass) {
    p <= |s| && SeparatorLength(s, SpaceRunEnd(s, p), isWord) > 0
  }

  /** End of the match at `p`: the trailing `\s*` is greedy. */
  function MatchEnd(s: string, p: nat, isWord: WordClass): (e: nat)
    requires MatchAt(s, p, isWord)
    ensures p < e <= |s|
  {
    var q := SpaceRunEnd(s, p);
    SpaceRunEnd(s, q + SeparatorLength(s, q, isWord))
  }

  /** Every `&` starts a match of its own. */
  lemma AmpersandStartsMatch(s: string, j: nat, isWord: WordClass)
    requires j < |s| && s[j] == '&'
    ensures MatchAt(s, j, isWord)
  {
    assert !IsSpace('&');
    assert SpaceRunEnd(s, j) == j;
  }

  lemma AmpersandsStartMatches(s: string, isWord: WordClass)
    ensures forall j: nat :: j < |s| && s[j] == '&' ==> MatchAt(s, j, isWord)
  {
    forall j: nat | j < |s| && s[j] == '&' {
      AmpersandStartsMatch(s, j, isWord);
    }
  }

  /** Leftmost match at or after `i`, as `re.search` from `i` finds it. */
  function FindMatch(s: string, i: nat, isWord: WordClass): (r: Option<nat>)
    requires i <= |s|
    ensures r.Some? ==> i <= r.value <= |s| && MatchAt(s, r.value, isWord)
    decreases |s| - i
  {
    if MatchAt(s, i, isWord) then Some(i)
    else if i == |s| then None
    else FindMatch(s, i + 1, isWord)
  }

  /** The match found is the leftmost one, and none is found only when there is
      none. */
  lemma {:induction false} FindMatchLeftmost(s: string, i: nat, isWord: WordClass)
    requires i <= |s|
    ensures FindMatch(s, i, isWord).None? <==> forall j :: i <= j <= |s| ==> !MatchAt(s, j, isWord)
    ensures FindMatch(s, i, isWord).Some? ==>
      forall j :: i <= j < FindMatch(s, i, isWord).value ==> !MatchAt(s, j, isWord)
    decreases |s| - i
  {
    if !MatchAt(s, i, isWord) && i < |s| {
      FindMatchLeftmost(s, i + 1, isWord);
    }
  }

  predicate HasSeparator(s: string, isWord: WordClass) {
    FindMatch(s, 0, isWord).Some?
  }

  /** `re.split(pattern, s[i..])` continued from position `i` of `s` (so that `\b`
      still sees the character before `i`): the pieces between successive
      leftmost matches, first and last pieces included. */
  function ReSplit(s: string, i: nat, isWord: WordClass): (pieces: seq<string>)
    requires i <= |s|
    ensures |pieces| >= 1
    decreases |s| - i
  {
    match FindMatch(s, i, isWord)
    case None => [s[i..]]
    case Some(p) => [s[i..p]] + ReSplit(s, MatchEnd(s, p, isWord), isWord)
  }

  /** No piece holds an `&`: each one would have started a match. */
  lemma {:induction false} ReSplitNoAmpersand(s: string, i: nat, isWord: WordClass)
    requires i <= |s|
    ensures forall k :: 0 <= k < |ReSplit(s, i, isWord)| ==> '&' !in ReSplit(s, i, isWord)[k]
    decreases |s| - i
  {
    AmpersandsStartMatches(s, isWord);
    FindMatchLeftmost(s, i, isWord);
    match FindMatch(s, i, isWord)
    case None =>
    case Some(p) =>
      ReSplitNoAmpersand(s, MatchEnd(s, p, isWord), isWord);
      assert ReSplit(s, i, isWord) == [s[i..p]] + ReSplit(s, MatchEnd(s, p, isWord), isWord);
  }

  /** The block form of `parse_messages` (msg.py:92-104). */
  function SplitBlock(content: string, isWord: WordClass): (msgs: seq<string>)
    ensures forall k :: 0 <= k < |msgs| ==> msgs[k] != [] && IsStripped(msgs[k])
  {
    StripNonEmpty(ReSplit(NormalizeAmpersands(content), 0, isWord))
  }

  // ---------------------------------------------------------------------------
  // Every message the block form returns is clean.

  /** Pieces of a split only hold characters of the text they come from. */
  lemma {:induction false} ReSplitKeeps(s: string, i: nat, isWord: WordClass, ok: char -> bool)
    requires i <= |s| && AllChars(s, ok)
    ensures forall k :: 0 <= k < |ReSplit(s, i, isWord)| ==> AllChars(ReSplit(s, i, isWord)[k], ok)
    decreases |s| - i
  {
    match FindMatch(s, i, isWord)
    case None =>
    case Some(p) =>
      ReSplitKeeps(s, MatchEnd(s, p, isWord), isWord, ok);
      var rest := ReSplit(s, MatchEnd(s, p, isWord), isWord);
      assert ReSplit(s, i, isWord) == [s[i..p]] + rest;
  }

  lemma StripKeeps(s: string, ok: char -> bool)
    requires AllChars(s, ok)
    ensures AllChars(Strip(s), ok)
  {
    var a := LeadingSpaces(s);
    forall k | 0 <= k < |Strip(s)| ensures ok(Strip(s)[k]) {
      assert Strip(s)[k] == s[a + k];
    }
  }

  lemma {:induction false} StripNonEmptyKeeps(pieces: seq<string>, ok: char -> bool)
    requires forall k :: 0 <= k < |pieces| ==> AllChars(pieces[k], ok)
    ensures forall k :: 0 <= k < |StripNonEmpty(pieces)| ==> AllChars(StripNonEmpty(pieces)[k], ok)
  {
    if pieces != [] {
      StripKeeps(pieces[0], ok);
      StripNonEmptyKeeps(pieces[1..], ok);
    }
  }

  /** A character that can appear in a message of the block form: neither `&`
      nor ampersand-like. */
  predicate CleanChar(c: char) {
    c != '&' && c !in AmpersandLike
  }

  /** msg.py:92-103: every message of the block form is non-empty, carries no
      surrounding whitespace, and holds neither `&` nor any ampersand-like
      character (those were turned into `&` and split on). */
  lemma BlockMessagesClean(content: string, isWord: WordClass)
    ensures forall k :: 0 <= k < |SplitBlock(content, isWord)| ==>
      SplitBlock(content, isWord)[k] != [] && IsStripped(SplitBlock(content, isWord)[k])
      && AllChars(SplitBlock(content, isWord)[k], CleanChar)
  {
    var s := NormalizeAmpersands(content);
    PiecesClean(s, isWord);
    StripNonEmptyKeeps(ReSplit(s, 0, isWord), CleanChar);
  }

  /** The pieces of the split of normalised text hold neither `&` nor any
      ampersand-like character. */
  lemma PiecesClean(s: string, isWord: WordClass)
    requires forall k :: 0 <= k < |s| ==> s[k] !in AmpersandLike
    ensures forall k :: 0 <= k < |ReSplit(s, 0, isWord)| ==> AllChars(ReSplit(s, 0, isWord)[k], CleanChar)
  {
    var plain := c => c !in AmpersandLike;
    ReSplitKeeps(s, 0, isWord, plain);
    ReSplitNoAmpersand(s, 0, isWord);
    var pieces := ReSplit(s, 0, isWord);
    forall k | 0 <= k < |pieces| ensures AllChars(pieces[k], CleanChar) {
      assert AllChars(pieces[k], plain);
      assert '&' !in pieces[k];
    }
  }

  // ---------------------------------------------------------------------------
  // Text without a separator, and text that is nothing but separators.

  /** msg.py:100-103: a block with no separator is one message, the stripped
      block, with its inner newlines untouched; a blank block gives none. */
  lemma NoSeparatorSingleMessage(content: string, isWord: WordClass)
    requires !HasSeparator(NormalizeAmpersands(content), isWord)
    ensures SplitBlock(content, isWord) == if AllSpace(content) then [] else [Strip(content)]
  {
    var s := NormalizeAmpersands(content);
    FindMatchLeftmost(s, 0, isWord);
    forall k | 0 <= k < |content| ensures content[k] !in AmpersandLike {
      if content[k] in AmpersandLike {
        AmpersandStartsMatch(s, k, isWord);
      }
    }
    assert s == content;
    assert ReSplit(s, 0, isWord) == [s[0..]];
    assert s[0..] == content;
  }

  /** Text that, from position `i` on, is nothing but whitespace, `&` and
      matches of `\band\b` (the word `and` in any ASCII case, standing alone). */
  predicate SeparatorsFrom(s: string, i: nat, isWord: WordClass)
    decreases |s| - i
  {
    i >= |s|
    || ((IsSpace(s[i]) || s[i] == '&') && SeparatorsFrom(s, i + 1, isWord))
    || (AndWordAt(s, i, isWord) && SeparatorsFrom(s, i + 3, isWord))
  }

  /** Every piece is whitespace only, so `p.strip()` keeps none of them. */
  predicate AllBlank(pieces: seq<string>) {
    forall k :: 0 <= k < |pieces| ==> AllSpace(pieces[k])
  }

  /** msg.py:103-104: the block form yields the empty list, rather than an
      error, exactly when the text (after the ampersand rewrite) is made only of
      whitespace and separators. */
  lemma OnlySeparatorsGiveNothing(content: string, isWord: WordClass)
    ensures SplitBlock(content, isWord) == [] <==> SeparatorsFrom(NormalizeAmpersands(content), 0, isWord)
  {
    var s := NormalizeAmpersands(content);
    ReSplitBlank(s, 0, isWord);
    StripNonEmptyBlank(ReSplit(s, 0, isWord));
  }

  /** Whitespace alone yields no message. */
  lemma BlankGivesNothing(content: string, isWord: WordClass)
    requires AllSpace(content)
    ensures SplitBlock(content, isWord) == []
  {
    assert AllChars(content, c => c !in AmpersandLike) by {
      forall k | 0 <= k < |content| ensures content[k] !in AmpersandLike {
        assert IsSpace(content[k]);
      }
    }
    NormalizeOfPlain(content);
    SeparatorsAcrossSpaces(content, 0, |content|, isWord);
    OnlySeparatorsGiveNothing(content, isWord);
  }

  lemma {:induction false} StripNonEmptyBlank(pieces: seq<string>)
    ensures StripNonEmpty(pieces) == [] <==> AllBlank(pieces)
  {
    if pieces != [] {
      StripNonEmptyBlank(pieces[1..]);
      if AllBlank(pieces[1..]) && AllSpace(pieces[0]) {
        forall k | 0 <= k < |pieces| ensures AllSpace(pieces[k]) {
          if k > 0 {
            assert pieces[k] == pieces[1..][k - 1];
          }
        }
      }
      if AllBlank(pieces) {
        forall k | 0 <= k < |pieces| - 1 ensures AllSpace(pieces[1..][k]) {
          assert pieces[1..][k] == pieces[k + 1];
        }
      }
    }
  }

  /** A run of whitespace neither adds nor removes separators. */
  lemma {:induction false} SeparatorsAcrossSpaces(s: string, j: nat, e: nat, isWord: WordClass)
    requires j <= e <= |s|
    requires forall k :: j <= k < e ==> IsSpace(s[k])
    ensures SeparatorsFrom(s, j, isWord) <==> SeparatorsFrom(s, e, isWord)
    decreases e - j
  {
    if j < e {
      assert IsSpace(s[j]);
      assert !AndWordAt(s, j, isWord);
      SeparatorsAcrossSpaces(s, j + 1, e, isWord);
    }
  }

  /** No match starts in trailing whitespace. */
  lemma NoMatchInSpaces(s: string, i: nat, isWord: WordClass)
    requires i <= |s|
    requires forall k :: i <= k < |s| ==> IsSpace(s[k])
    ensures FindMatch(s, i, isWord).None?
  {
    forall j | i <= j <= |s| ensures !MatchAt(s, j, isWord) {
      var q := SpaceRunEnd(s, j);
      assert q == |s|;
    }
    FindMatchLeftmost(s, i, isWord);
  }

  /** The pieces `re.split` leaves from position `i` on are all whitespace
      exactly when the text from there is whitespace and separators. */
  lemma {:induction false} ReSplitBlank(s: string, i: nat, isWord: WordClass)
    requires i <= |s|
    ensures AllBlank(ReSplit(s, i, isWord)) <==> SeparatorsFrom(s, i, isWord)
    decreases |s| - i
  {
    match FindMatch(s, i, isWord)
    case None =>
      ReSplitBlankLast(s, i, isWord);
      assert ReSplit(s, i, isWord) == [s[i..]];
      BlankCons(s[i..], []);
    case Some(p) =>
      var rest := ReSplit(s, MatchEnd(s, p, isWord), isWord);
      assert ReSplit(s, i, isWord) == [s[i..p]] + rest;
      ReSplitBlank(s, MatchEnd(s, p, isWord), isWord);
      ReSplitBlankStep(s, i, p, isWord);
      BlankCons(s[i..p], rest);
  }

  lemma BlankCons(piece: string, rest: seq<string>)
    ensures AllBlank([piece] + rest) <==> AllSpace(piece) && AllBlank(rest)
  {
    var pieces := [piece] + rest;
    if AllBlank(pieces) {
      assert pieces[0] == piece;
      forall k | 0 <= k < |rest| ensures AllSpace(rest[k]) {
        assert rest[k] == pieces[k + 1];
      }
    }
  }

  /** When no match is left, the rest of the text is one piece. */
  lemma ReSplitBlankLast(s: string, i: nat, isWord: WordClass)
    requires i <= |s| && FindMatch(s, i, isWord).None?
    ensures AllSpace(s[i..]) <==> SeparatorsFrom(s, i, isWord)
  {
    var q := SpaceRunEnd(s, i);
    SeparatorsAcrossSpaces(s, i, q, isWord);
    SeparatorsStartMatch(s, i, isWord);
    FindMatchLeftmost(s, i, isWord);
    if q == |s| {
      assert SeparatorsFrom(s, q, isWord);
      forall k | 0 <= k < |s[i..]| ensures IsSpace(s[i..][k]) {
        assert s[i..][k] == s[i + k];
      }
    } else {
      assert !MatchAt(s, i, isWord);
      assert !IsSpace(s[i..][q - i]);
    }
  }

  /** Before the leftmost match at `p` the text must be whitespace, and the
      match itself is whitespace and one separator. */
  lemma ReSplitBlankStep(s: string, i: nat, p: nat, isWord: WordClass)
    requires i <= |s| && FindMatch(s, i, isWord) == Some(p)
    ensures SeparatorsFrom(s, i, isWord) <==> AllSpace(s[i..p]) && SeparatorsFrom(s, MatchEnd(s, p, isWord), isWord)
  {
    FindMatchLeftmost(s, i, isWord);
    MatchSeparators(s, p, isWord);
    if AllSpace(s[i..p]) {
      forall k | i <= k < p ensures IsSpace(s[k]) {
        assert s[k] == s[i..p][k - i];
      }
      SeparatorsAcrossSpaces(s, i, p, isWord);
    } else {
      var k :| 0 <= k < p - i && !IsSpace(s[i..p][k]);
      assert !IsSpace(s[i + k]);
      var q := SpaceRunEnd(s, i);
      assert q <= i + k;
      assert !MatchAt(s, i, isWord);
      SeparatorsStartMatch(s, i, isWord);
      SeparatorsAcrossSpaces(s, i, q, isWord);
    }
  }

  /** A match covers whitespace, one separator and whitespace: from its start
      the text is separators exactly when it is from its end. */
  lemma MatchSeparators(s: string, p: nat, isWord: WordClass)
    requires MatchAt(s, p, isWord)
    ensures SeparatorsFrom(s, p, isWord) <==> SeparatorsFrom(s, MatchEnd(s, p, isWord), isWord)
  {
    var q := SpaceRunEnd(s, p);
    var n := SeparatorLength(s, q, isWord);
    SeparatorsAcrossSpaces(s, p, q, isWord);
    SeparatorsAcrossSpaces(s, q + n, MatchEnd(s, p, isWord), isWord);
    if s[q] == '&' {
      assert !AndWordAt(s, q, isWord);
    } else {
      assert !IsSpace(s[q]);
    }
  }

  /** Text that is separators after its leading whitespace has a match at
      its start. */
  lemma SeparatorsStartMatch(s: string, i: nat, isWord: WordClass)
    requires i <= |s|
    ensures SpaceRunEnd(s, i) < |s| && SeparatorsFrom(s, SpaceRunEnd(s, i), isWord) ==> MatchAt(s, i, isWord)
  {
    var q := SpaceRunEnd(s, i);
    if q < |s| && SeparatorsFrom(s, q, isWord) && s[q] != '&' {
      assert AndWordAt(s, q, isWord);
    }
  }

  /** The word `and` on its own is a separator and nothing else. */
  lemma AndAloneGivesNothing(isWord: WordClass)
    requires PythonWordClass(isWord)
    ensures SplitBlock("and", isWord) == []
  {
    var s := "and";
    assert NormalizeAmpersands(s) == s;
    assert AndWordAt(s, 0, isWord);
    assert SeparatorsFrom(s, 3, isWord);
    OnlySeparatorsGiveNothing(s, isWord);
  }

  /** Separators of both kinds, in any case, with or without whitespace
      between them. */
  lemma MixedSeparatorsGiveNothing(isWord: WordClass)
    requires PythonWordClass(isWord)
    ensures SplitBlock("AND &and", isWord) == []
  {
    NormalizeOfPlain("AND &and");
    MixedSeparators(isWord);
    OnlySeparatorsGiveNothing("AND &and", isWord);
  }

  lemma MixedSeparators(isWord: WordClass)
    requires PythonWordClass(isWord)
    ensures SeparatorsFrom("AND &and", 0, isWord)
  {
    var s := "AND &and";
    assert AndWordAt(s, 5, isWord);
    assert SeparatorsFrom(s, 5, isWord);
    assert SeparatorsFrom(s, 3, isWord);
    assert AndWordAt(s, 0, isWord);
  }

  /** msg.py:102: `and` inside a longer word does not split. A word of ASCII
      letters and digits is a single message unless it is the word `and`
      itself. */
  lemma EmbeddedAndDoesNotSplit(w: string, isWord: WordClass)
    requires PythonWordClass(isWord)
    requires w != [] && AllChars(w, IsAsciiAlnum)
    requires !(|w| == 3 && FoldsTo(w[0], 'a') && FoldsTo(w[1], 'n') && FoldsTo(w[2], 'd'))
    ensures SplitBlock(w, isWord) == [w]
  {
    assert AllChars(w, c => c !in AmpersandLike);
    NormalizeOfPlain(w);
    forall p | 0 <= p <= |w| ensures !MatchAt(w, p, isWord) {
      AlnumNoMatch(w, p, isWord);
    }
    FindMatchLeftmost(w, 0, isWord);
    NoSeparatorSingleMessage(w, isWord);
    assert !AllSpace(w) by { assert !IsSpace(w[0]); }
    StripOfStripped(w);
  }

  /** In a word of ASCII letters and digits, `\band\b` can only match the whole
      word. */
  lemma AlnumNoMatch(w: string, p: nat, isWord: WordClass)
    requires PythonWordClass(isWord)
    requires AllChars(w, IsAsciiAlnum) && p <= |w|
    requires !(|w| == 3 && FoldsTo(w[0], 'a') && FoldsTo(w[1], 'n') && FoldsTo(w[2], 'd'))
    ensures !MatchAt(w, p, isWord)
  {
    if p < |w| {
      assert !IsSpace(w[p]);
      assert SpaceRunEnd(w, p) == p;
    }
  }
}
