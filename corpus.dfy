/** The message corpus: `sanitize_input` (msg.py:26-33) and `parse_messages`
    (msg.py:35-104). A `.txt` argument naming an existing file is read as JSON
    lines first and, failing that, as one block; any other argument is itself
    the block. The file system is a map from paths to file contents and
    `json.loads` is the parameter `decode`, which gives `None` for a line that
    does not decode to a string (a decoding error or a non-string value). */
module Corpus {
  import opened Text
  import opened Wrappers
  import opened BlockSplit

  /** The `--names` argument as argparse delivers it: the words of
      `nargs='+'`, or a single string. */
  datatype RawArg = Words(words: seq<string>) | Plain(text: string)

  /** What a path names: a file whose text (after Python's newline translation)
      can be read, or something `open` or the UTF-8 decoder rejects. */
  datatype FileEntry = Readable(content: string) | Unreadable

  /** The `ValueError` of msg.py:77-78. */
  datatype ParseError = ReadFailed(path: string)

  /** `sanitize_input`: words are joined back with single spaces. */
  function SanitizeInput(raw: RawArg): (r: string)
    ensures raw.Plain? ==> r == raw.text
    ensures raw.Words? && |raw.words| == 1 ==> r == raw.words[0]
  {
    match raw
    case Words(ws) => JoinWith(ws, ' ')
    case Plain(s) => s
  }

  /** Splitting a string at its spaces, as a shell does with an unquoted
      argument, and sanitising the words gives the string back. */
  lemma SanitizeUndoesSplit(s: string)
    ensures SanitizeInput(Words(SplitOn(s, ' '))) == s
  {
    JoinSplit(s, ' ');
  }

  /** Words without spaces come back out of the sanitised string. */
  lemma SanitizeKeepsWords(ws: seq<string>)
    requires |ws| >= 1 && forall k :: 0 <= k < |ws| ==> ' ' !in ws[k]
    ensures SplitOn(SanitizeInput(Words(ws)), ' ') == ws
  {
    SplitJoin(ws, ' ');
  }

  // ---------------------------------------------------------------------------
  // Reading a file line by line.

  /** The lines of a text, each with its `\n`; the last one lacks it when the
      text does not end in a newline. */
  function LinesOf(pieces: seq<string>): seq<string>
    requires |pieces| >= 1
  {
    if |pieces| == 1 then (if pieces[0] == [] then [] else [pieces[0]])
    else [pieces[0] + "\n"] + LinesOf(pieces[1..])
  }

  lemma {:induction false} LinesOfConcat(pieces: seq<string>)
    requires |pieces| >= 1
    ensures Concat(LinesOf(pieces)) == JoinWith(pieces, '\n')
  {
    if |pieces| > 1 {
      LinesOfConcat(pieces[1..]);
      var rest := LinesOf(pieces[1..]);
      assert LinesOf(pieces) == [pieces[0] + "\n"] + rest;
      assert Concat(LinesOf(pieces)) == pieces[0] + "\n" + Concat(rest);
    }
  }

  lemma {:induction false} LinesOfShape(pieces: seq<string>)
    requires |pieces| >= 1 && forall k :: 0 <= k < |pieces| ==> '\n' !in pieces[k]
    ensures forall k :: 0 <= k < |LinesOf(pieces)| ==> IsLine(LinesOf(pieces)[k])
    ensures forall k :: 0 <= k < |LinesOf(pieces)| - 1 ==> EndsWith(LinesOf(pieces)[k], "\n")
  {
    if |pieces| > 1 {
      LinesOfShape(pieces[1..]);
      var line := pieces[0] + "\n";
      assert line[..|line| - 1] == pieces[0];
      assert IsLine(line);
      assert EndsWith(line, "\n");
    }
  }

  /** A line as the file iterator yields it: non-empty, with a newline at most
      as its last character. */
  predicate IsLine(line: string) {
    line != [] && '\n' !in line[..|line| - 1]
  }

  /** Iterating over a file opened in text mode: the lines together make up
      the text, each is non-empty, holds no newline before its end, and all but
      the last end in a newline. */
  function FileLines(content: string): (lines: seq<string>)
    ensures Concat(lines) == content
    ensures forall k :: 0 <= k < |lines| ==> IsLine(lines[k])
    ensures forall k :: 0 <= k < |lines| - 1 ==> EndsWith(lines[k], "\n")
  {
    var pieces := SplitOn(content, '\n');
    LinesOfConcat(pieces);
    JoinSplit(content, '\n');
    LinesOfShape(pieces);
    LinesOf(pieces)
  }

  /** Python's `s.rstrip('\n')`. */
  function RStripNewlines(s: string): (r: string)
    ensures |r| <= |s| && r == s[..|r|]
    ensures forall k :: |r| <= k < |s| ==> s[k] == '\n'
    ensures r == [] || r[|r| - 1] != '\n'
  {
    if s != [] && s[|s| - 1] == '\n' then RStripNewlines(s[..|s| - 1]) else s
  }

  /** A line the JSON path decodes: not blank, and without a final newline. */
  predicate DecodableLine(ln: string) {
    !AllSpace(ln) && ln[|ln| - 1] != '\n'
  }

  /** `[ln.rstrip('\n') for ln in f if ln.strip()]` (msg.py:55). */
  function CandidateLines(lines: seq<string>): (r: seq<string>)
    ensures |r| <= |lines|
    ensures forall k :: 0 <= k < |r| ==> DecodableLine(r[k])
  {
    if lines == [] then []
    else if Strip(lines[0]) == [] then CandidateLines(lines[1..])
    else
      NonBlankRStrip(lines[0]);
      [RStripNewlines(lines[0])] + CandidateLines(lines[1..])
  }

  /** Removing final newlines from a non-blank line leaves it non-blank. */
  lemma NonBlankRStrip(line: string)
    requires !AllSpace(line)
    ensures DecodableLine(RStripNewlines(line))
  {
    var j :| 0 <= j < |line| && !IsSpace(line[j]);
    var r := RStripNewlines(line);
    assert j < |r|;
    assert r[j] == line[j];
  }

  /** The text's newline-free pieces that are not blank. */
  function NonBlank(pieces: seq<string>): seq<string> {
    if pieces == [] then []
    else if AllSpace(pieces[0]) then NonBlank(pieces[1..])
    else [pieces[0]] + NonBlank(pieces[1..])
  }

  /** A line and its newline-free body are blank together. */
  lemma BlankLine(p: string)
    ensures AllSpace(p + "\n") <==> AllSpace(p)
  {
    assert IsSpace('\n');
    if AllSpace(p) {
      forall k | 0 <= k < |p + "\n"| ensures IsSpace((p + "\n")[k]) {
        if k < |p| {
          assert (p + "\n")[k] == p[k];
        }
      }
    }
    if AllSpace(p + "\n") {
      forall k | 0 <= k < |p| ensures IsSpace(p[k]) {
        assert (p + "\n")[k] == p[k];
      }
    }
  }

  lemma RStripOfLine(p: string)
    requires '\n' !in p
    ensures RStripNewlines(p + "\n") == p
    ensures RStripNewlines(p) == p
  {
    assert (p + "\n")[..|p|] == p;
    if p != [] {
      assert p[|p| - 1] in p;
    }
  }

  lemma {:induction false} CandidatesOfPieces(pieces: seq<string>)
    requires |pieces| >= 1 && forall k :: 0 <= k < |pieces| ==> '\n' !in pieces[k]
    ensures CandidateLines(LinesOf(pieces)) == NonBlank(pieces)
  {
    var p := pieces[0];
    RStripOfLine(p);
    if |pieces| == 1 {
      if p == [] {
        assert AllSpace(p);
      } else {
        assert LinesOf(pieces) == [p];
        assert CandidateLines([p]) == if Strip(p) == [] then [] else [RStripNewlines(p)];
      }
    } else {
      CandidatesOfPieces(pieces[1..]);
      BlankLine(p);
      assert LinesOf(pieces)[1..] == LinesOf(pieces[1..]);
    }
  }

  /** The lines the JSON-lines path decodes are exactly the text's non-blank
      newline-free pieces, in order: the line structure is undone completely. */
  lemma CandidateLinesSpec(content: string)
    ensures CandidateLines(FileLines(content)) == NonBlank(SplitOn(content, '\n'))
  {
    CandidatesOfPieces(SplitOn(content, '\n'));
  }

  // ---------------------------------------------------------------------------
  // Decoding, and the file and argument cases.

  /** Decoding every line: the decoded strings in order, or `None` when some
      line does not decode to a string. */
  function DecodeAll(lines: seq<string>, decode: string -> Option<string>): (r: Option<seq<string>>)
    ensures r.Some? ==> |r.value| == |lines| && forall k :: 0 <= k < |lines| ==> decode(lines[k]) == Some(r.value[k])
    ensures r.None? ==> exists k :: 0 <= k < |lines| && decode(lines[k]).None?
  {
    if lines == [] then Some([])
    else match decode(lines[0])
      case None => None
      case Some(m) =>
        match DecodeAll(lines[1..], decode)
        case None => None
        case Some(ms) => Some([m] + ms)
  }

  lemma {:induction false} DecodeAllSnoc(lines: seq<string>, line: string, ms: seq<string>, m: string, decode: string -> Option<string>)
    requires DecodeAll(lines, decode) == Some(ms) && decode(line) == Some(m)
    ensures DecodeAll(lines + [line], decode) == Some(ms + [m])
  {
    if lines == [] {
      assert ms == [];
      var single := lines + [line];
      assert single[0] == line && single[1..] == [];
      assert DecodeAll(single[1..], decode) == Some([]);
      assert ms + [m] == [m] + [];
    } else {
      assert (lines + [line])[0] == lines[0];
      assert (lines + [line])[1..] == lines[1..] + [line];
      var rest := DecodeAll(lines[1..], decode).value;
      DecodeAllSnoc(lines[1..], line, rest, m, decode);
      assert ms == [ms[0]] + rest;
      assert [ms[0]] + (rest + [m]) == ms + [m];
    }
  }

  /** A readable `.txt` file (msg.py:50-78): the decoded lines when every
      non-blank line decodes to a string and there is at least one, otherwise
      the block form of the whole text. */
  function ParseFile(content: string, decode: string -> Option<string>, isWord: WordClass): (msgs: seq<string>)
    ensures var lines := CandidateLines(FileLines(content));
      lines != [] && (forall k :: 0 <= k < |lines| ==> decode(lines[k]).Some?) ==>
        |msgs| == |lines| && forall k :: 0 <= k < |lines| ==> decode(lines[k]) == Some(msgs[k])
    ensures var lines := CandidateLines(FileLines(content));
      lines == [] || (exists k :: 0 <= k < |lines| && decode(lines[k]).None?) ==>
        msgs == SplitBlock(content, isWord)
  {
    match DecodeAll(CandidateLines(FileLines(content)), decode)
    case Some(ms) => if ms != [] then ms else SplitBlock(content, isWord)
    case None => SplitBlock(content, isWord)
  }

  predicate IsTextFile(arg: string, files: map<string, FileEntry>) {
    EndsWith(arg, ".txt") && arg in files
  }

  /** The decoding loop of msg.py:56-61: stops at the first line that does not
      decode to a string. */
  method DecodeLines(lines: seq<string>, decode: string -> Option<string>)
      returns (decoded: bool, msgs: seq<string>)
    ensures decoded <==> forall k :: 0 <= k < |lines| ==> decode(lines[k]).Some?
    ensures decoded ==> |msgs| == |lines| && forall k :: 0 <= k < |lines| ==> decode(lines[k]) == Some(msgs[k])
    ensures decoded ==> DecodeAll(lines, decode) == Some(msgs)
    ensures !decoded ==> DecodeAll(lines, decode).None?
  {
    msgs := [];
    decoded := true;
    var i := 0;
    while i < |lines| && decoded
      invariant 0 <= i <= |lines|
      invariant decoded ==> DecodeAll(lines[..i], decode) == Some(msgs)
      invariant !decoded ==> DecodeAll(lines, decode).None?
      decreases |lines| - i, decoded
    {
      var m := decode(lines[i]);
      if m.Some? {
        DecodeAllSnoc(lines[..i], lines[i], msgs, m.value, decode);
        assert lines[..i + 1] == lines[..i] + [lines[i]];
        msgs := msgs + [m.value];
        i := i + 1;
      } else {
        decoded := false;
      }
    }
    if decoded {
      assert lines[..i] == lines;
    }
  }

  /** The copy loop of msg.py:62-69, which keeps every message as it is. */
  method CopyMessages(msgs: seq<string>) returns (out: seq<string>)
    ensures out == msgs
  {
    out := [];
    var j := 0;
    while j < |msgs|
      invariant 0 <= j <= |msgs|
      invariant out == msgs[..j]
    {
      out := out + [msgs[j]];
      j := j + 1;
    }
    assert msgs[..j] == msgs;
  }

  /** `parse_messages`. */
  method ParseMessages(raw: RawArg, files: map<string, FileEntry>, decode: string -> Option<string>, isWord: WordClass)
      returns (r: Result<seq<string>, ParseError>)
    ensures var arg := SanitizeInput(raw);
      !IsTextFile(arg, files) ==> r == Ok(SplitBlock(arg, isWord))
    ensures var arg := SanitizeInput(raw);
      IsTextFile(arg, files) && files[arg].Unreadable? ==> r == Err(ReadFailed(arg))
    ensures var arg := SanitizeInput(raw);
      IsTextFile(arg, files) && files[arg].Readable? ==> r == Ok(ParseFile(files[arg].content, decode, isWord))
  {
    var arg := SanitizeInput(raw);
    if !IsTextFile(arg, files) {
      return Ok(SplitBlock(arg, isWord));
    }
    var entry := files[arg];
    if entry.Unreadable? {
      // Both the JSON-lines attempt and the block fallback fail to open it.
      return Err(ReadFailed(arg));
    }
    var content := entry.content;
    var decoded, msgs := DecodeLines(CandidateLines(FileLines(content)), decode);
    if decoded && msgs != [] {
      var out := CopyMessages(msgs);
      return Ok(out);
    }
    return Ok(SplitBlock(content, isWord));
  }

  // ---------------------------------------------------------------------------
  // Properties of the file case.

  /** A file of JSON lines, one encoded message per line with or without a
      final newline, gives back exactly the messages, in order, unsplit
      (msg.py:50-69), provided each line decodes to its message and none is
      blank or holds a raw newline. */
  lemma JsonLinesRoundTrip(ls: seq<string>, ms: seq<string>, finalNewline: bool, decode: string -> Option<string>, isWord: WordClass)
    requires |ls| >= 1 && |ls| == |ms|
    requires forall k :: 0 <= k < |ls| ==> '\n' !in ls[k] && !AllSpace(ls[k]) && decode(ls[k]) == Some(ms[k])
    ensures ParseFile(JoinWith(ls, '\n') + (if finalNewline then "\n" else ""), decode, isWord) == ms
  {
    JsonLinesText(ls, finalNewline);
    DecodeAllOf(ls, ms, decode);
    ParseFileOfLines(JoinWith(ls, '\n') + (if finalNewline then "\n" else ""), ls, ms, decode, isWord);
  }

  /** Lines that all decode give their decoded strings. */
  lemma {:induction false} DecodeAllOf(ls: seq<string>, ms: seq<string>, decode: string -> Option<string>)
    requires |ls| == |ms| && forall k :: 0 <= k < |ls| ==> decode(ls[k]) == Some(ms[k])
    ensures DecodeAll(ls, decode) == Some(ms)
  {
    if ls != [] {
      DecodeAllOf(ls[1..], ms[1..], decode);
      assert ms == [ms[0]] + ms[1..];
    }
  }

  lemma ParseFileOfLines(content: string, ls: seq<string>, ms: seq<string>, decode: string -> Option<string>, isWord: WordClass)
    requires CandidateLines(FileLines(content)) == ls && DecodeAll(ls, decode) == Some(ms) && ms != []
    ensures ParseFile(content, decode, isWord) == ms
  {
  }

  /** The non-blank lines of such a file are the encoded messages themselves. */
  lemma JsonLinesText(ls: seq<string>, finalNewline: bool)
    requires |ls| >= 1
    requires forall k :: 0 <= k < |ls| ==> '\n' !in ls[k] && !AllSpace(ls[k])
    ensures CandidateLines(FileLines(JoinWith(ls, '\n') + (if finalNewline then "\n" else ""))) == ls
  {
    var content := JoinWith(ls, '\n') + (if finalNewline then "\n" else "");
    var pieces := if finalNewline then ls + [""] else ls;
    JsonLinesPieces(ls, finalNewline);
    CandidateLinesSpec(content);
    NonBlankOfClean(ls);
    if finalNewline {
      NonBlankSnocBlank(ls);
    }
  }

  lemma JsonLinesPieces(ls: seq<string>, finalNewline: bool)
    requires |ls| >= 1 && forall k :: 0 <= k < |ls| ==> '\n' !in ls[k]
    ensures SplitOn(JoinWith(ls, '\n') + (if finalNewline then "\n" else ""), '\n') ==
      if finalNewline then ls + [""] else ls
  {
    if finalNewline {
      JoinWithSnocEmpty(ls);
      SplitJoin(ls + [""], '\n');
    } else {
      assert JoinWith(ls, '\n') + "" == JoinWith(ls, '\n');
      SplitJoin(ls, '\n');
    }
  }

  lemma {:induction false} JoinWithSnocEmpty(ls: seq<string>)
    requires |ls| >= 1
    ensures JoinWith(ls + [""], '\n') == JoinWith(ls, '\n') + "\n"
  {
    if |ls| > 1 {
      JoinWithSnocEmpty(ls[1..]);
      assert (ls + [""])[1..] == ls[1..] + [""];
    } else {
      assert (ls + [""])[1..] == [""];
    }
  }

  lemma {:induction false} NonBlankOfClean(ls: seq<string>)
    requires forall k :: 0 <= k < |ls| ==> !AllSpace(ls[k])
    ensures NonBlank(ls) == ls
  {
    if ls != [] {
      NonBlankOfClean(ls[1..]);
    }
  }

  lemma {:induction false} NonBlankSnocBlank(ls: seq<string>)
    ensures NonBlank(ls + [""]) == NonBlank(ls)
  {
    if ls == [] {
      assert AllSpace("");
    } else {
      NonBlankSnocBlank(ls[1..]);
      assert (ls + [""])[1..] == ls[1..] + [""];
    }
  }

  /** A line that does not decode sends the whole file to the block form
      (msg.py:70-78). */
  lemma UndecodableLineFallsBack(content: string, k: nat, decode: string -> Option<string>, isWord: WordClass)
    requires k < |CandidateLines(FileLines(content))|
    requires decode(CandidateLines(FileLines(content))[k]).None?
    ensures ParseFile(content, decode, isWord) == SplitBlock(content, isWord)
  {
  }

  /** A blank file yields no messages rather than an error (msg.py:50-104); the
      caller then stops (msg.py:522-524). */
  lemma BlankFileGivesNothing(content: string, decode: string -> Option<string>, isWord: WordClass)
    requires AllSpace(content)
    ensures ParseFile(content, decode, isWord) == []
  {
    CandidateLinesSpec(content);
    AllSpaceSplit(content);
    NonBlankOfBlank(SplitOn(content, '\n'));
    BlankGivesNothing(content, isWord);
  }

  lemma {:induction false} AllSpaceSplit(s: string)
    requires AllSpace(s)
    ensures forall k :: 0 <= k < |SplitOn(s, '\n')| ==> AllSpace(SplitOn(s, '\n')[k])
  {
    if s != [] {
      AllSpaceSplit(s[1..]);
      var rest := SplitOn(s[1..], '\n');
      if s[0] != '\n' {
        var first := [s[0]] + rest[0];
        assert forall j :: 0 <= j < |first| ==> IsSpace(first[j]) by {
          forall j | 0 <= j < |first| ensures IsSpace(first[j]) {
            if j > 0 {
              assert first[j] == rest[0][j - 1];
            }
          }
        }
        assert SplitOn(s, '\n') == [first] + rest[1..];
      } else {
        assert SplitOn(s, '\n') == [[]] + rest;
      }
    }
  }

  lemma {:induction false} NonBlankOfBlank(ps: seq<string>)
    requires forall k :: 0 <= k < |ps| ==> AllSpace(ps[k])
    ensures NonBlank(ps) == []
  {
    if ps != [] {
      NonBlankOfBlank(ps[1..]);
    }
  }
}
