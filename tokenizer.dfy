/**
 * The line tokenizer shared (character for character) by the netlist and the
 * clause compilers. Input is read one character at a time; each completed
 * line is either skipped (exactly one character long, or starting with the
 * comment character) or split at C `isspace` characters into words followed
 * by one newline token. A last line without '\n' is never completed.
 */
module Tokenizer {
  const NewlineToken: string := "\n"

  /** C `isspace` in the "C" locale. */
  predicate IsSpace(c: char)
  {
    c == ' ' || c == '\t' || c == '\n' || c == '\r' || c == '\U{0B}' || c == '\U{0C}'
  }

  predicate IsWord(w: string)
  {
    w != "" && forall k :: 0 <= k < |w| ==> !IsSpace(w[k])
  }

  /**
   * Splitting state after reading a prefix of a line: the words finished so
   * far and the word being built.
   */
  function WordScan(s: string): (r: (seq<string>, string))
  {
    if s == [] then ([], "")
    else
      var (words, word) := WordScan(s[..|s| - 1]);
      var c := s[|s| - 1];
      if IsSpace(c) then (if word != "" then (words + [word], "") else (words, ""))
      else (words, word + [c])
  }

  /** The whitespace-separated words of a line. */
  function Words(line: string): seq<string>
  {
    var (words, word) := WordScan(line);
    if word != "" then words + [word] else words
  }

  /** The tokens one completed line (without its '\n') contributes. */
  function LineTokens(line: string, comment: char): seq<string>
  {
    if |line| == 1 || (|line| > 0 && line[0] == comment) then []
    else Words(line) + [NewlineToken]
  }

  /** Tokenizer state after reading a prefix of the file: tokens and the pending line. */
  function Scan(text: string, comment: char): (seq<string>, string)
  {
    if text == [] then ([], "")
    else
      var (tokens, line) := Scan(text[..|text| - 1], comment);
      var c := text[|text| - 1];
      if c != '\n' then (tokens, line + [c])
      else (tokens + LineTokens(line, comment), "")
  }

  function Tokens(text: string, comment: char): seq<string>
  {
    Scan(text, comment).0
  }

  /** Concatenation of the lines, each terminated by '\n'. */
  function JoinLines(lines: seq<string>): string
  {
    if lines == [] then "" else JoinLines(lines[..|lines| - 1]) + lines[|lines| - 1] + "\n"
  }

  function FlattenTokens(lines: seq<string>, comment: char): seq<string>
  {
    if lines == [] then []
    else FlattenTokens(lines[..|lines| - 1], comment) + LineTokens(lines[|lines| - 1], comment)
  }

  predicate NoNewline(s: string)
  {
    forall k :: 0 <= k < |s| ==> s[k] != '\n'
  }

  /** Characters of a string that are not white space, in order. */
  function NonSpace(s: string): string
  {
    if s == [] then ""
    else NonSpace(s[..|s| - 1]) + (if IsSpace(s[|s| - 1]) then "" else [s[|s| - 1]])
  }

  function Concat(ws: seq<string>): string
  {
    if ws == [] then "" else Concat(ws[..|ws| - 1]) + ws[|ws| - 1]
  }

  lemma ConcatAppend(ws: seq<string>, w: string)
    ensures Concat(ws + [w]) == Concat(ws) + w
  {
    assert (ws + [w])[..|ws|] == ws;
  }

  /** The word being built never holds white space, and every finished word is a word. */
  lemma {:induction false} WordScanShape(s: string)
    ensures var (words, word) := WordScan(s);
      (forall k :: 0 <= k < |words| ==> IsWord(words[k]))
      && (forall k :: 0 <= k < |word| ==> !IsSpace(word[k]))
      && Concat(words) + word == NonSpace(s)
  {
    if s != [] {
      var s' := s[..|s| - 1];
      WordScanShape(s');
      var (words, word) := WordScan(s');
      if IsSpace(s[|s| - 1]) && word != "" {
        ConcatAppend(words, word);
      }
    }
  }

  /**
   * Words are non-empty, hold no white space, and together spell exactly the
   * non-space characters of the line.
   */
  lemma {:induction false} WordsShape(line: string)
    ensures forall k :: 0 <= k < |Words(line)| ==> IsWord(Words(line)[k])
    ensures Concat(Words(line)) == NonSpace(line)
  {
    WordScanShape(line);
    var r := WordScan(line);
    if r.1 != "" {
      ConcatAppend(r.0, r.1);
      assert Words(line) == r.0 + [r.1];
    } else {
      assert Words(line) == r.0;
    }
  }

  /**
   * A skipped line (length one, or starting with the comment character) gives
   * nothing; any other line gives its words and then exactly one newline token.
   */
  lemma LineTokensShape(line: string, comment: char)
    ensures |line| == 1 || (|line| > 0 && line[0] == comment) ==> LineTokens(line, comment) == []
    ensures !(|line| == 1 || (|line| > 0 && line[0] == comment)) ==>
      var t := LineTokens(line, comment);
      |t| >= 1 && t[|t| - 1] == NewlineToken
      && (forall k :: 0 <= k < |t| - 1 ==> IsWord(t[k]))
      && Concat(t[..|t| - 1]) == NonSpace(line)
  {
    WordsShape(line);
    if !(|line| == 1 || (|line| > 0 && line[0] == comment)) {
      var t := LineTokens(line, comment);
      assert t[..|t| - 1] == Words(line);
    }
  }

  /** Characters without '\n' only extend the pending line. */
  lemma {:induction false} ScanExtend(text: string, more: string, comment: char)
    requires NoNewline(more)
    ensures Scan(text + more, comment) == (Scan(text, comment).0, Scan(text, comment).1 + more)
  {
    if more != [] {
      var m' := more[..|more| - 1];
      var t := text + more;
      assert t[..|t| - 1] == text + m';
      assert t[|t| - 1] == more[|more| - 1] != '\n';
      ScanExtend(text, m', comment);
      assert m' + [more[|more| - 1]] == more;
      var pending := Scan(text, comment).1;
      assert (pending + m') + [more[|more| - 1]] == pending + more;
      assert Scan(t, comment) == (Scan(text + m', comment).0, Scan(text + m', comment).1 + [more[|more| - 1]]);
    } else {
      assert text + more == text;
      assert Scan(text, comment).1 + more == Scan(text, comment).1;
    }
  }

  /**
   * A file made of '\n'-terminated lines, optionally followed by an
   * unterminated tail, yields the tokens of its lines in order; the tail is
   * dropped.
   */
  lemma {:induction false} TokensOfLines(lines: seq<string>, tail: string, comment: char)
    requires forall k :: 0 <= k < |lines| ==> NoNewline(lines[k])
    requires NoNewline(tail)
    ensures Scan(JoinLines(lines), comment) == (FlattenTokens(lines, comment), "")
    ensures Tokens(JoinLines(lines) + tail, comment) == FlattenTokens(lines, comment)
  {
    if lines != [] {
      var init := lines[..|lines| - 1];
      var last := lines[|lines| - 1];
      TokensOfLines(init, "", comment);
      ScanExtend(JoinLines(init), last, comment);
      var t := JoinLines(init) + last + "\n";
      assert JoinLines(lines) == t;
      assert Scan(JoinLines(init) + last, comment) == (FlattenTokens(init, comment), last) by {
        assert "" + last == last;
      }
      assert t[..|t| - 1] == JoinLines(init) + last;
      assert t[|t| - 1] == '\n';
      assert Scan(t, comment) == (FlattenTokens(init, comment) + LineTokens(last, comment), "");
    }
    ScanExtend(JoinLines(lines), tail, comment);
  }

  /** Splits one completed line, the '\n' appended, as the inner character loop does. */
  method SplitLine(line: string) returns (tokens: seq<string>)
    requires NoNewline(line)
    ensures tokens == Words(line) + [NewlineToken]
  {
    tokens := [];
    var word := "";
    var i := 0;
    while i < |line|
      invariant 0 <= i <= |line|
      invariant (tokens, word) == WordScan(line[..i])
    {
      var c := line[i];
      assert line[..i + 1][..i] == line[..i];
      if IsSpace(c) {
        if word != "" {
          tokens := tokens + [word];
          word := "";
        }
      } else {
        word := word + [c];
      }
      i := i + 1;
    }
    assert line[..i] == line;
    // the appended '\n' is white space: flush the word, emit the newline token
    if word != "" {
      tokens := tokens + [word];
    }
    tokens := tokens + [NewlineToken];
  }

  /**
   * Tokenizes a whole file; `comment` is '#' for the netlist format and 'c'
   * for the clause format.
   */
  method Tokenize(text: string, comment: char) returns (tokens: seq<string>)
    ensures tokens == Tokens(text, comment)
  {
    tokens := [];
    var line := "";
    var i := 0;
    while i < |text|
      invariant 0 <= i <= |text|
      invariant (tokens, line) == Scan(text[..i], comment)
      invariant NoNewline(line)
    {
      var c := text[i];
      assert text[..i + 1][..i] == text[..i];
      if c != '\n' {
        line := line + [c];
      } else {
        assert Scan(text[..i + 1], comment) == (tokens + LineTokens(line, comment), "");
        if !(|line| == 1 || (|line| > 0 && line[0] == comment)) {
          var lineTokens := SplitLine(line);
          tokens := tokens + lineTokens;
        } else {
          assert tokens + LineTokens(line, comment) == tokens;
        }
        line := "";
      }
      i := i + 1;
    }
    assert text[..i] == text;
  }
}
