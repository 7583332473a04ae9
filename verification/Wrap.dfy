/** Word wrapping and the full-width rows of the streaming table. Widths count characters. */
module Wrap {
  import opened Sequences
  import opened Strings

  /** The characters that are no white space, in order. */
  function Ink(s: string): string {
    if s == "" then ""
    else if IsSpace(s[0]) then Ink(s[1..])
    else [s[0]] + Ink(s[1..])
  }

  lemma {:induction false} InkAppends(a: string, b: string)
    ensures Ink(a + b) == Ink(a) + Ink(b)
  {
    hide IsSpace;
    if a == "" {
      assert a + b == b;
    } else {
      InkAppends(a[1..], b);
      assert (a + b)[1..] == a[1..] + b && (a + b)[0] == a[0];
    }
  }

  predicate IsWord(w: string) {
    w != "" && forall i :: 0 <= i < |w| ==> !IsSpace(w[i])
  }

  lemma {:induction false} InkOfAWord(w: string)
    requires forall i :: 0 <= i < |w| ==> !IsSpace(w[i])
    ensures Ink(w) == w
  {
    if w != "" {
      InkOfAWord(w[1..]);
    }
  }

  function InkRun(s: string): (n: nat)
    ensures n <= |s| && (forall i :: 0 <= i < n ==> !IsSpace(s[i])) && (n < |s| ==> IsSpace(s[n]))
  {
    if s == "" || IsSpace(s[0]) then 0 else 1 + InkRun(s[1..])
  }

  /** `split_whitespace`. */
  function Words(s: string): (words: seq<string>)
    ensures forall k :: 0 <= k < |words| ==> IsWord(words[k])
    decreases |s|
  {
    if s == "" then []
    else if IsSpace(s[0]) then Words(s[1..])
    else
      var n := InkRun(s);
      [s[..n]] + Words(s[n..])
  }

  lemma {:induction false} WordsAreTheInk(s: string)
    ensures Flatten(Words(s)) == Ink(s)
    decreases |s|
  {
    if s != "" {
      if IsSpace(s[0]) {
        WordsAreTheInk(s[1..]);
      } else {
        var n := InkRun(s);
        WordsAreTheInk(s[n..]);
        InkOfAWord(s[..n]);
        InkAppends(s[..n], s[n..]);
        assert s[..n] + s[n..] == s;
      }
    }
  }

  lemma InkRunIs(s: string, n: nat)
    requires n <= |s| && (forall i :: 0 <= i < n ==> !IsSpace(s[i])) && (n < |s| ==> IsSpace(s[n]))
    ensures InkRun(s) == n
  {
  }

  lemma WordsOfAWord(w: string)
    requires IsWord(w)
    ensures Words(w) == [w]
  {
    InkRunIs(w, |w|);
    assert w[..|w|] == w;
  }

  lemma WordInFront(word: string, rest: string)
    requires IsWord(word) && (rest == "" || IsSpace(rest[0]))
    ensures Words(word + rest) == [word] + Words(rest)
  {
    var s, n := word + rest, |word|;
    assert s[..n] == word && s[n..] == rest && (n < |s| ==> s[n] == rest[0]);
    InkRunIs(s, n);
  }

  lemma SpaceInFront(c: char, rest: string)
    requires IsSpace(c)
    ensures Words([c] + rest) == Words(rest)
  {
    assert ([c] + rest)[1..] == rest;
  }

  lemma SpaceStep(c: char, rest: string, w: string)
    requires IsSpace(c) && Words(rest + " " + w) == Words(rest) + [w]
    ensures Words([c] + rest + " " + w) == Words([c] + rest) + [w]
  {
    SpaceInFront(c, rest);
    SpaceInFront(c, rest + " " + w);
    hide *;
    Regroup([c], rest, " ", w);
  }

  lemma WordStep(word: string, rest: string, w: string)
    requires IsWord(word) && (rest == "" || IsSpace(rest[0]))
    requires Words(rest + " " + w) == Words(rest) + [w]
    ensures Words(word + rest + " " + w) == Words(word + rest) + [w]
  {
    var later := rest + " " + w;
    WordInFront(word, rest);
    assert later[0] == if rest == "" then ' ' else rest[0];
    assert IsSpace(' ');
    WordInFront(word, later);
    hide *;
    Regroup(word, rest, " ", w);
    Regroup([word], Words(rest), [w], []);
  }

  lemma Regroup<T>(a: seq<T>, b: seq<T>, c: seq<T>, d: seq<T>)
    ensures a + (b + c + d) == a + b + c + d
    ensures d == [] ==> a + (b + c) == a + b + c
  {
  }

  lemma {:induction false} WordsAfterASpace(a: string, w: string)
    requires IsWord(w)
    ensures Words(a + " " + w) == Words(a) + [w]
    decreases |a|
  {
    if a == "" {
      assert "" + " " + w == [' '] + w;
      SpaceInFront(' ', w);
      WordsOfAWord(w);
    } else {
      var inked := !IsSpace(a[0]);
      var n := if inked then InkRun(a) else 1;
      var front, rest := a[..n], a[n..];
      assert a == front + rest;
      WordsAfterASpace(rest, w);
      assert inked ==> IsWord(front) && (rest == "" || IsSpace(rest[0]));
      assert !inked ==> front == [a[0]] && IsSpace(a[0]);
      hide *;
      if inked {
        WordStep(front, rest, w);
      } else {
        SpaceStep(a[0], rest, w);
      }
    }
  }

  function Indent(width: nat): string {
    if width > 4 then "  " else ""
  }

  predicate Fit(lines: seq<string>, width: nat) {
    forall i :: 0 <= i < |lines| ==> |lines[i]| <= width
  }

  /** Every word is short enough to stand on a continuation line. */
  predicate WordsFit(words: seq<string>, width: nat) {
    forall k :: 0 <= k < |words| ==> |Indent(width)| + |words[k]| <= width
  }

  /** The words of all lines together. */
  function LineWords(lines: seq<string>): seq<string> {
    if lines == [] then [] else LineWords(lines[..|lines| - 1]) + Words(lines[|lines| - 1])
  }

  /** The ink of the finished lines and of the one being filled. */
  function Inked(lines: seq<string>, line: string): string {
    Ink(Flatten(lines) + line)
  }

  /** The words of the finished lines and of the one being filled. */
  function Worded(lines: seq<string>, line: string): seq<string> {
    LineWords(lines) + Words(line)
  }

  lemma FinishLine(lines: seq<string>, line: string)
    ensures Inked(lines + [line], "") == Inked(lines, line)
    ensures Worded(lines + [line], "") == Worded(lines, line)
  {
    FlattenSnoc(lines, line);
    assert (Flatten(lines) + line) + "" == Flatten(lines) + line;
    assert (lines + [line])[..|lines|] == lines;
  }

  lemma AddBlanks(lines: seq<string>, line: string, blanks: string)
    requires blanks == "" || blanks == " " || blanks == "  "
    ensures Inked(lines, line + blanks) == Inked(lines, line)
  {
    InkAppends(Flatten(lines) + line, blanks);
    assert Flatten(lines) + (line + blanks) == (Flatten(lines) + line) + blanks;
    assert " "[1..] == "" && Ink(" ") == "";
    if blanks == "  " {
      assert blanks[1..] == " ";
    }
  }

  lemma AddCharacter(lines: seq<string>, line: string, c: char)
    requires !IsSpace(c)
    ensures Inked(lines, line + [c]) == Inked(lines, line) + [c]
  {
    InkAppends(Flatten(lines) + line, [c]);
    assert Flatten(lines) + (line + [c]) == (Flatten(lines) + line) + [c];
    assert Ink([c]) == [c];
  }

  function FirstWord(line: string): string {
    if Words(line) == [] then "" else Words(line)[0]
  }

  /** The first word of a line would not have fitted on the line before. */
  ghost predicate Greedy(lines: seq<string>, width: nat) {
    forall i :: 0 <= i < |lines| - 1 ==> |lines[i]| + 1 + |FirstWord(lines[i + 1])| > width
  }

  /** The finished lines and the one being filled. */
  function AndOpen(lines: seq<string>, line: string): seq<string> {
    if line == "" then lines else lines + [line]
  }

  // ----- the wrapped text, word by word

  /** What a continuation line begins with: two blanks, if there is room for more. */
  function Lead(width: nat): (lead: string)
    ensures width > 0 ==> |lead| < width
  {
    seq(if width >= 5 then 2 else 0, _ => ' ')
  }

  /** A word behind `start`, cut wherever a line is full. */
  function Cuts(start: string, word: string, width: nat): (lines: seq<string>)
    requires |start| < width
    ensures lines != []
    decreases |word|
  {
    if |start| + |word| <= width then [start + word]
    else
      var room := width - |start|;
      [start + word[..room]] + Cuts(Lead(width), word[room..], width)
  }

  /** A word goes behind the last line, one blank apart, if it fits there; otherwise onto
      continuation lines. */
  function WrapWords(words: seq<string>, width: nat): (lines: seq<string>)
    requires width > 0
    ensures words != [] ==> lines != []
  {
    if words == [] then []
    else
      var before, word := WrapWords(words[..|words| - 1], width), words[|words| - 1];
      if before == [] then Cuts("", word, width)
      else
        var open := before[|before| - 1];
        if |open| + 1 + |word| <= width then before[..|before| - 1] + [open + " " + word]
        else before + Cuts(Lead(width), word, width)
  }

  lemma IndentIsLead(width: nat)
    ensures Indent(width) == Lead(width)
  {
  }

  /** One more character goes onto the last line, or, if that is full, onto a new one. */
  lemma {:induction false} CutsGrow(start: string, word: string, c: char, width: nat)
    requires |start| < width
    ensures var done := Cuts(start, word, width);
            var last := done[|done| - 1];
            Cuts(start, word + [c], width) ==
            if |last| == width then done + [Lead(width) + [c]] else done[..|done| - 1] + [last + [c]]
    decreases |word|
  {
    hide Lead;
    if |start| + |word| < width {
      assert start + (word + [c]) == start + word + [c];
    } else {
      var room := width - |start|;
      var (longer, rest) := (word + [c], word[room..]);
      assert longer[..room] == word[..room] && longer[room..] == rest + [c];
      if |start| + |word| == width {
        assert word[..room] == word && rest == "" && "" + [c] == [c];
      } else {
        CutsGrow(Lead(width), rest, c, width);
        var done := Cuts(Lead(width), rest, width);
        assert ([start + word[..room]] + done)[..|done|] == [start + word[..room]] + done[..|done| - 1];
      }
    }
  }

  /** The text wrapped as `WrapWords` says. No line is wider than `width`, and, unless the
      width is 0, the lines hold the characters of the text that are no white space, all of
      them and in order. When every word fits on a line, none is cut, and no line is broken
      before it must be. */
  method Wrapped(text: string, width: nat) returns (lines: seq<string>)
    ensures lines == if width == 0 || Words(text) == [] then [""] else WrapWords(Words(text), width)
    ensures lines != [] && Fit(lines, width)
    ensures Ink(Flatten(lines)) == Ink(text) <==> width > 0 || Ink(text) == ""
    ensures width > 0 && WordsFit(Words(text), width) ==> LineWords(lines) == Words(text) && Greedy(lines, width)
  {
    hide *;
    if width == 0 {
      NoWidth();
      return [""];
    }
    var words := Words(text);
    lines := [];
    var line := "";
    NothingYet(width);
    for k := 0 to |words|
      invariant Fit(lines, width) && |line| <= width
      invariant (k == 0 ==> lines == []) && (k > 0 <==> line != "")
      invariant Inked(lines, line) == Flatten(words[..k])
      invariant AndOpen(lines, line) == WrapWords(words[..k], width)
      invariant WordsFit(words, width) ==> Filled(words[..k], lines, line, width)
    {
      FlattenSnoc(words[..k], words[k]);
      ThisWordFits(words, k, width);
      assert words[..k + 1] == words[..k] + [words[k]];
      ghost var before, open := lines, line;
      lines, line := PlaceWord(words[..k], lines, line, words[k], width);
      WrapOneMore(words, k, before, open, lines, line, width);
    }
    assert words[..|words|] == words;
    LastLine(text, words, lines, line, width);
    NothingOpen(lines, line, words, width);
    if line != "" || lines == [] {
      lines := lines + [line];
    }
  }

  /** Where a word goes: behind the open line if it fits there, else on a new one. */
  ghost predicate Started(before: seq<string>, open: string, word: string, lines: seq<string>, line: string, width: nat) {
    if open == "" then lines == before && (line == "" || before != [])
    else if |open| + 1 + |word| <= width then lines == before && line == open + " "
    else lines == before + [open] && line == Indent(width)
  }

  lemma GreedyOn(before: seq<string>, open: string, word: string, lines: seq<string>, started: string, width: nat)
    requires IsWord(word) && Greedy(AndOpen(before, open), width) && (open == "" ==> before == [])
    requires open != "" ==> Words(open) != []
    requires Started(before, open, word, lines, started, width)
    ensures Greedy(lines + [started + word], width) && Words(started + word) != []
  {
    hide Words, IsSpace;
    if open == "" || |open| + 1 + |word| > width {
      FirstOnItsLine(word, width);
      if open == "" {
        WordsOfAWord(word);
        assert started + word == word;
      }
    } else {
      WordsAfterASpace(open, word);
      assert FirstWord(started + word) == FirstWord(open);
      var (was, now) := (before + [open], before + [started + word]);
      forall i | 0 <= i < |now| - 1 ensures |now[i]| + 1 + |FirstWord(now[i + 1])| > width {
        assert now[i] == was[i] && FirstWord(now[i + 1]) == FirstWord(was[i + 1]);
      }
    }
  }

  lemma FirstOnItsLine(word: string, width: nat)
    requires IsWord(word)
    ensures Words(Indent(width) + word) == [word]
  {
    if width > 4 {
      WordsAfterASpace(" ", word);
      NoWords();
      assert Indent(width) + word == " " + " " + word;
    } else {
      WordsOfAWord(word);
      assert Indent(width) + word == word;
    }
  }

  /** The lines so far hold the words so far, none cut, and no line was broken early. */
  ghost predicate Filled(words: seq<string>, lines: seq<string>, line: string, width: nat) {
    Worded(lines, line) == words && Greedy(AndOpen(lines, line), width) && (line != "" ==> Words(line) != [])
  }

  lemma FilledOn(words: seq<string>, before: seq<string>, open: string, word: string,
                 lines: seq<string>, started: string, width: nat)
    requires IsWord(word) && Filled(words, before, open, width) && (open == "" ==> before == [])
    requires Started(before, open, word, lines, started, width)
    requires Worded(lines, started + word) == Worded(before, open) + [word]
    ensures Filled(words + [word], lines, started + word, width)
  {
    GreedyOn(before, open, word, lines, started, width);
    hide Worded, Greedy, Started, IsWord, Words;
    assert AndOpen(lines, started + word) == lines + [started + word] by {
      assert |started + word| > 0 by { NotEmpty(word); }
    }
  }

  lemma NotEmpty(word: string)
    requires IsWord(word)
    ensures |word| > 0
  {
  }

  lemma ThisWordFits(words: seq<string>, k: nat, width: nat)
    requires k < |words|
    ensures WordsFit(words, width) ==> |Indent(width)| + |words[k]| <= width
  {
  }

  /** All words are placed: what the finished lines hold. */
  lemma LastLine(text: string, words: seq<string>, lines: seq<string>, line: string, width: nat)
    requires words == Words(text) && Fit(lines, width) && |line| <= width
    requires Inked(lines, line) == Flatten(words) && (line == "" ==> lines == [])
    ensures var all := lines + [line];
            && Fit(all, width) && Ink(Flatten(all)) == Ink(text)
            && (Filled(words, lines, line, width) ==> LineWords(all) == words && Greedy(all, width))
  {
    WordsAreTheInk(text);
    FinishLine(lines, line);
    hide Words, Ink;
    assert Flatten(lines + [line]) + "" == Flatten(lines + [line]);
    NoWords();
    assert (lines + [line])[..|lines|] == lines;
  }

  /** What `PlaceWord` makes of the open line. */
  ghost predicate Placed(before: seq<string>, open: string, word: string, lines: seq<string>, line: string, width: nat)
    requires width > 0
  {
    lines + [line] ==
      if open == "" then before + Cuts("", word, width)
      else if |open| + 1 + |word| <= width then before + [open + " " + word]
      else before + [open] + Cuts(Lead(width), word, width)
  }

  lemma WrapOneMore(words: seq<string>, k: nat, before: seq<string>, open: string,
                    lines: seq<string>, line: string, width: nat)
    requires width > 0 && k < |words| && line != ""
    requires AndOpen(before, open) == WrapWords(words[..k], width) && (open == "" ==> before == [])
    requires Placed(before, open, words[k], lines, line, width)
    ensures AndOpen(lines, line) == WrapWords(words[..k + 1], width)
  {
    hide Cuts, Lead;
    assert words[..k + 1][..k] == words[..k];
    if open != "" {
      assert (before + [open])[..|before|] == before;
    } else {
      assert before + Cuts("", words[k], width) == Cuts("", words[k], width);
    }
  }

  lemma NothingOpen(lines: seq<string>, line: string, words: seq<string>, width: nat)
    requires width > 0 && AndOpen(lines, line) == WrapWords(words, width) && (line == "" ==> lines == [])
    ensures (words == [] <==> line == "") && (words == [] ==> lines == [])
    ensures words != [] ==> lines + [line] == WrapWords(words, width)
  {
  }

  lemma SetIsPlaced(before: seq<string>, open: string, word: string, started: seq<string>, start: string,
                    lines: seq<string>, line: string, width: nat)
    requires width > 0 && IsWord(word) && Started(before, open, word, started, start, width)
    requires open == "" ==> before == []
    requires |start| < width && lines + [line] == started + Cuts(start, word, width)
    ensures Placed(before, open, word, lines, line, width)
  {
    IndentIsLead(width);
    hide Lead, Indent, IsWord;
    if open != "" && |open| + 1 + |word| <= width {
      assert Cuts(start, word, width) == [open + " " + word];
    }
  }

  lemma StartsLeaveRoom(before: seq<string>, open: string, word: string, lines: seq<string>, line: string, width: nat)
    requires width > 0 && IsWord(word) && Started(before, open, word, lines, line, width)
    requires open == "" ==> before == []
    ensures |line| < width
  {
  }

  /** One word goes onto the lines. */
  method PlaceWord(ghost words: seq<string>, before: seq<string>, open: string, word: string, width: nat)
    returns (lines: seq<string>, line: string)
    requires width > 0 && Fit(before, width) && |open| <= width && IsWord(word)
    requires open == "" ==> before == []
    ensures Fit(lines, width) && |line| <= width && line != ""
    ensures Inked(lines, line) == Inked(before, open) + word
    ensures Placed(before, open, word, lines, line, width)
    ensures |Indent(width)| + |word| <= width && Filled(words, before, open, width) ==>
              Filled(words + [word], lines, line, width)
  {
    hide *;
    var started;
    lines, started := StartWord(before, open, word, width);
    if |Indent(width)| + |word| <= width && Filled(words, before, open, width) {
      FilledOn(words, before, open, word, lines, started, width);
    }
    ghost var done := lines;
    StartsLeaveRoom(before, open, word, lines, started, width);
    lines, line := SetWord(lines, started, word, width);
    SetIsPlaced(before, open, word, done, started, lines, line, width);
  }

  lemma NoWidth()
    ensures Fit([""], 0) && Ink(Flatten([""])) == ""
  {
  }

  lemma NothingYet(width: nat)
    requires width > 0
    ensures AndOpen([], "") == WrapWords([], width)
    ensures Fit([], width) && Flatten<char>([]) == "" && Inked([], "") == "" && Filled([], [], "", width)
  {
  }

  /** Breaks the line if the word does not fit behind it, and separates or indents. */
  method StartWord(before: seq<string>, open: string, word: string, width: nat) returns (lines: seq<string>, line: string)
    requires width > 0 && Fit(before, width) && |open| <= width && IsWord(word)
    requires open == "" ==> before == []
    ensures Fit(lines, width) && |line| <= width
    ensures Started(before, open, word, lines, line, width)
    ensures Inked(lines, line) == Inked(before, open)
    ensures |Indent(width)| + |word| <= width ==>
              |line| + |word| <= width && Worded(lines, line + word) == Worded(before, open) + [word]
  {
    hide Inked, Worded, Words;
    lines, line := before, open;
    if line != "" && |line| + 1 + |word| > width {
      FinishLine(lines, line);
      lines, line := lines + [line], "";
    }
    ghost var base := line;
    if line == "" {
      if lines != [] {
        line := line + Indent(width);
        assert line == Indent(width);
      }
    } else {
      line := line + " ";
    }
    ghost var blanks := line[|base|..];
    assert line == base + blanks;
    AddBlanks(lines, base, blanks);
    StartedLineWords(lines, base, line, word);
  }

  /** A fresh continuation line. */
  function IndentedLine(lines: seq<string>, width: nat): (line: string)
    requires width > 0
    ensures line == Indent(width) && |line| < width && Inked(lines, line) == Inked(lines, "")
  {
    AddBlanks(lines, "", Indent(width));
    assert "" + Indent(width) == Indent(width);
    Indent(width)
  }

  /** Sets the word, cutting it where it fills a whole line. */
  method SetWord(before: seq<string>, start: string, word: string, width: nat) returns (lines: seq<string>, line: string)
    requires width > 0 && IsWord(word) && Fit(before, width) && |start| < width
    ensures Fit(lines, width) && |line| <= width && line != ""
    ensures lines + [line] == before + Cuts(start, word, width)
    ensures Inked(lines, line) == Inked(before, start) + word
    ensures |start| + |word| <= width ==> lines == before && line == start + word
  {
    hide Inked, Indent, IsSpace, Cuts, Lead;
    lines, line := before, start;
    NothingCut(start, width);
    IndentIsLead(width);
    for j := 0 to |word|
      invariant Fit(lines, width) && |line| <= width && (j > 0 ==> line != "")
      invariant Inked(lines, line) == Inked(before, start) + word[..j]
      invariant lines + [line] == before + Cuts(start, word[..j], width)
      invariant |start| + |word| <= width ==> lines == before && line == start + word[..j]
    {
      CutsGrow(start, word[..j], word[j], width);
      LastOfCuts(before, Cuts(start, word[..j], width), lines, line);
      if |line| == width {
        FinishLine(lines, line);
        lines := lines + [line];
        line := IndentedLine(lines, width);
      }
      AddCharacter(lines, line, word[j]);
      assert word[..j + 1] == word[..j] + [word[j]];
      line := line + [word[j]];
    }
    assert word[..|word|] == word;
  }

  lemma NothingCut(start: string, width: nat)
    requires |start| < width
    ensures Cuts(start, "", width) == [start]
  {
    assert start + "" == start;
  }

  lemma LastOfCuts(before: seq<string>, done: seq<string>, lines: seq<string>, line: string)
    requires done != [] && lines + [line] == before + done
    ensures done[|done| - 1] == line && lines == before + done[..|done| - 1]
  {
    var all := lines + [line];
    assert all[|lines|] == line && all[..|lines|] == lines;
    assert (before + done)[..|lines|] == before + done[..|done| - 1];
  }

  lemma StartedLineWords(lines: seq<string>, base: string, start: string, word: string)
    requires IsWord(word)
    requires start == base + " " || (base == "" && (start == "" || start == "  "))
    ensures Worded(lines, start + word) == Worded(lines, base) + [word]
  {
    hide Words;
    if start == base + " " {
      WordsAfterASpace(base, word);
    } else if start == "" {
      assert start + word == word;
      WordsOfAWord(word);
      NoWords();
    } else {
      WordsAfterASpace(" ", word);
      assert start + word == " " + " " + word;
      NoWords();
    }
  }

  lemma NoWords()
    ensures Words("") == [] && Words(" ") == []
  {
  }

  // ----- rows and borders

  const BAR := '\U{2502}'
  const DASH := '\U{2500}'

  /** A column is never narrower than its title. */
  datatype Column = Column(title: string, width: nat)

  function Repeat(c: char, n: nat): (s: string)
    ensures |s| == n
  {
    seq(n, _ => c)
  }

  /** The widths of the columns with the two blanks and the separator of each. */
  function TotalWidth(columns: seq<Column>): nat {
    if columns == [] then 0 else TotalWidth(columns[..|columns| - 1]) + columns[|columns| - 1].width + 3
  }

  lemma TotalWidthIsPositive(columns: seq<Column>)
    ensures columns != [] ==> TotalWidth(columns) >= 3
  {
  }

  /** The dashes of a border, under the columns and the blanks beside them. */
  function Dashes(columns: seq<Column>, middle: char): string {
    if columns == [] then ""
    else
      var before := Dashes(columns[..|columns| - 1], middle);
      before + (if |columns| > 1 then [middle] else "") + seq(columns[|columns| - 1].width + 2, _ => '\U{2500}')
  }

  /** A border line: one dash more on either side of each column, joined at the columns. */
  method Rule(columns: seq<Column>, left: char, middle: char, right: char) returns (line: string)
    ensures |line| == if columns == [] then 2 else TotalWidth(columns) + 1
    ensures line == [left] + Dashes(columns, middle) + [right]
  {
    line := [left];
    for index := 0 to |columns|
      invariant |line| == if index == 0 then 1 else TotalWidth(columns[..index])
      invariant line == [left] + Dashes(columns[..index], middle)
    {
      assert columns[..index + 1][..index] == columns[..index];
      if index > 0 {
        line := line + [middle];
      }
      line := line + Repeat(DASH, columns[index].width + 2);
    }
    assert columns[..|columns|] == columns;
    line := line + [right];
  }

  /** One line of a full-width row, padded to `width`. */
  function Row(line: string, width: nat): (row: string)
    requires |line| <= width
    ensures |row| == width + 4 && row[2..2 + |line|] == line
    ensures row[0] == row[width + 3] == '\U{2502}' && row[1] == ' '
    ensures forall k :: 2 + |line| <= k < width + 3 ==> row[k] == ' '
  {
    [BAR, ' '] + line + Repeat(' ', width - |line|) + [' ', BAR]
  }

  /** The line between two bars, blanks behind it up to the second. */
  predicate IsRowOf(row: string, line: string) {
    && |line| + 4 <= |row| && row[0] == row[|row| - 1] == '\U{2502}' && row[1] == ' '
    && row[2..2 + |line|] == line
    && forall k :: 2 + |line| <= k < |row| - 1 ==> row[k] == ' '
  }

  /** The text of a full-width row, wrapped and padded to the frame. Every row is as
      wide as the borders, except in a table without columns, whose borders are two
      wide and whose rows are four. */
  method SpanRows(columns: seq<Column>, text: string) returns (rows: seq<string>, lines: seq<string>)
    ensures rows != [] && |rows| == |lines|
    ensures forall i :: 0 <= i < |rows| ==> |rows[i]| == if columns == [] then 4 else TotalWidth(columns) + 1
    ensures forall i :: 0 <= i < |rows| ==> IsRowOf(rows[i], lines[i])
    ensures var width := TotalWidth(columns) - 3;
            lines == if width <= 0 || Words(text) == [] then [""] else WrapWords(Words(text), width)
    ensures Ink(Flatten(lines)) == Ink(text) <==> TotalWidth(columns) > 3 || Ink(text) == ""
  {
    hide Row, Ink, Flatten, Words, LineWords, WrapWords;
    TotalWidthIsPositive(columns);
    var total := TotalWidth(columns);
    var width := if total >= 3 then total - 3 else 0;
    lines := Wrapped(text, width);
    rows := seq(|lines|, i requires 0 <= i < |lines| => Row(lines[i], width));
  }
}
