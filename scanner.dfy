/**
 * `fetch_range` and the tokeniser of `generate_dag`: cut a symbol's source
 * text out of the unit's lines, overwriting two of those lines on the way,
 * and split the text on a fixed class of one-character delimiters.
 */
module Scanner {
  import opened Wrappers
  import opened Strings
  import opened Symbols

  const Newline: char := '\n'

  // The one-character delimiter class the symbol text is split on.
  const TokenDelimiters: set<char> := {' ', '(', ')', '+', '-', '*', '/', '=', ',', ':'}

  /** The IndexError of indexing the line list past its end. */
  datatype FetchError = LineOutOfRange(line: nat)

  /** The caller's line list after a call, and what the call returned or raised. */
  datatype Fetched = Fetched(lines: seq<string>, text: Result<string, FetchError>)

  /** `text.split("\n")`: the file's lines, none of which holds a newline. */
  function SplitLines(text: string): (lines: seq<string>)
    ensures |lines| == Occurrences({Newline}, text) + 1
    ensures forall i :: 0 <= i < |lines| ==> Avoids(lines[i], {Newline})
    ensures Join([Newline], lines) == text
  {
    SplitThenJoin(text, Newline);
    Split(text, {Newline})
  }

  /** Python's `xs[a:b]` with `b` inside the list: empty when `b` is not past `a`. */
  function Slice(xs: seq<string>, a: nat, b: nat): seq<string>
    requires b <= |xs|
  {
    if a <= b then xs[a..b] else []
  }

  /**
   * `fetch_range(lines, range)`. The start line is replaced by its tail from
   * the start character, then the end line by its head up to the end
   * character (for a one-line range, the head of the already shortened line),
   * and the lines from start to end are joined with newlines. Indexing a
   * line past the end raises; when only the end line is out of range, the
   * start line has already been replaced.
   */
  function FetchRangeSpec(lines: seq<string>, r: Range): (f: Fetched)
    ensures |f.lines| == |lines|
    ensures forall i :: 0 <= i < |lines| && i != r.start.line && i != r.end.line ==> f.lines[i] == lines[i]
    ensures f.text.Ok? <==> r.start.line < |lines| && r.end.line < |lines|
    ensures r.start.line >= |lines| ==> f == Fetched(lines, Err(LineOutOfRange(r.start.line)))
    ensures r.start.line < |lines| <= r.end.line ==>
      f.lines[r.start.line] == Drop(lines[r.start.line], r.start.character) &&
      f.text == Err(LineOutOfRange(r.end.line))
    ensures f.text.Ok? && r.start.line != r.end.line ==>
      f.lines[r.start.line] == Drop(lines[r.start.line], r.start.character) &&
      f.lines[r.end.line] == Take(lines[r.end.line], r.end.character)
    ensures f.text.Ok? && r.start.line == r.end.line ==>
      f.lines[r.start.line] == Take(Drop(lines[r.start.line], r.start.character), r.end.character)
  {
    var s, e := r.start.line, r.end.line;
    if s >= |lines| then Fetched(lines, Err(LineOutOfRange(s)))
    else
      var trimmed := lines[s := Drop(lines[s], r.start.character)];
      if e >= |trimmed| then Fetched(trimmed, Err(LineOutOfRange(e)))
      else
        var cut := trimmed[e := Take(trimmed[e], r.end.character)];
        Fetched(cut, Ok(Join([Newline], Slice(cut, s, e + 1))))
  }

  /** `fetch_range`, assigning into the caller's list in place. */
  method FetchRange(lines: array<string>, r: Range) returns (text: Result<string, FetchError>)
    modifies lines
    ensures Fetched(lines[..], text) == FetchRangeSpec(old(lines[..]), r)
  {
    var s, e := r.start.line, r.end.line;
    if s >= lines.Length {
      return Err(LineOutOfRange(s));
    }
    lines[s] := Drop(lines[s], r.start.character);
    if e >= lines.Length {
      return Err(LineOutOfRange(e));
    }
    lines[e] := Take(lines[e], r.end.character);
    var window := if s <= e then lines[s..e + 1] else [];
    text := Ok(Join([Newline], window));
  }

  /**
   * A range over several newline-free lines yields the tail of the first line,
   * the middle lines unchanged and the head of the last line, one newline
   * between each two, and splitting the text on newlines gives those pieces back.
   */
  lemma FetchMultiLine(lines: seq<string>, r: Range)
    requires r.start.line < r.end.line < |lines|
    requires forall i :: 0 <= i < |lines| ==> Avoids(lines[i], {Newline})
    ensures var pieces := [Drop(lines[r.start.line], r.start.character)] + lines[r.start.line + 1..r.end.line]
                          + [Take(lines[r.end.line], r.end.character)];
      && FetchRangeSpec(lines, r).text == Ok(Join([Newline], pieces))
      && Split(FetchRangeSpec(lines, r).text.value, {Newline}) == pieces
      && Occurrences({Newline}, FetchRangeSpec(lines, r).text.value) == r.end.line - r.start.line
  {
    var s, e := r.start.line, r.end.line;
    var pieces := [Drop(lines[s], r.start.character)] + lines[s + 1..e] + [Take(lines[e], r.end.character)];
    MultiLineWindow(lines, r);
    CutLinesAvoid(lines, r, pieces);
    JoinThenSplit(pieces, Newline);
  }

  /** The lines a multi-line range joins are the cut first line, the middle lines and the cut last line. */
  lemma MultiLineWindow(lines: seq<string>, r: Range)
    requires r.start.line < r.end.line < |lines|
    ensures FetchRangeSpec(lines, r).text == Ok(Join([Newline],
      [Drop(lines[r.start.line], r.start.character)] + lines[r.start.line + 1..r.end.line]
      + [Take(lines[r.end.line], r.end.character)]))
  {
    var s, e := r.start.line, r.end.line;
    var f := FetchRangeSpec(lines, r);
    assert f.lines[s..e + 1] == [Drop(lines[s], r.start.character)] + lines[s + 1..e] + [Take(lines[e], r.end.character)];
  }

  /** The cut first line, the middle lines and the cut last line hold no newline. */
  lemma CutLinesAvoid(lines: seq<string>, r: Range, pieces: seq<string>)
    requires r.start.line < r.end.line < |lines|
    requires forall i :: 0 <= i < |lines| ==> Avoids(lines[i], {Newline})
    requires pieces == [Drop(lines[r.start.line], r.start.character)] + lines[r.start.line + 1..r.end.line]
                       + [Take(lines[r.end.line], r.end.character)]
    ensures forall i :: 0 <= i < |pieces| ==> Avoids(pieces[i], {Newline})
  {
    SlicesAvoid(lines[r.start.line], r.start.character, {Newline});
    SlicesAvoid(lines[r.end.line], r.end.character, {Newline});
    forall i | 0 < i < |pieces| - 1 ensures Avoids(pieces[i], {Newline}) {
      assert pieces[i] == lines[r.start.line + i];
    }
  }

  /**
   * A one-line range yields the line's tail from the start character cut to
   * `end.character` characters, so the text reaches column
   * `start.character + end.character` rather than column `end.character`;
   * a start character past the line's end (possible once an earlier fetch
   * has shortened the line) yields the empty text.
   */
  lemma FetchSingleLine(lines: seq<string>, r: Range)
    requires r.start.line == r.end.line < |lines|
    ensures var l, a := lines[r.start.line], r.start.character;
      && FetchRangeSpec(lines, r).text == Ok(Take(Drop(l, a), r.end.character))
      && (a <= |l| ==>
            var b := if a + r.end.character <= |l| then a + r.end.character else |l|;
            FetchRangeSpec(lines, r).text == Ok(l[a..b]))
      && (a > |l| ==> FetchRangeSpec(lines, r).text == Ok([]))
  {
    var f := FetchRangeSpec(lines, r);
    var l, a := lines[r.start.line], r.start.character;
    assert f.lines[r.start.line..r.end.line + 1] == [f.lines[r.start.line]];
    assert f.lines[r.start.line] == Take(Drop(l, a), r.end.character);
    assert f.text.value == f.lines[r.start.line];
    if a <= |l| {
      if a + r.end.character <= |l| {
        assert l[a..][..r.end.character] == l[a..a + r.end.character];
      } else {
        assert l[a..|l|] == l[a..];
      }
    }
  }

  /** A range whose end line comes before its start line yields the empty text. */
  lemma FetchBackwards(lines: seq<string>, r: Range)
    requires r.end.line < r.start.line < |lines|
    ensures FetchRangeSpec(lines, r).text == Ok([])
  {
  }

  /**
   * `re.split` on the delimiter class: one token more than there are
   * delimiters, none holding a delimiter, together holding every other
   * character of the text in order; putting the text's delimiters back
   * between consecutive tokens gives the text, so each token is exactly the
   * run between two delimiters.
   */
  function Tokenize(text: string): (tokens: seq<string>)
    ensures |tokens| == Occurrences(TokenDelimiters, text) + 1
    ensures forall i :: 0 <= i < |tokens| ==> Avoids(tokens[i], TokenDelimiters)
    ensures Concat(tokens) == Kept(text, TokenDelimiters)
    ensures Interleave(tokens, Delims(text, TokenDelimiters)) == text
  {
    SplitKeepsOtherCharacters(text, TokenDelimiters);
    SplitInterleavesDelimiters(text, TokenDelimiters);
    Split(text, TokenDelimiters)
  }

  /** One step of the split, for computing it on literal text. */
  lemma SplitStep(c: char, t: string, cs: set<char>)
    ensures Split([c] + t, cs) ==
      if c in cs then [[]] + Split(t, cs) else [[c] + Split(t, cs)[0]] + Split(t, cs)[1..]
  {
    assert ([c] + t)[1..] == t;
  }

  /**
   * A sum `x + y` of two delimiter-free operands yields x, two empty tokens
   * (between the blank, the plus sign and the blank) and y.
   */
  lemma TokenizeSum(x: string, y: string)
    requires Avoids(x, TokenDelimiters) && Avoids(y, TokenDelimiters)
    ensures Tokenize(x + " + " + y) == [x, "", "", y]
  {
    SplitSumTail(y);
    SplitFreePrefix(x, " + " + y, TokenDelimiters);
    assert x + "" == x;
    assert x + (" + " + y) == x + " + " + y;
  }

  /** The part of a sum from the blank after the first operand on. */
  lemma SplitSumTail(y: string)
    requires Avoids(y, TokenDelimiters)
    ensures Split(" + " + y, TokenDelimiters) == ["", "", "", y]
  {
    var d := TokenDelimiters;
    SplitBlankThenName(y);
    assert Split("+ " + y, d) == ["", "", y] by {
      SplitStep('+', " " + y, d);
      assert ['+'] + (" " + y) == "+ " + y;
    }
    SplitStep(' ', "+ " + y, d);
    assert [' '] + ("+ " + y) == " + " + y;
  }

  /**
   * A call `f(x)` whose name and argument hold no delimiter yields the name,
   * the argument and a trailing empty token.
   */
  lemma TokenizeCall(f: string, x: string)
    requires Avoids(f, TokenDelimiters) && Avoids(x, TokenDelimiters)
    ensures Tokenize(f + "(" + x + ")") == [f, x, ""]
  {
    var d := TokenDelimiters;
    assert '(' in d && ')' in d;
    SplitStep(')', "", d);
    assert [')'] + "" == ")";
    SplitFreePrefix(x, ")", d);
    assert x + "" == x;
    SplitStep('(', x + ")", d);
    assert ['('] + (x + ")") == "(" + x + ")";
    SplitFreePrefix(f, "(" + x + ")", d);
    assert f + "" == f;
    assert f + ("(" + x + ")") == f + "(" + x + ")";
  }

  /** A range covering the whole of the only line yields that line and changes nothing. */
  lemma FetchWholeLine(l: string)
    ensures FetchRangeSpec([l], Range(Position(0, 0), Position(0, |l|))) == Fetched([l], Ok(l))
  {
    assert l[0..] == l && l[..|l|] == l;
    assert [l][0 := l] == [l];
  }

  /**
   * A newline is not a delimiter: a name `g` ending one line and a name `h`
   * starting the next come out as the single token "g\nh", so neither is
   * recognised.
   */
  lemma NewlineGluesTokens()
    ensures Tokenize("g\nh") == ["g\nh"]
  {
    var d := TokenDelimiters;
    assert 'g' !in d && '\n' !in d && 'h' !in d;
    assert Avoids("g\nh", d);
    SplitFreePrefix("g\nh", [], d);
    assert "g\nh" + [] == "g\nh";
  }

  /** A blank followed by a delimiter-free name splits into "" and the name. */
  lemma SplitBlankThenName(h: string)
    requires Avoids(h, TokenDelimiters)
    ensures Split(" " + h, TokenDelimiters) == ["", h]
  {
    var d := TokenDelimiters;
    assert Split(h, d) == [h] by {
      SplitFreePrefix(h, "", d);
      assert h + "" == h;
    }
    SplitStep(' ', h, d);
    assert [' '] + h == " " + h;
  }

  /**
   * A token that spans a line break keeps the newline: a name `g` before an
   * indented next line comes out as "g\n", and a name `h` that opens a line
   * right after a delimiter comes out as "\nh", so neither is recognised.
   */
  lemma NewlineStaysInToken(g: string, h: string)
    requires Avoids(g, TokenDelimiters) && Avoids(h, TokenDelimiters)
    ensures Tokenize(g + "\n" + " " + h) == [g + "\n", h]
    ensures Tokenize("(" + "\n" + h) == ["", "\n" + h]
  {
    var d := TokenDelimiters;
    SplitBlankThenName(h);
    assert Tokenize(g + "\n" + " " + h) == [g + "\n", h] by {
      assert Avoids(g + "\n", d);
      SplitFreePrefix(g + "\n", " " + h, d);
      assert (g + "\n") + "" == g + "\n";
      assert (g + "\n") + (" " + h) == g + "\n" + " " + h;
    }
    assert Split("\n" + h, d) == ["\n" + h] by {
      assert Avoids("\n" + h, d);
      SplitFreePrefix("\n" + h, "", d);
      assert ("\n" + h) + "" == "\n" + h;
    }
    SplitStep('(', "\n" + h, d);
    assert ['('] + ("\n" + h) == "(" + "\n" + h;
  }

  /**
   * The line list is shared between calls: the same one-line range fetched a
   * second time works on the already shortened line and yields less text.
   */
  lemma RepeatedFetchSeesEarlierCut()
    ensures var r := Range(Position(0, 3), Position(0, 5));
      var first := FetchRangeSpec(["ab cd"], r);
      && first == Fetched(["cd"], Ok("cd"))
      && FetchRangeSpec(first.lines, r) == Fetched([""], Ok(""))
  {
    assert "ab cd"[3..] == "cd";
  }
}
