/** The editing operations of shell/editor.c on an array of lines, and the flat text they refine. */
module EditorSpec {
  import opened EditorText

  /** The lines and the cursor; the cursor may stand on the line after the last. */
  datatype Doc = Doc(lines: seq<string>, cx: nat, cy: nat)

  ghost predicate InBounds(d: Doc) {
    && d.lines != [] && Clean(d.lines)
    && d.cy <= |d.lines| && d.cx <= LineLen(d)
  }

  function LineLen(d: Doc): nat {
    if d.cy < |d.lines| then |d.lines[d.cy]| else 0
  }

  datatype Edit = Backspace | Delete | Enter | Tab | Typed(c: char)

  const INDENT_MAX := 255

  predicate Blank(c: char) {
    c == ' ' || c == '\t'
  }

  /** Leading blanks, at most `limit` of them: the count stops at the limit, at the end of the line, or at a
    * character that is neither space nor tab. */
  function IndentLen(line: string, limit: nat): (n: nat)
    ensures n <= |line| && n <= limit && forall k | 0 <= k < n :: line[k] == ' ' || line[k] == '\t'
    ensures n == limit || n == |line| || (line[n] != ' ' && line[n] != '\t')
  {
    if line == "" || limit == 0 || !Blank(line[0]) then 0 else 1 + IndentLen(line[1..], limit - 1)
  }

  function Indent(line: string): string {
    line[..IndentLen(line, INDENT_MAX)]
  }

  // ---- the operations, branch by branch ----

  function InsertChar(d: Doc, c: char): Doc
    requires d.cy <= |d.lines|
  {
    var lines := if d.cy == |d.lines| then d.lines + [""] else d.lines;
    var at := if d.cx > |lines[d.cy]| then |lines[d.cy]| else d.cx;
    Doc(lines[d.cy := lines[d.cy][..at] + [c] + lines[d.cy][at..]], d.cx + 1, d.cy)
  }

  function InsertNewline(d: Doc): Doc
    requires d.cy <= |d.lines| && d.cx <= LineLen(d)
  {
    if d.cy == |d.lines| then Doc(d.lines + [""], 0, d.cy + 1)
    else
      var line, indent := d.lines[d.cy], Indent(d.lines[d.cy]);
      Doc(d.lines[..d.cy] + [line[..d.cx], indent + line[d.cx..]] + d.lines[d.cy + 1..], |indent|, d.cy + 1)
  }

  function DeleteBack(d: Doc): Doc
    requires d.cy <= |d.lines| && d.cx <= LineLen(d)
  {
    if d.cy == |d.lines| then d
    else if d.cx > 0 then
      var line := d.lines[d.cy];
      Doc(d.lines[d.cy := line[..d.cx - 1] + line[d.cx..]], d.cx - 1, d.cy)
    else if d.cy > 0 then
      Doc(d.lines[..d.cy - 1] + [d.lines[d.cy - 1] + d.lines[d.cy]] + d.lines[d.cy + 1..],
          |d.lines[d.cy - 1]|, d.cy - 1)
    else d
  }

  function DeleteForward(d: Doc): Doc
    requires d.cy <= |d.lines| && d.cx <= LineLen(d)
  {
    if d.cy == |d.lines| then d
    else
      var line := d.lines[d.cy];
      if d.cx < |line| then d.(lines := d.lines[d.cy := line[..d.cx] + line[d.cx + 1..]])
      else if d.cy < |d.lines| - 1 then
        d.(lines := d.lines[..d.cy] + [line + d.lines[d.cy + 1]] + d.lines[d.cy + 2..])
      else d
  }

  function InsertChars(d: Doc, c: char, n: nat): Doc
    requires d.cy <= |d.lines|
    decreases n
  {
    if n == 0 then d else InsertChars(InsertChar(d, c), c, n - 1)
  }

  function Apply(d: Doc, e: Edit): Doc
    requires d.cy <= |d.lines| && d.cx <= LineLen(d)
  {
    match e
    case Backspace => DeleteBack(d)
    case Delete => DeleteForward(d)
    case Enter => InsertNewline(d)
    case Tab => InsertChars(d, ' ', 4)
    case Typed(c) => InsertChar(d, c)
  }

  // ---- the flat reference: a text and an offset ----

  datatype Flat = Flat(text: string, at: nat)

  /** The line that offset `at` is on begins at k. */
  ghost predicate LineBegins(text: string, at: nat, k: nat) {
    && k <= at <= |text| && (k == 0 || text[k - 1] == '\n')
    && forall j | k <= j < at :: text[j] != '\n'
  }

  /** The run of spaces and tabs from k on has n characters, or more than 255 of which 255 count. */
  ghost predicate BlanksFrom(text: string, k: nat, n: nat) {
    && k + n <= |text| && n <= 255
    && (forall j | k <= j < k + n :: text[j] == ' ' || text[j] == '\t')
    && (n == 255 || k + n == |text| || (text[k + n] != ' ' && text[k + n] != '\t'))
  }

  /** Enter: a newline and a copy of the blanks at the start of the line the offset is on, with the offset
    * behind them. */
  ghost predicate Entered(f: Flat, f': Flat) {
    exists k: nat, n: nat :: LineBegins(f.text, f.at, k) && BlanksFrom(f.text, k, n)
                             && f' == Flat(f.text[..f.at] + "\n" + f.text[k..k + n] + f.text[f.at..], f.at + 1 + n)
  }

  function LineStart(text: string, at: nat): (k: nat)
    requires at <= |text|
    ensures LineBegins(text, at, k)
  {
    if at == 0 || text[at - 1] == '\n' then at else LineStart(text, at - 1)
  }

  function Insert(f: Flat, s: string): Flat
    requires f.at <= |f.text|
  {
    Flat(f.text[..f.at] + s + f.text[f.at..], f.at + |s|)
  }

  /** Editing a plain text at an offset. Enter repeats the indentation of the line the offset is on. */
  function FlatApply(f: Flat, e: Edit): Flat
    requires f.at <= |f.text|
  {
    match e
    case Backspace => if f.at == 0 then f else Flat(f.text[..f.at - 1] + f.text[f.at..], f.at - 1)
    case Delete => if f.at == |f.text| then f else f.(text := f.text[..f.at] + f.text[f.at + 1..])
    case Enter => Insert(f, "\n" + Indent(f.text[LineStart(f.text, f.at)..]))
    case Tab => Insert(f, "    ")
    case Typed(c) => Insert(f, [c])
  }

  /** Enter in the flat text is that. */
  lemma EnterIsEntered(f: Flat)
    requires f.at <= |f.text|
    ensures Entered(f, FlatApply(f, Enter))
  {
    var k := LineStart(f.text, f.at);
    var n := IndentLen(f.text[k..], INDENT_MAX);
    BlanksShift(f.text, k, n);
    EnterAt(f, k, n, Indent(f.text[k..]));
  }

  lemma EnterAt(f: Flat, k: nat, n: nat, indent: string)
    requires k <= f.at <= |f.text| && n <= |f.text[k..]| && indent == f.text[k..][..n]
    ensures k + n <= |f.text|
    ensures Insert(f, "\n" + indent) == Flat(f.text[..f.at] + "\n" + f.text[k..k + n] + f.text[f.at..], f.at + 1 + n)
  {
    assert indent == f.text[k..k + n];
    ConcatNewline(f.text[..f.at], indent);
  }

  lemma ConcatNewline(a: string, b: string)
    ensures a + ("\n" + b) == a + "\n" + b
  {
  }

  lemma BlanksShift(text: string, k: nat, n: nat)
    requires k <= |text| && n == IndentLen(text[k..], INDENT_MAX)
    ensures BlanksFrom(text, k, n)
  {
    assert forall j | k <= j < k + n :: text[j] == text[k..][j - k];
  }

  /** The text and offset a document stands for; the line after the last counts as an empty one. */
  function FlatOf(d: Doc): Flat
    requires d.lines != [] && d.cy <= |d.lines|
  {
    var lines := if d.cy == |d.lines| then d.lines + [""] else d.lines;
    Flat(Join(lines), |Serialized(lines[..d.cy])| + d.cx)
  }

  // ---- the lines around the cursor ----

  /** The document split at its cursor line. */
  lemma FlatAt(before: seq<string>, line: string, after: seq<string>, cx: nat)
    requires cx <= |line|
    ensures FlatOf(Doc(before + [line] + after, cx, |before|))
         == Flat(Serialized(before) + line + Tail(after), |Serialized(before)| + cx)
  {
    JoinAt(before, line, after);
    assert (before + [line] + after)[..|before|] == before;
  }

  /** The lines before the cursor line, that line, and those after it. */
  datatype Around = Around(before: seq<string>, line: string, after: seq<string>) {
    function Lines(): seq<string> { before + [line] + after }
  }

  function AroundCursor(d: Doc): Around
    requires d.cy <= |d.lines|
  {
    if d.cy == |d.lines| then Around(d.lines, "", [])
    else Around(d.lines[..d.cy], d.lines[d.cy], d.lines[d.cy + 1..])
  }

  lemma FlatAroundCursor(d: Doc)
    requires InBounds(d)
    ensures var a := AroundCursor(d);
            && FlatOf(d) == Flat(Serialized(a.before) + a.line + Tail(a.after), |Serialized(a.before)| + d.cx)
            && d.cx <= |a.line| && '\n' !in a.line && |a.before| == d.cy
            && a.Lines() == if d.cy == |d.lines| then d.lines + [""] else d.lines
  {
    var a := AroundCursor(d);
    var lines := if d.cy == |d.lines| then d.lines + [""] else d.lines;
    assert a.Lines() == lines;
    FlatAt(a.before, a.line, a.after, d.cx);
    assert FlatOf(d) == FlatOf(Doc(lines, d.cx, d.cy));
  }

  /** Inserting into a text inside one of its parts. */
  lemma InsertInto(s: string, line: string, t: string, cx: nat, x: string)
    requires cx <= |line|
    ensures var f := Flat(s + line + t, |s| + cx);
            f.at <= |f.text| && Insert(f, x) == Flat(s + (line[..cx] + x + line[cx..]) + t, |s| + cx + |x|)
  {
    var text, at := s + line + t, |s| + cx;
    assert text == (s + line[..cx]) + (line[cx..] + t) by {
      assert line == line[..cx] + line[cx..];
    }
    assert text[..at] == s + line[..cx] && text[at..] == line[cx..] + t;
    assert (s + line[..cx]) + x + (line[cx..] + t) == s + (line[..cx] + x + line[cx..]) + t;
  }

  /** Removing a range of a text inside one of its parts. */
  lemma RemoveFrom(s: string, line: string, t: string, i: nat, j: nat)
    requires i <= j <= |line|
    ensures var text := s + line + t;
            text[..|s| + i] + text[|s| + j..] == s + (line[..i] + line[j..]) + t
  {
    var text := s + line + t;
    assert text[..|s| + i] == s + line[..i];
    assert text[|s| + j..] == line[j..] + t;
  }

  // ---- every operation is one edit of the flat text ----

  lemma InsertCharRefines(d: Doc, c: char, f: Flat)
    requires InBounds(d) && c != '\n' && f == FlatOf(d)
    ensures f.at <= |f.text| && InBounds(InsertChar(d, c)) && FlatOf(InsertChar(d, c)) == Insert(f, [c])
  {
    var a := AroundCursor(d);
    FlatAroundCursor(d);
    InsertedLine(d, c);
    InsertIntoLine(a.before, a.line, a.after, d.cx, c);
  }

  lemma InsertIntoLine(before: seq<string>, line: string, after: seq<string>, cx: nat, c: char)
    requires cx <= |line|
    ensures var f := Flat(Serialized(before) + line + Tail(after), |Serialized(before)| + cx);
            f.at <= |f.text| && FlatOf(Doc(before + [line[..cx] + [c] + line[cx..]] + after, cx + 1, |before|))
                             == Insert(f, [c])
  {
    InsertInto(Serialized(before), line, Tail(after), cx, [c]);
    FlatAt(before, line[..cx] + [c] + line[cx..], after, cx + 1);
  }

  lemma InsertedLine(d: Doc, c: char)
    requires InBounds(d) && c != '\n'
    ensures var a := AroundCursor(d);
            && d.cx <= |a.line| && |a.before| == d.cy && InBounds(InsertChar(d, c))
            && InsertChar(d, c)
               == Doc(a.before + [a.line[..d.cx] + [c] + a.line[d.cx..]] + a.after, d.cx + 1, |a.before|)
  {
  }

  lemma {:induction false} LineStartOf(s: string, line: string, cx: nat, t: string)
    requires cx <= |line| && '\n' !in line && (s == "" || s[|s| - 1] == '\n')
    ensures |s| + cx <= |s + line + t| && LineStart(s + line + t, |s| + cx) == |s|
    decreases cx
  {
    if cx > 0 {
      assert (s + line + t)[|s| + cx - 1] == line[cx - 1];
      LineStartOf(s, line, cx - 1, t);
    } else if s != "" {
      assert (s + line + t)[|s| - 1] == s[|s| - 1];
    }
  }

  lemma {:induction false} IndentOf(line: string, t: string, limit: nat)
    requires t == "" || !Blank(t[0])
    ensures IndentLen(line + t, limit) == IndentLen(line, limit)
  {
    if line == "" {
      assert line + t == t;
    } else if limit > 0 && Blank(line[0]) {
      assert (line + t)[1..] == line[1..] + t;
      IndentOf(line[1..], t, limit - 1);
    }
  }

  lemma {:induction false} SerializedEnds(lines: seq<string>)
    ensures var s := Serialized(lines); s == "" || s[|s| - 1] == '\n'
  {
    if lines != [] {
      SerializedEnds(lines[1..]);
    }
  }

  /** The indentation of the line an offset is on, seen in the flat text. */
  lemma FlatIndent(before: seq<string>, line: string, after: seq<string>, cx: nat, text: string)
    requires cx <= |line| && '\n' !in line && text == Serialized(before) + line + Tail(after)
    ensures |Serialized(before)| + cx <= |text|
    ensures Indent(text[LineStart(text, |Serialized(before)| + cx)..]) == Indent(line)
  {
    var s, t := Serialized(before), Tail(after);
    SerializedEnds(before);
    LineStartOf(s, line, cx, t);
    IndentOf(line, t, INDENT_MAX);
    assert text[|s|..] == line + t;
    assert (line + t)[..IndentLen(line, INDENT_MAX)] == line[..IndentLen(line, INDENT_MAX)];
  }

  /** A line break inside a text. */
  lemma BreakLine(before: seq<string>, upper: string, indent: string, rest: string, t: string)
    ensures Serialized(before + [upper]) == Serialized(before) + upper + "\n"
    ensures Serialized(before + [upper]) + (indent + rest) + t
         == Serialized(before) + (upper + ("\n" + indent) + rest) + t
  {
    SerializedConcat(before, [upper]);
    assert Serialized([upper]) == upper + "\n";
  }

  /** Enter in the flat text. */
  lemma FlatEnter(d: Doc, f: Flat, a: Around, indent: string)
    requires InBounds(d) && f == FlatOf(d) && a == AroundCursor(d) && indent == Indent(a.line)
    ensures f.at <= |f.text| && d.cx <= |a.line|
    ensures FlatApply(f, Enter)
         == Flat(Serialized(a.before) + (a.line[..d.cx] + ("\n" + indent) + a.line[d.cx..]) + Tail(a.after),
                 |Serialized(a.before)| + d.cx + 1 + |indent|)
  {
    FlatAroundCursor(d);
    EnterAround(f, a, d.cx, indent);
  }

  lemma EnterAround(f: Flat, a: Around, cx: nat, indent: string)
    requires cx <= |a.line| && '\n' !in a.line && indent == Indent(a.line)
    requires f == Flat(Serialized(a.before) + a.line + Tail(a.after), |Serialized(a.before)| + cx)
    ensures f.at <= |f.text|
    ensures FlatApply(f, Enter)
         == Flat(Serialized(a.before) + (a.line[..cx] + ("\n" + indent) + a.line[cx..]) + Tail(a.after),
                 |Serialized(a.before)| + cx + 1 + |indent|)
  {
    FlatIndent(a.before, a.line, a.after, cx, f.text);
    EnterInto(f, Serialized(a.before), a.line, Tail(a.after), cx, indent);
  }

  lemma EnterInto(f: Flat, s: string, line: string, t: string, cx: nat, indent: string)
    requires cx <= |line| && f == Flat(s + line + t, |s| + cx)
    requires f.at <= |f.text| && Indent(f.text[LineStart(f.text, f.at)..]) == indent
    ensures FlatApply(f, Enter) == Flat(s + (line[..cx] + ("\n" + indent) + line[cx..]) + t, |s| + cx + 1 + |indent|)
  {
    InsertInto(s, line, t, cx, "\n" + indent);
  }

  /** Enter on the lines is a newline and the line's leading blanks, 255 at most, in the text. */
  lemma InsertNewlineRefines(d: Doc, f: Flat)
    requires InBounds(d) && f == FlatOf(d)
    ensures f.at <= |f.text| && InBounds(InsertNewline(d)) && FlatOf(InsertNewline(d)) == FlatApply(f, Enter)
    ensures Entered(f, FlatOf(InsertNewline(d)))
  {
    NewlineIsFlatEnter(d, f);
    EnterIsEntered(f);
  }

  lemma NewlineIsFlatEnter(d: Doc, f: Flat)
    requires InBounds(d) && f == FlatOf(d)
    ensures f.at <= |f.text| && InBounds(InsertNewline(d)) && FlatOf(InsertNewline(d)) == FlatApply(f, Enter)
  {
    var a := AroundCursor(d);
    var indent := Indent(a.line);
    FlatEnter(d, f, a, indent);
    NewLines(d, a.before + [a.line[..d.cx]], indent + a.line[d.cx..], a.after, |indent|);
    BreakLine(a.before, a.line[..d.cx], indent, a.line[d.cx..], Tail(a.after));
    FlatAt(a.before + [a.line[..d.cx]], indent + a.line[d.cx..], a.after, |indent|);
  }

  /** What FlatOf sees after Enter: the cursor line in two, the second one indented. */
  lemma NewLines(d: Doc, before: seq<string>, line: string, after: seq<string>, cx: nat)
    requires InBounds(d) && d.cx <= |AroundCursor(d).line|
    requires before == AroundCursor(d).before + [AroundCursor(d).line[..d.cx]] && after == AroundCursor(d).after
    requires line == Indent(AroundCursor(d).line) + AroundCursor(d).line[d.cx..]
    requires cx == |Indent(AroundCursor(d).line)|
    ensures InBounds(InsertNewline(d)) && FlatOf(InsertNewline(d)) == FlatOf(Doc(before + [line] + after, cx, |before|))
  {
    var d' := InsertNewline(d);
    if d.cy < |d.lines| {
      assert d'.lines == before + [line] + after;
    } else {
      assert d'.lines + [""] == before + [line] + after;
      assert (before + [line] + after)[..|before|] == before && d'.cy == |before|;
    }
  }

  lemma InsertTwice(f: Flat, x: string, y: string)
    requires f.at <= |f.text|
    ensures Insert(f, x).at <= |Insert(f, x).text|
    ensures Insert(Insert(f, x), y) == Insert(f, x + y)
  {
    var g := Insert(f, x);
    assert g.text[..g.at] == f.text[..f.at] + x && g.text[g.at..] == f.text[f.at..];
  }

  lemma {:induction false} InsertCharsRefines(d: Doc, c: char, n: nat, f: Flat, x: string)
    requires InBounds(d) && c != '\n' && f == FlatOf(d) && x == seq(n, _ => c)
    ensures f.at <= |f.text| && InBounds(InsertChars(d, c, n)) && FlatOf(InsertChars(d, c, n)) == Insert(f, x)
    decreases n
  {
    InsertCharRefines(d, c, f);
    if n > 0 {
      var rest := seq(n - 1, _ => c);
      InsertCharsRefines(InsertChar(d, c), c, n - 1, Insert(f, [c]), rest);
      InsertTwice(f, [c], rest);
      assert x == [c] + rest;
    }
  }

  /** The text around two neighbouring lines, seen from either of them. */
  lemma TwoLines(before: seq<string>, upper: string, lower: string, after: seq<string>)
    ensures Serialized(before + [upper]) == Serialized(before) + upper + "\n"
    ensures Tail([lower] + after) == "\n" + lower + Tail(after)
    ensures Serialized(before + [upper]) + lower + Tail(after)
         == Serialized(before) + (upper + "\n" + lower) + Tail(after)
    ensures Serialized(before) + upper + Tail([lower] + after)
         == Serialized(before) + (upper + "\n" + lower) + Tail(after)
  {
    SerializedConcat(before, [upper]);
    assert Serialized([upper]) == upper + "\n";
    assert ([lower] + after)[1..] == after;
  }

  /** Removing the newline between them makes them one. */
  lemma JoinLines(s: string, upper: string, lower: string, t: string)
    ensures var text := s + (upper + "\n" + lower) + t;
            text[..|s| + |upper|] + text[|s| + |upper| + 1..] == s + (upper + lower) + t
  {
    var mid := upper + "\n" + lower;
    RemoveFrom(s, mid, t, |upper|, |upper| + 1);
    assert mid[..|upper|] + mid[|upper| + 1..] == upper + lower;
  }

  /** Removing character i of a line from the text. */
  lemma RemoveInLine(before: seq<string>, line: string, after: seq<string>, i: nat, f: Flat)
    requires i < |line| && f == Flat(Serialized(before) + line + Tail(after), |Serialized(before)| + i)
    ensures f.at < |f.text|
    ensures FlatOf(Doc(before + [line[..i] + line[i + 1..]] + after, i, |before|))
         == Flat(f.text[..f.at] + f.text[f.at + 1..], f.at)
  {
    RemoveFrom(Serialized(before), line, Tail(after), i, i + 1);
    FlatAt(before, line[..i] + line[i + 1..], after, i);
  }

  lemma DeleteBackInside(d: Doc, f: Flat)
    requires InBounds(d) && d.cy < |d.lines| && d.cx > 0 && f == FlatOf(d)
    ensures 0 < f.at <= |f.text| && InBounds(DeleteBack(d)) && FlatOf(DeleteBack(d)) == FlatApply(f, Backspace)
  {
    var a := AroundCursor(d);
    FlatAroundCursor(d);
    RemoveInLine(a.before, a.line, a.after, d.cx - 1, f.(at := f.at - 1));
    assert DeleteBack(d).lines == a.before + [a.line[..d.cx - 1] + a.line[d.cx..]] + a.after;
  }

  lemma DeleteBackRefines(d: Doc, f: Flat)
    requires InBounds(d) && d.cy < |d.lines| && f == FlatOf(d)
    ensures f.at <= |f.text| && InBounds(DeleteBack(d)) && FlatOf(DeleteBack(d)) == FlatApply(f, Backspace)
  {
    if d.cx > 0 {
      DeleteBackInside(d, f);
    } else if d.cy > 0 {
      DeleteBackJoins(d, f);
    } else {
      FlatAroundCursor(d);
    }
  }

  /** Removing the newline between two lines of the text. */
  lemma RemoveBreak(before: seq<string>, upper: string, lower: string, after: seq<string>, f: Flat)
    requires f == Flat(Serialized(before) + (upper + "\n" + lower) + Tail(after), |Serialized(before)| + |upper|)
    ensures f.at < |f.text|
    ensures FlatOf(Doc(before + [upper + lower] + after, |upper|, |before|))
         == Flat(f.text[..f.at] + f.text[f.at + 1..], f.at)
  {
    JoinLines(Serialized(before), upper, lower, Tail(after));
    FlatAt(before, upper + lower, after, |upper|);
  }

  lemma DeleteBackJoins(d: Doc, f: Flat)
    requires InBounds(d) && 0 < d.cy < |d.lines| && d.cx == 0 && f == FlatOf(d)
    ensures 0 < f.at <= |f.text| && InBounds(DeleteBack(d)) && FlatOf(DeleteBack(d)) == FlatApply(f, Backspace)
  {
    var a, upper := AroundCursor(d), d.lines[d.cy - 1];
    var before := d.lines[..d.cy - 1];
    FlatAroundCursor(d);
    assert a.before == before + [upper];
    TwoLines(before, upper, a.line, a.after);
    RemoveBreak(before, upper, a.line, a.after, f.(at := f.at - 1));
  }

  lemma DeleteForwardInside(d: Doc, f: Flat)
    requires InBounds(d) && d.cy < |d.lines| && d.cx < |d.lines[d.cy]| && f == FlatOf(d)
    ensures f.at < |f.text| && InBounds(DeleteForward(d)) && FlatOf(DeleteForward(d)) == FlatApply(f, Delete)
  {
    var a := AroundCursor(d);
    FlatAroundCursor(d);
    RemoveInLine(a.before, a.line, a.after, d.cx, f);
    assert DeleteForward(d).lines == a.before + [a.line[..d.cx] + a.line[d.cx + 1..]] + a.after;
  }

  lemma DeleteForwardRefines(d: Doc, f: Flat)
    requires InBounds(d) && f == FlatOf(d)
    ensures f.at <= |f.text| && InBounds(DeleteForward(d)) && FlatOf(DeleteForward(d)) == FlatApply(f, Delete)
  {
    if d.cy < |d.lines| && d.cx < |d.lines[d.cy]| {
      DeleteForwardInside(d, f);
    } else if d.cy < |d.lines| - 1 {
      DeleteForwardJoins(d, f);
    } else {
      FlatAroundCursor(d);
    }
  }

  lemma DeleteForwardJoins(d: Doc, f: Flat)
    requires InBounds(d) && d.cy < |d.lines| - 1 && d.cx == |d.lines[d.cy]| && f == FlatOf(d)
    ensures f.at < |f.text| && InBounds(DeleteForward(d)) && FlatOf(DeleteForward(d)) == FlatApply(f, Delete)
  {
    var a, lower, after := AroundCursor(d), d.lines[d.cy + 1], d.lines[d.cy + 2..];
    FlatAroundCursor(d);
    assert a.after == [lower] + after;
    TwoLines(a.before, a.line, lower, after);
    RemoveBreak(a.before, a.line, lower, after, f);
  }

  predicate Printable(e: Edit) {
    e.Typed? ==> e.c != '\n'
  }

  /** Editing the lines is editing the text at the cursor's offset, for every edit and every cursor
    * position but one: Backspace on the line after the last does nothing. */
  lemma EditRefines(d: Doc, e: Edit, f: Flat)
    requires InBounds(d) && Printable(e) && f == FlatOf(d)
    ensures f.at <= |f.text| && InBounds(Apply(d, e))
    ensures FlatOf(Apply(d, e)) == FlatApply(f, e) <==> e != Backspace || d.cy < |d.lines|
    ensures e == Backspace && d.cy == |d.lines| ==> Apply(d, e) == d
    ensures e == Enter ==> Entered(f, FlatOf(Apply(d, e)))
  {
    FlatAroundCursor(d);
    match e
    case Backspace =>
      if d.cy < |d.lines| {
        DeleteBackRefines(d, f);
      } else {
        SerializedIsJoin(d.lines);
      }
    case Delete => DeleteForwardRefines(d, f);
    case Enter => InsertNewlineRefines(d, f);
    case Tab => InsertCharsRefines(d, ' ', 4, f, "    ");
    case Typed(c) => InsertCharRefines(d, c, f);
  }
}
