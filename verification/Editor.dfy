/** The editor as it runs: one object whose lines, cursor and undo stack every key changes in place. */
module Editor {
  import opened EditorText
  import opened EditorSpec
  import opened EditorRuns

  /** The loop of line_indent_len, stopped at the size of the indentation buffer: the leading spaces and tabs, or
    * 255 when there are more. */
  method LineIndentLen(line: string) returns (n: nat)
    ensures n == IndentLen(line, INDENT_MAX) && BlanksFrom(line, 0, n)
  {
    n := 0;
    ghost var rest, limit := line, INDENT_MAX;
    while n < |line| && Blank(line[n])
      invariant n <= |line| && rest == line[n..] && limit == (if n < INDENT_MAX then INDENT_MAX - n else 0)
      invariant IndentLen(line, INDENT_MAX) == (if n < INDENT_MAX then n else INDENT_MAX) + IndentLen(rest, limit)
    {
      n, rest := n + 1, rest[1..];
      limit := if limit > 0 then limit - 1 else 0;
    }
    if n > INDENT_MAX {
      n := INDENT_MAX;
    }
  }

  /** The copying loop of a save and of a snapshot. */
  method Serialise(lines: seq<string>) returns (text: string)
    ensures text == Serialized(lines)
  {
    text := "";
    for i := 0 to |lines|
      invariant text == Serialized(lines[..i])
    {
      SerializedNext(lines, i);
      text := text + lines[i] + "\n";
    }
    assert lines[..|lines|] == lines;
  }

  /** memchr for a newline from p on. */
  method FindNewline(text: string, p: nat) returns (n: nat)
    requires p <= |text|
    ensures n == p + NewlineAt(text[p..])
  {
    n := p;
    while n < |text| && text[n] != '\n'
      invariant p <= n <= |text| && n + NewlineAt(text[n..]) == p + NewlineAt(text[p..])
    {
      assert text[n..][1..] == text[n + 1..];
      n := n + 1;
    }
  }

  /** The splitting loop of a load and of an undo. */
  method Parse(text: string) returns (lines: seq<string>)
    ensures lines == Loaded(text)
  {
    lines := [];
    var p := 0;
    assert text[0..] == text;
    while p < |text|
      invariant p <= |text| && lines + Split(text[p..]) == Split(text)
      decreases |text| - p
    {
      var nl := FindNewline(text, p);
      SplitNext(text, p, nl);
      var line := text[p..nl];
      p := if nl < |text| then nl + 1 else |text|;
      AppendAssoc(lines, line, Split(text[p..]));
      lines := lines + [line];
    }
    if |lines| == 0 {
      lines := [""];
    }
  }

  lemma AppendAssoc(a: seq<string>, x: string, b: seq<string>)
    ensures a + ([x] + b) == (a + [x]) + b
  {
  }

  lemma SplitNext(text: string, p: nat, nl: nat)
    requires p < |text| && nl == p + NewlineAt(text[p..])
    ensures nl <= |text|
    ensures Split(text[p..]) == [text[p..nl]] + Split(text[(if nl < |text| then nl + 1 else |text|)..])
  {
    var rest, n := text[p..], NewlineAt(text[p..]);
    assert rest[..n] == text[p..nl];
    if nl < |text| {
      assert rest[n + 1..] == text[nl + 1..];
    } else {
      assert text[|text|..] == "";
    }
  }

  class EditorState {
    var lines: seq<string>
    var cx: int
    var cy: int
    var dirty: bool
    var quitConfirm: nat
    var shouldQuit: bool
    const undoStack: array<Snap>
    var undoCount: nat
    var file: string
    const rows: int

    ghost predicate Valid()
      reads this, undoStack
    {
      && undoStack.Length == UNDO_MAX && undoCount <= UNDO_MAX
      && cx >= 0 && cy >= 0 && InBounds(Doc(lines, cx, cy))
    }

    ghost function Session(): EditorRuns.Session
      requires Valid()
      reads this, undoStack
    {
      EditorRuns.Session(Doc(lines, cx, cy), dirty, quitConfirm, shouldQuit, undoStack[..undoCount], file, rows)
    }

    /** editor_open on a file with this content; a missing file is created empty. */
    constructor (file: string, rows: int)
      ensures Valid() && Session() == Opened(file, rows) && fresh(undoStack)
      ensures lines == Loaded(file) && cx == 0 && cy == 0 && !dirty && undoCount == 0 && !shouldQuit
    {
      var loaded := Parse(file);
      lines, cx, cy := loaded, 0, 0;
      dirty, quitConfirm, shouldQuit := false, 1, false;
      undoStack, undoCount := new Snap[UNDO_MAX](_ => Snap("", 0, 0)), 0;
      this.file, this.rows := file, rows;
      new;
      SplitIsClean(file);
    }

    // ---- editing: each method's lines and cursor are those of the function of the same name ----

    method AppendEmptyLine()
      modifies this`lines
      ensures lines == old(lines) + [""]
    {
      lines := lines + [""];
    }

    method InsertChar(c: char)
      requires 0 <= cx && 0 <= cy <= |lines|
      modifies this`lines, this`cx, this`dirty
      ensures cx >= 0 && dirty && Doc(lines, cx, cy) == EditorSpec.InsertChar(old(Doc(lines, cx, cy)), c)
    {
      if cy == |lines| {
        AppendEmptyLine();
      }
      var line := lines[cy];
      var at := if cx > |line| then |line| else cx;
      lines := lines[cy := line[..at] + [c] + line[at..]];
      cx := cx + 1;
      dirty := true;
    }

    method InsertNewline()
      requires 0 <= cx && 0 <= cy && InBounds(Doc(lines, cx, cy))
      modifies this`lines, this`cx, this`cy, this`dirty
      ensures cx >= 0 && cy >= 0 && dirty && Doc(lines, cx, cy) == EditorSpec.InsertNewline(old(Doc(lines, cx, cy)))
      ensures cy == old(cy) + 1 && |lines| == |old(lines)| + 1
      ensures old(cy < |lines|) ==>
                && BlanksFrom(old(lines[cy]), 0, cx)
                && lines[cy] == old(lines[cy])[..cx] + old(lines[cy][cx..]) && lines[old(cy)] == old(lines[cy][..cx])
      ensures old(cy == |lines|) ==> cx == 0 && lines == old(lines) + [""]
    {
      var indent := 0;
      if cy < |lines| {
        indent := LineIndentLen(lines[cy]);
      }
      if cy == |lines| {
        AppendEmptyLine();
      } else {
        var line := lines[cy];
        lines := lines[..cy] + [line[..cx], line[..indent] + line[cx..]] + lines[cy + 1..];
      }
      cy := cy + 1;
      cx := indent;
      dirty := true;
    }

    method DeleteChar()
      requires 0 <= cx && 0 <= cy && InBounds(Doc(lines, cx, cy))
      modifies this`lines, this`cx, this`cy, this`dirty
      ensures cx >= 0 && cy >= 0 && Doc(lines, cx, cy) == DeleteBack(old(Doc(lines, cx, cy)))
      ensures dirty == (old(dirty) || Dirties(old(Doc(lines, cx, cy)), Backspace))
    {
      if cy == |lines| {
        return;
      }
      var line := lines[cy];
      if cx > 0 {
        lines := lines[cy := line[..cx - 1] + line[cx..]];
        cx := cx - 1;
      } else if cy > 0 {
        var prev := lines[cy - 1];
        cx := |prev|;
        lines := lines[..cy - 1] + [prev + line] + lines[cy + 1..];
        cy := cy - 1;
      }
      dirty := true;
    }

    method DeleteForward()
      requires 0 <= cx && 0 <= cy && InBounds(Doc(lines, cx, cy))
      modifies this`lines, this`dirty
      ensures Doc(lines, cx, cy) == EditorSpec.DeleteForward(old(Doc(lines, cx, cy)))
      ensures dirty == (old(dirty) || Dirties(old(Doc(lines, cx, cy)), Delete))
    {
      if cy == |lines| {
        return;
      }
      var line := lines[cy];
      if cx < |line| {
        lines := lines[cy := line[..cx] + line[cx + 1..]];
        dirty := true;
      } else if cy < |lines| - 1 {
        lines := lines[..cy] + [line + lines[cy + 1]] + lines[cy + 2..];
        dirty := true;
      }
    }

    method InsertTab()
      requires 0 <= cx && 0 <= cy && InBounds(Doc(lines, cx, cy))
      modifies this`lines, this`cx, this`dirty
      ensures cx >= 0 && dirty && Doc(lines, cx, cy) == InsertChars(old(Doc(lines, cx, cy)), ' ', 4)
    {
      ghost var whole := InsertChars(Doc(lines, cx, cy), ' ', 4);
      for i := 0 to 4
        invariant 0 <= cx && 0 <= cy <= |lines| && cy == old(cy) && (i > 0 ==> dirty)
        invariant InsertChars(Doc(lines, cx, cy), ' ', 4 - i) == whole
      {
        InsertChar(' ');
      }
    }

    method Change(e: Edit)
      requires 0 <= cx && 0 <= cy && InBounds(Doc(lines, cx, cy))
      modifies this`lines, this`cx, this`cy, this`dirty
      ensures cx >= 0 && cy >= 0 && Doc(lines, cx, cy) == Apply(old(Doc(lines, cx, cy)), e)
      ensures dirty == (old(dirty) || Dirties(old(Doc(lines, cx, cy)), e))
    {
      match e
      case Backspace => DeleteChar();
      case Delete => DeleteForward();
      case Enter => InsertNewline();
      case Tab => InsertTab();
      case Typed(c) => InsertChar(c);
    }

    method ClampCursor()
      modifies this`cx, this`cy
      ensures cx >= 0 && cy >= 0 && Doc(lines, cx, cy) == Clamp(lines, old(cx), old(cy))
    {
      if cy < 0 { cy := 0; }
      if cy > |lines| { cy := |lines|; }
      var len := if cy < |lines| then |lines[cy]| else 0;
      if cx < 0 { cx := 0; }
      if cx > len { cx := len; }
    }

    // ---- undo ----

    /** The memmove that drops the oldest snapshot. */
    method DropOldest()
      requires undoStack.Length == UNDO_MAX && undoCount == UNDO_MAX
      modifies this`undoCount, undoStack
      ensures undoCount == UNDO_MAX - 1 && undoStack[..undoCount] == old(undoStack[1..])
    {
      for j := 0 to UNDO_MAX - 1
        invariant undoCount == UNDO_MAX
        invariant forall k | 0 <= k < UNDO_MAX ::
                    undoStack[k] == if k < j then old(undoStack[k + 1]) else old(undoStack[k])
      {
        undoStack[j] := undoStack[j + 1];
      }
      undoCount := undoCount - 1;
    }

    /** Room for one more snapshot: the oldest gives way. */
    method MakeRoom()
      requires Valid()
      modifies this`undoCount, undoStack
      ensures Valid() && undoCount < UNDO_MAX
      ensures Session() == old(Session()).(undo := Roomy(old(Session()).undo))
    {
      ghost var undo := undoStack[..undoCount];
      if undoCount == UNDO_MAX {
        assert undo[1..] == undoStack[1..];
        DropOldest();
      }
    }

    method Put(s: Snap)
      requires Valid() && undoCount < UNDO_MAX
      modifies this`undoCount, undoStack
      ensures Valid() && Session() == old(Session()).(undo := old(Session()).undo + [s])
    {
      ghost var undo := undoStack[..undoCount];
      undoStack[undoCount] := s;
      undoCount := undoCount + 1;
      assert undoStack[..undoCount] == undo + [s];
    }

    method SnapPush()
      requires Valid()
      modifies this`undoCount, undoStack
      ensures Valid() && Session() == old(Session()).(undo := Pushed(old(Session()).undo, SnapOf(old(Session()).doc)))
    {
      if |lines| == 0 {
        return;
      }
      var text := Serialise(lines);
      MakeRoom();
      Put(Snap(text, cx, cy));
    }

    method SnapPop()
      requires Valid()
      modifies this`lines, this`cx, this`cy, this`dirty, this`undoCount
      ensures Valid() && Session() == Popped(old(Session()))
    {
      if undoCount == 0 {
        return;
      }
      undoCount := undoCount - 1;
      assert old(undoStack[..undoCount])[..undoCount] == undoStack[..undoCount];
      Restore(undoStack[undoCount]);
      dirty := true;
    }

    /** The lines and the cursor of a snapshot. */
    method Restore(top: Snap)
      modifies this`lines, this`cx, this`cy
      ensures cx >= 0 && cy >= 0 && InBounds(Doc(lines, cx, cy))
      ensures Doc(lines, cx, cy) == Clamp(Loaded(top.text), top.cx, top.cy)
    {
      lines := Parse(top.text);
      SplitIsClean(top.text);
      cx := top.cx;
      cy := top.cy;
      ClampCursor();
      ClampInBounds(lines, top.cx, top.cy);
    }

    // ---- keys ----

    method MoveCursor(m: Move)
      requires Valid()
      modifies this`cx, this`cy
      ensures cx >= 0 && cy >= 0 && Doc(lines, cx, cy) == Moved(old(Session()).doc, m, rows)
    {
      match m
      case Up => cy := cy - 1; ClampCursor();
      case Down => cy := cy + 1; ClampCursor();
      case Left =>
        if cx > 0 {
          cx := cx - 1;
        } else if cy > 0 {
          cy := cy - 1;
          cx := |lines[cy]|;
        }
      case Right =>
        if cy < |lines| {
          if cx < |lines[cy]| {
            cx := cx + 1;
          } else {
            cy, cx := cy + 1, 0;
          }
        }
      case Home => cx := 0;
      case End =>
        if cy < |lines| {
          cx := |lines[cy]|;
        }
      case PageUp => cy := cy - rows; ClampCursor();
      case PageDown => cy := cy + rows; ClampCursor();
    }

    /** editor_save: whatever the file system says, the buffer is only marked saved when it accepts. */
    method Save(verdict: Verdict)
      requires Valid()
      modifies this`file, this`dirty, this`quitConfirm
      ensures Valid() && Session() == Press(old(Session()), SaveKey(verdict))
    {
      var text := Serialise(lines);
      match verdict
      case Accepted =>
        file := text;
        dirty := false;
        quitConfirm := 1;
      case Refused(left) => file := left;
    }

    /** An editing key: a snapshot, then the change. */
    method SnapAndChange(e: Edit)
      requires Valid() && Printable(e)
      modifies this, undoStack
      ensures Valid() && Session() == Press(old(Session()), EditKey(e))
    {
      ghost var doc := Doc(lines, cx, cy);
      SnapPush();
      AppliedInBounds(doc, e);
      Change(e);
    }

    /** Ctrl+Q: a changed buffer asks once. */
    method Quit()
      requires Valid()
      modifies this`quitConfirm, this`shouldQuit
      ensures Valid() && Session() == Press(old(Session()), QuitKey)
    {
      if dirty && quitConfirm > 0 {
        quitConfirm := quitConfirm - 1;
      } else {
        shouldQuit := true;
      }
    }

    /** editor_process_key. */
    method ProcessKey(k: Key)
      requires Valid() && KeyOk(k)
      modifies this, undoStack
      ensures Valid() && Session() == Press(old(Session()), k)
    {
      match k {
        case EditKey(e) => SnapAndChange(e);
        case MoveKey(m) =>
          MovedInBounds(Doc(lines, cx, cy), m, rows);
          MoveCursor(m);
        case UndoKey => SnapPop();
        case SaveKey(verdict) => Save(verdict);
        case QuitKey => Quit();
        case OtherKey =>
      }
      ClampStays(Doc(lines, cx, cy));
      ClampCursor();
    }
  }
}
