/** Whole editing sessions: keys, the bounded undo stack, saving and quitting (shell/editor.c). */
module EditorRuns {
  import opened EditorText
  import opened EditorSpec

  const UNDO_MAX := 50

  /** An undo snapshot: the serialised text and the cursor. */
  datatype Snap = Snap(text: string, cx: nat, cy: nat)

  datatype Move = Up | Down | Left | Right | Home | End | PageUp | PageDown

  /** What the file system makes of a save. A write that fails may have overwritten blocks of the file
    * (Failures.FailedWriteMixes): `left` is whatever the file holds then. */
  datatype Verdict = Accepted | Refused(left: string)

  /** A key press; typed characters are the printable ASCII ones. Searching is not modelled. */
  datatype Key = EditKey(edit: Edit) | MoveKey(move: Move) | UndoKey | SaveKey(verdict: Verdict) | QuitKey | OtherKey

  /** `file` is what the file holds; `rows` is the height of the screen. */
  datatype Session = Session(doc: Doc, dirty: bool, quitConfirm: nat, quit: bool, undo: seq<Snap>,
                             file: string, rows: int)

  ghost predicate KeyOk(k: Key) {
    k.EditKey? ==> Printable(k.edit)
  }

  function Clamp(lines: seq<string>, cx: int, cy: int): Doc {
    var cy' := if cy < 0 then 0 else if cy > |lines| then |lines| else cy;
    var len := if cy' < |lines| then |lines[cy']| else 0;
    Doc(lines, if cx < 0 then 0 else if cx > len then len else cx, cy')
  }

  function Moved(d: Doc, m: Move, rows: int): Doc
    requires d.cy <= |d.lines|
  {
    match m
    case Up => Clamp(d.lines, d.cx, d.cy - 1)
    case Down => Clamp(d.lines, d.cx, d.cy + 1)
    case Left => if d.cx > 0 then d.(cx := d.cx - 1)
                 else if d.cy > 0 then Doc(d.lines, |d.lines[d.cy - 1]|, d.cy - 1) else d
    case Right => if d.cy == |d.lines| then d
                  else if d.cx < |d.lines[d.cy]| then d.(cx := d.cx + 1) else Doc(d.lines, 0, d.cy + 1)
    case Home => d.(cx := 0)
    case End => d.(cx := if d.cy < |d.lines| then |d.lines[d.cy]| else d.cx)
    case PageUp => Clamp(d.lines, d.cx, d.cy - rows)
    case PageDown => Clamp(d.lines, d.cx, d.cy + rows)
  }

  function SnapOf(d: Doc): Snap {
    Snap(Serialized(d.lines), d.cx, d.cy)
  }

  /** A full stack loses its oldest snapshot. */
  function Roomy(undo: seq<Snap>): seq<Snap> {
    if |undo| == UNDO_MAX then undo[1..] else undo
  }

  /** editor_snap_push. */
  function Pushed(undo: seq<Snap>, s: Snap): seq<Snap> {
    Roomy(undo) + [s]
  }

  /** editor_snap_pop. */
  function Popped(s: Session): Session {
    if s.undo == [] then s
    else
      var top := s.undo[|s.undo| - 1];
      s.(doc := Clamp(Loaded(top.text), top.cx, top.cy), dirty := true, undo := s.undo[..|s.undo| - 1])
  }

  /** Deleting marks the buffer changed in some cases where it is not, and never the other way round. */
  function Dirties(d: Doc, e: Edit): bool {
    match e
    case Backspace => d.cy < |d.lines|
    case Delete => d.cy < |d.lines| && (d.cx < |d.lines[d.cy]| || d.cy < |d.lines| - 1)
    case _ => true
  }

  /** editor_process_key before its final clamp, which changes nothing (ClampStays). */
  function Press(s: Session, k: Key): Session
    requires s.doc.cy <= |s.doc.lines| && s.doc.cx <= LineLen(s.doc)
  {
    match k
    case EditKey(e) =>
      s.(doc := Apply(s.doc, e), dirty := s.dirty || Dirties(s.doc, e), undo := Pushed(s.undo, SnapOf(s.doc)))
    case MoveKey(m) => s.(doc := Moved(s.doc, m, s.rows))
    case UndoKey => Popped(s)
    case SaveKey(Accepted) => s.(file := Serialized(s.doc.lines), dirty := false, quitConfirm := 1)
    case SaveKey(Refused(left)) => s.(file := left)
    case QuitKey => if s.dirty && s.quitConfirm > 0 then s.(quitConfirm := s.quitConfirm - 1) else s.(quit := true)
    case OtherKey => s
  }

  /** editor_open on a file with this content. */
  function Opened(file: string, rows: int): Session {
    Session(Doc(Loaded(file), 0, 0), false, 1, false, [], file, rows)
  }

  lemma ClampStays(d: Doc)
    requires InBounds(d)
    ensures Clamp(d.lines, d.cx, d.cy) == d
  {
  }

  lemma ClampInBounds(lines: seq<string>, cx: int, cy: int)
    requires lines != [] && Clean(lines)
    ensures InBounds(Clamp(lines, cx, cy))
  {
  }

  // ---- where the cursor keys lead in the flat text ----

  lemma HomeInText(d: Doc, f: Flat)
    requires InBounds(d) && f == FlatOf(d)
    ensures f.at <= |f.text| && FlatOf(Moved(d, Home, 0)).at == LineStart(f.text, f.at)
  {
    var a := AroundCursor(d);
    FlatAroundCursor(d);
    SerializedEnds(a.before);
    LineStartOf(Serialized(a.before), a.line, d.cx, Tail(a.after));
  }

  lemma EndInText(d: Doc, f: Flat)
    requires InBounds(d) && f == FlatOf(d)
    ensures f.at <= |f.text| && FlatOf(Moved(d, End, 0)).at == f.at + NewlineAt(f.text[f.at..])
  {
    var a := AroundCursor(d);
    FlatAroundCursor(d);
    RestOfText(Serialized(a.before), a.line, Tail(a.after), d.cx);
    NewlineOf(a.line[d.cx..], Tail(a.after));
  }

  lemma RestOfText(s: string, line: string, t: string, cx: nat)
    requires cx <= |line|
    ensures (s + line + t)[|s| + cx..] == line[cx..] + t
  {
  }

  /** Left and Right go one offset back and forth, joins of lines included; Home and End go to the ends of
    * the line the offset is on. */
  lemma MovesInText(d: Doc, rows: int, f: Flat)
    requires InBounds(d) && f == FlatOf(d)
    ensures f.at <= |f.text|
    ensures FlatOf(Moved(d, Left, rows)).at == if f.at == 0 then 0 else f.at - 1
    ensures FlatOf(Moved(d, Right, rows)).at == if d.cy == |d.lines| then f.at else f.at + 1
    ensures FlatOf(Moved(d, Home, rows)).at == LineStart(f.text, f.at)
    ensures FlatOf(Moved(d, End, rows)).at == f.at + NewlineAt(f.text[f.at..])
  {
    HomeInText(d, f);
    EndInText(d, f);
    StepInText(d, f);
  }

  lemma StepInText(d: Doc, f: Flat)
    requires InBounds(d) && f == FlatOf(d)
    ensures FlatOf(Moved(d, Left, 0)).at == if f.at == 0 then 0 else f.at - 1
    ensures FlatOf(Moved(d, Right, 0)).at == if d.cy == |d.lines| then f.at else f.at + 1
  {
    AtIsOffset(d);
    AtIsOffset(Moved(d, Left, 0));
    AtIsOffset(Moved(d, Right, 0));
    if d.cy > 0 {
      SerializedNext(d.lines, d.cy - 1);
    }
    if d.cy < |d.lines| {
      SerializedNext(d.lines, d.cy);
    }
  }

  lemma AtIsOffset(d: Doc)
    requires d.lines != [] && d.cy <= |d.lines|
    ensures FlatOf(d).at == |Serialized(d.lines[..d.cy])| + d.cx
  {
    if d.cy == |d.lines| {
      assert (d.lines + [""])[..d.cy] == d.lines[..d.cy];
    }
  }

  function Within(k: int, low: int, high: int): int {
    if k < low then low else if k > high then high else k
  }

  /** d' is d with the cursor `down` lines further down, cut at the ends of the text, in the same column or, on a
    * shorter line, at its end. The line after the last is empty. */
  ghost predicate MovedLines(d: Doc, d': Doc, down: int) {
    && d'.lines == d.lines
    && d'.cy == Within(d.cy + down, 0, |d.lines|)
    && d'.cx == Within(d.cx, 0, LineLen(d'))
  }

  /** Up and Down go one line, PageUp and PageDown a screen. */
  lemma VerticalMoves(d: Doc, rows: int)
    requires InBounds(d)
    ensures MovedLines(d, Moved(d, Up, rows), -1) && MovedLines(d, Moved(d, Down, rows), 1)
    ensures MovedLines(d, Moved(d, PageUp, rows), -rows) && MovedLines(d, Moved(d, PageDown, rows), rows)
  {
  }

  // ---- the reference: unbounded history, of which at most the last fifty steps may be undone ----

  datatype Ideal = Ideal(doc: Doc, history: seq<Doc>, depth: nat)

  function IdealPress(i: Ideal, k: Key, rows: int): Ideal
    requires i.doc.cy <= |i.doc.lines| && i.doc.cx <= LineLen(i.doc) && i.depth <= |i.history|
  {
    match k
    case EditKey(e) => Ideal(Apply(i.doc, e), i.history + [i.doc], if i.depth < UNDO_MAX then i.depth + 1 else i.depth)
    case MoveKey(m) => i.(doc := Moved(i.doc, m, rows))
    case UndoKey =>
      if i.depth == 0 then i
      else Ideal(i.history[|i.history| - 1], i.history[..|i.history| - 1], i.depth - 1)
    case _ => i
  }

  ghost predicate AllInBounds(docs: seq<Doc>) {
    forall j | 0 <= j < |docs| :: InBounds(docs[j])
  }

  /** The stack holds the last `depth` documents of the history, serialised. */
  ghost predicate Refines(s: Session, i: Ideal) {
    && s.doc == i.doc && InBounds(i.doc) && AllInBounds(i.history)
    && Stacked(s.undo, i.history, i.depth) && i.depth <= UNDO_MAX
  }

  lemma MovedInBounds(d: Doc, m: Move, rows: int)
    requires InBounds(d)
    ensures InBounds(Moved(d, m, rows))
  {
  }

  lemma AppliedInBounds(d: Doc, e: Edit)
    requires InBounds(d) && Printable(e)
    ensures InBounds(Apply(d, e))
  {
    EditRefines(d, e, FlatOf(d));
  }

  lemma PushRefines(s: Session, i: Ideal, doc: Doc)
    requires Refines(s, i) && InBounds(doc)
    ensures Refines(s.(doc := doc, undo := Pushed(s.undo, SnapOf(s.doc))),
                    Ideal(doc, i.history + [i.doc], if i.depth < UNDO_MAX then i.depth + 1 else i.depth))
  {
    RoomyRefines(s.undo, i.history, i.depth);
  }

  /** The stack holds the snapshots of the most recent documents. */
  ghost predicate Stacked(undo: seq<Snap>, history: seq<Doc>, depth: nat) {
    && |undo| == depth <= |history|
    && forall j | 0 <= j < depth :: undo[j] == SnapOf(history[|history| - depth + j])
  }

  lemma RoomyRefines(undo: seq<Snap>, history: seq<Doc>, depth: nat)
    requires Stacked(undo, history, depth) && depth <= UNDO_MAX
    ensures Stacked(Roomy(undo), history, if depth == UNDO_MAX then depth - 1 else depth)
  {
  }

  /** Restoring a snapshot gives back the document it was taken of. */
  lemma SnapRestores(d: Doc)
    requires InBounds(d)
    ensures Clamp(Loaded(SnapOf(d).text), SnapOf(d).cx, SnapOf(d).cy) == d
  {
    SplitSerialized(d.lines);
  }

  lemma PopRefines(s: Session, i: Ideal)
    requires Refines(s, i) && i.depth > 0
    ensures var n := |i.history| - 1; Refines(Popped(s), Ideal(i.history[n], i.history[..n], i.depth - 1))
  {
    SnapRestores(i.history[|i.history| - 1]);
  }

  /** One key: the editor with its bounded stack does what the reference does. */
  lemma PressRefines(s: Session, i: Ideal, k: Key)
    requires Refines(s, i) && KeyOk(k)
    ensures Refines(Press(s, k), IdealPress(i, k, s.rows)) && Press(s, k).rows == s.rows
  {
    match k
    case EditKey(e) => EditRefinesIdeal(s, i, e);
    case UndoKey =>
      if i.depth > 0 {
        PopRefines(s, i);
      }
    case _ => OtherRefines(s, i, k);
  }

  lemma OtherRefines(s: Session, i: Ideal, k: Key)
    requires Refines(s, i) && !k.EditKey? && !k.UndoKey?
    ensures Refines(Press(s, k), IdealPress(i, k, s.rows)) && Press(s, k).rows == s.rows
  {
    if k.MoveKey? {
      MovedInBounds(s.doc, k.move, s.rows);
    }
  }

  lemma EditRefinesIdeal(s: Session, i: Ideal, e: Edit)
    requires Refines(s, i) && Printable(e)
    ensures Refines(Press(s, EditKey(e)), IdealPress(i, EditKey(e), s.rows)) && Press(s, EditKey(e)).rows == s.rows
  {
    AppliedInBounds(s.doc, e);
    PushRefines(s.(dirty := s.dirty || Dirties(s.doc, e)), i, Apply(s.doc, e));
  }

  // ---- runs ----

  ghost predicate KeysOk(keys: seq<Key>) {
    forall j | 0 <= j < |keys| :: KeyOk(keys[j])
  }

  /** The session after pressing these keys; a key that left the cursor outside the text would end it. */
  function Run(s: Session, keys: seq<Key>): Session
    decreases |keys|
  {
    if keys == [] then s
    else Next(Run(s, keys[..|keys| - 1]), keys[|keys| - 1])
  }

  /** One more key; a cursor outside the text does not occur. */
  function Next(s: Session, k: Key): Session {
    if s.doc.cy <= |s.doc.lines| && s.doc.cx <= LineLen(s.doc) then Press(s, k) else s
  }

  lemma RunSnoc(s: Session, keys: seq<Key>, k: Key)
    ensures Run(s, keys + [k]) == Next(Run(s, keys), k)
  {
    assert (keys + [k])[..|keys|] == keys;
  }

  function IdealRun(i: Ideal, keys: seq<Key>, rows: int): Ideal
    decreases |keys|
  {
    if keys == [] then i
    else
      var before := IdealRun(i, keys[..|keys| - 1], rows);
      if before.doc.cy <= |before.doc.lines| && before.doc.cx <= LineLen(before.doc) && before.depth <= |before.history|
      then IdealPress(before, keys[|keys| - 1], rows) else before
  }

  /** Every session is one of the reference editor. */
  lemma {:induction false} RunRefines(s: Session, i: Ideal, keys: seq<Key>)
    requires Refines(s, i) && KeysOk(keys)
    ensures Refines(Run(s, keys), IdealRun(i, keys, s.rows)) && Run(s, keys).rows == s.rows
    decreases |keys|
  {
    if keys != [] {
      var front := keys[..|keys| - 1];
      RunRefines(s, i, front);
      PressRefines(Run(s, front), IdealRun(i, front, s.rows), keys[|keys| - 1]);
    }
  }

  lemma OpenedRefines(file: string, rows: int)
    ensures Refines(Opened(file, rows), Ideal(Doc(Loaded(file), 0, 0), [], 0))
  {
    SplitIsClean(file);
  }

  // ---- undoing ----

  ghost predicate NoUndo(keys: seq<Key>) {
    forall j | 0 <= j < |keys| :: !keys[j].UndoKey?
  }

  /** The documents just before each edit of the run. */
  function Befores(s: Session, keys: seq<Key>): seq<Doc>
    decreases |keys|
  {
    if keys == [] then []
    else
      var front := keys[..|keys| - 1];
      Befores(s, front) + (if keys[|keys| - 1].EditKey? then [Run(s, front).doc] else [])
  }

  function Undos(j: nat): seq<Key> {
    seq(j, _ => UndoKey)
  }

  lemma {:induction false} HistoryGrows(s: Session, i: Ideal, keys: seq<Key>)
    requires Refines(s, i) && KeysOk(keys) && NoUndo(keys)
    ensures var i' := IdealRun(i, keys, s.rows);
            && i'.history == i.history + Befores(s, keys)
            && i'.depth == if i.depth + |Befores(s, keys)| < UNDO_MAX then i.depth + |Befores(s, keys)| else UNDO_MAX
    decreases |keys|
  {
    if keys != [] {
      var front := keys[..|keys| - 1];
      HistoryGrows(s, i, front);
      RunRefines(s, i, front);
    }
  }

  lemma {:induction false} UndosUnwind(i: Ideal, j: nat, rows: int)
    requires InBounds(i.doc) && AllInBounds(i.history) && 1 <= j <= i.depth <= |i.history|
    ensures var n := |i.history| - j;
            IdealRun(i, Undos(j), rows) == Ideal(i.history[n], i.history[..n], i.depth - j)
  {
    assert Undos(j)[..j - 1] == Undos(j - 1);
    if j > 1 {
      UndosUnwind(i, j - 1, rows);
    } else {
      assert Undos(0) == [];
    }
  }

  lemma {:induction false} RunConcat(s: Session, a: seq<Key>, b: seq<Key>)
    ensures Run(s, a + b) == Run(Run(s, a), b)
    decreases |b|
  {
    if b == [] {
      assert a + b == a;
    } else {
      var front, k := b[..|b| - 1], b[|b| - 1];
      RunConcat(s, a, front);
      RunSnoc(s, a + front, k);
      RunSnoc(Run(s, a), front, k);
      ConcatSnoc(a, b, front, k);
    }
  }

  lemma ConcatSnoc(a: seq<Key>, b: seq<Key>, front: seq<Key>, k: Key)
    requires b != [] && front == b[..|b| - 1] && k == b[|b| - 1]
    ensures b == front + [k] && a + b == (a + front) + [k]
  {
  }

  /** Undo is exact: at any point of a session, after any edits and cursor moves, j undos restore lines
    * and cursor as they were just before the j-th most recent edit, for every j up to 50. */
  lemma UndoIsExact(file: string, rows: int, earlier: seq<Key>, keys: seq<Key>, j: nat)
    requires KeysOk(earlier) && KeysOk(keys) && NoUndo(keys)
    requires 1 <= j <= 50 && j <= |Befores(Run(Opened(file, rows), earlier), keys)|
    ensures var s := Run(Opened(file, rows), earlier);
            Run(s, keys + Undos(j)).doc == Befores(s, keys)[|Befores(s, keys)| - j]
  {
    var i := RefinedFromOpening(file, rows, earlier);
    UndoIsExactFrom(Run(Opened(file, rows), earlier), i, keys, j);
  }

  lemma RefinedFromOpening(file: string, rows: int, keys: seq<Key>) returns (i: Ideal)
    requires KeysOk(keys)
    ensures Refines(Run(Opened(file, rows), keys), i)
  {
    var i0 := Ideal(Doc(Loaded(file), 0, 0), [], 0);
    OpenedRefines(file, rows);
    RunRefines(Opened(file, rows), i0, keys);
    i := IdealRun(i0, keys, rows);
  }

  lemma RefinedWithHistory(s: Session, i: Ideal, keys: seq<Key>) returns (i': Ideal)
    requires Refines(s, i) && KeysOk(keys) && NoUndo(keys)
    ensures Refines(Run(s, keys), i') && i'.history == i.history + Befores(s, keys)
    ensures i'.depth == UNDO_MAX || i'.depth >= |Befores(s, keys)|
  {
    RunRefines(s, i, keys);
    HistoryGrows(s, i, keys);
    i' := IdealRun(i, keys, s.rows);
  }

  lemma UndoIsExactFrom(s: Session, i: Ideal, keys: seq<Key>, j: nat)
    requires Refines(s, i) && KeysOk(keys) && NoUndo(keys)
    requires 1 <= j <= UNDO_MAX && j <= |Befores(s, keys)|
    ensures Run(s, keys + Undos(j)).doc == Befores(s, keys)[|Befores(s, keys)| - j]
  {
    var i' := RefinedWithHistory(s, i, keys);
    RunConcat(s, keys, Undos(j));
    UndosAfter(Run(s, keys), i', i.history, Befores(s, keys), j);
  }

  lemma UndosAfter(s: Session, i: Ideal, history: seq<Doc>, befores: seq<Doc>, j: nat)
    requires Refines(s, i) && i.history == history + befores
    requires 1 <= j <= |befores| && j <= i.depth
    ensures Run(s, Undos(j)).doc == befores[|befores| - j]
  {
    UndosRestore(s, i, j);
  }

  lemma UndosRestore(s: Session, i: Ideal, j: nat)
    requires Refines(s, i) && 1 <= j <= i.depth
    ensures Run(s, Undos(j)).doc == i.history[|i.history| - j]
  {
    UndosUnwind(i, j, s.rows);
    RunRefines(s, i, Undos(j));
  }

  // ---- what a clean buffer and the first Ctrl+Q are worth ----

  lemma LoadedSerialized(lines: seq<string>)
    requires lines != [] && Clean(lines)
    ensures Loaded(Serialized(lines)) == lines
  {
    SplitSerialized(lines);
  }

  /** What the editor believes to be in the file: what it read there, or saved there last. */
  ghost function Trusted(file: string, rows: int, keys: seq<Key>): string
    requires KeysOk(keys)
    decreases |keys|
  {
    if keys == [] then file
    else
      var front := keys[..|keys| - 1];
      if keys[|keys| - 1] == SaveKey(Accepted) then Serialized(Run(Opened(file, rows), front).doc.lines)
      else Trusted(file, rows, front)
  }

  lemma SessionInBounds(file: string, rows: int, keys: seq<Key>)
    requires KeysOk(keys)
    ensures InBounds(Run(Opened(file, rows), keys).doc)
  {
    OpenedRefines(file, rows);
    RunRefines(Opened(file, rows), Ideal(Doc(Loaded(file), 0, 0), [], 0), keys);
  }

  lemma PressKeepsTrust(s: Session, k: Key, trusted: string)
    requires InBounds(s.doc) && (!s.dirty ==> Loaded(trusted) == s.doc.lines)
    ensures var s' := Press(s, k);
            var trusted' := if k == SaveKey(Accepted) then Serialized(s.doc.lines) else trusted;
            !s'.dirty ==> Loaded(trusted') == s'.doc.lines
  {
    match k
    case EditKey(e) =>
      if !Dirties(s.doc, e) {
        OnlyEditsDirty(s.doc, e);
      }
    case SaveKey(Accepted) => LoadedSerialized(s.doc.lines);
    case _ =>
  }

  /** An edit that does not mark the buffer changed does not change it. */
  lemma OnlyEditsDirty(d: Doc, e: Edit)
    requires InBounds(d) && !Dirties(d, e)
    ensures Apply(d, e).lines == d.lines
  {
  }

  /** A buffer not marked changed is what the editor read or saved last. */
  lemma {:induction false} CleanIsTrusted(file: string, rows: int, keys: seq<Key>)
    requires KeysOk(keys)
    ensures var s := Run(Opened(file, rows), keys); !s.dirty ==> Loaded(Trusted(file, rows, keys)) == s.doc.lines
    decreases |keys|
  {
    if keys != [] {
      var front := keys[..|keys| - 1];
      SessionInBounds(file, rows, front);
      CleanIsTrusted(file, rows, front);
      PressKeepsTrust(Run(Opened(file, rows), front), keys[|keys| - 1], Trusted(file, rows, front));
    }
  }

  /** In any session: a clean buffer is what the file holds exactly when the file still holds what the editor
    * read or saved last, line by line. */
  lemma SessionIsHonest(file: string, rows: int, keys: seq<Key>)
    requires KeysOk(keys)
    ensures var s := Run(Opened(file, rows), keys);
            && InBounds(s.doc)
            && (!s.dirty ==> (Loaded(s.file) == s.doc.lines <==> Loaded(s.file) == Loaded(Trusted(file, rows, keys))))
  {
    SessionInBounds(file, rows, keys);
    CleanIsTrusted(file, rows, keys);
  }

  /** No save was refused since the file was opened or last saved. */
  predicate Undisturbed(keys: seq<Key>)
    decreases |keys|
  {
    keys == [] || keys[|keys| - 1] == SaveKey(Accepted)
    || (!keys[|keys| - 1].SaveKey? && Undisturbed(keys[..|keys| - 1]))
  }

  /** Then the file does hold it. */
  lemma {:induction false} UndisturbedIsTrusted(file: string, rows: int, keys: seq<Key>)
    requires KeysOk(keys) && Undisturbed(keys)
    ensures Run(Opened(file, rows), keys).file == Trusted(file, rows, keys)
    decreases |keys|
  {
    if keys != [] {
      var front := keys[..|keys| - 1];
      SessionInBounds(file, rows, front);
      if keys[|keys| - 1] != SaveKey(Accepted) {
        UndisturbedIsTrusted(file, rows, front);
        PressKeepsFile(Run(Opened(file, rows), front), keys[|keys| - 1]);
      }
    }
  }

  lemma PressKeepsFile(s: Session, k: Key)
    requires InBounds(s.doc) && !k.SaveKey?
    ensures Press(s, k).file == s.file
  {
  }

  // ---- what marks a buffer changed, and when a session ends ----

  /** A key that marks the buffer changed: typing, Tab and Enter always, Backspace anywhere but on the line after
    * the last, even where there is nothing to delete, Delete when it deletes something, undo when there is
    * something to undo. */
  ghost predicate Marking(s: Session, k: Key)
    requires s.doc.cy <= |s.doc.lines| && s.doc.cx <= LineLen(s.doc)
  {
    match k
    case EditKey(Backspace) => s.doc.cy < |s.doc.lines|
    case EditKey(Delete) => Apply(s.doc, Delete) != s.doc
    case EditKey(_) => true
    case UndoKey => s.undo != []
    case _ => false
  }

  /** Some key after the last accepted save, if any, marked the buffer. */
  ghost predicate MarkedSinceSave(s: Session, keys: seq<Key>)
    decreases |keys|
  {
    keys != [] &&
    var front, k := keys[..|keys| - 1], keys[|keys| - 1];
    var before := Run(s, front);
    k != SaveKey(Accepted)
    && (MarkedSinceSave(s, front)
        || (before.doc.cy <= |before.doc.lines| && before.doc.cx <= LineLen(before.doc) && Marking(before, k)))
  }

  /** Some Ctrl+Q after the last accepted save, if any, found the buffer changed. */
  ghost predicate AskedSinceSave(s: Session, keys: seq<Key>)
    decreases |keys|
  {
    keys != [] &&
    var front, k := keys[..|keys| - 1], keys[|keys| - 1];
    k != SaveKey(Accepted) && (AskedSinceSave(s, front) || (k.QuitKey? && MarkedSinceSave(s, front)))
  }

  /** Some Ctrl+Q found the buffer unchanged, or had been asked about since the last accepted save. */
  ghost predicate Ended(s: Session, keys: seq<Key>)
    decreases |keys|
  {
    keys != [] &&
    var front, k := keys[..|keys| - 1], keys[|keys| - 1];
    Ended(s, front) || (k.QuitKey? && (!MarkedSinceSave(s, front) || AskedSinceSave(s, front)))
  }

  lemma DirtiesIsMarking(s: Session, e: Edit)
    requires InBounds(s.doc)
    ensures Dirties(s.doc, e) <==> Marking(s, EditKey(e))
  {
    if e == Delete && Dirties(s.doc, e) {
      DeletesSomething(s.doc);
    }
  }

  lemma DeletesSomething(d: Doc)
    requires InBounds(d) && d.cy < |d.lines| && (d.cx < |d.lines[d.cy]| || d.cy < |d.lines| - 1)
    ensures DeleteForward(d) != d
  {
    if d.cx < |d.lines[d.cy]| {
      assert |DeleteForward(d).lines[d.cy]| == |d.lines[d.cy]| - 1;
    } else {
      assert |DeleteForward(d).lines| == |d.lines| - 1;
    }
  }

  lemma PressMarks(s: Session, k: Key)
    requires InBounds(s.doc)
    ensures Press(s, k).dirty <==> k != SaveKey(Accepted) && (s.dirty || Marking(s, k))
  {
    match k
    case EditKey(e) => DirtiesIsMarking(s, e);
    case _ =>
  }

  lemma PressAsks(s: Session, k: Key)
    requires InBounds(s.doc) && s.quitConfirm <= 1
    ensures Press(s, k).quitConfirm
         == if k == SaveKey(Accepted) then 1 else if k.QuitKey? && s.dirty then 0 else s.quitConfirm
    ensures Press(s, k).quit <==> s.quit || (k.QuitKey? && (!s.dirty || s.quitConfirm == 0))
  {
  }

  /** Over any session: the buffer counts as changed exactly when a key since the last accepted save marked it, the
    * question has been asked exactly when a Ctrl+Q since then found it changed, and the session ends with the
    * first Ctrl+Q that finds the buffer unchanged or the question asked. */
  lemma {:induction false} SessionExact(file: string, rows: int, keys: seq<Key>)
    requires KeysOk(keys)
    ensures var o := Opened(file, rows);
            var s := Run(o, keys);
            && (s.dirty <==> MarkedSinceSave(o, keys))
            && s.quitConfirm == (if AskedSinceSave(o, keys) then 0 else 1)
            && (s.quit <==> Ended(o, keys))
    decreases |keys|
  {
    if keys != [] {
      var front, k := keys[..|keys| - 1], keys[|keys| - 1];
      SessionInBounds(file, rows, front);
      SessionExact(file, rows, front);
      PressMarks(Run(Opened(file, rows), front), k);
      PressAsks(Run(Opened(file, rows), front), k);
    }
  }

  /** An accepted save leaves the buffer clean, the file holding it, and the question to be asked again. */
  lemma SaveCleans(file: string, rows: int, keys: seq<Key>)
    requires KeysOk(keys)
    ensures var s := Run(Opened(file, rows), keys);
            var s' := Run(Opened(file, rows), keys + [SaveKey(Accepted)]);
            !s'.dirty && s'.quitConfirm == 1 && s'.doc == s.doc && Loaded(s'.file) == s.doc.lines
  {
    SessionInBounds(file, rows, keys);
    RunSnoc(Opened(file, rows), keys, SaveKey(Accepted));
    LoadedSerialized(Run(Opened(file, rows), keys).doc.lines);
  }

  /** Two Ctrl+Q in a row end any session; one does when the buffer is clean or the question was asked. */
  lemma SecondQuitEnds(file: string, rows: int, keys: seq<Key>)
    requires KeysOk(keys)
    ensures var o := Opened(file, rows);
            && Run(o, keys + [QuitKey, QuitKey]).quit
            && (!Run(o, keys).quit ==>
                 (Run(o, keys + [QuitKey]).quit <==> !Run(o, keys).dirty || AskedSinceSave(o, keys)))
  {
    var o := Opened(file, rows);
    SessionInBounds(file, rows, keys);
    SessionExact(file, rows, keys);
    RunSnoc(o, keys, QuitKey);
    RunSnoc(o, keys + [QuitKey], QuitKey);
    assert keys + [QuitKey, QuitKey] == keys + [QuitKey] + [QuitKey];
  }

  function QuitPresses(keys: seq<Key>): nat {
    if keys == [] then 0
    else QuitPresses(keys[..|keys| - 1]) + (if keys[|keys| - 1].QuitKey? then 1 else 0)
  }

  lemma {:induction false} NotAsked(s: Session, keys: seq<Key>)
    requires QuitPresses(keys) == 0
    ensures !AskedSinceSave(s, keys) && !Ended(s, keys)
    decreases |keys|
  {
    if keys != [] {
      NotAsked(s, keys[..|keys| - 1]);
    }
  }

  /** The first Ctrl+Q ends the session exactly when the buffer is clean; the file then holds the buffer
    * exactly when it still holds what the editor read or saved last, and it does if no save was refused since. */
  lemma FirstQuitExact(file: string, rows: int, keys: seq<Key>, s: Session)
    requires KeysOk(keys) && QuitPresses(keys) == 0 && s == Run(Opened(file, rows), keys)
    ensures InBounds(s.doc) && !s.quit && (Press(s, QuitKey).quit <==> !s.dirty)
    ensures !s.dirty ==> (Loaded(s.file) == s.doc.lines <==> Loaded(s.file) == Loaded(Trusted(file, rows, keys)))
    ensures !s.dirty && Undisturbed(keys) ==> Loaded(s.file) == s.doc.lines
  {
    SessionExact(file, rows, keys);
    NotAsked(Opened(file, rows), keys);
    SessionIsHonest(file, rows, keys);
    if Undisturbed(keys) {
      UndisturbedIsTrusted(file, rows, keys);
    }
  }

  /** How it is lost: the file is opened, saved unchanged, the save is refused half-way, and Ctrl+Q asks nothing. */
  lemma RefusedSaveLoses(file: string, left: string, rows: int)
    requires Loaded(left) != Loaded(file)
    ensures var s := Run(Opened(file, rows), [SaveKey(Refused(left))]);
            InBounds(s.doc) && Press(s, QuitKey).quit && Loaded(s.file) != s.doc.lines
  {
    var o, k := Opened(file, rows), SaveKey(Refused(left));
    OpenedRefines(file, rows);
    assert [] + [k] == [k];
    RunSnoc(o, [], k);
    RefusedThenQuit(o, left);
  }

  lemma RefusedThenQuit(s: Session, left: string)
    requires InBounds(s.doc) && !s.dirty && Loaded(left) != s.doc.lines
    ensures var s' := Press(s, SaveKey(Refused(left)));
            InBounds(s'.doc) && Press(s', QuitKey).quit && Loaded(s'.file) != s'.doc.lines
  {
  }
}
