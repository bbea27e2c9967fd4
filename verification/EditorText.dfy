/** The text an array of lines stands for, and its two serialised forms (shell/editor.c). */
module EditorText {

  /** No line holds a newline. */
  ghost predicate Clean(lines: seq<string>) {
    forall k | 0 <= k < |lines| :: '\n' !in lines[k]
  }

  /** Every line followed by a newline: what is saved, and what an undo snapshot holds. */
  function Serialized(lines: seq<string>): string {
    if lines == [] then "" else lines[0] + "\n" + Serialized(lines[1..])
  }

  /** Every line preceded by a newline. */
  function Tail(lines: seq<string>): string {
    if lines == [] then "" else "\n" + lines[0] + Tail(lines[1..])
  }

  /** The lines joined by newlines. */
  function Join(lines: seq<string>): string
    requires lines != []
  {
    lines[0] + Tail(lines[1..])
  }

  /** Index of the first newline, or the length. */
  function NewlineAt(text: string): (n: nat)
    ensures n <= |text| && (n < |text| ==> text[n] == '\n')
    ensures forall k | 0 <= k < n :: text[k] != '\n'
  {
    if text == "" || text[0] == '\n' then 0 else 1 + NewlineAt(text[1..])
  }

  /** What follows the first newline. */
  function AfterNewline(text: string): string {
    if NewlineAt(text) < |text| then text[NewlineAt(text) + 1..] else ""
  }

  /** The memchr loops of loading and of undo: a final newline opens no further line. */
  function Split(text: string): seq<string>
    decreases |text|
  {
    if text == "" then [] else [text[..NewlineAt(text)]] + Split(AfterNewline(text))
  }

  /** The lines of a loaded text: at least one. */
  function Loaded(text: string): seq<string> {
    if Split(text) == [] then [""] else Split(text)
  }

  lemma {:induction false} SerializedConcat(a: seq<string>, b: seq<string>)
    ensures Serialized(a + b) == Serialized(a) + Serialized(b)
  {
    if a == [] {
      assert a + b == b;
    } else {
      assert (a + b)[1..] == a[1..] + b;
      SerializedConcat(a[1..], b);
    }
  }

  lemma SerializedNext(lines: seq<string>, k: nat)
    requires k < |lines|
    ensures Serialized(lines[..k + 1]) == Serialized(lines[..k]) + lines[k] + "\n"
  {
    assert lines[..k + 1] == lines[..k] + [lines[k]];
    SerializedConcat(lines[..k], [lines[k]]);
    assert Serialized([lines[k]]) == lines[k] + "\n";
  }

  lemma {:induction false} TailConcat(a: seq<string>, b: seq<string>)
    ensures Tail(a + b) == Tail(a) + Tail(b)
  {
    if a == [] {
      assert a + b == b;
    } else {
      assert (a + b)[1..] == a[1..] + b;
      TailConcat(a[1..], b);
    }
  }

  /** The text around line k. */
  lemma {:induction false} JoinAt(before: seq<string>, line: string, after: seq<string>)
    ensures Join(before + [line] + after) == Serialized(before) + line + Tail(after)
  {
    var lines := before + [line] + after;
    if before == [] {
      assert lines[1..] == after;
    } else {
      var rest := before[1..] + [line] + after;
      assert lines[1..] == rest;
      JoinAt(before[1..], line, after);
      assert Tail(rest) == "\n" + Join(rest);
      assert Join(lines) == before[0] + ("\n" + Join(rest));
    }
  }

  /** Saving adds the last newline. */
  lemma SerializedIsJoin(lines: seq<string>)
    requires lines != []
    ensures Serialized(lines) == Join(lines) + "\n"
  {
    var n := |lines| - 1;
    assert lines == lines[..n] + [lines[n]] + [];
    JoinAt(lines[..n], lines[n], []);
    SerializedNext(lines, n);
    assert lines[..n + 1] == lines;
  }

  lemma {:induction false} NewlineOf(line: string, rest: string)
    requires '\n' !in line && (rest == "" || rest[0] == '\n')
    ensures NewlineAt(line + rest) == |line|
  {
    if line == "" {
      assert line + rest == rest;
    } else {
      assert (line + rest)[1..] == line[1..] + rest;
      NewlineOf(line[1..], rest);
    }
  }

  /** Reading back what was serialised gives the same lines. */
  lemma {:induction false} SplitSerialized(lines: seq<string>)
    requires Clean(lines)
    ensures Split(Serialized(lines)) == lines
  {
    if lines != [] {
      var rest := Serialized(lines[1..]);
      NewlineOf(lines[0], "\n" + rest);
      assert lines[0] + "\n" + rest == lines[0] + ("\n" + rest);
      SplitSerialized(lines[1..]);
    }
  }

  lemma {:induction false} SplitIsClean(text: string)
    ensures Clean(Split(text))
    decreases |text|
  {
    if text != "" {
      SplitIsClean(AfterNewline(text));
    }
  }

  lemma SerializedCons(line: string, rest: seq<string>)
    ensures Serialized([line] + rest) == line + "\n" + Serialized(rest)
  {
    assert ([line] + rest)[1..] == rest;
  }

  /** A text with one newline at most, at its end. */
  lemma LoadedOne(text: string)
    requires text == "" || NewlineAt(text) >= |text| - 1
    ensures Loaded(text) == [text[..NewlineAt(text)]]
  {
    if text != "" {
      assert Split(AfterNewline(text)) == [];
    }
  }

  lemma CutLine(text: string)
    requires NewlineAt(text) < |text|
    ensures text == text[..NewlineAt(text)] + "\n" + AfterNewline(text)
  {
    CutAt(text, NewlineAt(text));
  }

  lemma CutAt(text: string, n: nat)
    requires n < |text|
    ensures text == text[..n] + [text[n]] + text[n + 1..]
  {
  }

  lemma LoadedMore(text: string)
    requires NewlineAt(text) < |text| - 1
    ensures AfterNewline(text) != "" && Loaded(text) == [text[..NewlineAt(text)]] + Loaded(AfterNewline(text))
  {
  }

  /** What saving a freshly loaded text writes: the text itself if it ends with a newline, otherwise
    * the text with one added. */
  lemma {:induction false} SaveAfterLoad(text: string)
    ensures Serialized(Loaded(text)) == if EndsWithNewline(text) then text else text + "\n"
    decreases |text|
  {
    var line, rest := text[..NewlineAt(text)], AfterNewline(text);
    if NewlineAt(text) < |text| - 1 {
      CutLine(text);
      LoadedMore(text);
      SerializedCons(line, Loaded(rest));
      SaveAfterLoad(rest);
      SameEnd(line + "\n", rest);
    } else {
      LoadedOne(text);
      SerializedCons(line, []);
    }
  }

  predicate EndsWithNewline(text: string) {
    text != "" && text[|text| - 1] == '\n'
  }

  lemma SameEnd(a: string, b: string)
    requires b != ""
    ensures EndsWithNewline(a + b) == EndsWithNewline(b) && a + (b + "\n") == (a + b) + "\n"
  {
  }
}
